# Verified model of the search engine

A Dafny 4.11 model of the inverted-index pipeline and of the query evaluation on it. `dafny verify dfyconfig.toml`
checks the whole project.

| file | models |
|---|---|
| `IndexTypes.dfy`, `Sorting.dfy` | the stored records; the library sorts as one stable sort |
| `IndexSpec.dfy`, `HitSpec.dfy`, `FoldSpec.dfy`, `FlushSpec.dfy` | what the index, the hit file and the flushed files of a document list are, and the reasoning about one `finish_obj` and one `flush` |
| `IndexMaker.dfy` | the builder: growable entry buffer, term map and term array sharing mutable term records, posting chains, `flush` |
| `BriefFile.dfy`, `IndexData.dfy` | the brief file framing, loading an index, the unsigned binary search |
| `CursorHeap.dfy`, `Merge.dfy`, `Ranking.dfy`, `Filters.dfy`, `Bs.dfy` | the max-heap with keys outside it, the k-way merge, weights and order, the filters, the search |
| `Answer.dfy`, `Limits.dfy`, `EndToEnd.dfy` | the naive search over the documents, inputs on which the search falls short, and the proof that build, flush, load and search give its answer |
| `IndexManager.dfy` | the double-buffered index switch as a state machine |
| `CatalogSpec.dfy`, `Catalog.dfy` | the catalog file as a relation; the reader with its objects, maps and ranges |
| `Query.dfy` | the in-place query normaliser and the splitter |
| `MakeIndex.dfy` | the line loop of the builder program |

Main results:

- **Search equals the naive scan.** `EndToEnd.BuildAndSearch` and `Answer.SearchIsAnswer`: the ids returned are those of
  the documents that contain a loaded token and pass the filters, ranked by summed weight and then by document number.
  This is exact below 760 survivors; from 760 on the survivors with the 760 highest numbers are ranked, the last of them
  with one token's contribution only. `Answer.AnswerIs` says this in elementary terms. `Answer.OneTokenIsFull` says when even that weight is exact, and
  `Answer.RankingExact` when the order is. It holds for any serialiser, and for catalog files in any order of lines as long
  as the names looked up can be searched; `EndToEnd.SomethingToBuild` gives an input that meets the demands and yields an
  index.
- **A document contains what its line says** (`IndexMaker.IndexMaker.AddField`, `MakeIndex.LineContains`,
  `MakeIndex.LineBriefIs`, `MakeIndex.AcceptedLines`).
- **The builder computes the index of its documents** over any run (`IndexMaker.IndexMaker.FinishObj`, `Flush`), the
  runs of hits partition the hit file, and the runs of postings partition the index file.
- **A search reads one fixed index** over every interleaving with the updater (`IndexManager.SearchReadsOneIndex`,
  `IndexManager.PrepareToClean`).
- **Catalog lookup agrees with the catalog file** (`Catalog.CatalogDataReader.Load`, `GetCatalogId`, and `GetId` at every
  level).
- **The unsigned binary search** is right up to 2^31 terms and for some sign never ends beyond (`IndexData.EndsExactly`).
- **Normalising and splitting a query yields its words** (`Query.SplitNormalized`).

Places where the code does less than its purpose suggests, with the exact conditions and with inputs that show it:

- The 760th object is appended and the merge stops, so the other cursors at that document are never added
  (`Ranking.RecallIsScan`, `Answer.OneTokenIsFull`). The 760 are still in the right order exactly if no other weight lies
  between the one counted and the full one (`Answer.RankingExact`). In `Limits.BestComesLast` the document that should come
  first comes last.
- `hit_info.num` has eleven bits; `Answer.WrappedCount` says when the wrap changes what a term adds, `Answer.PlainScanExact`
  when it changes the weight of any survivor, and in `Limits.WrapLosesWeight` the 2048th hit in one field does.
- `finish_obj` starts with `last_sign` 0, so a posting under sign 0 records location 0 (`HitSpec.PostingLocation`,
  `HitSpec.ZeroSignMisplaced`).
- `get_catalog_id` takes list position 0 for "not found"; with positive ids and a two-level file with any child, one child
  is always there (`CatalogSpec.CatalogIdIs`, `CatalogSpec.FirstIsChild`).
- A top-level catalog without children keeps the range {-1, -1}, and a search below it probes list position -2. So does one
  whose line comes behind a line of its children: they hang on a stand-in that is not on the list. The first probe is
  inside the list exactly when there is a child and the catalog's line comes before the first one
  (`Catalog.CatalogDataReader.FirstProbe`; `CatalogSpec.LateParent` is a file in which it does not). A lookup demands this of
  the catalogs it searches, and of no others.
- `normalize_query` reads the character at index -1 when the query starts with whitespace; the model takes an arbitrary
  character there. `Query.SplitIsWords` says when the words come out, and `Query.EmptyItemFirst` is the smallest query
  for which they do not.
- `locate_term` ends for every sign exactly up to 2^31 terms (`IndexData.EndsExactly`); beyond, a search for a sign above
  all entries reaches a wrapped midpoint (`IndexData.WrapIsReached`).
- A torn length at the end of the brief file counts as its end (`BriefFile.Truncation`, `BriefFile.TornLength`).
- Pinning an index must be one step; `IndexManager.LatePinSafe` says when a later increment is harmless and
  `IndexManager.GetMustBeAtomic` gives a run in which it is not.

Conventions: weights are counted in tenths (`10 + min(5, fields * hits)` per matched token). Pointers into the fixed term
array are indices, `_obj_num` and lengths are unbounded naturals, a (file number, offset) pair is one position in a record log,
and a chain of posting nodes is an immutable list because a node is never written after it is linked in. The methods between
`FinishObj` and `PrependPosting` are the body of one function of the source, cut up so that each piece has its own contract;
so are those behind `ParseTop`, `ParseChild`, `LoadIndex` and `NormalizeQuery`. The model admits any serialiser. So it covers
a brief of 2^31 bytes or more, which `SerializeToString` refuses, and one that serialises to nothing, which this program never
writes because it sets five fields of every brief (makeindex/makeindex.cpp:156-213, proto/brief.proto:3-10): the length of
such a brief would be out before its line is rejected, and the file would not load (`BriefFile.SpoiledFails`).

## Model

| member | source | states |
|---|---|---|
| IndexTypes.ClearLowestBit | se/bs/bs.cpp:224-227 | clearing the lowest set bit removes exactly one field |
| IndexTypes.CountFields | se/bs/bs.cpp:222-227 | the bit-clearing loop counts exactly the fields in the set |
| IndexSpec.SortEntriesSorted | makeindex/index_maker.cpp:261-275 | sorted entries ascend by sign, then field, then field number, then offset; equal signs are adjacent |
| IndexSpec.SortKeepsCounts | makeindex/index_maker.cpp:283-286 | what a document says about a term (hits, union of fields, entries with smaller signs) does not depend on entry order |
| IndexSpec.PostingsDescending | makeindex/index_maker.cpp:311-317 | every posting list is strictly descending in the document number and names only finished documents |
| IndexSpec.PostingsNonEmpty | makeindex/index_maker.cpp:176-195 | a sign has postings exactly when some document contains it |
| IndexSpec.PostingOfDoc | makeindex/index_maker.cpp:295-369 | document d has a posting under s exactly when s occurs in d, with the union of its fields, its hit count modulo 2048 and the position where its hits start (0 for sign 0) |
| IndexSpec.CountIs | makeindex/index_maker.cpp:337-351 | the hits of a term are counted once per entry with its sign |
| IndexSpec.FieldsIs | makeindex/index_maker.cpp:327 | a field bit is set for a term exactly when an entry with its sign has it |
| HitSpec.HitRunContents | makeindex/index_maker.cpp:334-353 | the hits of a (document, sign) pair are one contiguous run, in sorted order |
| HitSpec.HitRunMeans | makeindex/index_maker.cpp:334-353 | every hit in it comes from an entry with that sign, with its field and its offset cut to a byte, and the fields ascend |
| HitSpec.PostingLocation | makeindex/index_maker.cpp:292-353 | a posting points at its run exactly when the sign is not 0 or the run starts the file |
| HitSpec.ZeroSignMisplaced | makeindex/index_maker.cpp:292-353 | two documents with one hit each, the second under sign 0: its posting points at the other hit |
| HitSpec.HitRunsCover | makeindex/index_maker.cpp:334-353 | every hit lies in the run of some (document, sign) |
| HitSpec.HitRunsDisjoint | makeindex/index_maker.cpp:334-353 | no hit lies in two runs |
| FoldSpec.FoldStep | makeindex/index_maker.cpp:297-356 | one round of the loop takes the state after i entries to the state after i + 1 |
| FoldSpec.NodeComplete | makeindex/index_maker.cpp:305-317 | when a run of equal signs ends, the node under construction is the posting of that sign |
| FoldSpec.ListAfterStep | makeindex/index_maker.cpp:306-317 | linking in the last run's node changes the list of that sign only |
| FlushSpec.LaidPartition | makeindex/index_maker.cpp:389-418 | every posting of the index file belongs to the run of exactly one term |
| FlushSpec.TermCount | makeindex/index_maker.cpp:384-423 | the term file has one record for every distinct sign of the documents |
| FlushSpec.WrittenStep | makeindex/index_maker.cpp:389-419 | writing one more list leaves all earlier runs as they were |
| FlushSpec.WrittenAll | makeindex/index_maker.cpp:382-424 | after all lists are out, the files hold exactly the lists of the documents, by ascending sign |
| IndexMaker.IndexMaker.constructor | makeindex/index_maker.cpp:32-42 | an empty builder |
| IndexMaker.IndexMaker.StartObj | makeindex/index_maker.cpp:171-174 | entries of an abandoned document are dropped, the index stays as it was |
| IndexMaker.IndexMaker.GetTermInfo | makeindex/index_maker.cpp:176-195 | the record of a sign, created once; the array keeps enumerating the values of the map without repeats |
| IndexMaker.IndexMaker.PrependPosting | makeindex/index_maker.cpp:306-317 | the posting goes in front of its sign's list, all other lists and every count are kept |
| IndexMaker.IndexMaker.AddIndexInfo | makeindex/index_maker.cpp:197-220 | reserves the next slot; through every regrowth the earlier entries stay |
| IndexMaker.IndexMaker.AddField | makeindex/index_maker.cpp:222-259 | for every sign, the count grows by the number of tokens with that sign and the fields gain that field if there is one; an unknown field or a failed segmentation changes nothing |
| IndexMaker.IndexMaker.AddEntries | makeindex/index_maker.cpp:246-256 | the loop appends exactly the tokens of the field, in order |
| IndexMaker.FieldSigns | makeindex/index_maker.cpp:246-256 | the entries of one field have a sign as often as its tokens have, all with that field |
| IndexMaker.FieldAdded | makeindex/index_maker.cpp:246-256 | what a document says about any sign after one more field |
| IndexMaker.IndexMaker.SortBuffer | makeindex/index_maker.cpp:283-286 | the buffer is sorted in place |
| IndexMaker.IndexMaker.AddHit | makeindex/index_maker.cpp:327-353 | writes one hit and counts it, starting a run where the sign changes |
| IndexMaker.IndexMaker.LinkRun | makeindex/index_maker.cpp:306-317 | the lists in memory become those with one more run linked in |
| IndexMaker.IndexMaker.OpenPosting | makeindex/index_maker.cpp:297-325 | a new node is opened exactly where a run starts, after the previous run is linked in |
| IndexMaker.IndexMaker.FoldEntry | makeindex/index_maker.cpp:295-357 | one round keeps the loop invariant of finish_obj |
| IndexMaker.IndexMaker.FoldBuffer | makeindex/index_maker.cpp:287-357 | after the loop only the last run is still open |
| IndexMaker.IndexMaker.CloseFold | makeindex/index_maker.cpp:358-371 | the last run is linked in and the document counted |
| IndexMaker.IndexMaker.FinishObj | makeindex/index_maker.cpp:277-373 | the lists, the map, the array, the counts and the hit file become those of the documents with the new one appended, also when it has no tokens |
| IndexMaker.IndexMaker.SortTerms | makeindex/index_maker.cpp:375-382 | the same records, now by strictly ascending sign |
| IndexMaker.IndexMaker.WriteList | makeindex/index_maker.cpp:385-409 | a list is written contiguously, in order, and counted |
| IndexMaker.IndexMaker.FlushTerm | makeindex/index_maker.cpp:384-423 | one term record for one list; the count mismatch exit is not taken |
| IndexMaker.IndexMaker.Flush | makeindex/index_maker.cpp:379-429 | the flushed files hold exactly the posting lists of the documents, and flush returns 0 |
| CursorHeap.RootGreatest | se/bs/heap.hpp:12-18 | the root of a heap carries a greatest key |
| CursorHeap.Heap.Push | se/bs/heap.hpp:6-10 | adds one element to the multiset and keeps the heap order |
| CursorHeap.Heap.Pop | se/bs/heap.hpp:12-18 | removes exactly one element, with a greatest current key, and keeps the heap order |
| BriefFile.LoadBrief | index/index_data.cpp:130-169 | the loop delivers exactly the records of the stream, or fails where one is oversized, torn or unparsable |
| BriefFile.ParseFrames | makeindex/makeindex.cpp:130-142 | whole records in front of anything are read as they were written |
| BriefFile.BriefRoundTrip | makeindex/makeindex.cpp:130-142 | loading what write_brief wrote gives the same briefs in order exactly when none exceeds 102400 bytes, and fails otherwise |
| BriefFile.Truncation | index/index_data.cpp:131-149 | a file cut inside a length loads as a prefix, one cut inside a record fails |
| BriefFile.TruncationPoint | index/index_data.cpp:131-149 | every cut is of one of these forms |
| BriefFile.TornLength | index/index_data.cpp:131-149 | a one-record file cut inside its length loads as an empty list |
| BriefFile.SpoiledFails | index/index_data.cpp:131-169 | a file with the length of an empty record in it does not load |
| BriefFile.InverseExists | makeindex/makeindex.cpp:130-142 | the written briefs can be parsed back exactly when no two of them serialise alike |
| BriefFile.SizeRoundTrip | makeindex/makeindex.cpp:134-137 | the four length bytes read back as the length |
| BriefFile.SizeDigits | makeindex/makeindex.cpp:134-137 | the length is written in base 256, lowest byte first, and read back as a signed 32-bit number |
| BriefFile.ParseFrame | index/index_data.cpp:131-160 | one record is read, or the load fails, and the load goes on behind it |
| BriefFile.NegativeSize | index/index_data.cpp:145-149 | a negative length fails |
| IndexData.EndsExactly | index/index_data.cpp:181-200 | the search ends for every sign exactly when the table has at most 2^31 terms |
| IndexData.NeverEnds | index/index_data.cpp:181-200 | beyond that a search for a sign above all entries goes on for ever |
| IndexData.WrapIsReached | index/index_data.cpp:186-187 | it reaches a round whose 32-bit midpoint lies below both bounds |
| IndexData.IndexData.Load | index/index_data.cpp:172-179 | fails for an empty term file (so a loaded table is never empty) and for a bad brief file |
| IndexData.IndexData.LocateTerm | index/index_data.cpp:181-200 | up to 2^31 terms it returns the entry with the sign exactly if there is one, and is the search whose rounds the lemmas describe |
| Ranking.ListWeightIs | se/bs/bs.cpp:222-230 | a document gets exactly its own posting's contribution from a descending list |
| Ranking.AdvanceFrontier | se/bs/bs.cpp:249-265 | popping the greatest head leaves only smaller or equal documents ahead and greater or equal ones behind |
| Ranking.CollectStep | se/bs/bs.cpp:252-260 | one popped posting keeps the objects equal to the kept documents passed so far, with their sums |
| Ranking.MergeResult | se/bs/bs.cpp:248-266 | when the loop stops, every object but the 760th has its full sum and none is missing above the last one |
| Ranking.ScanCollects | se/bs/bs.cpp:237-271 | the naive scan lists exactly the kept documents of the lists, descending, with full weights |
| Ranking.RecallIsScan | se/bs/bs.cpp:237-266 | the merge equals the naive scan below 760 survivors, and its first 760 up to the last weight otherwise |
| Ranking.LastWeightExact | se/bs/bs.cpp:248-260 | one list's contribution is the full weight exactly when no other list contains the document |
| Ranking.SortRanks | se/bs/bs.cpp:233-235 | the stable sort orders by weight and then by document number, both descending |
| Ranking.RankingUnique | se/bs/bs.cpp:267-269 | that order determines the output |
| Ranking.ContributionGrows | se/bs/bs.cpp:222-230 | what a term adds: one without hits, a tenth per further field hit up to five, and one and a half from there on |
| Merge.PoppedGreatest | se/bs/bs.cpp:35-40 | the popped cursor points at the greatest document of all heads |
| Merge.SteppedRuns | se/bs/bs.cpp:262-265 | advancing a cursor consumes exactly its next posting |
| Merge.SteppedHeap | se/bs/bs.cpp:262-265 | no cursor inside the heap changes its key; the active cursors are each in the heap once |
| Merge.NothingAhead | se/bs/bs.cpp:248 | an empty heap means every posting has been consumed |
| Filters.NumericFilterDrops | se/bs/bs.cpp:150-164 | drops a brief exactly when a type or catalog filter excludes it |
| Filters.NumericOkIs | se/bs/bs.cpp:150-164 | "type" bounds the type, "catalog" the catalog id, no other name bounds anything |
| Filters.KnownTagsAre | se/bs/bs.cpp:99-105 | the ids wanted are those of the known names, one for each filter that has it |
| Filters.CoveredIsInclusion | se/bs/bs.cpp:166-188 | on sorted sides the two-pointer walk decides multiset inclusion |
| Filters.TagFilterDrops | se/bs/bs.cpp:166-188 | drops a brief exactly when it lacks a requested known tag, counted with multiplicity |
| Bs.MemoVerdict | se/bs/bs.cpp:246-259 | the two memo variables give the verdict of filt, also for the marker value |
| Bs.MergeStep | se/bs/bs.cpp:249-265 | one round keeps every part of the merge invariant and consumes a posting |
| Bs.MergeStart | se/bs/bs.cpp:243-247 | the invariant holds before the loop |
| Bs.LoadStep | se/bs/bs.cpp:120-137 | a located token appends its posting list to the merge |
| Bs.ThreadData.Prepare | se/bs/bs.cpp:86-107 | the search starts empty, with the known requested tags sorted |
| Bs.ThreadData.LoadToken | se/bs/bs.cpp:120-137 | a token that has postings gets the next cursor, any other none |
| Bs.ThreadData.LoadIndex | se/bs/bs.cpp:113-148 | one cursor for every non-empty indexed token among the first fifteen, over exactly its posting list |
| Bs.ThreadData.Filt | se/bs/bs.cpp:190-205 | drops a document exactly when it has no brief or a filter drops it |
| Bs.ThreadData.AddObj | se/bs/bs.cpp:207-231 | appends a new document or adds to the current one |
| Bs.ThreadData.Advance | se/bs/bs.cpp:261-265 | the cursor moves on and the heap holds the active cursors again |
| Bs.ThreadData.Round | se/bs/bs.cpp:248-266 | one round keeps the merge invariant, the memo and the cap of 760, and decreases what is ahead |
| Bs.ThreadData.MergeAll | se/bs/bs.cpp:246-266 | the loop terminates with the recall of the lists |
| Bs.ThreadData.Recall | se/bs/bs.cpp:237-271 | the sorted recall of the query's lists |
| Bs.ThreadData.CopyResult | se/bs/bs.cpp:277-282 | one id an object, in order, that of its brief; no error |
| Bs.ThreadData.BasicSearch | se/bs/bs.cpp:284-294 | from a query to the ids of its ranked recall, without error |
| Answer.PostingsWeight | makeindex/index_maker.cpp:327-353 | a posting list weighs a document by what the document itself says about the term |
| Answer.LoadedWeight | se/bs/bs.cpp:120-137 | the loaded lists weigh a document by the sum over the query's tokens |
| Answer.FlushedOk | makeindex/index_maker.cpp:379-429 | what flush writes is an index the searcher can work on |
| Answer.ScanIsNaive | se/bs/bs.cpp:237-271 | the scan of the lists is the naive scan of the documents |
| Answer.SearchIsAnswer | se/bs/bs.cpp:284-294 | what the search returns on a flushed index is the answer computed from the documents |
| Answer.AnswerIs | se/bs/bs.cpp:207-282 | the answer spelled out: the k-th id is that of the brief of the k-th ranked document; ranked are the survivors with fewer than 760 survivors above them; heavier ones first, equal ones by falling document number; the 760th counts one token only |
| Answer.AnswerContains | se/bs/bs.cpp:278-282 | up to 760 survivors, an id is returned exactly if some document that matches and passes has it |
| Answer.ScanIs | se/bs/bs.cpp:237-271 | a document is in the naive scan exactly if it contains a token looked up and passes |
| Answer.PassesIs | se/bs/bs.cpp:150-205 | a brief passes exactly if its type and catalog are within the ranges and it has every known tag asked for, as often as it is asked for |
| Answer.EmptyToken | se/bs/bs.cpp:122-124 | an empty token adds nothing |
| Answer.TokenOrderIrrelevant | se/bs/bs.cpp:230 | the weight of a document does not depend on the order of the tokens |
| Answer.TokenOrderAnswer | se/bs/bs.cpp:113-148 | rearranging at most fifteen tokens leaves the whole output unchanged below 760 survivors |
| Answer.MatchBounds | se/bs/bs.cpp:228-230 | each matched token adds between one and one and a half |
| Answer.MoreMatchesFirst | se/bs/bs.cpp:267-269 | a document matching k tokens precedes one matching m whenever 2k > 3m |
| Answer.MoreHitsFirst | se/bs/bs.cpp:222-230 | for a query of one token, of two documents the one with more field hits comes first, unless both have five or more |
| Answer.OneTokenIsFull | se/bs/bs.cpp:248-260 | one token's contribution is a document's full weight exactly when no other token of the query matches it |
| Answer.LastMatchExact | se/bs/bs.cpp:237-271 | whatever the ids, the 760 highest are ranked by their full weights if the last of them matches one token only |
| Answer.RankingExact | se/bs/bs.cpp:237-271 | with distinct ids and 760 or more survivors, every possible answer ranks the 760 highest by their full weights exactly if no other weight lies between the last one's full weight and what a matching token adds to it |
| Ranking.SortLast | se/bs/bs.cpp:233-269 | the document with the lowest number is ranked behind all that weigh no less |
| Ranking.LowerLast | se/bs/bs.cpp:248-269 | lowering its weight keeps the order exactly if no other weight lies between the old and the new one |
| Answer.WrappedCount | include/struct.h:20-25 | the eleven-bit count changes a weight exactly when it wraps to fewer than five field hits |
| Answer.PlainScanExact | include/struct.h:20-25 | all survivors have the weights of their real hit counts exactly if no token of the query is harmed by the wrap in a document that passes the filters |
| Answer.PlainAnswer | include/struct.h:20-25 | and then the answer is the one by the real hit counts |
| Limits.WrapLosesWeight | include/struct.h:20-25 | a document with 2047 hits in one field weighs 1.5, with 2048 it weighs 1 |
| Limits.BestComesLast | se/bs/bs.cpp:248-260 | 760 survivors of which the last matches both tokens: it should come first and comes last |
| IndexManager.InitialInv | se/bs/index_manager.cpp:29-31 | the invariant holds at the start |
| IndexManager.StepInv | se/bs/index_manager.cpp:88-141 | every step of every thread keeps the invariant: counts equal pins, pinned data is neither replaced nor deleted, the claimed slot is unpinned |
| IndexManager.PublishLosesNoRef | se/bs/index_manager.cpp:121 | the reset of the count on publication loses no pin |
| IndexManager.RunKeepsInv | se/bs/index_manager.cpp:88-141 | the invariant holds at every point of every interleaving |
| IndexManager.SearchReadsOneIndex | se/bs/bs.cpp:284-294 | from prepare to clean a search keeps its version, and the object it points at stays alive and unchanged |
| IndexManager.PrepareToClean | se/bs/bs.cpp:284-294 | a search pins what is published when it starts, finds it unchanged when it ends, and its release takes back its own count only |
| IndexManager.GetReadsPublished | se/bs/index_manager.cpp:130-136 | a search gets the published, fully loaded index; nothing exactly before the first publication |
| IndexManager.PublishedForward | se/bs/index_manager.cpp:96-123 | publications only move forward in time, and once there is an index there always is one |
| IndexManager.UpdateProceeds | se/bs/index_manager.cpp:91-103 | update goes on, with the other slot and the time of the file, exactly when the file is newer and nobody searches the old slot; otherwise nothing changes |
| IndexManager.UpdatePublishes | se/bs/index_manager.cpp:112-123 | from there, loading and publishing make the new index the current one |
| IndexManager.UpdateInstalls | se/bs/index_manager.cpp:88-128 | a whole update of a file of time m leaves m as the published time and the new index in the other slot; pins and the index before it stay |
| IndexManager.NothingNewUntilPublish | se/bs/index_manager.cpp:96-98 | until the next publication every update for a file that is no newer changes nothing |
| IndexManager.FailureRetries | se/bs/index_manager.cpp:104-117 | an update that fails leaves what is published alone, and the next one for the same file starts again |
| IndexManager.LatePinSafe | se/bs/index_manager.cpp:130-136 | an increment after the read of the version keeps the invariant exactly when that slot is not claimed and not half loaded |
| IndexManager.GetMustBeAtomic | se/bs/index_manager.cpp:130-136 | a run in which it breaks the invariant |
| CatalogSpec.CatalogOrder | shared/catalog_data_reader.cpp:8-15 | the comparator is total and transitive |
| CatalogSpec.LexLeIs | shared/catalog_data_reader.cpp:8-15 | names are compared at the first character in which they differ, a prefix comes first |
| CatalogSpec.FirstPlace | shared/catalog_data_reader.cpp:8-15 | at list position 0 stands the entry with the greatest parent id and of those the one with the least name |
| CatalogSpec.SortArranges | shared/catalog_data_reader.cpp:44-46 | in the sorted list siblings stand together in strictly ascending name order |
| CatalogSpec.SortKeepsRelation | shared/catalog_data_reader.cpp:46 | sorting keeps the parent and child relation |
| CatalogSpec.PairUnique | shared/catalog_data_reader.cpp:246-257 | a (parent, child) name pair has one list position |
| CatalogSpec.CatalogIdIs | shared/catalog_data_reader.cpp:246-257 | get_catalog_id agrees with the relation exactly off list position 0 |
| CatalogSpec.CatalogIdNone | shared/catalog_data_reader.cpp:246-257 | a pair the file does not list gives -1 |
| CatalogSpec.FirstIsChild | shared/catalog_data_reader.cpp:253-255 | with positive ids, in a two-level file with any child, list position 0 is a child |
| CatalogSpec.ParentsFirst | shared/catalog_data_reader.cpp:110-119 | in a file with every parent before its children, every catalog with a child can be searched |
| CatalogSpec.LateParent | shared/catalog_data_reader.cpp:90-119 | a file with a top-level name and a child of it that cannot be searched |
| CatalogSpec.IdOfTwoLevels | shared/catalog_data_reader.cpp:185-215 | at the level the callers use: an id exactly if the first word naming a top-level catalog has a child named by another position, and then such a child's |
| CatalogSpec.IdOfFirstNamed | shared/catalog_data_reader.cpp:155-215 | which child that is: with word i of n used up, the positions are tried in the order 0 to i-1, n-1, i+1 to n-2, and the first that names a child decides |
| CatalogSpec.LastWordFirst | shared/catalog_data_reader.cpp:199-203 | with "a" the parent of 2 "x" and 3 "y", the words a, x, y give 3 |
| CatalogSpec.IdOfOneLevel | shared/catalog_data_reader.cpp:192-211 | at level 0 the id of the first word that names a top-level catalog |
| CatalogSpec.IdBelowStep | shared/catalog_data_reader.cpp:159-179 | one level down: the first word that names a child gives way to the last one, and the search goes on below that child |
| CatalogSpec.IdBelowNone | shared/catalog_data_reader.cpp:174-175 | no id if no word names a child, and no word is used up |
| CatalogSpec.IdBelowChain | shared/catalog_data_reader.cpp:155-180 | at every level the id ends a chain of catalogs, each the child of the one before, all named by words of the query |
| Catalog.CatalogDataReader.ParseLine | shared/catalog_data_reader.cpp:73-132 | a further well-formed line, in any order of the file, extends the list, both maps and the parent pointers |
| Catalog.CatalogDataReader.ParseTop | shared/catalog_data_reader.cpp:80-104 | the same for a top-level line |
| Catalog.CatalogDataReader.AddTop | shared/catalog_data_reader.cpp:80-104 | the list and the maps after any top-level line; a known id's object is overwritten and nothing else changes |
| Catalog.CatalogDataReader.AddChild | shared/catalog_data_reader.cpp:105-127 | the list and the maps after any other line; an unknown parent gets an object that is not on the list |
| Catalog.CatalogDataReader.ParseChild | shared/catalog_data_reader.cpp:105-127 | the same for a child line |
| Catalog.CatalogDataReader.FindParent | shared/catalog_data_reader.cpp:110-119 | the parent is the known object with that id, or a new one that is not on the list |
| Catalog.CatalogDataReader.ParsedLinks | shared/catalog_data_reader.cpp:110-124 | with every parent before its children, each child points at its parent's listed object |
| Catalog.CatalogDataReader.MappedNew | shared/catalog_data_reader.cpp:88-124 | the object kept under an id is the listed one exactly if its line came before its first child's |
| Catalog.CatalogDataReader.ParentOf | shared/catalog_data_reader.cpp:47-65 | an entry hangs on a listed object exactly if it is its child and the object's line came first |
| Catalog.CatalogDataReader.CountChild | shared/catalog_data_reader.cpp:55-61 | a range grows by the next child or starts at it |
| Catalog.CatalogDataReader.ComputeRanges | shared/catalog_data_reader.cpp:47-65 | every parent gets exactly the range of its children |
| Catalog.CatalogDataReader.Load | shared/catalog_data_reader.cpp:17-71 | a well-formed file leaves the sorted list, the links, the maps and the ranges |
| Catalog.CatalogDataReader.ChildrenRange | shared/catalog_data_reader.cpp:47-65 | the slice of a catalog whose line comes before its first child's is exactly its set of children |
| Catalog.CatalogDataReader.RangesPartition | shared/catalog_data_reader.cpp:47-65 | every entry below the top level lies in the range of its parent, if that can be searched, and of no other |
| Catalog.CatalogDataReader.SiblingsAscend | shared/catalog_data_reader.cpp:8-15 | names ascend strictly inside a range |
| Catalog.CatalogDataReader.BinarySearch | shared/catalog_data_reader.cpp:134-153 | the position of the child with that name, or -1 exactly if there is none |
| Catalog.CatalogDataReader.FirstProbe | shared/catalog_data_reader.cpp:134-142 | the first probe below a top-level catalog is inside the list exactly when it has a child and its line comes before the first one |
| Catalog.CatalogDataReader.TopIs | shared/catalog_data_reader.cpp:188-199 | `level_one_map` finds exactly the top-level names of the file, with their ids |
| Catalog.CatalogDataReader.FindChild | shared/catalog_data_reader.cpp:134-153 | the position of the one entry with that parent and name, or -1 |
| Catalog.CatalogDataReader.ChildFound | shared/catalog_data_reader.cpp:134-153 | it is found exactly if the file lists such a child, and then has that child's id |
| Catalog.CatalogDataReader.GetCatalogId | shared/catalog_data_reader.cpp:246-257 | the id of the child, -1 if there is none or it stands at position 0 |
| Catalog.CatalogDataReader.GetIdInLevel | shared/catalog_data_reader.cpp:155-180 | level by level the first word that names a child, which is used up: the last id and the words left over |
| Catalog.CatalogDataReader.GetId | shared/catalog_data_reader.cpp:185-215 | at any level the id the file gives the words, `CatalogSpec.IdOf` |
| Query.NormalizeQuery | se/da/da.cpp:128-153 | the in-place rewrite computes the normalised query |
| Query.SplitQuery | se/da/da.cpp:63-70 | the items getline yields |
| Query.NormalForm | se/da/da.cpp:126-153 | no capital, no whitespace but ' ', no two adjacent spaces |
| Query.LowerIs | se/da/da.cpp:134-140 | each capital becomes its small letter, no other character changes; the whitespace characters |
| Query.NormalizedIs | se/da/da.cpp:128-153 | the normalised query is its words joined by single spaces, with one in front or behind where the query starts or ends with whitespace that is kept |
| Query.NormalizeIdempotent | se/da/da.cpp:126-153 | normalising twice changes nothing |
| Query.SplitNormalized | se/da/da.cpp:79-86 | splitting the normalised query yields exactly the lowercased words in order, after an empty item where the query starts with whitespace that is kept |
| Query.WordsAreRuns | se/da/da.cpp:79-86 | the words are the longest pieces of the query without whitespace, all of them, in order, in small letters |
| Query.SplitWord | se/da/da.cpp:63-70 | an item ends at the next delimiter; an empty one at the end is not delivered |
| Query.SplitIsWords | se/da/da.cpp:79-86 | the exact condition for no such item |
| Query.EmptyItemFirst | se/da/da.cpp:79-86 | " a" behind a character that is not a space splits into an empty item and "a" |
| MakeIndex.SameLine | makeindex/makeindex.cpp:231-239 | document k and brief k come from the same accepted line |
| MakeIndex.BriefTagsSorted | makeindex/makeindex.cpp:202-205 | the tags of every written brief are sorted |
| MakeIndex.LineReads | makeindex/makeindex.cpp:149-229 | a readable line is accepted exactly if all its fields can be indexed, and its document is that of those fields |
| MakeIndex.LineFieldsAre | makeindex/makeindex.cpp:166-224 | which fields those are: the two catalogs if the id is positive, every tag, every description |
| MakeIndex.LineContains | makeindex/makeindex.cpp:166-224 | the document of a line contains a sign exactly if a token of one of these texts has it |
| MakeIndex.LineBriefIs | makeindex/makeindex.cpp:155-213 | the brief has the id, type, numbers and positive catalog id of the line, and each known tag id as often as the line names it, ascending |
| MakeIndex.LineBriefOf | makeindex/makeindex.cpp:155-213 | it is written with the catalog id that the lookup gives the two names |
| MakeIndex.DocOfWhen | makeindex/index_maker.cpp:230-242 | a list of fields can be indexed exactly if every field is known and every text can be segmented |
| MakeIndex.DocOfCounts | makeindex/index_maker.cpp:246-256 | its document has a sign as often as the tokens of all its fields have |
| MakeIndex.DocOfFields | makeindex/index_maker.cpp:246-256 | and a field bit under it exactly if a field with that bit has such a token |
| MakeIndex.AcceptedLines | makeindex/makeindex.cpp:242-284 | the documents and briefs are those of the accepted lines, each once, in the order of the lines |
| MakeIndex.MakeIndex.WriteBrief | makeindex/makeindex.cpp:130-142 | appends one frame, or reports the failure |
| MakeIndex.MakeIndex.AddCatalogs | makeindex/makeindex.cpp:166-183 | both catalog fields are indexed exactly for a known catalog |
| MakeIndex.MakeIndex.AddTags | makeindex/makeindex.cpp:186-200 | every tag is indexed and the known ones are collected |
| MakeIndex.MakeIndex.AddDescriptions | makeindex/makeindex.cpp:216-224 | every description is indexed |
| MakeIndex.MakeIndex.ReadLine | makeindex/makeindex.cpp:149-229 | a line gets to write_brief exactly when all of it can be read and indexed |
| MakeIndex.MakeIndex.FinishLine | makeindex/makeindex.cpp:231-239 | the document is finished exactly when its brief could be written; otherwise neither counts |
| MakeIndex.MakeIndex.HandleLine | makeindex/makeindex.cpp:144-240 | an accepted line adds one document and one brief, a rejected one neither; only an empty brief spoils the brief file |
| MakeIndex.MakeIndex.Run | makeindex/makeindex.cpp:242-284 | over any lines the documents and briefs are those of the accepted lines, their numbers agree, and the flushed files hold their index |
| EndToEnd.LoadBuilt | index/index_data.cpp:172-179 | a built index loads exactly when a term was indexed, every brief fits the reader and no brief was empty |
| EndToEnd.SearchLoaded | se/bs/bs.cpp:284-294 | a search on a loaded built index gives the answer |
| EndToEnd.Build | makeindex/makeindex.cpp:242-284 | from the catalog file and the input lines to the files of the index |
| EndToEnd.BuildAndSearch | makeindex/makeindex.cpp:242-284 | from the catalog file, input lines and a query to the answer computed naively from the accepted lines |
| EndToEnd.SomethingToBuild | makeindex/makeindex.cpp:242-284 | with a childless catalog nobody looks up and any serialiser of one brief, an input meets these demands and gives an index |

## Left out

- FileGroupWriter and FileGroupReader are not part of this model: a write that does not append returns its position in a record log, an appending write follows contiguously; the file number and the 32-bit offsets inside it are one unbounded position.
- Segment, sign64_str, the JSON reader and the protobuf format are not part of this model: segmentation is an arbitrary function to (sign, offset) pairs, a JSON access either delivers its value or throws, a serialised brief is any byte string that parses back.
- Hit payload: `hit.no` is the truncated offset the code stores in it; `hit.offset` is never set by the code, and the running field number it computes is overwritten.
- Allocation, I/O and thread-creation failures, and the double evaluation in the TEST macro.
- Integer widths of `_obj_num`, `num`, buffer sizes and list positions; the bounds needed (fewer than 2^32 documents, at most 2^31 distinct signs in them) are preconditions of the end-to-end method.
- Floating-point rounding of weights: they are exact tenths.
- Two tokens that fall on the same sign are two cursors over one list, as in the code; that different texts have different signs is not assumed.
- Reference counts, versions and timestamps of `IndexManager` follow the code, but reading the version and incrementing its count is one step except in the two members that say otherwise; the file system is an arbitrary sequence of modification times and load outcomes.
- Catalog.CatalogDataReader.Load: states nothing for files with repeated or zero ids or with repeated names under one parent (where the comparator is no order); the branches for them are modelled but their outcome is not claimed, and the comparator is taken without 32-bit overflow.
- Catalog.CatalogDataReader.GetId: the id that a failing lookup leaves in its out-parameter, and negative levels; every catalog that is searched must have its line before its first child's (see above).
- Bs.ThreadData.BasicSearch: pinning and releasing the index are steps of `IndexManager`, not of this method; the error of a failed allocation is not modelled.
- BriefFile.LoadBrief: a negative length is a failed read, what the code does to its buffer on the way is not modelled.
- Query characters are single bytes and `isspace` is that of the C locale.
- The service, server and as layers, get_catalog_name, get_parent_catalog_name, load_hit, the unused splitters of makeindex.cpp, and the scripts around the programs.
