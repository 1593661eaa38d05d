/** The answer a query has to give, computed naively from the documents, and the proof that building,
    flushing, locating, merging and sorting together give it. */
module Answer {
  import opened IndexTypes
  import Sorting
  import opened IndexSpec
  import FlushSpec
  import opened Ranking
  import Filters
  import opened Bs

  // ---- the naive search ------------------------------------------------------------------

  /** What one query term adds to a document: nothing, unless the document contains the term. */
  function DocWeight(docs: seq<Doc>, s: nat, id: nat): nat {
    if id < |docs| && Count(docs[id], s) > 0
    then Contribution(HitInfo(Fields(docs[id], s), Count(docs[id], s) % HIT_NUM_MODULUS, 0))
    else 0
  }

  /** The sum over the tokens of the query; an empty token adds nothing. */
  function TokenWeight(docs: seq<Doc>, sign64: string -> nat, token: seq<string>, id: nat): nat {
    if token == [] then 0
    else
      var n := |token| - 1;
      TokenWeight(docs, sign64, token[..n], id) + if token[n] == "" then 0 else DocWeight(docs, sign64(token[n]), id)
  }

  /** All documents from the highest number down that contain a token and pass the filters. */
  function NaiveScan(docs: seq<Doc>, briefs: seq<Brief>, sign64: string -> nat, tagData: map<string, int>,
                     input: Input, n: nat): seq<Obj>
    requires n <= |briefs|
  {
    if n == 0 then []
    else
      var d := n - 1;
      var rest := NaiveScan(docs, briefs, sign64, tagData, input, d);
      var weight := TokenWeight(docs, sign64, FirstTokens(input.token), d);
      if weight > 0 && Passes(briefs[d], tagData, input.condition)
      then [Obj(briefs[d].id, d, weight)] + rest
      else rest
  }

  predicate Passes(b: Brief, tagData: map<string, int>, condition: Filters.SearchCondition) {
    Filters.NumericOk(b, condition.numericFilter) && Filters.TagsOk(b, Filters.KnownTags(condition.tagFilter, tagData))
  }

  /** The answer is exact when fewer than 760 documents survive. Otherwise it ranks the 760 survivors
      with the highest numbers, and the last of them with the contribution of one token only. */
  ghost predicate IsAnswer(docs: seq<Doc>, briefs: seq<Brief>, sign64: string -> nat, tagData: map<string, int>,
                           input: Input, out: seq<int>) {
    var scan := NaiveScan(docs, briefs, sign64, tagData, input, |briefs|);
    if |scan| < MAX_RECALL_NUM then out == Ids(Sorting.Sort(scan, Heavier))
    else
      var tokens, last := FirstTokens(input.token), scan[MAX_RECALL_NUM - 1].objId;
      exists t | 0 <= t < |tokens| ::
        && tokens[t] != "" && DocWeight(docs, sign64(tokens[t]), last) > 0
        && out == Ids(Sorting.Sort(Truncated(scan, DocWeight(docs, sign64(tokens[t]), last)), Heavier))
  }

  /** The first 760 objects, the last of them with the given weight. */
  function Truncated(scan: seq<Obj>, weight: nat): seq<Obj>
    requires |scan| >= MAX_RECALL_NUM
  {
    scan[..MAX_RECALL_NUM - 1] + [scan[MAX_RECALL_NUM - 1].(weight := weight)]
  }

  // ---- the flushed index weighs like the documents ---------------------------------------

  lemma {:induction false} PostingsWeight(docs: seq<Doc>, s: nat, id: nat)
    ensures ListWeight(Postings(docs, s), id) == DocWeight(docs, s, id)
  {
    if docs != [] {
      var d := |docs| - 1;
      var p := docs[..d];
      PostingsWeight(p, s, id);
      if Count(docs[d], s) > 0 {
        var head := DocPosting(HitTotal(p), d, docs[d], s);
        assert Postings(docs, s) == [head] + Postings(p, s);
        assert ([head] + Postings(p, s))[1..] == Postings(p, s);
      }
    }
  }

  lemma FlushedList(docs: seq<Doc>, terms: seq<Term>, file: seq<Posting>, s: nat)
    requires FlushSpec.Flushed(docs, terms, file)
    ensures FlushSpec.HasTerm(terms, s) <==> Postings(docs, s) != []
    ensures FlushSpec.HasTerm(terms, s) ==> FiledList(terms, file, s) == Postings(docs, s)
  {
    hide Postings;
    PostingsNonEmpty(docs, s);
    if FlushSpec.HasTerm(terms, s) {
      var k :| 0 <= k < |terms| && terms[k].sign == s;
      FiledListIs(terms, file, k);
    }
  }

  lemma {:induction false} LoadedWeight(docs: seq<Doc>, terms: seq<Term>, file: seq<Posting>, sign64: string -> nat,
                                        token: seq<string>, id: nat)
    requires FlushSpec.Flushed(docs, terms, file)
    ensures Weight(Loaded(terms, file, sign64, token), id) == TokenWeight(docs, sign64, token, id)
  {
    if token != [] {
      hide FlushSpec.Flushed, FiledList, Postings, ListWeight, DocWeight;
      var n := |token| - 1;
      LoadedWeight(docs, terms, file, sign64, token[..n], id);
      var s := sign64(token[n]);
      FlushedList(docs, terms, file, s);
      PostingsWeight(docs, s, id);
      NothingWeighs(id);
      if token[n] != "" && FlushSpec.HasTerm(terms, s) {
        WeightConcat(Loaded(terms, file, sign64, token[..n]), [FiledList(terms, file, s)], id);
        WeightOfOne(FiledList(terms, file, s), id);
      }
    }
  }

  lemma NothingWeighs(id: nat)
    ensures ListWeight([], id) == 0 && Weight([], id) == 0
  {
  }

  lemma WeightOfOne(l: seq<Posting>, id: nat)
    ensures Weight([l], id) == ListWeight(l, id)
  {
  }

  /** A single loaded list is the list of some non-empty token. */
  lemma {:induction false} LoadedFrom(docs: seq<Doc>, terms: seq<Term>, file: seq<Posting>, sign64: string -> nat,
                                      token: seq<string>, i: nat) returns (t: nat)
    requires FlushSpec.Flushed(docs, terms, file) && i < |Loaded(terms, file, sign64, token)|
    ensures t < |token| && token[t] != "" && Loaded(terms, file, sign64, token)[i] == Postings(docs, sign64(token[t]))
  {
    hide FlushSpec.Flushed, FiledList, Postings;
    var n := |token| - 1;
    var rest := Loaded(terms, file, sign64, token[..n]);
    if i < |rest| {
      t := LoadedFrom(docs, terms, file, sign64, token[..n], i);
    } else {
      t := n;
      FlushedList(docs, terms, file, sign64(token[n]));
    }
  }

  /** What flush writes is an index the searcher can work on. */
  lemma FlushedOk(docs: seq<Doc>, terms: seq<Term>, file: seq<Posting>, briefs: seq<Brief>)
    requires FlushSpec.Flushed(docs, terms, file) && 0 < |terms| <= 0x8000_0000
    requires |docs| <= NO_OBJ && |briefs| <= NO_OBJ
    requires forall d | 0 <= d < |briefs| :: Filters.Ascending(briefs[d].tagIds)
    ensures IndexOk(terms, file, briefs)
  {
    hide Postings;
    forall k | 0 <= k < |terms|
      ensures terms[k].num > 0 && terms[k].offset + terms[k].num <= |file|
      ensures Descending(file[terms[k].offset..terms[k].offset + terms[k].num])
    {
      PostingsDescending(docs, terms[k].sign);
    }
    forall h | 0 <= h < |file| ensures file[h].objId <= NO_OBJ {
      var k := FlushSpec.LaidPartition(terms, file, h);
      PostingsDescending(docs, terms[k].sign);
      assert file[h] == file[terms[k].offset..terms[k].offset + terms[k].num][h - terms[k].offset];
    }
  }

  // ---- the whole search ------------------------------------------------------------------

  lemma KeeperIsPasses(briefs: seq<Brief>, tagData: map<string, int>, condition: Filters.SearchCondition,
                       wanted: seq<int>, id: nat)
    requires multiset(wanted) == multiset(Filters.KnownTags(condition.tagFilter, tagData))
    ensures Keeper(briefs, condition.numericFilter, wanted)(id)
      <==> id < |briefs| && Passes(briefs[id], tagData, condition)
  {
  }

  lemma {:induction false} ScanIsNaive(docs: seq<Doc>, briefs: seq<Brief>, terms: seq<Term>, file: seq<Posting>,
                                       sign64: string -> nat, tagData: map<string, int>, input: Input,
                                       wanted: seq<int>, n: nat)
    requires FlushSpec.Flushed(docs, terms, file) && n <= |briefs|
    requires multiset(wanted) == multiset(Filters.KnownTags(input.condition.tagFilter, tagData))
    ensures Scan(Loaded(terms, file, sign64, FirstTokens(input.token)),
                 Keeper(briefs, input.condition.numericFilter, wanted), Namer(briefs), n)
            == NaiveScan(docs, briefs, sign64, tagData, input, n)
  {
    hide FlushSpec.Flushed, Weight, TokenWeight, Loaded, Passes, Keeper;
    if n > 0 {
      ScanIsNaive(docs, briefs, terms, file, sign64, tagData, input, wanted, n - 1);
      LoadedWeight(docs, terms, file, sign64, FirstTokens(input.token), n - 1);
      KeeperIsPasses(briefs, tagData, input.condition, wanted, n - 1);
    }
  }

  /** The central result: what basic_search returns on a flushed index is the answer. */
  lemma SearchIsAnswer(docs: seq<Doc>, briefs: seq<Brief>, terms: seq<Term>, file: seq<Posting>,
                       sign64: string -> nat, tagData: map<string, int>, input: Input,
                       wanted: seq<int>, recalled: seq<Obj>)
    requires FlushSpec.Flushed(docs, terms, file)
    requires multiset(wanted) == multiset(Filters.KnownTags(input.condition.tagFilter, tagData))
    requires IsRecall(Loaded(terms, file, sign64, FirstTokens(input.token)),
                      Keeper(briefs, input.condition.numericFilter, wanted), Namer(briefs), recalled)
    ensures IsAnswer(docs, briefs, sign64, tagData, input, Ids(Sorting.Sort(recalled, Heavier)))
  {
    hide FlushSpec.Flushed, IsRecall, Loaded, Scan, NaiveScan, Sorting.Sort, Heavier, Ids;
    hide DocWeight, ListWeight, Postings, Keeper, Namer;
    var ls := Loaded(terms, file, sign64, FirstTokens(input.token));
    var keep, name := Keeper(briefs, input.condition.numericFilter, wanted), Namer(briefs);
    KeptHasBrief(briefs, input.condition.numericFilter, wanted);
    RecallIsScan(ls, keep, name, |briefs|, recalled);
    ScanIsNaive(docs, briefs, terms, file, sign64, tagData, input, wanted, |briefs|);
    var scan := NaiveScan(docs, briefs, sign64, tagData, input, |briefs|);
    if |scan| >= MAX_RECALL_NUM {
      var last := recalled[MAX_RECALL_NUM - 1];
      var i :| 0 <= i < |ls| && last.weight == ListWeight(ls[i], last.objId) > 0;
      var t := LoadedFrom(docs, terms, file, sign64, FirstTokens(input.token), i);
      PostingsWeight(docs, sign64(FirstTokens(input.token)[t]), last.objId);
      assert recalled == recalled[..MAX_RECALL_NUM - 1] + [last];
      assert recalled == Truncated(scan, last.weight);
    }
  }

  // ---- consequences ----------------------------------------------------------------------

  lemma {:induction false} TokenWeightConcat(docs: seq<Doc>, sign64: string -> nat,
                                             a: seq<string>, b: seq<string>, id: nat)
    ensures TokenWeight(docs, sign64, a + b, id) == TokenWeight(docs, sign64, a, id) + TokenWeight(docs, sign64, b, id)
  {
    if b == [] {
      assert a + b == a;
    } else {
      var n := |b| - 1;
      TokenWeightConcat(docs, sign64, a, b[..n], id);
      assert (a + b)[..|a + b| - 1] == a + b[..n];
    }
  }

  /** The weight of a document does not depend on the order of the tokens. */
  lemma {:induction false} TokenOrderIrrelevant(docs: seq<Doc>, sign64: string -> nat,
                                                a: seq<string>, b: seq<string>, id: nat)
    requires multiset(a) == multiset(b)
    ensures TokenWeight(docs, sign64, a, id) == TokenWeight(docs, sign64, b, id)
    decreases |a|
  {
    hide TokenWeight;
    Sorting.SameElements(a, b);
    if a == [] {
      assert b == [];
    } else {
      var n := |a| - 1;
      assert a[n] in a;
      var i :| 0 <= i < |b| && b[i] == a[n];
      TokenAside(docs, sign64, a, n, id);
      TokenAside(docs, sign64, b, i, id);
      Sorting.CancelElement(multiset(Aside(a, n)), multiset(Aside(b, i)), a[n]);
      TokenOrderIrrelevant(docs, sign64, Aside(a, n), Aside(b, i), id);
    }
  }

  /** The tokens without the one at position i. */
  function Aside(token: seq<string>, i: nat): (r: seq<string>)
    requires i < |token|
    ensures |r| == |token| - 1
  {
    token[..i] + token[i + 1..]
  }

  lemma TokenAside(docs: seq<Doc>, sign64: string -> nat, token: seq<string>, i: nat, id: nat)
    requires i < |token|
    ensures multiset(token) == multiset(Aside(token, i)) + multiset{token[i]}
    ensures TokenWeight(docs, sign64, token, id)
            == TokenWeight(docs, sign64, Aside(token, i), id) + TokenWeight(docs, sign64, [token[i]], id)
  {
    hide TokenWeight;
    var l, x, r := token[..i], token[i], token[i + 1..];
    assert token == l + [x] + r;
    TokenWeightConcat(docs, sign64, l + [x], r, id);
    TokenWeightConcat(docs, sign64, l, [x], id);
    TokenWeightConcat(docs, sign64, l, r, id);
  }

  lemma {:induction false} TokenOrderScan(docs: seq<Doc>, briefs: seq<Brief>, sign64: string -> nat,
                                          tagData: map<string, int>, a: Input, b: Input, n: nat)
    requires multiset(a.token) == multiset(b.token) && |a.token| <= BS_MAX_TERM_NUM && a.condition == b.condition
    requires n <= |briefs|
    ensures NaiveScan(docs, briefs, sign64, tagData, a, n) == NaiveScan(docs, briefs, sign64, tagData, b, n)
  {
    hide TokenWeight, Passes;
    if n > 0 {
      Sorting.SameElements(a.token, b.token);
      TokenOrderScan(docs, briefs, sign64, tagData, a, b, n - 1);
      TokenOrderIrrelevant(docs, sign64, a.token, b.token, n - 1);
    }
  }

  /** Rearranging at most fifteen tokens leaves the whole answer unchanged while fewer than 760
      documents survive. */
  lemma TokenOrderAnswer(docs: seq<Doc>, briefs: seq<Brief>, sign64: string -> nat, tagData: map<string, int>,
                         a: Input, b: Input, outA: seq<int>, outB: seq<int>)
    requires multiset(a.token) == multiset(b.token) && |a.token| <= BS_MAX_TERM_NUM && a.condition == b.condition
    ensures |NaiveScan(docs, briefs, sign64, tagData, a, |briefs|)| < MAX_RECALL_NUM
      && IsAnswer(docs, briefs, sign64, tagData, a, outA) && IsAnswer(docs, briefs, sign64, tagData, b, outB)
      ==> outA == outB
  {
    hide NaiveScan, Sorting.Sort, Heavier, Ids;
    TokenOrderScan(docs, briefs, sign64, tagData, a, b, |briefs|);
  }

  /** How many tokens of the query the document contains. */
  function TokenMatches(docs: seq<Doc>, sign64: string -> nat, token: seq<string>, id: nat): nat {
    if token == [] then 0
    else
      var n := |token| - 1;
      TokenMatches(docs, sign64, token[..n], id)
      + if id < |docs| && token[n] != "" && Count(docs[id], sign64(token[n])) > 0 then 1 else 0
  }

  /** Each matched token adds between one and one and a half. */
  lemma {:induction false} MatchBounds(docs: seq<Doc>, sign64: string -> nat, token: seq<string>, id: nat)
    ensures 10 * TokenMatches(docs, sign64, token, id) <= TokenWeight(docs, sign64, token, id)
    ensures TokenWeight(docs, sign64, token, id) <= 15 * TokenMatches(docs, sign64, token, id)
  {
    if token != [] {
      hide Contribution, Fields;
      MatchBounds(docs, sign64, token[..|token| - 1], id);
    }
  }

  lemma {:induction false} MatchesConcat(docs: seq<Doc>, sign64: string -> nat, a: seq<string>, b: seq<string>, id: nat)
    ensures TokenMatches(docs, sign64, a + b, id)
            == TokenMatches(docs, sign64, a, id) + TokenMatches(docs, sign64, b, id)
  {
    if b == [] {
      assert a + b == a;
    } else {
      var n := |b| - 1;
      MatchesConcat(docs, sign64, a, b[..n], id);
      assert (a + b)[..|a + b| - 1] == a + b[..n];
    }
  }

  lemma OneToken(docs: seq<Doc>, sign64: string -> nat, x: string, id: nat)
    requires x != ""
    ensures TokenWeight(docs, sign64, [x], id) == DocWeight(docs, sign64(x), id)
    ensures TokenMatches(docs, sign64, [x], id) == if DocWeight(docs, sign64(x), id) > 0 then 1 else 0
  {
    hide Contribution, Count, Fields;
    assert [x][..0] == [];
    assert TokenWeight(docs, sign64, [], id) == 0 && TokenMatches(docs, sign64, [], id) == 0;
  }

  /** What one matching token contributes is the full weight of a document exactly when no other token
      of the query matches it. */
  lemma OneTokenIsFull(docs: seq<Doc>, sign64: string -> nat, token: seq<string>, t: nat, id: nat)
    requires t < |token| && token[t] != "" && DocWeight(docs, sign64(token[t]), id) > 0
    ensures DocWeight(docs, sign64(token[t]), id) == TokenWeight(docs, sign64, token, id)
      <==> TokenMatches(docs, sign64, token, id) == 1
    ensures DocWeight(docs, sign64(token[t]), id) <= TokenWeight(docs, sign64, token, id)
  {
    hide DocWeight, TokenWeight, TokenMatches;
    var l, x, r := token[..t], token[t], token[t + 1..];
    assert token == l + [x] + r;
    TokenWeightConcat(docs, sign64, l + [x], r, id);
    TokenWeightConcat(docs, sign64, l, [x], id);
    MatchesConcat(docs, sign64, l + [x], r, id);
    MatchesConcat(docs, sign64, l, [x], id);
    OneToken(docs, sign64, x, id);
    MatchBounds(docs, sign64, l, id);
    MatchBounds(docs, sign64, r, id);
  }

  /** With 760 or more survivors the ranking of the 760 highest is exact as soon as the last of them
      matches one token only. */
  lemma LastMatchExact(docs: seq<Doc>, briefs: seq<Brief>, sign64: string -> nat, tagData: map<string, int>,
                       input: Input, out: seq<int>)
    ensures var scan := NaiveScan(docs, briefs, sign64, tagData, input, |briefs|);
      && |scan| >= MAX_RECALL_NUM
      && TokenMatches(docs, sign64, FirstTokens(input.token), scan[MAX_RECALL_NUM - 1].objId) == 1
      && IsAnswer(docs, briefs, sign64, tagData, input, out)
      ==> out == Ids(Sorting.Sort(scan[..MAX_RECALL_NUM], Heavier))
  {
    hide NaiveScan, TokenWeight, TokenMatches, DocWeight, Sorting.Sort, Heavier, Ids, FirstTokens;
    var scan := NaiveScan(docs, briefs, sign64, tagData, input, |briefs|);
    if |scan| >= MAX_RECALL_NUM {
      var tokens := FirstTokens(input.token);
      ScanObjects(docs, briefs, sign64, tagData, input, |briefs|);
      assert scan[MAX_RECALL_NUM - 1] in scan;
      hide Truncated;
      forall t | 0 <= t < |tokens| { LastIsFull(docs, sign64, tokens, t, scan); }
    }
  }

  lemma LastIsFull(docs: seq<Doc>, sign64: string -> nat, token: seq<string>, t: nat, scan: seq<Obj>)
    requires t < |token| && |scan| >= MAX_RECALL_NUM
    ensures var last := scan[MAX_RECALL_NUM - 1];
      && token[t] != "" && DocWeight(docs, sign64(token[t]), last.objId) > 0
      && last.weight == TokenWeight(docs, sign64, token, last.objId)
      && TokenMatches(docs, sign64, token, last.objId) == 1
      ==> Truncated(scan, DocWeight(docs, sign64(token[t]), last.objId)) == scan[..MAX_RECALL_NUM]
  {
    hide TokenWeight, TokenMatches, DocWeight;
    var last := scan[MAX_RECALL_NUM - 1];
    if token[t] != "" && DocWeight(docs, sign64(token[t]), last.objId) > 0 {
      OneTokenIsFull(docs, sign64, token, t, last.objId);
    }
    assert Truncated(scan, last.weight) == scan[..MAX_RECALL_NUM];
  }

  /** The objects of the scan carry their full weights, in descending document order. */
  lemma {:induction false} ScanObjects(docs: seq<Doc>, briefs: seq<Brief>, sign64: string -> nat,
                                       tagData: map<string, int>, input: Input, n: nat)
    requires n <= |briefs|
    ensures var s := NaiveScan(docs, briefs, sign64, tagData, input, n);
      && ObjDescending(s) && AllBelow(s, n)
      && forall o | o in s ::
           && o.weight == TokenWeight(docs, sign64, FirstTokens(input.token), o.objId)
           && o.objId < |briefs| && o.id == briefs[o.objId].id
  {
    hide TokenWeight, Passes;
    if n > 0 {
      ScanObjects(docs, briefs, sign64, tagData, input, n - 1);
    }
  }

  /** A document that contains enough more of the tokens is ranked first, whatever its fields and hits. */
  lemma MoreMatchesFirst(docs: seq<Doc>, briefs: seq<Brief>, sign64: string -> nat, tagData: map<string, int>,
                         input: Input)
    ensures var out := Sorting.Sort(NaiveScan(docs, briefs, sign64, tagData, input, |briefs|), Heavier);
      forall i, j | 0 <= i < |out| && 0 <= j < |out|
                    && 2 * TokenMatches(docs, sign64, FirstTokens(input.token), out[i].objId)
                       > 3 * TokenMatches(docs, sign64, FirstTokens(input.token), out[j].objId) :: i < j
  {
    hide NaiveScan, TokenWeight, TokenMatches, Ranked, Sorting.Sort;
    var scan := NaiveScan(docs, briefs, sign64, tagData, input, |briefs|);
    var tokens, out := FirstTokens(input.token), Sorting.Sort(scan, Heavier);
    ScanObjects(docs, briefs, sign64, tagData, input, |briefs|);
    SortRanks(scan);
    forall o | o in out ensures o.weight == TokenWeight(docs, sign64, tokens, o.objId) {
      assert o in multiset(out);
      assert o in multiset(scan);
    }
    forall i, j | 0 <= j <= i < |out|
      ensures 2 * TokenMatches(docs, sign64, tokens, out[i].objId)
              <= 3 * TokenMatches(docs, sign64, tokens, out[j].objId)
    {
      MatchBounds(docs, sign64, tokens, out[i].objId);
      MatchBounds(docs, sign64, tokens, out[j].objId);
      assert j < i ==> Ranked(out[j], out[i]);
      RankedMeans(out[j], out[i]);
      assert out[i] in out && out[j] in out;
    }
  }

  // ---- the order beyond 760 survivors ----------------------------------------------------

  /** No other of the 760 weighs less than the last and at least `w`. */
  predicate NoneBetween(scan: seq<Obj>, w: nat)
    requires |scan| >= MAX_RECALL_NUM
  {
    forall o | o in scan[..MAX_RECALL_NUM - 1] :: !(w <= o.weight < scan[MAX_RECALL_NUM - 1].weight)
  }

  predicate DistinctBriefs(briefs: seq<Brief>) {
    forall i, j | 0 <= i < j < |briefs| :: briefs[i].id != briefs[j].id
  }

  /** The token has a part in the weight of the document. */
  predicate Matches(docs: seq<Doc>, sign64: string -> nat, txt: string, id: nat) {
    txt != "" && DocWeight(docs, sign64(txt), id) > 0
  }

  ghost predicate NamedBy(briefs: seq<Brief>, objs: seq<Obj>) {
    forall o | o in objs :: o.objId < |briefs| && o.id == briefs[o.objId].id
  }

  lemma NamesTellApart(briefs: seq<Brief>, x: seq<Obj>, y: seq<Obj>)
    requires DistinctBriefs(briefs) && NamedBy(briefs, x) && NamedBy(briefs, y) && |x| == |y|
    ensures Ids(x) == Ids(y) <==> DocNos(x) == DocNos(y)
  {
    forall i | 0 <= i < |x| ensures Ids(x)[i] == Ids(y)[i] <==> DocNos(x)[i] == DocNos(y)[i] {
      assert x[i] in x && y[i] in y;
      assert x[i].objId < y[i].objId || x[i].objId == y[i].objId || y[i].objId < x[i].objId;
    }
  }

  /** Ranked with weight `w` for the last, the 760 come out as they should exactly if no weight lies between. */
  lemma CutExact(briefs: seq<Brief>, scan: seq<Obj>, w: nat)
    requires DistinctBriefs(briefs) && NamedBy(briefs, scan) && ObjDescending(scan)
    requires |scan| >= MAX_RECALL_NUM && w <= scan[MAX_RECALL_NUM - 1].weight
    ensures Ids(Sorting.Sort(Truncated(scan, w), Heavier)) == Ids(Sorting.Sort(scan[..MAX_RECALL_NUM], Heavier))
      <==> NoneBetween(scan, w)
  {
    hide Sorting.Sort, Heavier, Ids, DocNos, DistinctBriefs;
    var front, last := scan[..MAX_RECALL_NUM - 1], scan[MAX_RECALL_NUM - 1];
    var low := last.(weight := w);
    assert scan[..MAX_RECALL_NUM] == front + [last];
    LowerLast(front, last, w);
    var x, y := Sorting.Sort(front + [low], Heavier), Sorting.Sort(front + [last], Heavier);
    Sorting.SameElements(front + [low], x);
    Sorting.SameElements(front + [last], y);
    assert forall o | o in front + [last] :: o in scan;
    assert low.objId == last.objId && last in scan;
    NamesTellApart(briefs, x, y);
  }

  /** With 760 or more survivors every answer the merge can give ranks the 760 by their full weights exactly
      if, whichever matching token the last of them is counted with, no other weight lies between. */
  lemma RankingExact(docs: seq<Doc>, briefs: seq<Brief>, sign64: string -> nat, tagData: map<string, int>, input: Input)
    requires DistinctBriefs(briefs)
    ensures var scan := NaiveScan(docs, briefs, sign64, tagData, input, |briefs|);
      |scan| >= MAX_RECALL_NUM ==>
        ((forall out | IsAnswer(docs, briefs, sign64, tagData, input, out) ::
            out == Ids(Sorting.Sort(scan[..MAX_RECALL_NUM], Heavier)))
         <==> forall txt | txt in FirstTokens(input.token)
                           && Matches(docs, sign64, txt, scan[MAX_RECALL_NUM - 1].objId) ::
                NoneBetween(scan, DocWeight(docs, sign64(txt), scan[MAX_RECALL_NUM - 1].objId)))
  {
    hide NaiveScan, TokenWeight, DocWeight, Sorting.Sort, Heavier, Ids, FirstTokens, Truncated, NoneBetween;
    var scan := NaiveScan(docs, briefs, sign64, tagData, input, |briefs|);
    if |scan| >= MAX_RECALL_NUM {
      var tokens, id := FirstTokens(input.token), scan[MAX_RECALL_NUM - 1].objId;
      var ideal := Ids(Sorting.Sort(scan[..MAX_RECALL_NUM], Heavier));
      ScanObjects(docs, briefs, sign64, tagData, input, |briefs|);
      assert scan[MAX_RECALL_NUM - 1] in scan;
      forall txt | txt in tokens && Matches(docs, sign64, txt, id)
        ensures var w := DocWeight(docs, sign64(txt), id);
          var out := Ids(Sorting.Sort(Truncated(scan, w), Heavier));
          && (out == ideal <==> NoneBetween(scan, w))
          && IsAnswer(docs, briefs, sign64, tagData, input, out)
      {
        var t :| 0 <= t < |tokens| && tokens[t] == txt;
        OneTokenIsFull(docs, sign64, tokens, t, id);
        CutExact(briefs, scan, DocWeight(docs, sign64(txt), id));
      }
      forall out | IsAnswer(docs, briefs, sign64, tagData, input, out)
        ensures exists txt | txt in tokens && Matches(docs, sign64, txt, id) ::
          out == Ids(Sorting.Sort(Truncated(scan, DocWeight(docs, sign64(txt), id)), Heavier))
      {
        var t :| 0 <= t < |tokens| && tokens[t] != "" && DocWeight(docs, sign64(tokens[t]), id) > 0
          && out == Ids(Sorting.Sort(Truncated(scan, DocWeight(docs, sign64(tokens[t]), id)), Heavier));
        assert tokens[t] in tokens && Matches(docs, sign64, tokens[t], id);
      }
    }
  }

  // ---- hit counts that wrap --------------------------------------------------------------

  /** The eleven-bit hit count changes a weight exactly when it wraps to fewer than five field hits. */
  lemma WrappedCount(field: FieldSet, count: nat)
    requires field != 0 && count > 0
    ensures Contribution(HitInfo(field, count % HIT_NUM_MODULUS, 0)) == Contribution(HitInfo(field, count, 0))
      <==> count < HIT_NUM_MODULUS || PopCount(field) * (count % HIT_NUM_MODULUS) >= 5
  {
    ClearLowestBit(field);
    hide PopCount;
    AtLeast(PopCount(field), count);
    if count < HIT_NUM_MODULUS {
      assert count % HIT_NUM_MODULUS == count;
    }
  }

  lemma AtLeast(p: nat, n: nat)
    requires p > 0
    ensures p * n >= n
  {
  }

  /** What a query term adds to a document by all its hits. */
  function PlainWeight(docs: seq<Doc>, s: nat, id: nat): nat {
    if id < |docs| && Count(docs[id], s) > 0
    then Contribution(HitInfo(Fields(docs[id], s), Count(docs[id], s), 0))
    else 0
  }

  function PlainTokens(docs: seq<Doc>, sign64: string -> nat, token: seq<string>, id: nat): nat {
    if token == [] then 0
    else
      var n := |token| - 1;
      PlainTokens(docs, sign64, token[..n], id) + if token[n] == "" then 0 else PlainWeight(docs, sign64(token[n]), id)
  }

  /** The naive scan with weights by all hits. */
  function PlainScan(docs: seq<Doc>, briefs: seq<Brief>, sign64: string -> nat, tagData: map<string, int>,
                     input: Input, n: nat): seq<Obj>
    requires n <= |briefs|
  {
    if n == 0 then []
    else
      var d := n - 1;
      var rest := PlainScan(docs, briefs, sign64, tagData, input, d);
      var weight := PlainTokens(docs, sign64, FirstTokens(input.token), d);
      if weight > 0 && Passes(briefs[d], tagData, input.condition)
      then [Obj(briefs[d].id, d, weight)] + rest
      else rest
  }

  /** The wrap of the hit count takes nothing from the weight. */
  predicate Unharmed(docs: seq<Doc>, s: nat, id: nat) {
    id < |docs| ==>
      var f, n := Fields(docs[id], s), Count(docs[id], s);
      f == 0 || n < HIT_NUM_MODULUS || PopCount(f) * (n % HIT_NUM_MODULUS) >= 5
  }

  lemma PlainDocWeight(docs: seq<Doc>, s: nat, id: nat)
    ensures DocWeight(docs, s, id) <= PlainWeight(docs, s, id)
    ensures DocWeight(docs, s, id) == PlainWeight(docs, s, id) <==> Unharmed(docs, s, id)
    ensures DocWeight(docs, s, id) > 0 <==> PlainWeight(docs, s, id) > 0
  {
    hide Fields, Count, PopCount;
    if id < |docs| {
      var f, n := Fields(docs[id], s), Count(docs[id], s);
      if n > 0 && f != 0 {
        WrappedCount(f, n);
        MoreHits(PopCount(f), n % HIT_NUM_MODULUS, n);
      } else if n > 0 {
        NoFields();
      }
    }
  }

  lemma NoFields()
    ensures PopCount(0) == 0
  {
  }

  lemma MoreHits(p: nat, m: nat, n: nat)
    requires m <= n
    ensures p * m <= p * n
  {
  }

  lemma {:induction false} PlainTokensExact(docs: seq<Doc>, sign64: string -> nat, token: seq<string>, id: nat)
    ensures TokenWeight(docs, sign64, token, id) <= PlainTokens(docs, sign64, token, id)
    ensures TokenWeight(docs, sign64, token, id) == PlainTokens(docs, sign64, token, id)
      <==> forall txt | txt in token && txt != "" :: Unharmed(docs, sign64(txt), id)
    ensures TokenWeight(docs, sign64, token, id) > 0 <==> PlainTokens(docs, sign64, token, id) > 0
  {
    hide DocWeight, PlainWeight, Unharmed;
    if token != [] {
      var n := |token| - 1;
      assert token == token[..n] + [token[n]];
      PlainTokensExact(docs, sign64, token[..n], id);
      PlainDocWeight(docs, sign64(token[n]), id);
    }
  }

  /** The program weighs all survivors by all their hits exactly if no token of the query is harmed by the
      wrap in any document that passes the filters. */
  lemma {:induction false} PlainScanExact(docs: seq<Doc>, briefs: seq<Brief>, sign64: string -> nat,
                                          tagData: map<string, int>, input: Input, n: nat)
    requires n <= |briefs|
    ensures NaiveScan(docs, briefs, sign64, tagData, input, n) == PlainScan(docs, briefs, sign64, tagData, input, n)
      <==> forall d, txt | 0 <= d < n && Passes(briefs[d], tagData, input.condition)
                           && txt in FirstTokens(input.token) && txt != "" :: Unharmed(docs, sign64(txt), d)
    ensures |NaiveScan(docs, briefs, sign64, tagData, input, n)| == |PlainScan(docs, briefs, sign64, tagData, input, n)|
  {
    hide TokenWeight, PlainTokens, Unharmed, Passes, FirstTokens;
    if n > 0 {
      PlainScanExact(docs, briefs, sign64, tagData, input, n - 1);
      PlainTokensExact(docs, sign64, FirstTokens(input.token), n - 1);
      SameHeads(NaiveScan(docs, briefs, sign64, tagData, input, n), PlainScan(docs, briefs, sign64, tagData, input, n));
    }
  }

  lemma SameHeads(a: seq<Obj>, b: seq<Obj>)
    requires |a| == |b|
    ensures a == b <==> a == [] || (a[0] == b[0] && a[1..] == b[1..])
  {
    if a != [] {
      assert a == [a[0]] + a[1..] && b == [b[0]] + b[1..];
    }
  }

  /** Then the answer is the one by all hits. */
  lemma PlainAnswer(docs: seq<Doc>, briefs: seq<Brief>, sign64: string -> nat, tagData: map<string, int>,
                    input: Input, out: seq<int>)
    requires forall d, txt | 0 <= d < |briefs| && Passes(briefs[d], tagData, input.condition)
                             && txt in FirstTokens(input.token) && txt != "" :: Unharmed(docs, sign64(txt), d)
    ensures var scan := PlainScan(docs, briefs, sign64, tagData, input, |briefs|);
      IsAnswer(docs, briefs, sign64, tagData, input, out) ==>
        if |scan| < MAX_RECALL_NUM then out == Ids(Sorting.Sort(scan, Heavier))
        else exists txt | txt in FirstTokens(input.token) && txt != "" ::
          var w := PlainWeight(docs, sign64(txt), scan[MAX_RECALL_NUM - 1].objId);
          w > 0 && out == Ids(Sorting.Sort(Truncated(scan, w), Heavier))
  {
    hide NaiveScan, PlainScan, DocWeight, PlainWeight, Unharmed, Passes, FirstTokens;
    hide Sorting.Sort, Heavier, Ids, Truncated;
    PlainScanExact(docs, briefs, sign64, tagData, input, |briefs|);
    var scan, tokens := NaiveScan(docs, briefs, sign64, tagData, input, |briefs|), FirstTokens(input.token);
    if |scan| >= MAX_RECALL_NUM && IsAnswer(docs, briefs, sign64, tagData, input, out) {
      var id := scan[MAX_RECALL_NUM - 1].objId;
      var t :| 0 <= t < |tokens| && tokens[t] != "" && DocWeight(docs, sign64(tokens[t]), id) > 0
        && out == Ids(Sorting.Sort(Truncated(scan, DocWeight(docs, sign64(tokens[t]), id)), Heavier));
      ScanPasses(docs, briefs, sign64, tagData, input, |briefs|);
      assert scan[MAX_RECALL_NUM - 1] in scan && tokens[t] in tokens;
      PlainDocWeight(docs, sign64(tokens[t]), id);
    }
  }

  lemma {:induction false} ScanPasses(docs: seq<Doc>, briefs: seq<Brief>, sign64: string -> nat,
                                      tagData: map<string, int>, input: Input, n: nat)
    requires n <= |briefs|
    ensures forall o | o in NaiveScan(docs, briefs, sign64, tagData, input, n) ::
      o.objId < n && Passes(briefs[o.objId], tagData, input.condition)
  {
    hide TokenWeight, Passes;
    if n > 0 {
      ScanPasses(docs, briefs, sign64, tagData, input, n - 1);
    }
  }

  // ---- the answer, spelled out -----------------------------------------------------------

  /** The document passes the filters and contains one of the first fifteen tokens of the query. */
  predicate Survives(docs: seq<Doc>, briefs: seq<Brief>, sign64: string -> nat, tagData: map<string, int>,
                     input: Input, d: nat)
  {
    && d < |briefs| && d < |docs| && Passes(briefs[d], tagData, input.condition)
    && exists t | 0 <= t < |input.token| && t < 15 ::
         input.token[t] != "" && exists i | 0 <= i < |docs[d]| :: docs[d][i].sign == sign64(input.token[t])
  }

  /** Passing the filters: every type and catalog filter holds, and every known requested tag is carried as
      often as it is requested. */
  lemma PassesIs(b: Brief, tagData: map<string, int>, condition: Filters.SearchCondition)
    ensures Passes(b, tagData, condition) <==>
      && (forall i | 0 <= i < |condition.numericFilter| ::
            var f := condition.numericFilter[i];
            && (f.name == "type" ==> f.low <= b.typ <= f.high)
            && (f.name == "catalog" ==> f.low <= b.catalogId <= f.high))
      && (forall id: int ::
            var tags := condition.tagFilter;
            |set i | 0 <= i < |tags| && tags[i] in tagData && tagData[tags[i]] == id| <= multiset(b.tagIds)[id])
  {
    Filters.NumericOkIs(b, condition.numericFilter);
    forall id: int
      ensures var tags := condition.tagFilter;
        multiset(Filters.KnownTags(tags, tagData))[id]
        == |set i | 0 <= i < |tags| && tags[i] in tagData && tagData[tags[i]] == id|
    {
      Filters.KnownTagsAre(condition.tagFilter, tagData, id);
    }
  }

  /** The survivors with a higher number. */
  function Above(docs: seq<Doc>, briefs: seq<Brief>, sign64: string -> nat, tagData: map<string, int>,
                 input: Input, d: nat): set<nat>
  {
    set e: nat | d < e < |briefs| && Survives(docs, briefs, sign64, tagData, input, e)
  }

  lemma {:induction false} MatchesSome(docs: seq<Doc>, sign64: string -> nat, token: seq<string>, id: nat)
    ensures TokenMatches(docs, sign64, token, id) > 0 <==>
      id < |docs| && exists t | 0 <= t < |token| ::
        token[t] != "" && exists i | 0 <= i < |docs[id]| :: docs[id][i].sign == sign64(token[t])
  {
    if token != [] {
      var n := |token| - 1;
      MatchesSome(docs, sign64, token[..n], id);
      assert forall t | 0 <= t < n :: token[..n][t] == token[t];
      if id < |docs| {
        CountFinds(docs[id], sign64(token[n]));
      }
    }
  }

  lemma SurvivesIs(docs: seq<Doc>, briefs: seq<Brief>, sign64: string -> nat, tagData: map<string, int>,
                   input: Input, d: nat)
    requires d < |briefs|
    ensures Survives(docs, briefs, sign64, tagData, input, d) <==>
      Passes(briefs[d], tagData, input.condition)
      && TokenWeight(docs, sign64, FirstTokens(input.token), d) > 0
  {
    hide TokenWeight, TokenMatches, Passes;
    MatchBounds(docs, sign64, FirstTokens(input.token), d);
    MatchesSome(docs, sign64, FirstTokens(input.token), d);
    assert forall t | 0 <= t < |FirstTokens(input.token)| :: FirstTokens(input.token)[t] == input.token[t];
  }

  /** The scan is the list of all survivors. */
  lemma {:induction false} ScanIs(docs: seq<Doc>, briefs: seq<Brief>, sign64: string -> nat, tagData: map<string, int>,
                                  input: Input, n: nat)
    requires n <= |briefs|
    ensures var scan := NaiveScan(docs, briefs, sign64, tagData, input, n);
      forall d: nat :: HasObj(scan, d) <==> d < n && Survives(docs, briefs, sign64, tagData, input, d)
  {
    hide TokenWeight, Passes, Survives;
    if n > 0 {
      ScanIs(docs, briefs, sign64, tagData, input, n - 1);
      SurvivesIs(docs, briefs, sign64, tagData, input, n - 1);
      var rest := NaiveScan(docs, briefs, sign64, tagData, input, n - 1);
      HasObjCons(Obj(briefs[n - 1].id, n - 1, TokenWeight(docs, sign64, FirstTokens(input.token), n - 1)), rest);
    }
  }

  lemma HasObjCons(o: Obj, rest: seq<Obj>)
    ensures forall d: nat :: HasObj([o] + rest, d) <==> d == o.objId || HasObj(rest, d)
  {
    var s := [o] + rest;
    assert s[0] == o && forall k | 0 <= k < |rest| :: s[k + 1] == rest[k];
    forall d: nat ensures HasObj(s, d) <==> d == o.objId || HasObj(rest, d) {
      if HasObj(rest, d) {
        var k := ObjAt(rest, d);
        assert s[k + 1].objId == d;
      }
    }
  }

  function NosUpTo(scan: seq<Obj>, k: nat): set<nat>
    requires k <= |scan|
  {
    set i | 0 <= i < k :: scan[i].objId
  }

  lemma {:induction false} NosUpToSize(scan: seq<Obj>, k: nat)
    requires ObjDescending(scan) && k <= |scan|
    ensures |NosUpTo(scan, k)| == k
  {
    if k > 0 {
      NosUpToSize(scan, k - 1);
      assert NosUpTo(scan, k) == NosUpTo(scan, k - 1) + {scan[k - 1].objId};
      assert scan[k - 1].objId !in NosUpTo(scan, k - 1);
    }
  }

  /** At position k of the scan stands the survivor that k others exceed. */
  lemma PlaceInScan(docs: seq<Doc>, briefs: seq<Brief>, sign64: string -> nat, tagData: map<string, int>,
                    input: Input, k: nat)
    requires k < |NaiveScan(docs, briefs, sign64, tagData, input, |briefs|)|
    ensures var d := NaiveScan(docs, briefs, sign64, tagData, input, |briefs|)[k].objId;
      && Survives(docs, briefs, sign64, tagData, input, d)
      && |Above(docs, briefs, sign64, tagData, input, d)| == k
  {
    hide NaiveScan, Survives;
    var scan := NaiveScan(docs, briefs, sign64, tagData, input, |briefs|);
    ScanObjects(docs, briefs, sign64, tagData, input, |briefs|);
    ScanIs(docs, briefs, sign64, tagData, input, |briefs|);
    NosUpToSize(scan, k);
    var d := scan[k].objId;
    assert HasObj(scan, d);
    forall e: nat ensures e in Above(docs, briefs, sign64, tagData, input, d) <==> e in NosUpTo(scan, k) {
      if e in NosUpTo(scan, k) {
        var i :| 0 <= i < k && scan[i].objId == e;
        assert scan[i] in scan && HasObj(scan, e);
      }
      if e in Above(docs, briefs, sign64, tagData, input, d) {
        var i := ObjAt(scan, e);
        assert k < i ==> scan[k].objId > scan[i].objId;
      }
    }
    assert Above(docs, briefs, sign64, tagData, input, d) == NosUpTo(scan, k);
  }

  /** The documents with the 760 highest numbers among the survivors are the first 760 of the scan. */
  lemma TopOfScan(docs: seq<Doc>, briefs: seq<Brief>, sign64: string -> nat, tagData: map<string, int>,
                  input: Input, d: nat)
    ensures var scan := NaiveScan(docs, briefs, sign64, tagData, input, |briefs|);
      Survives(docs, briefs, sign64, tagData, input, d) && |Above(docs, briefs, sign64, tagData, input, d)| < 760
      <==> exists k | 0 <= k < |scan| && k < 760 :: scan[k].objId == d
  {
    hide NaiveScan, Survives, Above;
    var scan := NaiveScan(docs, briefs, sign64, tagData, input, |briefs|);
    ScanIs(docs, briefs, sign64, tagData, input, |briefs|);
    if Survives(docs, briefs, sign64, tagData, input, d) {
      SurvivesBelow(docs, briefs, sign64, tagData, input, d);
      var k := ObjAt(scan, d);
      PlaceInScan(docs, briefs, sign64, tagData, input, k);
    }
    if k: nat :| k < |scan| && k < 760 && scan[k].objId == d {
      PlaceInScan(docs, briefs, sign64, tagData, input, k);
    }
  }

  lemma SurvivesBelow(docs: seq<Doc>, briefs: seq<Brief>, sign64: string -> nat, tagData: map<string, int>,
                      input: Input, d: nat)
    requires Survives(docs, briefs, sign64, tagData, input, d)
    ensures d < |briefs|
  {
  }

  /** What a ranking of given objects puts out. */
  lemma RankingIs(briefs: seq<Brief>, objs: seq<Obj>)
    requires ObjDescending(objs) && NamedBy(briefs, objs)
    ensures var r := Sorting.Sort(objs, Heavier);
      && |Ids(r)| == |r| == |objs|
      && (forall k | 0 <= k < |r| :: r[k] in objs && r[k].objId < |briefs| && Ids(r)[k] == briefs[r[k].objId].id)
      && (forall o | o in objs :: o in r)
      && (forall i, j | 0 <= i < j < |r| :: r[i].weight > r[j].weight
                                            || (r[i].weight == r[j].weight && r[i].objId > r[j].objId))
  {
    hide Sorting.Sort, Heavier;
    var r := Sorting.Sort(objs, Heavier);
    Sorting.SameElements(objs, r);
    SortRanks(objs);
    forall i, j | 0 <= i < j < |objs| ensures objs[i] != objs[j] {
      assert objs[i].objId > objs[j].objId;
    }
    Sorting.DistinctSort(objs, r);
    forall i, j | 0 <= i < j < |r|
      ensures r[i].weight > r[j].weight || (r[i].weight == r[j].weight && r[i].objId > r[j].objId)
    {
      assert Ranked(r[i], r[j]) && r[i] != r[j] && r[i] in objs && r[j] in objs;
      var a :| 0 <= a < |objs| && objs[a] == r[i];
      var b :| 0 <= b < |objs| && objs[b] == r[j];
      assert a < b || b < a;
    }
  }

  /** The objects that are ranked: the scan, cut off behind the 760th, whose weight is `w`. */
  function Shown(scan: seq<Obj>, w: nat): seq<Obj> {
    if |scan| < MAX_RECALL_NUM then scan else Truncated(scan, w)
  }

  lemma ShownAre(briefs: seq<Brief>, scan: seq<Obj>, w: nat)
    requires ObjDescending(scan) && NamedBy(briefs, scan)
    ensures var objs := Shown(scan, w);
      && |objs| == (if |scan| < 760 then |scan| else 760)
      && ObjDescending(objs) && NamedBy(briefs, objs)
      && forall k | 0 <= k < |objs| ::
           objs[k].objId == scan[k].objId && objs[k].weight == if k == 759 then w else scan[k].weight
  {
    var objs := Shown(scan, w);
    forall k | 0 <= k < |objs| ensures objs[k].objId == scan[k].objId && objs[k].id == scan[k].id {}
    forall o | o in objs ensures o.objId < |briefs| && o.id == briefs[o.objId].id {
      var k :| 0 <= k < |objs| && objs[k] == o;
      assert scan[k] in scan;
    }
  }

  /** The weight a survivor is ranked by: all its tokens count, but for the one that 759 others exceed. */
  function RankWeight(docs: seq<Doc>, briefs: seq<Brief>, sign64: string -> nat, tagData: map<string, int>,
                      input: Input, d: nat, w: nat): nat
  {
    if |Above(docs, briefs, sign64, tagData, input, d)| == 759 then w
    else TokenWeight(docs, sign64, if |input.token| <= 15 then input.token else input.token[..15], d)
  }

  lemma RankWeightIs(docs: seq<Doc>, briefs: seq<Brief>, sign64: string -> nat, tagData: map<string, int>,
                     input: Input, k: nat, w: nat)
    requires k < |NaiveScan(docs, briefs, sign64, tagData, input, |briefs|)|
    ensures var o := NaiveScan(docs, briefs, sign64, tagData, input, |briefs|)[k];
      RankWeight(docs, briefs, sign64, tagData, input, o.objId, w) == if k == 759 then w else o.weight
  {
    hide NaiveScan, Survives, Above, TokenWeight;
    PlaceInScan(docs, briefs, sign64, tagData, input, k);
    ScanObjects(docs, briefs, sign64, tagData, input, |briefs|);
    assert NaiveScan(docs, briefs, sign64, tagData, input, |briefs|)[k]
           in NaiveScan(docs, briefs, sign64, tagData, input, |briefs|);
  }

  /** What the ids of an answer are: those of the briefs of the survivors that fewer than 760 others exceed,
      heavier documents first and on equal weight the one with the higher number; the last of 760 weighs
      what one of its matching tokens adds. */
  lemma AnswerIs(docs: seq<Doc>, briefs: seq<Brief>, sign64: string -> nat, tagData: map<string, int>,
                 input: Input, out: seq<int>)
    returns (order: seq<nat>, w: nat)
    ensures IsAnswer(docs, briefs, sign64, tagData, input, out) ==>
      && |order| == |out|
      && (forall k | 0 <= k < |out| :: order[k] < |briefs| && out[k] == briefs[order[k]].id)
      && (forall d: nat :: d in order <==>
            && Survives(docs, briefs, sign64, tagData, input, d)
            && |Above(docs, briefs, sign64, tagData, input, d)| < 760)
      && (forall i, j | 0 <= i < j < |order| ::
            var x := RankWeight(docs, briefs, sign64, tagData, input, order[i], w);
            var y := RankWeight(docs, briefs, sign64, tagData, input, order[j], w);
            x > y || (x == y && order[i] > order[j]))
      && (forall d | d in order && |Above(docs, briefs, sign64, tagData, input, d)| == 759 ::
            exists t | 0 <= t < |input.token| && t < 15 ::
              input.token[t] != "" && w == DocWeight(docs, sign64(input.token[t]), d) > 0)
  {
    hide NaiveScan, Survives, Above, TokenWeight, DocWeight, Sorting.Sort, Heavier, Ids, Shown, Truncated, RankWeight;
    order, w := [], 0;
    if IsAnswer(docs, briefs, sign64, tagData, input, out) {
      var scan := NaiveScan(docs, briefs, sign64, tagData, input, |briefs|);
      w := AnswerShown(docs, briefs, sign64, tagData, input, out);
      ScanObjects(docs, briefs, sign64, tagData, input, |briefs|);
      ShownAre(briefs, scan, w);
      var objs := Shown(scan, w);
      RankingIs(briefs, objs);
      var r := Sorting.Sort(objs, Heavier);
      order := DocNos(r);
      forall o | o in objs
        ensures o.weight == RankWeight(docs, briefs, sign64, tagData, input, o.objId, w)
      {
        var k :| 0 <= k < |objs| && objs[k] == o;
        RankWeightIs(docs, briefs, sign64, tagData, input, k, w);
      }
      forall d: nat ensures d in order <==>
        && Survives(docs, briefs, sign64, tagData, input, d)
        && |Above(docs, briefs, sign64, tagData, input, d)| < 760
      {
        TopOfScan(docs, briefs, sign64, tagData, input, d);
        InOrder(objs, r, d);
      }
      forall d | d in order && |Above(docs, briefs, sign64, tagData, input, d)| == 759
        ensures exists t | 0 <= t < |input.token| && t < 15 ::
          input.token[t] != "" && w == DocWeight(docs, sign64(input.token[t]), d) > 0
      {
        InOrder(objs, r, d);
        var k: nat :| k < |objs| && objs[k].objId == d;
        PlaceInScan(docs, briefs, sign64, tagData, input, k);
      }
    }
  }

  lemma InOrder(objs: seq<Obj>, r: seq<Obj>, d: nat)
    requires (forall o | o in objs :: o in r) && forall k | 0 <= k < |r| :: r[k] in objs
    ensures d in DocNos(r) <==> exists k | 0 <= k < |objs| :: objs[k].objId == d
  {
    if d in DocNos(r) {
      var i :| 0 <= i < |r| && DocNos(r)[i] == d;
      assert r[i] in objs;
    }
    if k :| 0 <= k < |objs| && objs[k].objId == d {
      assert objs[k] in objs && objs[k] in r;
      var i :| 0 <= i < |r| && r[i] == objs[k];
      assert DocNos(r)[i] == d;
    }
  }

  lemma AnswerShown(docs: seq<Doc>, briefs: seq<Brief>, sign64: string -> nat, tagData: map<string, int>,
                    input: Input, out: seq<int>)
    returns (w: nat)
    requires IsAnswer(docs, briefs, sign64, tagData, input, out)
    ensures var scan := NaiveScan(docs, briefs, sign64, tagData, input, |briefs|);
      && out == Ids(Sorting.Sort(Shown(scan, w), Heavier))
      && (|scan| >= 760 ==> exists t | 0 <= t < |input.token| && t < 15 ::
            input.token[t] != "" && w == DocWeight(docs, sign64(input.token[t]), scan[759].objId) > 0)
  {
    hide NaiveScan, DocWeight, Sorting.Sort, Heavier, Ids, Truncated;
    var scan, tokens := NaiveScan(docs, briefs, sign64, tagData, input, |briefs|), FirstTokens(input.token);
    w := 0;
    if |scan| >= MAX_RECALL_NUM {
      var id := scan[MAX_RECALL_NUM - 1].objId;
      var t :| 0 <= t < |tokens| && tokens[t] != "" && DocWeight(docs, sign64(tokens[t]), id) > 0
        && out == Ids(Sorting.Sort(Truncated(scan, DocWeight(docs, sign64(tokens[t]), id)), Heavier));
      w := DocWeight(docs, sign64(tokens[t]), id);
      assert input.token[t] == tokens[t];
    }
  }

  /** With fewer than 760 survivors an id is in the answer exactly if it is that of a survivor. */
  lemma AnswerContains(docs: seq<Doc>, briefs: seq<Brief>, sign64: string -> nat, tagData: map<string, int>,
                       input: Input, out: seq<int>, x: int)
    ensures IsAnswer(docs, briefs, sign64, tagData, input, out)
      && (forall d: nat | Survives(docs, briefs, sign64, tagData, input, d) ::
            |Above(docs, briefs, sign64, tagData, input, d)| < 760)
      ==> (x in out <==> exists d: nat :: Survives(docs, briefs, sign64, tagData, input, d) && briefs[d].id == x)
  {
    hide IsAnswer, Above, Survives;
    var order, w := AnswerIs(docs, briefs, sign64, tagData, input, out);
    if IsAnswer(docs, briefs, sign64, tagData, input, out)
      && (forall d: nat | Survives(docs, briefs, sign64, tagData, input, d) ::
            |Above(docs, briefs, sign64, tagData, input, d)| < 760)
    {
      if x in out {
        var k :| 0 <= k < |out| && out[k] == x;
        assert order[k] in order;
      }
      if d: nat :| Survives(docs, briefs, sign64, tagData, input, d) && briefs[d].id == x {
        var k :| 0 <= k < |order| && order[k] == d;
        assert out[k] == x;
      }
    }
  }

  // ---- a query of one token --------------------------------------------------------------

  /** The tenths the hits of a term are worth before the cap: one for each field and hit. */
  function FieldHits(docs: seq<Doc>, s: nat, id: nat): nat {
    if id < |docs| then PopCount(Fields(docs[id], s)) * (Count(docs[id], s) % 2048) else 0
  }

  lemma MoreHitsWeighMore(docs: seq<Doc>, s: nat, d: nat, e: nat)
    requires DocWeight(docs, s, d) > 0 && DocWeight(docs, s, e) > 0
    ensures DocWeight(docs, s, d) > DocWeight(docs, s, e)
      <==> FieldHits(docs, s, d) > FieldHits(docs, s, e) && FieldHits(docs, s, e) < 5
  {
    hide PopCount, Fields, Count;
  }

  /** For a query of one token, of two documents the one with more field hits comes first, unless both have
      five or more. */
  lemma MoreHitsFirst(docs: seq<Doc>, briefs: seq<Brief>, sign64: string -> nat, tagData: map<string, int>,
                      input: Input, txt: string)
    requires input.token == [txt] && txt != ""
    ensures var out := Sorting.Sort(NaiveScan(docs, briefs, sign64, tagData, input, |briefs|), Heavier);
      forall i, j | 0 <= i < |out| && 0 <= j < |out|
                    && FieldHits(docs, sign64(txt), out[i].objId) > FieldHits(docs, sign64(txt), out[j].objId)
                    && FieldHits(docs, sign64(txt), out[j].objId) < 5 :: i < j
  {
    hide NaiveScan, TokenWeight, FieldHits, Ranked, Sorting.Sort, DocWeight;
    var scan := NaiveScan(docs, briefs, sign64, tagData, input, |briefs|);
    var out := Sorting.Sort(scan, Heavier);
    ScanObjects(docs, briefs, sign64, tagData, input, |briefs|);
    ScanPositive(docs, briefs, sign64, tagData, input, |briefs|);
    Sorting.SameElements(scan, out);
    SortRanks(scan);
    forall i, j | 0 <= j <= i < |out|
      ensures FieldHits(docs, sign64(txt), out[i].objId) <= FieldHits(docs, sign64(txt), out[j].objId)
              || FieldHits(docs, sign64(txt), out[j].objId) >= 5
    {
      assert out[i] in scan && out[j] in scan;
      OneToken(docs, sign64, txt, out[i].objId);
      OneToken(docs, sign64, txt, out[j].objId);
      MoreHitsWeighMore(docs, sign64(txt), out[i].objId, out[j].objId);
      assert j < i ==> Ranked(out[j], out[i]);
      RankedMeans(out[j], out[i]);
    }
  }

  lemma {:induction false} ScanPositive(docs: seq<Doc>, briefs: seq<Brief>, sign64: string -> nat,
                                        tagData: map<string, int>, input: Input, n: nat)
    requires n <= |briefs|
    ensures forall o | o in NaiveScan(docs, briefs, sign64, tagData, input, n) :: o.weight > 0
  {
    hide TokenWeight, Passes;
    if n > 0 {
      ScanPositive(docs, briefs, sign64, tagData, input, n - 1);
    }
  }

  /** An empty token adds nothing. */
  lemma EmptyToken(docs: seq<Doc>, sign64: string -> nat, id: nat)
    ensures TokenWeight(docs, sign64, [""], id) == 0 && TokenWeight(docs, sign64, [], id) == 0
  {
    assert [""][..0] == [];
  }
}
