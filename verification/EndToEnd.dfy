/** The whole pipeline: build the index of some lines, load it and search it. */
module EndToEnd {
  import opened IndexTypes
  import IndexSpec
  import FlushSpec
  import BriefFile
  import Filters
  import Answer
  import CatalogSpec
  import Bs
  import Catalog
  import ID = IndexData
  import IM = IndexMaker
  import MI = MakeIndex
  import Sorting

  /** The index fits the reader: fewer than 2^32 documents, and at most 2^31 distinct signs in them. */
  ghost predicate Fitting(docs: seq<IndexSpec.Doc>) {
    |docs| <= Bs.NO_OBJ && |IndexSpec.Signs(docs)| <= 0x8000_0000
  }

  /** Loads what the builder wrote. It fails when no term was indexed, when a brief exceeds the reader's
      buffer and when an empty brief has spoiled the file, and succeeds otherwise. */
  method LoadBuilt(builder: MI.MakeIndex, parse: BriefFile.Parser) returns (index: ID.IndexData, ret: int)
    requires builder.Valid() && FlushSpec.Flushed(builder.maker.docs, builder.maker.termFile, builder.maker.indexFile)
    requires BriefFile.Inverse(builder.briefs, builder.ser, parse)
    ensures fresh(index)
    ensures ret == 0 <==>
      && (exists s: nat :: IndexSpec.Occurs(builder.maker.docs, s))
      && BriefFile.Fits(builder.briefs, builder.ser) && !builder.spoiled
    ensures ret == 0 ==> index.term == builder.maker.termFile && index.index == builder.maker.indexFile
    ensures ret == 0 ==> index.term != [] && index.brief == builder.briefs
  {
    hide FlushSpec.Flushed, IndexSpec.Occurs;
    hide BriefFile.Spoiled, BriefFile.Fits, BriefFile.Inverse, BriefFile.ParseBriefs, BriefFile.Frames;
    index := new ID.IndexData();
    ret := index.Load(builder.maker.indexFile, builder.maker.termFile, builder.briefFile, parse);
    FlushSpec.TermCount(builder.maker.docs, builder.maker.termFile, builder.maker.indexFile);
    if builder.spoiled {
      BriefFile.SpoiledFails(builder.briefFile, builder.briefs, builder.ser, parse);
    } else {
      BriefFile.BriefRoundTrip(builder.briefs, builder.ser, parse);
    }
  }

  /** Searching a loaded index gives the answer computed naively from the documents. */
  method SearchLoaded(index: ID.IndexData, ghost docs: seq<IndexSpec.Doc>, tagData: map<string, int>,
                      sign64: string -> nat, input: Bs.Input)
    returns (id: seq<int>)
    requires FlushSpec.Flushed(docs, index.term, index.index) && Fitting(docs)
    requires index.term != [] && |index.brief| <= Bs.NO_OBJ
    requires forall k | 0 <= k < |index.brief| :: Filters.Ascending(index.brief[k].tagIds)
    ensures Answer.IsAnswer(docs, index.brief, sign64, tagData, input, id)
  {
    FlushSpec.TermCount(docs, index.term, index.index);
    Answer.FlushedOk(docs, index.term, index.index, index.brief);
    var thread := new Bs.ThreadData(index, tagData, sign64);
    var errNo;
    ghost var recalled;
    errNo, id, recalled := thread.BasicSearch(input);
    Answer.SearchIsAnswer(docs, index.brief, index.term, index.index, sign64, tagData, input,
                          thread.tagFiltId, recalled);
  }

  /** The builder program: from the catalog file and the input lines to the files of the index. */
  method Build(env: MI.Env, lines: seq<MI.Line>) returns (builder: MI.MakeIndex)
    requires CatalogSpec.WellFormed(env.catalogs) && forall line | line in lines :: MI.Searched(env, line)
    ensures fresh(builder) && builder.Valid() && builder.ser == env.ser
    ensures builder.maker.docs == MI.DocsOf(env, lines) && builder.briefs == MI.BriefsOf(env, lines)
    ensures builder.spoiled <==> exists line | line in lines :: MI.Spoils(env, line)
    ensures FlushSpec.Flushed(builder.maker.docs, builder.maker.termFile, builder.maker.indexFile)
  {
    hide MI.DocsOf, MI.BriefsOf, MI.Searched, MI.Spoils, FlushSpec.Flushed, CatalogSpec.WellFormed;
    var reader := new Catalog.CatalogDataReader();
    reader.Load(env.catalogs);
    builder := new MI.MakeIndex(env.fieldMap, env.segment, reader, env.tagData, env.ser, env.catalogs);
    var ret := builder.Run(lines);
  }

  /** From the catalog file, the input lines and a query to the ids of the answer, which is the one
      computed naively from the accepted lines. None: the index cannot be loaded, because no term was
      indexed, a brief exceeds the reader's buffer or one serialised to nothing. */
  method BuildAndSearch(env: MI.Env, lines: seq<MI.Line>, parse: BriefFile.Parser, sign64: string -> nat,
                        input: Bs.Input)
    returns (r: Option<seq<int>>)
    requires CatalogSpec.WellFormed(env.catalogs) && forall line | line in lines :: MI.Searched(env, line)
    requires BriefFile.Inverse(MI.BriefsOf(env, lines), env.ser, parse) && Fitting(MI.DocsOf(env, lines))
    ensures var docs, briefs := MI.DocsOf(env, lines), MI.BriefsOf(env, lines);
      && (r.Some? <==>
            && (exists s: nat :: IndexSpec.Occurs(docs, s)) && BriefFile.Fits(briefs, env.ser)
            && !(exists line | line in lines :: MI.Spoils(env, line)))
      && (r.Some? ==> Answer.IsAnswer(docs, briefs, sign64, env.tagData, input, r.value))
  {
    hide MI.DocsOf, MI.BriefsOf, MI.Searched, MI.Spoils, FlushSpec.Flushed, Answer.IsAnswer;
    hide IndexSpec.Occurs, BriefFile.Fits, CatalogSpec.WellFormed;
    ghost var briefs := MI.BriefsOf(env, lines);
    var builder := Build(env, lines);
    var index, loaded := LoadBuilt(builder, parse);
    if loaded != 0 {
      return None;
    }
    forall k | 0 <= k < |briefs| ensures Filters.Ascending(briefs[k].tagIds) {
      MI.BriefTagsSorted(env, lines, k);
    }
    var id := SearchLoaded(index, builder.maker.docs, env.tagData, sign64, input);
    return Some(id);
  }

  // ---- that there is something to build --------------------------------------------------

  const LINE: MI.Line :=
    MI.Line(Some(7), Some(1), Some("news"), Some("home"), Some([Some("go")]), Some(0), Some(0), Some([]))

  const BRIEF: Brief := Brief(7, 1, 0, [], 0, 0)

  /** One catalog without children, one field, and one token whatever the text. */
  function SmallEnv(ser: BriefFile.Serializer): MI.Env {
    MI.Env(map["tag" := 1], (text: string) => Some([IM.Token(5, 0)]), [CatalogSpec.Row(1, "games", 0)], map[], ser)
  }

  lemma SmallCatalog(ser: BriefFile.Serializer)
    ensures CatalogSpec.WellFormed(SmallEnv(ser).catalogs)
    ensures CatalogSpec.CatalogId(SmallEnv(ser).catalogs, "news", "home") == -1
    ensures MI.Searched(SmallEnv(ser), LINE)
  {
    var rows := SmallEnv(ser).catalogs;
    assert rows[0].name != "news";
    CatalogSpec.SortKeepsTop(rows, "news");
    CatalogSpec.NoTopNoPair(Sorting.Sort(rows, CatalogSpec.CatalogLe), "news", "home");
    CatalogSpec.NoPairNoId(rows, "news", "home");
  }

  lemma SmallContent(ser: BriefFile.Serializer)
    ensures MI.LineContent(SmallEnv(ser), LINE) == Some(([Entry(5, 1, 0, 0)], BRIEF))
  {
    var env := SmallEnv(ser);
    SmallCatalog(ser);
    hide CatalogSpec.CatalogId;
    var fields := MI.LineFields(LINE, -1);
    assert MI.Values(LINE.tag.value) == ["go"];
    assert fields == [("tag", "go")];
    assert fields[..0] == [];
    assert MI.DocOf(env.fieldMap, env.segment, []) == Some([]);
    assert IM.FieldEntries([IM.Token(5, 0)], 1, 0) == [Entry(5, 1, 0, 0)];
    assert [] + [Entry(5, 1, 0, 0)] == [Entry(5, 1, 0, 0)];
    assert Filters.KnownTags(["go"], map[]) == Filters.KnownTags([], map[]) == [] by {
      assert ["go"][..0] == [];
    }
  }

  /** What BuildAndSearch demands can be met with any serialiser that fits the one brief into the reader's
      buffer, lossless or not, and then there is an index to search. */
  lemma SomethingToBuild(ser: BriefFile.Serializer) returns (parse: BriefFile.Parser)
    requires 0 < |ser(BRIEF)| <= BriefFile.BUFF_SIZE
    ensures var env, lines := SmallEnv(ser), [LINE];
      && CatalogSpec.WellFormed(env.catalogs) && (forall line | line in lines :: MI.Searched(env, line))
      && BriefFile.Inverse(MI.BriefsOf(env, lines), env.ser, parse) && Fitting(MI.DocsOf(env, lines))
      && (exists s: nat :: IndexSpec.Occurs(MI.DocsOf(env, lines), s))
      && BriefFile.Fits(MI.BriefsOf(env, lines), env.ser) && !MI.Spoils(env, LINE)
  {
    var env, lines := SmallEnv(ser), [LINE];
    SmallCatalog(ser);
    SmallContent(ser);
    hide MI.LineContent, MI.Searched, CatalogSpec.WellFormed;
    assert lines[..0] == [] && MI.DocsOf(env, []) == [] && MI.BriefsOf(env, []) == [];
    var docs := MI.DocsOf(env, lines);
    assert docs == [] + [[Entry(5, 1, 0, 0)]] == [[Entry(5, 1, 0, 0)]];
    assert MI.BriefsOf(env, lines) == [] + [BRIEF] == [BRIEF];
    parse := bytes => Some(BRIEF);
    IndexSpec.CountFinds(docs[0], 5);
    assert IndexSpec.Occurs(docs, 5);
    assert IndexSpec.Signs(docs) == {5};
  }
}
