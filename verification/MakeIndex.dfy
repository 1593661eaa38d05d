/** The builder program (makeindex/makeindex.cpp): every input line becomes a document and a brief, or
    is rejected without a trace. */
module MakeIndex {
  import opened IndexTypes
  import Sorting
  import IndexSpec
  import FlushSpec
  import IM = IndexMaker
  import opened BriefFile
  import Filters
  import Catalog
  import CatalogSpec

  /** A line as the JSON reader sees it. None stands for an access that throws. */
  datatype Line =
    | Unparsable
    | Line(tid: Option<int>, typ: Option<int>, fCatalog: Option<string>, sCatalog: Option<string>,
           tag: Option<seq<Option<string>>>, zanNum: Option<int>, commentNum: Option<int>,
           desc: Option<seq<Option<string>>>)

  predicate AllSome<T>(s: seq<Option<T>>) {
    forall i | 0 <= i < |s| :: s[i].Some?
  }

  function Values<T>(s: seq<Option<T>>): (r: seq<T>)
    requires AllSome(s)
    ensures |r| == |s|
  {
    seq(|s|, i requires 0 <= i < |s| => s[i].value)
  }

  predicate ReadableLine(line: Line) {
    && line.Line? && line.tid.Some? && line.typ.Some? && line.fCatalog.Some? && line.sCatalog.Some?
    && line.tag.Some? && AllSome(line.tag.value) && line.zanNum.Some? && line.commentNum.Some?
    && line.desc.Some? && AllSome(line.desc.value)
  }

  function Named(field: string, values: seq<string>): (r: seq<(string, string)>)
    ensures |r| == |values|
  {
    seq(|values|, i requires 0 <= i < |values| => (field, values[i]))
  }

  /** The fields of a line, in the order they are indexed. */
  function LineFields(line: Line, catalogId: int): seq<(string, string)>
    requires ReadableLine(line)
  {
    (if catalogId > 0 then [("catalog", line.fCatalog.value), ("catalog", line.sCatalog.value)] else [])
    + Named("tag", Values(line.tag.value)) + Named("description", Values(line.desc.value))
  }

  function LineBrief(line: Line, catalogId: int, tagData: map<string, int>): Brief
    requires ReadableLine(line)
  {
    Brief(line.tid.value, line.typ.value, if catalogId > 0 then catalogId else 0,
          Sorting.Sort(Filters.KnownTags(Values(line.tag.value), tagData), Filters.AtMost),
          line.zanNum.value, line.commentNum.value)
  }

  /** The entries of a list of fields; None when a field is unknown or cannot be segmented. */
  function DocOf(fieldMap: map<string, FieldSet>, segment: string -> Option<seq<IM.Token>>,
                 fields: seq<(string, string)>): Option<IndexSpec.Doc>
  {
    if fields == [] then Some([])
    else
      var n := |fields| - 1;
      var front := DocOf(fieldMap, segment, fields[..n]);
      var (field, value) := fields[n];
      if front.None? || field !in fieldMap || segment(value).None? then None
      else Some(front.value + IM.FieldEntries(segment(value).value, fieldMap[field], n))
  }

  lemma KnownNothing(tagData: map<string, int>)
    ensures Filters.KnownTags([], tagData) == [] && Values<string>([]) == []
  {
  }

  lemma KnownStep(tag: seq<Option<string>>, i: nat, tagData: map<string, int>)
    requires i < |tag| && AllSome(tag[..i + 1])
    ensures AllSome(tag[..i])
    ensures var rest := Filters.KnownTags(Values(tag[..i]), tagData);
      Filters.KnownTags(Values(tag[..i + 1]), tagData)
      == if tag[i].value in tagData then rest + [tagData[tag[i].value]] else rest
  {
    assert forall k | 0 <= k < i :: tag[..i][k] == tag[..i + 1][k];
    var next := Values(tag[..i + 1]);
    assert next[..i] == Values(tag[..i]) && tag[..i + 1][i] == tag[i];
  }

  lemma {:induction false} DocOfPrefix(fieldMap: map<string, FieldSet>, segment: string -> Option<seq<IM.Token>>,
                                       a: seq<(string, string)>, b: seq<(string, string)>)
    requires DocOf(fieldMap, segment, a).None?
    ensures DocOf(fieldMap, segment, a + b).None?
  {
    if b == [] {
      assert a + b == a;
    } else {
      DocOfPrefix(fieldMap, segment, a, b[..|b| - 1]);
      assert (a + b)[..|a + b| - 1] == a + b[..|b| - 1];
    }
  }

  /** The tokens of a text; none if it cannot be segmented. */
  function TokensOf(segment: string -> Option<seq<IM.Token>>, text: string): seq<IM.Token> {
    if segment(text).Some? then segment(text).value else []
  }

  /** Token j of field i has the sign. */
  predicate StandsAt(segment: string -> Option<seq<IM.Token>>, fields: seq<(string, string)>, s: nat, i: int, j: int) {
    0 <= i < |fields| && 0 <= j < |TokensOf(segment, fields[i].1)| && TokensOf(segment, fields[i].1)[j].sign == s
  }

  /** Where a sign stands in the fields: the numbers of a field and of a token in it. */
  function Places(segment: string -> Option<seq<IM.Token>>, fields: seq<(string, string)>, s: nat): set<(int, int)> {
    set i, j | 0 <= i < |fields| && 0 <= j < |TokensOf(segment, fields[i].1)| && StandsAt(segment, fields, s, i, j)
      :: (i, j)
  }

  function InRow(n: int, js: set<nat>): set<(int, int)> {
    set j | j in js :: (n, j)
  }

  lemma {:induction false} RowCount(n: int, js: set<nat>)
    ensures |InRow(n, js)| == |js|
  {
    if x :| x in js {
      RowCount(n, js - {x});
      assert InRow(n, js) == InRow(n, js - {x}) + {(n, x)} && (n, x) !in InRow(n, js - {x});
    } else {
      assert js == {} && InRow(n, js) == {};
    }
  }

  lemma PlaceIs(segment: string -> Option<seq<IM.Token>>, fields: seq<(string, string)>, s: nat, p: (int, int))
    ensures p in Places(segment, fields, s) <==> StandsAt(segment, fields, s, p.0, p.1)
  {
    assert p == (p.0, p.1);
  }

  lemma PlacesStep(segment: string -> Option<seq<IM.Token>>, fields: seq<(string, string)>, s: nat)
    requires fields != []
    ensures var n := |fields| - 1;
      var last := TokensOf(segment, fields[n].1);
      |Places(segment, fields, s)|
      == |Places(segment, fields[..n], s)| + |set j | 0 <= j < |last| && last[j].sign == s|
  {
    hide Places, TokensOf;
    var n := |fields| - 1;
    var front, last := fields[..n], TokensOf(segment, fields[n].1);
    var js := set j | 0 <= j < |last| && last[j].sign == s;
    RowCount(n, js);
    var here := InRow(n, js);
    var rest, all := Places(segment, front, s), Places(segment, fields, s);
    forall p: (int, int)
      ensures p in all <==> p in rest || p in here
      ensures !(p in rest && p in here)
    {
      PlaceIs(segment, fields, s, p);
      PlaceIs(segment, front, s, p);
      assert p.0 == n ==> (p in here <==> p.1 in js) by {
        assert p == (p.0, p.1);
      }
    }
    assert all == rest + here && rest !! here;
  }

  lemma DocOfStep(fieldMap: map<string, FieldSet>, segment: string -> Option<seq<IM.Token>>,
                  fields: seq<(string, string)>)
    requires fields != [] && DocOf(fieldMap, segment, fields).Some?
    ensures var n := |fields| - 1;
      && DocOf(fieldMap, segment, fields[..n]).Some? && fields[n].0 in fieldMap
      && DocOf(fieldMap, segment, fields).value == DocOf(fieldMap, segment, fields[..n]).value
           + IM.FieldEntries(TokensOf(segment, fields[n].1), fieldMap[fields[n].0], n)
  {
  }

  /** A list of fields can be indexed exactly if every field is known and every value can be segmented. */
  lemma {:induction false} DocOfWhen(fieldMap: map<string, FieldSet>, segment: string -> Option<seq<IM.Token>>,
                                     fields: seq<(string, string)>)
    ensures DocOf(fieldMap, segment, fields).Some?
      <==> forall i | 0 <= i < |fields| :: fields[i].0 in fieldMap && segment(fields[i].1).Some?
  {
    if fields != [] {
      var n := |fields| - 1;
      DocOfWhen(fieldMap, segment, fields[..n]);
      assert forall i | 0 <= i < n :: fields[..n][i] == fields[i];
    }
  }

  /** Its document has one entry of a sign for every token with it, in whatever field. */
  lemma {:induction false} DocOfCounts(fieldMap: map<string, FieldSet>, segment: string -> Option<seq<IM.Token>>,
                                       fields: seq<(string, string)>, s: nat)
    requires DocOf(fieldMap, segment, fields).Some?
    ensures IndexSpec.Count(DocOf(fieldMap, segment, fields).value, s) == |Places(segment, fields, s)|
  {
    if fields == [] {
      assert Places(segment, fields, s) == {};
    } else {
      var n := |fields| - 1;
      DocOfStep(fieldMap, segment, fields);
      hide DocOf, Places, TokensOf;
      DocOfCounts(fieldMap, segment, fields[..n], s);
      IM.FieldAdded(DocOf(fieldMap, segment, fields[..n]).value, TokensOf(segment, fields[n].1), fieldMap[fields[n].0],
                    n, s);
      PlacesStep(segment, fields, s);
    }
  }

  /** A token of the field has the sign, and the number of the field has a bit of the mask. */
  predicate Marks(fieldMap: map<string, FieldSet>, segment: string -> Option<seq<IM.Token>>,
                  field: (string, string), s: nat, mask: FieldSet) {
    && field.0 in fieldMap && fieldMap[field.0] & mask != 0
    && exists j | 0 <= j < |TokensOf(segment, field.1)| :: TokensOf(segment, field.1)[j].sign == s
  }

  /** And the fields of a sign are those with a token of it. */
  lemma {:induction false} DocOfFields(fieldMap: map<string, FieldSet>, segment: string -> Option<seq<IM.Token>>,
                                       fields: seq<(string, string)>, s: nat, mask: FieldSet)
    requires DocOf(fieldMap, segment, fields).Some?
    ensures IndexSpec.Fields(DocOf(fieldMap, segment, fields).value, s) & mask != 0
      <==> exists i | 0 <= i < |fields| :: Marks(fieldMap, segment, fields[i], s, mask)
  {
    if fields != [] {
      var n := |fields| - 1;
      DocOfStep(fieldMap, segment, fields);
      hide DocOf, TokensOf, Marks;
      DocOfFields(fieldMap, segment, fields[..n], s, mask);
      MarksMore(fieldMap, segment, fields[n], DocOf(fieldMap, segment, fields[..n]).value, n, s, mask);
      assert forall i | 0 <= i < n :: fields[..n][i] == fields[i];
    }
  }

  lemma MarksMore(fieldMap: map<string, FieldSet>, segment: string -> Option<seq<IM.Token>>,
                  field: (string, string), before: IndexSpec.Doc, no: nat, s: nat, mask: FieldSet)
    requires field.0 in fieldMap
    ensures var after := before + IM.FieldEntries(TokensOf(segment, field.1), fieldMap[field.0], no);
      IndexSpec.Fields(after, s) & mask != 0
      <==> IndexSpec.Fields(before, s) & mask != 0 || Marks(fieldMap, segment, field, s, mask)
  {
    hide TokensOf;
    var last := TokensOf(segment, field.1);
    IM.AddedSigns(before, last, fieldMap[field.0], no);
    IndexSpec.OrMask(IndexSpec.Fields(before, s),
                     if exists i | 0 <= i < |last| :: last[i].sign == s then fieldMap[field.0] else 0, mask);
  }

  /** Everything outside the input lines that decides what they become. */
  datatype Env = Env(
    fieldMap: map<string, FieldSet>,
    segment: string -> Option<seq<IM.Token>>,
    catalogs: seq<CatalogSpec.Row>,
    tagData: map<string, int>,
    ser: Serializer)

  /** The document and the brief read from a line; None when a part is missing or cannot be indexed. */
  ghost function LineContent(env: Env, line: Line): Option<(IndexSpec.Doc, Brief)> {
    if !ReadableLine(line) then None
    else
      var id := CatalogSpec.CatalogId(env.catalogs, line.fCatalog.value, line.sCatalog.value);
      var doc := DocOf(env.fieldMap, env.segment, LineFields(line, id));
      if doc.None? then None else Some((doc.value, LineBrief(line, id, env.tagData)))
  }

  /** The document and the brief of a line, or None for a rejected line: besides an unreadable one, a line
      whose brief cannot be written, being too large to serialise or serialising to nothing. */
  ghost function LineResult(env: Env, line: Line): Option<(IndexSpec.Doc, Brief)> {
    var c := LineContent(env, line);
    if c.Some? && 0 < |env.ser(c.value.1)| < 0x8000_0000 then c else None
  }

  /** The indexed fields of a line: its two catalog names if it has a catalog, its tags and its descriptions. */
  lemma LineFieldsAre(line: Line, id: int)
    requires ReadableLine(line)
    ensures var fields, c, t := LineFields(line, id), if id > 0 then 2 else 0, |line.tag.value|;
      && |fields| == c + t + |line.desc.value|
      && (id > 0 ==> fields[0] == ("catalog", line.fCatalog.value) && fields[1] == ("catalog", line.sCatalog.value))
      && (forall i | 0 <= i < t :: fields[c + i] == ("tag", line.tag.value[i].value))
      && (forall i | 0 <= i < |line.desc.value| :: fields[c + t + i] == ("description", line.desc.value[i].value))
  {
  }

  /** All the fields can be indexed. */
  ghost predicate Indexes(env: Env, fields: seq<(string, string)>) {
    forall i | 0 <= i < |fields| :: fields[i].0 in env.fieldMap && env.segment(fields[i].1).Some?
  }

  /** A line is read exactly if nothing of it is missing and all its fields can be indexed; its document is
      that of these fields. */
  lemma LineReads(env: Env, line: Line)
    ensures LineContent(env, line).Some? ==> ReadableLine(line)
    ensures ReadableLine(line) ==>
      var id := CatalogSpec.CatalogId(env.catalogs, line.fCatalog.value, line.sCatalog.value);
      && (LineContent(env, line).Some? <==> Indexes(env, LineFields(line, id)))
      && (LineContent(env, line).Some? ==>
            DocOf(env.fieldMap, env.segment, LineFields(line, id)) == Some(LineContent(env, line).value.0))
  {
    hide DocOf, LineFields, CatalogSpec.CatalogId;
    if ReadableLine(line) {
      var id := CatalogSpec.CatalogId(env.catalogs, line.fCatalog.value, line.sCatalog.value);
      DocOfWhen(env.fieldMap, env.segment, LineFields(line, id));
    }
  }

  /** The text has a token with the sign. */
  ghost predicate Says(env: Env, text: string, s: nat) {
    env.segment(text).Some? && exists j | 0 <= j < |env.segment(text).value| :: env.segment(text).value[j].sign == s
  }

  /** The document of a read line contains a sign exactly if a token of one of the indexed fields has it. */
  lemma LineContains(env: Env, line: Line, s: nat)
    requires LineContent(env, line).Some?
    ensures ReadableLine(line)
    ensures var id := CatalogSpec.CatalogId(env.catalogs, line.fCatalog.value, line.sCatalog.value);
      var doc := LineContent(env, line).value.0;
      (exists i | 0 <= i < |doc| :: doc[i].sign == s) <==>
        || (id > 0 && (Says(env, line.fCatalog.value, s) || Says(env, line.sCatalog.value, s)))
        || (exists i | 0 <= i < |line.tag.value| :: Says(env, line.tag.value[i].value, s))
        || (exists i | 0 <= i < |line.desc.value| :: Says(env, line.desc.value[i].value, s))
  {
    hide DocOf, CatalogSpec.CatalogId, LineContent, LineFields, Says;
    LineReads(env, line);
    var id := CatalogSpec.CatalogId(env.catalogs, line.fCatalog.value, line.sCatalog.value);
    var fields := LineFields(line, id);
    DocSays(env, fields, s);
    LineFieldsAre(line, id);
    FieldsSay(env, line, id, s);
  }

  lemma DocSays(env: Env, fields: seq<(string, string)>, s: nat)
    requires DocOf(env.fieldMap, env.segment, fields).Some?
    ensures var doc := DocOf(env.fieldMap, env.segment, fields).value;
      (exists i | 0 <= i < |doc| :: doc[i].sign == s) <==> exists i | 0 <= i < |fields| :: Says(env, fields[i].1, s)
  {
    hide DocOf, Places;
    var doc, all := DocOf(env.fieldMap, env.segment, fields).value, Places(env.segment, fields, s);
    DocOfCounts(env.fieldMap, env.segment, fields, s);
    IndexSpec.CountFinds(doc, s);
    if i :| 0 <= i < |fields| && Says(env, fields[i].1, s) {
      var j :| 0 <= j < |env.segment(fields[i].1).value| && env.segment(fields[i].1).value[j].sign == s;
      PlaceIs(env.segment, fields, s, (i, j));
    }
    if p: (int, int) :| p in all {
      PlaceIs(env.segment, fields, s, p);
      assert Says(env, fields[p.0].1, s);
    }
    assert all == {} <==> |all| == 0;
  }

  lemma FieldsSay(env: Env, line: Line, id: int, s: nat)
    requires ReadableLine(line)
    ensures var fields := LineFields(line, id);
      (exists i | 0 <= i < |fields| :: Says(env, fields[i].1, s)) <==>
        || (id > 0 && (Says(env, line.fCatalog.value, s) || Says(env, line.sCatalog.value, s)))
        || (exists i | 0 <= i < |line.tag.value| :: Says(env, line.tag.value[i].value, s))
        || (exists i | 0 <= i < |line.desc.value| :: Says(env, line.desc.value[i].value, s))
  {
    hide Says, LineFields;
    LineFieldsAre(line, id);
    var fields, c, t := LineFields(line, id), if id > 0 then 2 else 0, |line.tag.value|;
    forall i | 0 <= i < |fields| && Says(env, fields[i].1, s)
      ensures || (id > 0 && (Says(env, line.fCatalog.value, s) || Says(env, line.sCatalog.value, s)))
              || (exists i | 0 <= i < |line.tag.value| :: Says(env, line.tag.value[i].value, s))
              || (exists i | 0 <= i < |line.desc.value| :: Says(env, line.desc.value[i].value, s))
    {
      if c <= i < c + t {
        assert fields[i] == fields[c + (i - c)] && Says(env, line.tag.value[i - c].value, s);
      } else if c + t <= i {
        assert fields[i] == fields[c + t + (i - c - t)] && Says(env, line.desc.value[i - c - t].value, s);
      }
    }
    if id > 0 && Says(env, line.fCatalog.value, s) {
      assert Says(env, fields[0].1, s);
    }
    if id > 0 && Says(env, line.sCatalog.value, s) {
      assert Says(env, fields[1].1, s);
    }
    if i :| 0 <= i < t && Says(env, line.tag.value[i].value, s) {
      assert Says(env, fields[c + i].1, s);
    }
    if i :| 0 <= i < |line.desc.value| && Says(env, line.desc.value[i].value, s) {
      assert Says(env, fields[c + t + i].1, s);
    }
  }

  /** The brief of a line: its numbers, its catalog if it has one, and the ids of its known tags in order, each
      as often as a tag has it. */
  lemma LineBriefIs(line: Line, id: int, tagData: map<string, int>, x: int)
    requires ReadableLine(line)
    ensures var b, tag := LineBrief(line, id, tagData), line.tag.value;
      && Some(b.id) == line.tid && Some(b.typ) == line.typ && b.catalogId == (if id > 0 then id else 0)
      && Some(b.zanNum) == line.zanNum && Some(b.commentNum) == line.commentNum
      && Filters.Ascending(b.tagIds)
      && multiset(b.tagIds)[x]
         == |set i | 0 <= i < |tag| && tag[i].value in tagData && tagData[tag[i].value] == x|
  {
    TagsSorted(line, id, tagData);
    var tag, tags := line.tag.value, Values(line.tag.value);
    Filters.KnownTagsAre(tags, tagData, x);
    var a := set i | 0 <= i < |tags| && tags[i] in tagData && tagData[tags[i]] == x;
    var b := set i | 0 <= i < |tag| && tag[i].value in tagData && tagData[tag[i].value] == x;
    assert a == b;
  }

  /** A read line's brief. */
  lemma LineBriefOf(env: Env, line: Line)
    requires LineContent(env, line).Some?
    ensures ReadableLine(line) && LineContent(env, line).value.1
      == LineBrief(line, CatalogSpec.CatalogId(env.catalogs, line.fCatalog.value, line.sCatalog.value), env.tagData)
  {
    hide DocOf, CatalogSpec.CatalogId, LineBrief;
  }

  /** The brief serialises to nothing: its length is out before the write fails. */
  ghost predicate Spoils(env: Env, line: Line) {
    var c := LineContent(env, line);
    c.Some? && env.ser(c.value.1) == []
  }

  /** A line whose catalogs are looked up names a top-level catalog that can be searched, or none at all. */
  ghost predicate Searched(env: Env, line: Line) {
    line.Line? && line.tid.Some? && line.typ.Some? && line.fCatalog.Some? && line.sCatalog.Some? ==>
      CatalogSpec.Searchable(env.catalogs, line.fCatalog.value)
  }

  /** The documents of a run: those of the accepted lines, in order. */
  ghost function DocsOf(env: Env, lines: seq<Line>): seq<IndexSpec.Doc> {
    if lines == [] then []
    else
      var n := |lines| - 1;
      var r := LineResult(env, lines[n]);
      DocsOf(env, lines[..n]) + if r.None? then [] else [r.value.0]
  }

  ghost function BriefsOf(env: Env, lines: seq<Line>): (b: seq<Brief>)
    ensures |b| == |DocsOf(env, lines)|
  {
    if lines == [] then []
    else
      var n := |lines| - 1;
      var r := LineResult(env, lines[n]);
      BriefsOf(env, lines[..n]) + if r.None? then [] else [r.value.1]
  }

  /** Document k and brief k come from the same accepted line. */
  lemma {:induction false} SameLine(env: Env, lines: seq<Line>, k: nat) returns (l: nat)
    requires k < |DocsOf(env, lines)|
    ensures l < |lines| && LineResult(env, lines[l]) == Some((DocsOf(env, lines)[k], BriefsOf(env, lines)[k]))
  {
    hide LineResult;
    var n := |lines| - 1;
    if k < |DocsOf(env, lines[..n])| {
      l := SameLine(env, lines[..n], k);
    } else {
      l := n;
    }
  }

  /** The documents and briefs are those of the accepted lines, all of them, in the order of the lines. */
  lemma {:induction false} AcceptedLines(env: Env, lines: seq<Line>) returns (at: seq<nat>)
    ensures |at| == |DocsOf(env, lines)| == |BriefsOf(env, lines)|
    ensures forall k | 0 <= k < |at| ::
      at[k] < |lines| && LineResult(env, lines[at[k]]) == Some((DocsOf(env, lines)[k], BriefsOf(env, lines)[k]))
    ensures forall i, k | 0 <= i < k < |at| :: at[i] < at[k]
    ensures forall l: nat | l < |lines| :: LineResult(env, lines[l]).Some? <==> l in at
  {
    hide LineResult;
    at := [];
    if lines != [] {
      var n := |lines| - 1;
      var front := lines[..n];
      at := AcceptedLines(env, front);
      assert forall l | 0 <= l < n :: front[l] == lines[l];
      if LineResult(env, lines[n]).Some? {
        at := at + [n];
      }
    }
  }

  lemma TagsSorted(line: Line, catalogId: int, tagData: map<string, int>)
    requires ReadableLine(line)
    ensures Filters.Ascending(LineBrief(line, catalogId, tagData).tagIds)
  {
    var ids := Filters.KnownTags(Values(line.tag.value), tagData);
    Sorting.SortSorted(ids, Filters.AtMost);
    var s := Sorting.Sort(ids, Filters.AtMost);
    forall i, j | 0 <= i < j < |s| ensures s[i] <= s[j] {
      assert Filters.AtMost(s[i], s[j]);
    }
  }

  /** The tags of every brief are sorted, as the tag filter needs them. */
  lemma BriefTagsSorted(env: Env, lines: seq<Line>, k: nat)
    requires k < |BriefsOf(env, lines)|
    ensures Filters.Ascending(BriefsOf(env, lines)[k].tagIds)
  {
    var l := SameLine(env, lines, k);
    hide DocOf, CatalogSpec.CatalogId;
    var id := CatalogSpec.CatalogId(env.catalogs, lines[l].fCatalog.value, lines[l].sCatalog.value);
    TagsSorted(lines[l], id, env.tagData);
  }

  class MakeIndex {
    const maker: IM.IndexMaker
    const catalogReader: Catalog.CatalogDataReader
    const tagData: map<string, int>
    const ser: Serializer

    var briefFile: seq<Byte>
    ghost var briefs: seq<Brief>
    ghost var spoiled: bool
    ghost const env: Env

    /** What no line changes: the dictionaries. */
    ghost predicate Prepared()
      reads catalogReader, catalogReader.catalogList
    {
      EnvMatches() && catalogReader.Loaded(env.catalogs)
    }

    /** The brief file holds exactly one record per document, unless an empty brief has spoiled it. */
    ghost predicate BriefsMatch()
      reads this, maker`docs
    {
      && |briefs| == |maker.docs|
      && Writable(briefs, ser)
      && if spoiled then Spoiled(briefFile, briefs, ser) else briefFile == Frames(briefs, ser)
    }

    /** Nothing has been read or written yet. */
    ghost predicate Fresh()
      reads this, maker
    {
      maker.docs == [] && briefs == [] && !spoiled && maker.indexFile == [] && maker.termFile == []
    }

    ghost predicate Valid()
      reads this, maker, maker.termArr, maker.buffer, catalogReader, catalogReader.catalogList
    {
      maker.Valid() && Prepared() && BriefsMatch()
    }

    constructor (fieldMap: map<string, FieldSet>, segment: string -> Option<seq<IM.Token>>,
                 catalogReader: Catalog.CatalogDataReader, tagData: map<string, int>, ser: Serializer,
                 ghost catalogs: seq<CatalogSpec.Row>)
      requires catalogReader.Loaded(catalogs)
      ensures Valid() && env == Env(fieldMap, segment, catalogs, tagData, ser) && this.ser == ser
      ensures Fresh() && briefFile == []
      ensures fresh(maker) && fresh(maker.Repr())
    {
      maker := new IM.IndexMaker(fieldMap, segment);
      this.catalogReader := catalogReader;
      this.tagData := tagData;
      this.ser := ser;
      briefFile := [];
      briefs := [];
      spoiled := false;
      env := Env(fieldMap, segment, catalogs, tagData, ser);
    }

    /** write_brief. */
    method WriteBrief(brief: Brief) returns (ret: int)
      modifies this`briefFile
      ensures var n := |ser(brief)|;
        && ret == (if n >= 0x8000_0000 then 1 else if n == 0 then 3 else 0)
        && briefFile == old(briefFile) + if ret == 0 then Frame(ser(brief)) else if n == 0 then EncodeSize(0) else []
    {
      var record := ser(brief);
      if |record| >= 0x8000_0000 {
        return 1;
      }
      briefFile := briefFile + EncodeSize(|record|);
      if |record| == 0 {
        return 3;
      }
      briefFile := briefFile + record;
      return 0;
    }

    ghost function DocFor(fields: seq<(string, string)>): Option<IndexSpec.Doc> {
      DocOf(maker.fieldMap, maker.segment, fields)
    }

    /** The maker holds the entries of the given fields and nothing else of the line. */
    ghost predicate Building(fields: seq<(string, string)>)
      reads this, maker, maker.termArr, maker.buffer
    {
      maker.Valid() && maker.fieldNum == |fields| && DocFor(fields) == Some(maker.Pending())
    }

    /** One add_field call. */
    method AddField(field: string, value: string, ghost fields: seq<(string, string)>) returns (failed: bool)
      requires Building(fields)
      modifies maker`buffer, maker`bufferSize, maker`objIndexNum, maker`fieldNum, maker.buffer
      ensures fresh(maker.BufferObj() - old(maker.BufferObj())) && maker.Valid()
      ensures failed <==> DocFor(fields + [(field, value)]).None?
      ensures !failed ==> Building(fields + [(field, value)])
    {
      assert (fields + [(field, value)])[..|fields|] == fields;
      var ret := maker.AddField(field, value);
      failed := ret != 0;
    }

    /** All values can be read and indexed. */
    ghost predicate Indexable(fields: seq<(string, string)>, field: string, values: seq<Option<string>>) {
      AllSome(values) && DocFor(fields + Named(field, Values(values))).Some?
    }

    ghost predicate BuiltUpTo(fields: seq<(string, string)>, field: string, values: seq<Option<string>>)
      reads this, maker, maker.termArr, maker.buffer
    {
      AllSome(values) && Building(fields + Named(field, Values(values)))
    }

    /** One round of a loop over an array of strings: -1 when the element throws, 1 when it cannot be
        indexed. */
    method AddOne(field: string, values: seq<Option<string>>, i: nat, ghost fields: seq<(string, string)>)
      returns (code: int)
      requires i < |values| && BuiltUpTo(fields, field, values[..i])
      modifies maker`buffer, maker`bufferSize, maker`objIndexNum, maker`fieldNum, maker.buffer
      ensures fresh(maker.BufferObj() - old(maker.BufferObj())) && maker.Valid()
      ensures code == 0 ==> values[i].Some? && BuiltUpTo(fields, field, values[..i + 1])
      ensures code != 0 ==> !Indexable(fields, field, values)
    {
      hide DocOf, Building, Indexable, IM.IndexMaker.IndexValid;
      if values[i].None? {
        NotIndexable(fields, field, values, i);
        BuildingValid(fields + Named(field, Values(values[..i])));
        return -1;
      }
      NamedStep(fields, field, values, i);
      var failed := AddField(field, values[i].value, fields + Named(field, Values(values[..i])));
      if failed {
        FailedForGood(fields, field, values, i);
        return 1;
      }
      return 0;
    }

    lemma NotIndexable(fields: seq<(string, string)>, field: string, values: seq<Option<string>>, i: nat)
      requires i < |values| && values[i].None?
      ensures !Indexable(fields, field, values)
    {
    }

    static lemma NamedStep(fields: seq<(string, string)>, field: string, values: seq<Option<string>>, i: nat)
      requires i < |values| && AllSome(values[..i]) && values[i].Some?
      ensures AllSome(values[..i + 1])
      ensures fields + Named(field, Values(values[..i])) + [(field, values[i].value)]
              == fields + Named(field, Values(values[..i + 1]))
    {
      var seen, next := Values(values[..i]), Values(values[..i + 1]);
      assert next == seen + [values[i].value];
      assert Named(field, next) == Named(field, seen) + [(field, values[i].value)];
    }

    lemma BuiltNothing(fields: seq<(string, string)>, field: string)
      requires Building(fields)
      ensures BuiltUpTo(fields, field, []) && maker.Valid()
    {
      assert fields + [] == fields;
    }

    lemma BuiltAll(fields: seq<(string, string)>, field: string, values: seq<Option<string>>)
      requires BuiltUpTo(fields, field, values)
      ensures Indexable(fields, field, values) && AllSome(values) && Building(fields + Named(field, Values(values)))
    {
    }

    /** Once a field fails, so does the whole line. */
    lemma FailedForGood(fields: seq<(string, string)>, field: string, values: seq<Option<string>>, i: nat)
      requires i < |values| && AllSome(values[..i + 1]) && DocFor(fields + Named(field, Values(values[..i + 1]))).None?
      ensures !Indexable(fields, field, values)
    {
      hide DocOf;
      if AllSome(values) {
        var all, seen := Values(values), Values(values[..i + 1]);
        assert seen == all[..i + 1];
        assert fields + Named(field, all) == (fields + Named(field, seen)) + Named(field, all[i + 1..]);
        DocOfPrefix(maker.fieldMap, maker.segment, fields + Named(field, seen), Named(field, all[i + 1..]));
      }
    }

    /** The loop over the tags: each is indexed, and the known ones are collected. */
    method AddTags(tag: seq<Option<string>>, ghost fields: seq<(string, string)>) returns (ret: int, tagId: seq<int>)
      requires Building(fields)
      modifies maker`buffer, maker`bufferSize, maker`objIndexNum, maker`fieldNum, maker.buffer
      ensures fresh(maker.BufferObj() - old(maker.BufferObj())) && maker.Valid()
      ensures ret == 0 <==> Indexable(fields, "tag", tag)
      ensures ret == 0 ==>
        && AllSome(tag) && Building(fields + Named("tag", Values(tag)))
        && tagId == Filters.KnownTags(Values(tag), tagData)
    {
      hide Indexable, Building, BuiltUpTo, Filters.KnownTags, IM.IndexMaker.IndexValid;
      tagId := [];
      BuiltNothing(fields, "tag");
      KnownNothing(tagData);
      for i := 0 to |tag|
        invariant fresh(maker.BufferObj() - old(maker.BufferObj())) && maker.Valid()
        invariant BuiltUpTo(fields, "tag", tag[..i])
        invariant AllSome(tag[..i]) && tagId == Filters.KnownTags(Values(tag[..i]), tagData)
      {
        var code := AddOne("tag", tag, i, fields);
        if code != 0 {
          return (if code < 0 then -1 else 4), [];
        }
        KnownStep(tag, i, tagData);
        if tag[i].value in tagData {
          tagId := tagId + [tagData[tag[i].value]];
        }
      }
      assert tag[..|tag|] == tag;
      BuiltAll(fields, "tag", tag);
      return 0, tagId;
    }

    /** The loop over the descriptions. */
    method AddDescriptions(desc: seq<Option<string>>, ghost fields: seq<(string, string)>) returns (ret: int)
      requires Building(fields)
      modifies maker`buffer, maker`bufferSize, maker`objIndexNum, maker`fieldNum, maker.buffer
      ensures fresh(maker.BufferObj() - old(maker.BufferObj())) && maker.Valid()
      ensures ret == 0 <==> Indexable(fields, "description", desc)
      ensures ret == 0 ==> AllSome(desc) && Building(fields + Named("description", Values(desc)))
    {
      hide Indexable, Building, BuiltUpTo, IM.IndexMaker.IndexValid;
      BuiltNothing(fields, "description");
      for i := 0 to |desc|
        invariant fresh(maker.BufferObj() - old(maker.BufferObj())) && maker.Valid()
        invariant BuiltUpTo(fields, "description", desc[..i])
      {
        var code := AddOne("description", desc, i, fields);
        if code != 0 {
          return if code < 0 then -1 else 7;
        }
      }
      assert desc[..|desc|] == desc;
      BuiltAll(fields, "description", desc);
      return 0;
    }

    /** The two catalog fields of a line whose catalog is known. */
    method AddCatalogs(catalogId: int, f: string, s: string) returns (ret: int)
      requires Building([])
      modifies maker`buffer, maker`bufferSize, maker`objIndexNum, maker`fieldNum, maker.buffer
      ensures fresh(maker.BufferObj() - old(maker.BufferObj())) && maker.Valid()
      ensures var fields := if catalogId > 0 then [("catalog", f), ("catalog", s)] else [];
        && (ret == 0 <==> DocFor(fields).Some?) && (ret == 0 ==> Building(fields))
    {
      hide DocOf, Building, IM.IndexMaker.IndexValid;
      BuildingValid([]);
      if catalogId > 0 {
        assert [] + [("catalog", f)] == [("catalog", f)];
        var failed := AddField("catalog", f, []);
        if failed {
          CatalogsFail(f, s);
          return 3;
        }
        assert [("catalog", f)] + [("catalog", s)] == [("catalog", f), ("catalog", s)];
        failed := AddField("catalog", s, [("catalog", f)]);
        if failed {
          return 3;
        }
        BuildingValid([("catalog", f), ("catalog", s)]);
      }
      return 0;
    }

    lemma BuildingValid(fields: seq<(string, string)>)
      requires Building(fields)
      ensures maker.Valid() && DocFor(fields).Some?
    {
    }

    lemma CatalogsFail(f: string, s: string)
      requires DocFor([("catalog", f)]).None?
      ensures DocFor([("catalog", f), ("catalog", s)]).None?
    {
      DocOfPrefix(maker.fieldMap, maker.segment, [("catalog", f)], [("catalog", s)]);
      assert [("catalog", f)] + [("catalog", s)] == [("catalog", f), ("catalog", s)];
    }

    lemma BuildingNothing()
      requires maker.Valid() && maker.Pending() == [] && maker.fieldNum == 0
      ensures Building([])
    {
    }

    /** The catalog fields of a readable head of a line. */
    static ghost function CatalogFields(line: Line, catalogId: int): seq<(string, string)>
      requires line.Line? && line.fCatalog.Some? && line.sCatalog.Some?
    {
      if catalogId > 0 then [("catalog", line.fCatalog.value), ("catalog", line.sCatalog.value)] else []
    }

    ghost predicate EnvMatches()
    {
      env == Env(maker.fieldMap, maker.segment, env.catalogs, tagData, ser)
    }

    lemma Unreadable(line: Line)
      requires !ReadableLine(line)
      ensures LineContent(env, line) == None
    {
    }

    /** A line is lost as soon as one of its parts cannot be read or indexed. */
    lemma Unread(line: Line, catalogId: int)
      requires EnvMatches() && line.Line? && line.fCatalog.Some? && line.sCatalog.Some?
      requires catalogId == CatalogSpec.CatalogId(env.catalogs, line.fCatalog.value, line.sCatalog.value)
      requires var fields := CatalogFields(line, catalogId);
        || DocFor(fields).None?
        || (line.tag.Some? && !Indexable(fields, "tag", line.tag.value))
        || (line.tag.Some? && line.desc.Some? && AllSome(line.tag.value)
            && !Indexable(fields + Named("tag", Values(line.tag.value)), "description", line.desc.value))
      ensures LineContent(env, line) == None
    {
      hide DocOf, CatalogSpec.CatalogId;
      if ReadableLine(line) {
        var fields := CatalogFields(line, catalogId);
        var tags, descs := Named("tag", Values(line.tag.value)), Named("description", Values(line.desc.value));
        assert LineFields(line, catalogId) == fields + tags + descs;
        if DocFor(fields).None? {
          DocOfPrefix(maker.fieldMap, maker.segment, fields, tags);
        }
        if DocFor(fields + tags).None? {
          DocOfPrefix(maker.fieldMap, maker.segment, fields + tags, descs);
        }
      }
    }

    lemma Read(line: Line, catalogId: int)
      requires EnvMatches() && ReadableLine(line)
      requires catalogId == CatalogSpec.CatalogId(env.catalogs, line.fCatalog.value, line.sCatalog.value)
      requires Building(CatalogFields(line, catalogId) + Named("tag", Values(line.tag.value))
                        + Named("description", Values(line.desc.value)))
      ensures LineContent(env, line) == Some((maker.Pending(), LineBrief(line, catalogId, tagData)))
    {
      hide DocOf, CatalogSpec.CatalogId;
    }

    /** The part of handle_line before write_brief: any code but 0 rejects the line. */
    method ReadLine(line: Line) returns (ret: int, brief: Brief)
      requires maker.Valid() && maker.Pending() == [] && maker.fieldNum == 0 && Prepared() && Searched(env, line)
      modifies maker`buffer, maker`bufferSize, maker`objIndexNum, maker`fieldNum, maker.buffer
      ensures fresh(maker.BufferObj() - old(maker.BufferObj())) && maker.Valid()
      ensures ret == 0 <==> LineContent(env, line).Some?
      ensures ret == 0 ==> LineContent(env, line) == Some((maker.Pending(), brief))
    {
      hide DocOf, Indexable, Building, EnvMatches, LineContent, IM.IndexMaker.IndexValid;
      hide Filters.KnownTags, CatalogSpec.CatalogId, Sorting.Sort;
      if !ReadableLine(line) {
        Unreadable(line);
      }
      brief := Brief(0, 0, 0, [], 0, 0);
      if line.Unparsable? || line.tid.None? || line.typ.None? || line.fCatalog.None? || line.sCatalog.None? {
        return -1, brief;
      }
      var f, s := line.fCatalog.value, line.sCatalog.value;
      var catalogId := catalogReader.GetCatalogId(f, s, env.catalogs);
      BuildingNothing();
      ghost var fields := CatalogFields(line, catalogId);
      ret := AddCatalogs(catalogId, f, s);
      if ret != 0 {
        Unread(line, catalogId);
        return ret, brief;
      }
      if line.tag.None? {
        return -1, brief;
      }
      var tagId;
      ret, tagId := AddTags(line.tag.value, fields);
      if ret != 0 {
        Unread(line, catalogId);
        return ret, brief;
      }
      ghost var tagged := fields + Named("tag", Values(line.tag.value));
      if line.zanNum.None? || line.commentNum.None? || line.desc.None? {
        return -1, brief;
      }
      ret := AddDescriptions(line.desc.value, tagged);
      if ret != 0 {
        Unread(line, catalogId);
        return ret, brief;
      }
      brief := Brief(line.tid.value, line.typ.value, if catalogId > 0 then catalogId else 0,
                     Sorting.Sort(tagId, Filters.AtMost), line.zanNum.value, line.commentNum.value);
      Read(line, catalogId);
      return 0, brief;
    }

    /** handle_line: an accepted line adds one document and one brief, a rejected one adds neither. */
    method HandleLine(line: Line) returns (ret: int)
      requires Valid() && Searched(env, line)
      modifies this`briefFile, this`briefs, this`spoiled, maker.Repr()
      ensures Valid() && fresh(maker.Repr() - old(maker.Repr()))
      ensures maker.indexFile == old(maker.indexFile) && maker.termFile == old(maker.termFile)
      ensures ret == 0 <==> LineResult(env, line).Some?
      ensures ret == 0 ==>
        && maker.docs == old(maker.docs) + [LineResult(env, line).value.0]
        && briefs == old(briefs) + [LineResult(env, line).value.1]
      ensures ret != 0 ==> maker.docs == old(maker.docs) && briefs == old(briefs)
      ensures spoiled <==> old(spoiled) || Spoils(env, line)
    {
      hide Prepared, BriefsMatch, LineContent, IM.IndexMaker.IndexValid;
      SameSer();
      var brief;
      ret, brief := StartLine(line);
      if ret != 0 {
        return ret;
      }
      label Read:
      ret := FinishLine(brief);
      assert Prepared() == old@Read(Prepared());
    }

    lemma SameSer()
      requires Valid()
      ensures env.ser == ser
    {
    }

    /** start_obj and everything up to write_brief. */
    method StartLine(line: Line) returns (ret: int, brief: Brief)
      requires Valid() && Searched(env, line)
      modifies maker`buffer, maker`bufferSize, maker`objIndexNum, maker`fieldNum, maker.buffer
      ensures Valid() && fresh(maker.BufferObj() - old(maker.BufferObj()))
      ensures ret == 0 <==> LineContent(env, line).Some?
      ensures ret == 0 ==> LineContent(env, line) == Some((maker.Pending(), brief))
    {
      hide Prepared, BriefsMatch, LineContent, Searched, IM.IndexMaker.IndexValid;
      maker.StartObj();
      ret, brief := ReadLine(line);
      assert Prepared() == old(Prepared()) && BriefsMatch() == old(BriefsMatch());
    }

    /** The end of handle_line: the brief is written and the document is finished. */
    method FinishLine(brief: Brief) returns (ret: int)
      requires maker.Valid() && BriefsMatch()
      modifies this`briefFile, this`briefs, this`spoiled, maker.Repr()
      ensures maker.Valid() && BriefsMatch() && fresh(maker.Repr() - old(maker.Repr()))
      ensures maker.indexFile == old(maker.indexFile) && maker.termFile == old(maker.termFile)
      ensures ret == 0 <==> 0 < |ser(brief)| < 0x8000_0000
      ensures ret == 0 ==> maker.docs == old(maker.docs) + [old(maker.Pending())] && briefs == old(briefs) + [brief]
      ensures ret != 0 ==> maker.docs == old(maker.docs) && briefs == old(briefs)
      ensures spoiled <==> old(spoiled) || ser(brief) == []
    {
      hide Writable, Frames, Frame, Spoiled, IM.IndexMaker.IndexValid;
      NextBrief(brief);
      var written := WriteBrief(brief);
      if written != 0 {
        assert old(briefFile) + [] == old(briefFile);
        spoiled := spoiled || written == 3;
        return 8;
      }
      var finished := maker.FinishObj();
      if finished != 0 {
        return 9;
      }
      briefs := briefs + [brief];
      return 0;
    }

    /** What the next record, or the bare length of an empty one, makes of the brief file. */
    lemma NextBrief(brief: Brief)
      requires BriefsMatch()
      ensures 0 < |ser(brief)| < 0x8000_0000 ==>
        && Writable(briefs + [brief], ser)
        && (!spoiled ==> Frames(briefs + [brief], ser) == briefFile + Frame(ser(brief)))
        && (spoiled ==> Spoiled(briefFile + Frame(ser(brief)), briefs + [brief], ser))
      ensures Spoiled(briefFile + EncodeSize(0), briefs, ser)
    {
      hide Writable, Frames, Frame, Spoiled;
      if 0 < |ser(brief)| < 0x8000_0000 {
        FramesAppend(briefs, brief, ser);
        if spoiled {
          SpoiledStays(briefFile, briefs, ser, Frame(ser(brief)), [brief]);
        }
      }
      if spoiled {
        SpoiledStays(briefFile, briefs, ser, EncodeSize(0), []);
        assert briefs + [] == briefs;
      } else {
        SpoiledNow(briefs, ser);
      }
    }

    /** The line loop of makeindex, and the flush behind it. However many lines are rejected, brief k
        belongs to document k. */
    method Run(lines: seq<Line>) returns (ret: int)
      requires Valid() && Fresh() && forall line | line in lines :: Searched(env, line)
      modifies this`briefFile, this`briefs, this`spoiled, maker.Repr()
      ensures Valid() && ret == 0
      ensures maker.docs == DocsOf(env, lines) && briefs == BriefsOf(env, lines)
      ensures spoiled <==> exists line | line in lines :: Spoils(env, line)
      ensures maker.objNum == |briefs|
      ensures FlushSpec.Flushed(maker.docs, maker.termFile, maker.indexFile)
    {
      hide FlushSpec.Flushed, Prepared, Spoils, Searched, LineResult;
      ReadLines(lines);
      label Read:
      var flushed := maker.Flush();
      assert Prepared() == old@Read(Prepared()) && BriefsMatch() == old@Read(BriefsMatch());
      if flushed != 0 {
        return 4;
      }
      return 0;
    }

    method ReadLines(lines: seq<Line>)
      requires Valid() && Fresh() && forall line | line in lines :: Searched(env, line)
      modifies this`briefFile, this`briefs, this`spoiled, maker.Repr()
      ensures Valid() && fresh(maker.Repr() - old(maker.Repr()))
      ensures maker.docs == DocsOf(env, lines) && briefs == BriefsOf(env, lines)
      ensures spoiled <==> exists line | line in lines :: Spoils(env, line)
      ensures maker.indexFile == [] && maker.termFile == []
    {
      hide LineResult, Spoils, Searched, Prepared, BriefsMatch, IM.IndexMaker.IndexValid;
      for k := 0 to |lines|
        invariant Valid() && fresh(maker.Repr() - old(maker.Repr()))
        invariant maker.docs == DocsOf(env, lines[..k]) && briefs == BriefsOf(env, lines[..k])
        invariant spoiled <==> exists l | 0 <= l < k :: Spoils(env, lines[l])
        invariant maker.indexFile == [] && maker.termFile == []
      {
        assert lines[..k + 1][..k] == lines[..k] && lines[k] in lines;
        var handled := HandleLine(lines[k]);
      }
      assert lines[..|lines|] == lines;
    }
  }
}
