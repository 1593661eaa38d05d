/** The catalog file as a relation, and what sorting it does (shared/catalog_data_reader.cpp). */
module CatalogSpec {
  import opened IndexTypes
  import opened Sorting

  /** One parsed line: id, name, parent id (0 at the top level). */
  datatype Row = Row(id: int, name: string, parentId: int)

  /** `std::string::compare(b) <= 0`. */
  predicate LexLe(a: string, b: string) {
    a == [] || (b != [] && (a[0] < b[0] || (a[0] == b[0] && LexLe(a[1..], b[1..]))))
  }

  /** At the first difference the smaller character comes first; a name comes before its continuations. */
  lemma {:induction false} LexLeIs(a: string, b: string, k: nat)
    requires k <= |a| && k <= |b| && a[..k] == b[..k]
    ensures k < |a| && k < |b| && a[k] != b[k] ==> (LexLe(a, b) <==> a[k] < b[k])
    ensures k == |a| ==> LexLe(a, b)
    ensures k == |b| < |a| ==> !LexLe(a, b)
  {
    if k > 0 {
      assert a[0] == a[..k][0] == b[..k][0] == b[0];
      assert a[1..][..k - 1] == a[..k][1..] == b[..k][1..] == b[1..][..k - 1];
      LexLeIs(a[1..], b[1..], k - 1);
    }
  }

  lemma {:induction false} LexTotal(a: string, b: string)
    ensures LexLe(a, b) || LexLe(b, a)
    ensures LexLe(a, b) && LexLe(b, a) ==> a == b
  {
    if a != [] && b != [] && a[0] == b[0] {
      LexTotal(a[1..], b[1..]);
      assert a == [a[0]] + a[1..] && b == [b[0]] + b[1..];
    }
  }

  lemma {:induction false} LexTransitive(a: string, b: string, c: string)
    requires LexLe(a, b) && LexLe(b, c)
    ensures LexLe(a, c)
  {
    if a != [] && a[0] == b[0] && b[0] == c[0] {
      LexTransitive(a[1..], b[1..], c[1..]);
    }
  }

  /** catalog_cmp: descending parent ids, then ascending names. */
  predicate CatalogLe(a: Row, b: Row) {
    if a.parentId != b.parentId then a.parentId > b.parentId else LexLe(a.name, b.name)
  }

  lemma CatalogOrder(rows: seq<Row>)
    ensures OrderOn(rows, CatalogLe)
  {
    forall x, y | x in rows && y in rows ensures CatalogLe(x, y) || CatalogLe(y, x) {
      LexTotal(x.name, y.name);
    }
    forall x, y, z | x in rows && y in rows && z in rows && CatalogLe(x, y) && CatalogLe(y, z) ensures CatalogLe(x, z) {
      if x.parentId == y.parentId == z.parentId {
        LexTransitive(x.name, y.name, z.name);
      }
    }
  }

  predicate HasParentBefore(lines: seq<Row>, k: nat)
    requires k < |lines|
  {
    lines[k].parentId == 0 || exists j | 0 <= j < k :: lines[j].id == lines[k].parentId
  }

  predicate DistinctIds(lines: seq<Row>) {
    && (forall k | 0 <= k < |lines| :: lines[k].id != 0)
    && (forall i, j | 0 <= i < j < |lines| :: lines[i].id != lines[j].id)
  }

  predicate DistinctNames(lines: seq<Row>) {
    forall i, j | 0 <= i < j < |lines| && lines[i].parentId == lines[j].parentId :: lines[i].name != lines[j].name
  }

  /** The files the reader is made for: distinct non-zero ids, and distinct names under each parent (the
      comparator answers true for equals). */
  predicate WellFormed(lines: seq<Row>) {
    DistinctIds(lines) && DistinctNames(lines)
  }

  lemma WellFormedPrefix(lines: seq<Row>, n: nat)
    requires WellFormed(lines) && n <= |lines|
    ensures WellFormed(lines[..n])
  {
  }

  /** The catalog has a line, and no line up to it is one of its children. */
  predicate LineFirst(lines: seq<Row>, id: int) {
    exists k | 0 <= k < |lines| :: lines[k].id == id && NoneBelow(lines[..k + 1], id)
  }

  predicate NoneBelow(lines: seq<Row>, id: int) {
    forall j | 0 <= j < |lines| :: lines[j].parentId != id
  }

  /** The file names the id, as a catalog or as a parent. */
  predicate Mentioned(lines: seq<Row>, id: int) {
    exists k | 0 <= k < |lines| :: lines[k].id == id || lines[k].parentId == id
  }

  lemma LineFirstKept(lines: seq<Row>, line: Row, k: nat)
    requires DistinctIds(lines + [line]) && k < |lines|
    ensures LineFirst(lines + [line], lines[k].id) <==> LineFirst(lines, lines[k].id)
  {
    var all, id := lines + [line], lines[k].id;
    assert all[k] == lines[k] && all[..k + 1] == lines[..k + 1];
    assert all[..|lines|] == lines && forall i | 0 <= i < |lines| :: all[i] == lines[i];
    LineFirstAt(lines, k);
    LineFirstAt(all, k);
  }

  lemma LineFirstAt(lines: seq<Row>, k: nat)
    requires DistinctIds(lines) && k < |lines|
    ensures LineFirst(lines, lines[k].id) <==> NoneBelow(lines[..k + 1], lines[k].id)
  {
    if m :| 0 <= m < |lines| && lines[m].id == lines[k].id && NoneBelow(lines[..m + 1], lines[k].id) {
      assert m == k;
    }
  }

  /** In a file with every parent before its children, each parent's line comes first. */
  lemma ParentsFirst(lines: seq<Row>, id: int)
    requires DistinctIds(lines) && id != 0 && HasChild(lines, id)
    requires forall k | 0 <= k < |lines| :: HasParentBefore(lines, k)
    ensures LineFirst(lines, id)
  {
    var c :| 0 <= c < |lines| && lines[c].parentId == id;
    assert HasParentBefore(lines, c);
    var k :| 0 <= k < c && lines[k].id == id;
    assert forall m | 0 <= m < |lines| && lines[m].id == id :: m == k;
    var head := lines[..k + 1];
    forall j | 0 <= j < |head| ensures head[j].parentId != id {
      assert HasParentBefore(lines, j);
    }
  }

  /** The catalog has at least one child. */
  predicate HasChild(rows: seq<Row>, id: int) {
    exists j | 0 <= j < |rows| :: rows[j].parentId == id
  }

  /** The reader can look below the catalog: it has a child, and its line comes before its first child's.
      The children of a line that comes too late hang on an object that stands for no line. */
  predicate CanSearch(lines: seq<Row>, id: int) {
    HasChild(lines, id) && LineFirst(lines, id)
  }

  predicate IsTop(rows: seq<Row>, i: nat, name: string) {
    i < |rows| && rows[i].parentId == 0 && rows[i].name == name
  }

  predicate IsChildOf(rows: seq<Row>, j: nat, parentId: int, name: string) {
    j < |rows| && rows[j].parentId == parentId && rows[j].name == name
  }

  /** Catalog `id` has the given name and a top-level parent with the given name. */
  ghost predicate ChildRelation(rows: seq<Row>, parent: string, name: string, id: int) {
    exists i: nat, j: nat :: IsTop(rows, i, parent) && IsChildOf(rows, j, rows[i].id, name) && rows[j].id == id
  }

  lemma RelationElements(a: seq<Row>, b: seq<Row>, parent: string, name: string, id: int)
    requires multiset(a) == multiset(b) && ChildRelation(a, parent, name, id)
    ensures ChildRelation(b, parent, name, id)
  {
    SameElements(a, b);
    var i: nat, j: nat :| IsTop(a, i, parent) && IsChildOf(a, j, a[i].id, name) && a[j].id == id;
    assert a[i] in a && a[j] in a;
    var i' :| 0 <= i' < |b| && b[i'] == a[i];
    var j' :| 0 <= j' < |b| && b[j'] == a[j];
    assert IsTop(b, i', parent) && IsChildOf(b, j', b[i'].id, name);
  }

  /** Sorting the list keeps the relation. */
  lemma SortKeepsRelation(lines: seq<Row>, parent: string, name: string, id: int)
    ensures ChildRelation(Sort(lines, CatalogLe), parent, name, id) <==> ChildRelation(lines, parent, name, id)
  {
    if ChildRelation(lines, parent, name, id) {
      RelationElements(lines, Sort(lines, CatalogLe), parent, name, id);
    }
    if ChildRelation(Sort(lines, CatalogLe), parent, name, id) {
      RelationElements(Sort(lines, CatalogLe), lines, parent, name, id);
    }
  }

  /** A sorted list of a well-formed file: siblings stand together, in strictly ascending name order. */
  predicate Arranged(rows: seq<Row>) {
    && DistinctIds(rows)
    && (forall i, j | 0 <= i < j < |rows| :: rows[i].parentId >= rows[j].parentId)
    && (forall i, j | 0 <= i < j < |rows| && rows[i].parentId == rows[j].parentId ::
          LexLe(rows[i].name, rows[j].name) && rows[i].name != rows[j].name)
  }

  lemma RowKept(lines: seq<Row>, k: nat) returns (m: nat)
    requires k < |lines|
    ensures m < |lines| && Sort(lines, CatalogLe)[m] == lines[k]
  {
    SameElements(lines, Sort(lines, CatalogLe));
    assert lines[k] in lines;
    m :| 0 <= m < |lines| && Sort(lines, CatalogLe)[m] == lines[k];
  }

  lemma RowFrom(lines: seq<Row>, k: nat) returns (m: nat)
    requires k < |lines|
    ensures m < |lines| && lines[m] == Sort(lines, CatalogLe)[k]
  {
    SameElements(lines, Sort(lines, CatalogLe));
    assert Sort(lines, CatalogLe)[k] in Sort(lines, CatalogLe);
    m :| 0 <= m < |lines| && lines[m] == Sort(lines, CatalogLe)[k];
  }

  lemma SortArranges(lines: seq<Row>)
    requires WellFormed(lines)
    ensures Arranged(Sort(lines, CatalogLe))
  {
    hide Sort, CatalogLe;
    var rows := Sort(lines, CatalogLe);
    CatalogOrder(lines);
    SortSorted(lines, CatalogLe);
    forall i, j | 0 <= i < j < |lines| ensures lines[i] != lines[j] {
      assert lines[i].id != lines[j].id;
    }
    DistinctSort(lines, rows);
    forall i, j | 0 <= i < j < |rows|
      ensures rows[i].id != rows[j].id
      ensures rows[i].parentId >= rows[j].parentId
      ensures rows[i].parentId == rows[j].parentId ==> LexLe(rows[i].name, rows[j].name) && rows[i].name != rows[j].name
    {
      var k := RowFrom(lines, i);
      var l := RowFrom(lines, j);
      InOrder(lines, k, l);
    }
    forall k | 0 <= k < |rows| ensures rows[k].id != 0 {
      var l := RowFrom(lines, k);
    }
  }

  lemma InOrder(lines: seq<Row>, k: nat, l: nat)
    requires WellFormed(lines) && k < |lines| && l < |lines| && lines[k] != lines[l] && CatalogLe(lines[k], lines[l])
    ensures lines[k].id != lines[l].id && lines[k].parentId >= lines[l].parentId
    ensures lines[k].parentId == lines[l].parentId ==>
      LexLe(lines[k].name, lines[l].name) && lines[k].name != lines[l].name
  {
    assert k < l || l < k;
  }

  /** Between two siblings there are only siblings. */
  lemma SiblingsTogether(rows: seq<Row>, i: nat, k: nat, j: nat)
    requires Arranged(rows) && i <= k <= j < |rows| && rows[i].parentId == rows[j].parentId
    ensures rows[k].parentId == rows[i].parentId
  {
    if i < k < j {
      assert rows[i].parentId >= rows[k].parentId >= rows[j].parentId;
    }
  }

  /** Entry j of the list is the child `name` of the top-level catalog `parent`. */
  ghost predicate IsPair(rows: seq<Row>, parent: string, name: string, j: nat) {
    exists i: nat :: IsTop(rows, i, parent) && IsChildOf(rows, j, rows[i].id, name)
  }

  ghost predicate HasTop(rows: seq<Row>, name: string) {
    exists i: nat :: IsTop(rows, i, name)
  }

  ghost predicate HasPair(rows: seq<Row>, parent: string, name: string) {
    exists j: nat :: IsPair(rows, parent, name, j)
  }

  /** There is at most one such entry. */
  lemma PairUnique(rows: seq<Row>, parent: string, name: string, j: nat, k: nat)
    requires Arranged(rows) && IsPair(rows, parent, name, j) && IsPair(rows, parent, name, k)
    ensures j == k
  {
    var a: nat :| IsTop(rows, a, parent) && IsChildOf(rows, j, rows[a].id, name);
    var b: nat :| IsTop(rows, b, parent) && IsChildOf(rows, k, rows[b].id, name);
    assert a == b by {
      assert rows[a].parentId == rows[b].parentId && rows[a].name == rows[b].name;
    }
    assert rows[j].parentId == rows[k].parentId && rows[j].name == rows[k].name;
  }

  /** With positive ids, the entry at position 0 of the list is a child as soon as there is any child:
      so every such file has one child that get_catalog_id never finds. */
  lemma FirstIsChild(lines: seq<Row>, k: nat) returns (parent: string)
    requires WellFormed(lines) && k < |lines| && lines[k].parentId > 0
    requires forall i | 0 <= i < |lines| :: lines[i].parentId == 0 || HasTopParent(lines, i)
    ensures var rows := Sort(lines, CatalogLe); IsPair(rows, parent, rows[0].name, 0)
  {
    hide Sort, CatalogLe;
    var rows := Sort(lines, CatalogLe);
    SortArranges(lines);
    var m := RowKept(lines, k);
    assert rows[0].parentId >= rows[m].parentId;
    var i := RowFrom(lines, 0);
    assert HasTopParent(lines, i);
    var j :| 0 <= j < |lines| && lines[j].id == lines[i].parentId && lines[j].parentId == 0;
    var n := RowKept(lines, j);
    parent := rows[n].name;
    assert IsTop(rows, n, parent) && IsChildOf(rows, 0, rows[n].id, rows[0].name);
  }

  predicate HasTopParent(lines: seq<Row>, i: nat)
    requires i < |lines|
  {
    exists j | 0 <= j < |lines| :: lines[j].id == lines[i].parentId && lines[j].parentId == 0
  }

  /** The file lists a child `name` of a top-level catalog `parent`. */
  ghost predicate ListsPair(lines: seq<Row>, parent: string, name: string) {
    exists id :: ChildRelation(lines, parent, name, id)
  }

  // ---- what the lookups say about the file -----------------------------------------------

  /** What searching below a top-level name demands: the catalog it stands for can be searched. */
  ghost predicate Searchable(lines: seq<Row>, name: string) {
    forall i: nat | IsTop(lines, i, name) :: CanSearch(lines, lines[i].id)
  }

  /** A well-formed file whose top-level "a" has a child and cannot be searched: its line comes too late. */
  lemma LateParent()
    ensures var lines := [Row(2, "x", 1), Row(1, "a", 0)];
      WellFormed(lines) && ChildRelation(lines, "a", "x", 2) && !Searchable(lines, "a")
  {
    var lines := [Row(2, "x", 1), Row(1, "a", 0)];
    assert IsTop(lines, 1, "a") && IsChildOf(lines, 0, 1, "x");
    LineFirstAt(lines, 1);
    assert lines[..2][0].parentId == 1;
  }

  lemma SortKeepsTop(lines: seq<Row>, name: string)
    ensures HasTop(Sort(lines, CatalogLe), name) <==> HasTop(lines, name)
  {
    hide Sort, CatalogLe;
    if i: nat :| IsTop(lines, i, name) {
      var m := RowKept(lines, i);
      assert IsTop(Sort(lines, CatalogLe), m, name);
    }
    if i: nat :| IsTop(Sort(lines, CatalogLe), i, name) {
      var m := RowFrom(lines, i);
      assert IsTop(lines, m, name);
    }
  }

  /** The child of that name, if the file lists one. */
  ghost function ChildId(lines: seq<Row>, id: int, name: string): Option<int> {
    if exists j: nat :: IsChildOf(lines, j, id, name) then
      var j: nat :| IsChildOf(lines, j, id, name);
      Some(lines[j].id)
    else None
  }

  lemma ChildIdIs(lines: seq<Row>, id: int, name: string, j: nat)
    requires WellFormed(lines) && IsChildOf(lines, j, id, name)
    ensures ChildId(lines, id, name) == Some(lines[j].id)
  {
    forall k: nat | IsChildOf(lines, k, id, name) ensures k == j {
      assert lines[k].parentId == lines[j].parentId && lines[k].name == lines[j].name;
    }
  }

  ghost function TopId(lines: seq<Row>, name: string): (id: Option<int>)
    ensures id.Some? <==> HasTop(lines, name)
  {
    if HasTop(lines, name) then
      var i: nat :| IsTop(lines, i, name);
      Some(lines[i].id)
    else None
  }

  lemma TopIdIs(lines: seq<Row>, name: string, i: nat)
    requires WellFormed(lines) && IsTop(lines, i, name)
    ensures TopId(lines, name) == Some(lines[i].id)
  {
    forall k: nat | IsTop(lines, k, name) ensures k == i {
      assert lines[k].parentId == lines[i].parentId && lines[k].name == lines[i].name;
    }
  }

  /** The words left once position i is swapped to the end and popped. */
  function Without(words: seq<string>, i: nat): (r: seq<string>)
    requires i < |words|
    ensures |r| == |words| - 1
  {
    words[i := words[|words| - 1]][..|words| - 1]
  }

  lemma WithoutIs(words: seq<string>, i: nat, w: string)
    requires i < |words|
    ensures w in Without(words, i) <==> exists k | 0 <= k < |words| && k != i :: words[k] == w
  {
    var r, n := Without(words, i), |words| - 1;
    if w in r {
      var k :| 0 <= k < |r| && r[k] == w;
      assert words[if k == i then n else k] == w;
    }
    if k :| 0 <= k < |words| && k != i && words[k] == w {
      assert r[if k == n then i else k] == w;
    }
  }

  /** The last word takes the place of the used one. */
  lemma WithoutAt(words: seq<string>, i: nat, j: nat)
    requires i < |words| && j < |words| - 1
    ensures Without(words, i)[j] == if j == i then words[|words| - 1] else words[j]
  {
  }

  /** The first word that names a child of the catalog; the number of words if none does. */
  ghost function FirstChild(lines: seq<Row>, id: int, words: seq<string>): (k: nat)
    ensures k <= |words|
    ensures k < |words| ==> ChildId(lines, id, words[k]).Some?
    ensures forall i | 0 <= i < k :: ChildId(lines, id, words[i]).None?
  {
    if words == [] || ChildId(lines, id, words[0]).Some? then 0
    else
      assert forall i | 0 < i < |words| :: words[i] == words[1..][i - 1];
      1 + FirstChild(lines, id, words[1..])
  }

  ghost function FirstTop(lines: seq<Row>, words: seq<string>): (k: nat)
    ensures k <= |words|
    ensures k < |words| ==> HasTop(lines, words[k])
    ensures forall i | 0 <= i < k :: !HasTop(lines, words[i])
  {
    if words == [] || HasTop(lines, words[0]) then 0
    else
      assert forall i | 0 < i < |words| :: words[i] == words[1..][i - 1];
      1 + FirstTop(lines, words[1..])
  }

  /** From catalog `id` down: at each level the first word that names a child, which is then used up.
      The id found at the last level, and the words left over. */
  ghost function IdBelow(lines: seq<Row>, id: int, words: seq<string>, level: nat): (Option<int>, seq<string>)
    decreases level
  {
    var k := FirstChild(lines, id, words);
    if k == |words| then (None, words)
    else
      var child, left := ChildId(lines, id, words[k]).value, Without(words, k);
      if level == 0 then (Some(child), left) else IdBelow(lines, child, left, level - 1)
  }

  /** Every catalog searched on the way can be. Without words nothing is searched. */
  ghost predicate SearchableBelow(lines: seq<Row>, id: int, words: seq<string>, level: nat)
    decreases level
  {
    words == [] || (CanSearch(lines, id) &&
    var k := FirstChild(lines, id, words);
    k < |words| && level > 0 ==>
      SearchableBelow(lines, ChildId(lines, id, words[k]).value, Without(words, k), level - 1))
  }

  /** The catalog a list of words denotes: the first word that names a top-level catalog, then downwards. */
  ghost function IdOf(lines: seq<Row>, words: seq<string>, level: nat): Option<int> {
    var i := FirstTop(lines, words);
    if i == |words| then None
    else if level == 0 then TopId(lines, words[i])
    else IdBelow(lines, TopId(lines, words[i]).value, Without(words, i), level - 1).0
  }

  ghost predicate SearchableWords(lines: seq<Row>, words: seq<string>, level: nat) {
    var i := FirstTop(lines, words);
    i < |words| && level > 0 ==>
      SearchableBelow(lines, TopId(lines, words[i]).value, Without(words, i), level - 1)
  }

  /** With the level the query analysis asks for, the id is that of a child, named by another position,
      of the first word naming a top-level catalog; and there is one whenever there is such a child. */
  lemma IdOfTwoLevels(lines: seq<Row>, words: seq<string>, i: nat)
    requires WellFormed(lines) && i < |words| && HasTop(lines, words[i])
    requires forall k | 0 <= k < i :: !HasTop(lines, words[k])
    ensures IdOf(lines, words, 1).Some?
      <==> exists k | 0 <= k < |words| && k != i :: ListsPair(lines, words[i], words[k])
    ensures IdOf(lines, words, 1).Some? ==>
      exists k | 0 <= k < |words| && k != i :: ChildRelation(lines, words[i], words[k], IdOf(lines, words, 1).value)
  {
    hide WellFormed, ListsPair, ChildRelation, TopId, ChildId, HasTop;
    assert FirstTop(lines, words) == i;
    var left, id := Without(words, i), TopId(lines, words[i]).value;
    var n := FirstChild(lines, id, left);
    if n < |left| {
      assert left[n] in left;
      WithoutIs(words, i, left[n]);
      PairBelow(lines, words[i], left[n]);
    } else {
      forall k | 0 <= k < |words| && k != i ensures !ListsPair(lines, words[i], words[k]) {
        WithoutIs(words, i, words[k]);
        PairBelow(lines, words[i], words[k]);
      }
    }
  }

  /** The positions a lookup tries for the second level once position i of n is used: those before it, then
      the last, then those behind it but for the last. */
  function Tried(n: nat, i: nat): (r: seq<nat>)
    requires i < n
    ensures |r| == n - 1
    ensures forall j | 0 <= j < n - 1 :: r[j] == if j == i then n - 1 else j
  {
    seq(i, j => j) + if i == n - 1 then [] else [n - 1] + seq(n - 2 - i, j => i + 1 + j)
  }

  /** Which child the lookup picks: the one named at the first position, in that order, that names a child
      of the first top-level word. */
  lemma IdOfFirstNamed(lines: seq<Row>, words: seq<string>, i: nat, j: nat)
    requires WellFormed(lines) && i < |words| && HasTop(lines, words[i])
    requires forall k | 0 <= k < i :: !HasTop(lines, words[k])
    requires j < |words| - 1 && ListsPair(lines, words[i], words[Tried(|words|, i)[j]])
    requires forall k | 0 <= k < j :: !ListsPair(lines, words[i], words[Tried(|words|, i)[k]])
    ensures IdOf(lines, words, 1).Some?
    ensures ChildRelation(lines, words[i], words[Tried(|words|, i)[j]], IdOf(lines, words, 1).value)
  {
    hide WellFormed, ListsPair, ChildRelation, TopId, ChildId, HasTop;
    assert FirstTop(lines, words) == i;
    var left, id := Without(words, i), TopId(lines, words[i]).value;
    forall k | 0 <= k <= j
      ensures left[k] == words[Tried(|words|, i)[k]]
      ensures ChildId(lines, id, left[k]).Some? <==> ListsPair(lines, words[i], left[k])
    {
      WithoutAt(words, i, k);
      PairBelow(lines, words[i], left[k]);
    }
    assert FirstChild(lines, id, left) == j;
    PairBelow(lines, words[i], left[j]);
  }

  /** Catalog 1 has the children "x" and "y"; of the words "a", "x", "y" the last is tried first. */
  lemma LastWordFirst()
    ensures IdOf([Row(1, "a", 0), Row(2, "x", 1), Row(3, "y", 1)], ["a", "x", "y"], 1) == Some(3)
  {
    var lines, words := [Row(1, "a", 0), Row(2, "x", 1), Row(3, "y", 1)], ["a", "x", "y"];
    assert IsTop(lines, 0, "a") && IsChildOf(lines, 2, 1, "y");
    assert ChildRelation(lines, "a", "y", 3);
    IdOfFirstNamed(lines, words, 0, 0);
    var i: nat, j: nat :| IsTop(lines, i, "a") && IsChildOf(lines, j, lines[i].id, "y")
      && lines[j].id == IdOf(lines, words, 1).value;
  }

  /** At the top level alone, the id is that of the first word that names a top-level catalog. */
  lemma IdOfOneLevel(lines: seq<Row>, words: seq<string>, i: nat, k: nat)
    requires WellFormed(lines) && i < |words| && IsTop(lines, k, words[i])
    requires forall j | 0 <= j < i :: !HasTop(lines, words[j])
    ensures IdOf(lines, words, 0) == Some(lines[k].id)
  {
    hide WellFormed;
    assert HasTop(lines, words[i]);
    TopIdIs(lines, words[i], k);
  }

  /** One level of a lookup: the first word that names a child is used up, the last word takes its place, and
      the next level goes on from that child. */
  lemma IdBelowStep(lines: seq<Row>, id: int, words: seq<string>, level: nat, k: nat, j: nat, left: seq<string>)
    requires WellFormed(lines) && k < |words| && IsChildOf(lines, j, id, words[k])
    requires forall i, c | 0 <= i < k && 0 <= c < |lines| :: !IsChildOf(lines, c, id, words[i])
    requires |left| == |words| - 1
    requires forall i | 0 <= i < |left| :: left[i] == if i == k then words[|words| - 1] else words[i]
    ensures IdBelow(lines, id, words, level)
      == if level == 0 then (Some(lines[j].id), left) else IdBelow(lines, lines[j].id, left, level - 1)
  {
    hide WellFormed, ChildId;
    ChildIdIs(lines, id, words[k], j);
    forall i | 0 <= i < k ensures ChildId(lines, id, words[i]) == None {
      NoChildId(lines, id, words[i]);
    }
    assert FirstChild(lines, id, words) == k;
    assert left == Without(words, k);
  }

  /** Without such a word nothing is found and all words are left. */
  lemma IdBelowNone(lines: seq<Row>, id: int, words: seq<string>, level: nat)
    requires forall i, c | 0 <= i < |words| && 0 <= c < |lines| :: !IsChildOf(lines, c, id, words[i])
    ensures IdBelow(lines, id, words, level) == (None, words)
  {
    hide ChildId;
    forall i | 0 <= i < |words| ensures ChildId(lines, id, words[i]) == None {
      NoChildId(lines, id, words[i]);
    }
  }

  /** Every id below a catalog is the end of a chain of children, one for each level, named by words. */
  lemma {:induction false} IdBelowChain(lines: seq<Row>, id: int, words: seq<string>, level: nat)
    returns (chain: seq<nat>)
    requires WellFormed(lines)
    ensures IdBelow(lines, id, words, level).0.Some? ==>
      && |chain| == level + 1 && (forall k | 0 <= k <= level :: chain[k] < |lines| && lines[chain[k]].name in words)
      && lines[chain[0]].parentId == id
      && (forall k | 0 <= k < level :: lines[chain[k + 1]].parentId == lines[chain[k]].id)
      && IdBelow(lines, id, words, level).0 == Some(lines[chain[level]].id)
    decreases level
  {
    hide WellFormed;
    chain := [];
    var k := FirstChild(lines, id, words);
    if k < |words| {
      var j: nat :| IsChildOf(lines, j, id, words[k]);
      ChildIdIs(lines, id, words[k], j);
      if level == 0 {
        chain := [j];
      } else {
        var rest := IdBelowChain(lines, lines[j].id, Without(words, k), level - 1);
        chain := [j] + rest;
        forall w | w in Without(words, k) ensures w in words {
          WithoutIs(words, k, w);
        }
      }
    }
  }

  lemma PairBelow(lines: seq<Row>, parent: string, name: string)
    requires WellFormed(lines) && HasTop(lines, parent)
    ensures TopId(lines, parent).Some?
    ensures var child := ChildId(lines, TopId(lines, parent).value, name);
      && (ListsPair(lines, parent, name) <==> child.Some?)
      && (child.Some? ==> ChildRelation(lines, parent, name, child.value))
  {
    hide WellFormed, ChildId, TopId;
    var i: nat :| IsTop(lines, i, parent);
    TopIdIs(lines, parent, i);
    if j: nat :| IsChildOf(lines, j, lines[i].id, name) {
      ChildIdIs(lines, lines[i].id, name, j);
      assert ChildRelation(lines, parent, name, lines[j].id);
    } else {
      NoChildId(lines, lines[i].id, name);
      forall id ensures !ChildRelation(lines, parent, name, id) {
        forall k: nat | IsTop(lines, k, parent) ensures lines[k].id == lines[i].id {
          TopIdIs(lines, parent, k);
        }
      }
    }
  }

  lemma NoChildId(lines: seq<Row>, id: int, name: string)
    requires forall j: nat :: !IsChildOf(lines, j, id, name)
    ensures ChildId(lines, id, name) == None
  {
  }

  /** What get_catalog_id returns: the id of the child, but -1 when it stands at list position 0. */
  ghost function CatalogId(lines: seq<Row>, parent: string, name: string): int {
    var rows := Sort(lines, CatalogLe);
    if HasPair(rows, parent, name) then
      var j: nat :| IsPair(rows, parent, name, j);
      if j == 0 || j >= |rows| then -1 else rows[j].id
    else -1
  }

  /** It agrees with the relation exactly off position 0. */
  lemma CatalogIdIs(lines: seq<Row>, parent: string, name: string, id: int)
    requires WellFormed(lines) && ChildRelation(lines, parent, name, id) && id != -1
    ensures CatalogId(lines, parent, name) == id <==> !IsPair(Sort(lines, CatalogLe), parent, name, 0)
    ensures IsPair(Sort(lines, CatalogLe), parent, name, 0) ==> CatalogId(lines, parent, name) == -1
  {
    hide Sort, CatalogLe;
    var rows := Sort(lines, CatalogLe);
    SortArranges(lines);
    SortKeepsRelation(lines, parent, name, id);
    var i: nat, j: nat :| IsTop(rows, i, parent) && IsChildOf(rows, j, rows[i].id, name) && rows[j].id == id;
    assert IsPair(rows, parent, name, j);
    forall k: nat | IsPair(rows, parent, name, k) ensures k == j {
      PairUnique(rows, parent, name, j, k);
    }
  }

  /** Without such a child the answer is -1. */
  lemma CatalogIdNone(lines: seq<Row>, parent: string, name: string)
    requires !ListsPair(lines, parent, name)
    ensures CatalogId(lines, parent, name) == -1
  {
    hide Sort, CatalogLe;
    var rows := Sort(lines, CatalogLe);
    if j: nat :| IsPair(rows, parent, name, j) {
      var i: nat :| IsTop(rows, i, parent) && IsChildOf(rows, j, rows[i].id, name);
      assert ChildRelation(rows, parent, name, rows[j].id);
      SortKeepsRelation(lines, parent, name, rows[j].id);
    } else {
      NoPairNoId(lines, parent, name);
    }
  }

  /** At list position 0 stands the line with the greatest parent id and among its siblings the first name. */
  lemma FirstPlace(lines: seq<Row>, k: nat)
    requires WellFormed(lines) && k < |lines|
    ensures Sort(lines, CatalogLe)[0] == lines[k] <==> forall j | 0 <= j < |lines| ::
      && lines[j].parentId <= lines[k].parentId
      && (lines[j].parentId == lines[k].parentId ==> LexLe(lines[k].name, lines[j].name))
  {
    hide Sort, CatalogLe, WellFormed;
    var rows := Sort(lines, CatalogLe);
    SortArranges(lines);
    var m := RowKept(lines, k);
    forall j | 0 <= j < |lines|
      ensures lines[j].parentId <= rows[0].parentId
      ensures lines[j].parentId == rows[0].parentId ==> LexLe(rows[0].name, lines[j].name)
    {
      var n := RowKept(lines, j);
      LexTotal(rows[0].name, rows[0].name);
    }
    var f := RowFrom(lines, 0);
    LexTotal(rows[0].name, rows[m].name);
    assert 0 < m ==> rows[0].parentId == rows[m].parentId ==> rows[0].name != rows[m].name;
  }

  lemma NoTopNoPair(rows: seq<Row>, parent: string, name: string)
    requires !HasTop(rows, parent)
    ensures !HasPair(rows, parent, name)
  {
  }

  lemma NoPairNoId(lines: seq<Row>, parent: string, name: string)
    requires !HasPair(Sort(lines, CatalogLe), parent, name)
    ensures CatalogId(lines, parent, name) == -1
  {
  }

  /** The pairs below a top-level name are the children of its catalog. */
  lemma PairsBelow(lines: seq<Row>, parent: string, name: string, id: int, j: nat)
    requires HasTop(lines, parent) && forall i: nat | IsTop(lines, i, parent) :: lines[i].id == id
    ensures IsPair(Sort(lines, CatalogLe), parent, name, j) <==> IsChildOf(Sort(lines, CatalogLe), j, id, name)
  {
    hide Sort, CatalogLe;
    var rows := Sort(lines, CatalogLe);
    var i: nat :| IsTop(lines, i, parent);
    var m := RowKept(lines, i);
    assert IsTop(rows, m, parent);
    forall k: nat | IsTop(rows, k, parent) ensures rows[k].id == id {
      var n := RowFrom(lines, k);
      assert IsTop(lines, n, parent);
    }
  }

  lemma CatalogIdAt(lines: seq<Row>, parent: string, name: string, r: int)
    requires -1 <= r < |lines| && forall j: nat :: IsPair(Sort(lines, CatalogLe), parent, name, j) <==> j == r
    ensures CatalogId(lines, parent, name) == if r <= 0 then -1 else Sort(lines, CatalogLe)[r].id
  {
    hide Sort, CatalogLe;
    if r >= 0 {
      assert IsPair(Sort(lines, CatalogLe), parent, name, r);
    }
  }
}
