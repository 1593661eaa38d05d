/** The catalog reader (shared/catalog_data_reader.cpp). */
module Catalog {
  import opened IndexTypes
  import opened Sorting
  import opened CatalogSpec

  class Catalog {
    var id: int
    var name: string
    var parentId: int
    var parent: Catalog?
    var start: int
    var offset: int

    constructor (id: int, name: string, parentId: int, parent: Catalog?, start: int, offset: int)
      ensures this.id == id && this.name == name && this.parentId == parentId && this.parent == parent
      ensures this.start == start && this.offset == offset
    {
      this.id, this.name, this.parentId, this.parent := id, name, parentId, parent;
      this.start, this.offset := start, offset;
    }
  }

  function RowOf(c: Catalog): Row
    reads c`id, c`name, c`parentId
  {
    Row(c.id, c.name, c.parentId)
  }

  function RowsOf(list: seq<Catalog>): (r: seq<Row>)
    reads (set c | c in list)`id, (set c | c in list)`name, (set c | c in list)`parentId
    ensures |r| == |list|
  {
    if list == [] then [] else RowsOf(list[..|list| - 1]) + [RowOf(list[|list| - 1])]
  }

  function ParentsOf(list: seq<Catalog>): (r: seq<Catalog?>)
    reads (set c | c in list)`parent
    ensures |r| == |list|
  {
    if list == [] then [] else ParentsOf(list[..|list| - 1]) + [list[|list| - 1].parent]
  }

  lemma {:induction false} RowAt(list: seq<Catalog>, k: nat)
    requires k < |list|
    ensures RowsOf(list)[k] == RowOf(list[k]) && ParentsOf(list)[k] == list[k].parent
  {
    if k < |list| - 1 {
      RowAt(list[..|list| - 1], k);
    }
  }

  /** The entries with one parent stand together. */
  ghost predicate Contiguous(par: seq<Catalog?>) {
    forall a, b, c | 0 <= a <= b <= c < |par| && par[a] != null && par[a] == par[c] :: par[b] == par[a]
  }

  /** Among the first i entries, those with parent p are exactly the ones in p's children range. */
  ghost predicate RangeOk(p: Catalog, par: seq<Catalog?>, i: nat)
    reads p`start, p`offset
  {
    && 0 <= p.start && 0 < p.offset && p.start + p.offset <= i <= |par|
    && forall j | 0 <= j < i :: par[j] == p <==> p.start <= j < p.start + p.offset
  }

  ghost predicate RangesUpTo(par: seq<Catalog?>, i: nat)
    requires i <= |par|
    reads (set p: Catalog | p in par)`start, (set p: Catalog | p in par)`offset
  {
    forall j | 0 <= j < i && par[j] != null :: RangeOk(par[j], par, i)
  }

  // ---- sorting objects by their rows -----------------------------------------------------

  datatype Item = Item(row: Row, obj: Catalog)

  predicate ItemLe(a: Item, b: Item) {
    CatalogLe(a.row, b.row)
  }

  function Zip(rows: seq<Row>, objs: seq<Catalog>): (r: seq<Item>)
    requires |rows| == |objs|
    ensures |r| == |rows|
  {
    seq(|rows|, i requires 0 <= i < |rows| => Item(rows[i], objs[i]))
  }

  function RowParts(items: seq<Item>): (r: seq<Row>)
    ensures |r| == |items|
  {
    seq(|items|, i requires 0 <= i < |items| => items[i].row)
  }

  function ObjParts(items: seq<Item>): (r: seq<Catalog>)
    ensures |r| == |items|
  {
    seq(|items|, i requires 0 <= i < |items| => items[i].obj)
  }

  lemma {:induction false} InsertParts(x: Item, items: seq<Item>)
    ensures RowParts(Insert(x, items, ItemLe)) == Insert(x.row, RowParts(items), CatalogLe)
  {
    if items == [] {
      PartsCons(x, []);
      assert [x.row] + [] == [x.row] && [x] + [] == [x];
    } else {
      var y, t := items[0], items[1..];
      assert items == [y] + t;
      PartsCons(y, t);
      InsertParts(x, t);
      hide CatalogLe, RowParts, Insert;
      InsertCons(x, y, t, ItemLe);
      InsertCons(x.row, y.row, RowParts(t), CatalogLe);
      PartsCons(x, [y] + t);
      PartsCons(y, Insert(x, t, ItemLe));
    }
  }

  lemma InsertCons<T>(x: T, y: T, t: seq<T>, le: (T, T) -> bool)
    ensures Insert(x, [y] + t, le) == if le(x, y) then [x] + ([y] + t) else [y] + Insert(x, t, le)
  {
    assert ([y] + t)[1..] == t;
  }

  lemma PartsCons(x: Item, items: seq<Item>)
    ensures RowParts([x] + items) == [x.row] + RowParts(items) && RowParts([]) == []
  {
  }

  /** Sorting the objects sorts their rows. */
  lemma {:induction false} SortParts(items: seq<Item>)
    ensures RowParts(Sort(items, ItemLe)) == Sort(RowParts(items), CatalogLe)
  {
    hide CatalogLe, ItemLe, Insert;
    if items != [] {
      SortParts(items[1..]);
      assert RowParts(items)[1..] == RowParts(items[1..]);
      InsertParts(items[0], Sort(items[1..], ItemLe));
    }
  }

  lemma {:induction false} ObjPartsElements(items: seq<Item>)
    ensures forall c :: c in ObjParts(items) <==> exists k | 0 <= k < |items| :: items[k].obj == c
  {
    forall c ensures c in ObjParts(items) <==> exists k | 0 <= k < |items| :: items[k].obj == c {
      if k :| 0 <= k < |items| && items[k].obj == c {
        assert ObjParts(items)[k] == c;
      }
    }
  }

  lemma RowsAre(list: seq<Catalog>, rows: seq<Row>)
    requires |list| == |rows| && forall k | 0 <= k < |list| :: RowOf(list[k]) == rows[k]
    ensures RowsOf(list) == rows
  {
    forall k | 0 <= k < |list| ensures RowsOf(list)[k] == rows[k] {
      RowAt(list, k);
    }
  }

  /** The sorted objects: the same ones, and their rows are the sorted rows. */
  lemma SortObjects(rows: seq<Row>, list: seq<Catalog>)
    requires RowsOf(list) == rows
    ensures var sorted := ObjParts(Sort(Zip(rows, list), ItemLe));
      && |sorted| == |list| && RowsOf(sorted) == Sort(rows, CatalogLe)
      && (forall c :: c in sorted <==> c in list)
  {
    hide CatalogLe, ItemLe, Sort;
    var items := Zip(rows, list);
    var sorted := Sort(items, ItemLe);
    SortParts(items);
    assert RowParts(items) == rows;
    ObjPartsElements(sorted);
    ObjPartsElements(items);
    assert ObjParts(items) == list;
    forall k | 0 <= k < |sorted| ensures RowOf(sorted[k].obj) == sorted[k].row {
      assert sorted[k] in multiset(sorted);
      assert sorted[k] in multiset(items);
      var j :| 0 <= j < |items| && items[j] == sorted[k];
      RowAt(list, j);
    }
    RowsAre(ObjParts(sorted), RowParts(sorted));
    forall c ensures c in ObjParts(sorted) <==> c in list {
      if k :| 0 <= k < |sorted| && sorted[k].obj == c {
        assert sorted[k] in multiset(sorted);
        assert sorted[k] in multiset(items);
        var j :| 0 <= j < |items| && items[j] == sorted[k];
        assert items[j].obj == c;
      }
      if j :| 0 <= j < |items| && items[j].obj == c {
        assert items[j] in multiset(items);
        assert items[j] in multiset(sorted);
        var k :| 0 <= k < |sorted| && sorted[k] == items[j];
        assert sorted[k].obj == c;
      }
    }
  }

  /** The list and the two maps of the reader, and the lines they come from. */
  datatype Kept = Kept(list: seq<Catalog>, ids: map<int, Catalog>, tops: map<string, Catalog>, lines: seq<Row>)

  class CatalogDataReader {
    var levelOneMap: map<string, Catalog>
    var idCata: map<int, Catalog>
    var catalogList: seq<Catalog>
    ghost var Repr: set<Catalog>

    constructor ()
      ensures levelOneMap == map[] && idCata == map[] && catalogList == [] && Repr == {}
    {
      levelOneMap, idCata, catalogList, Repr := map[], map[], [], {};
    }

    ghost function Listed(): set<Catalog>
      reads this`catalogList
    {
      set c | c in catalogList
    }

    /** A top-level object has no parent; any other points at the object kept under its parent's id. */
    static ghost predicate Linked(all: set<Catalog>, ids: map<int, Catalog>)
      reads all`parent, all`parentId
    {
      forall c | c in all ::
        && (c.parentId == 0 <==> c.parent == null)
        && (c.parent != null ==> c.parentId in ids && ids[c.parentId] == c.parent)
    }

    /** One object for every id the lines mention: the one of its line if that comes first, otherwise one
        that is not on the list. */
    static ghost predicate Mapped(all: set<Catalog>, ids: map<int, Catalog>, lines: seq<Row>)
      reads all`id
    {
      && (forall c | c in all :: c.id in ids && (ids[c.id] == c <==> LineFirst(lines, c.id)))
      && (forall i | i in ids && ids[i] in all :: ids[i].id == i)
      && (forall i, j | i in ids && j in ids && ids[i] == ids[j] :: i == j)
      && (forall i | i in ids :: Mentioned(lines, i))
    }

    /** The names of the top level find exactly its objects. */
    static ghost predicate Topped(all: set<Catalog>, tops: map<string, Catalog>)
      reads all`name, all`parentId
    {
      && (forall c | c in all && c.parentId == 0 :: c.name in tops && tops[c.name] == c)
      && (forall s | s in tops :: tops[s] in all && tops[s].parentId == 0 && tops[s].name == s)
    }

    /** No top-level object has a range yet. */
    static ghost predicate Unranged(all: set<Catalog>)
      reads all`parentId, all`start, all`offset
    {
      forall c | c in all && c.parentId == 0 :: c.start == -1 && c.offset == -1
    }

    /** What the reader holds after well-formed lines, before the sort. */
    ghost predicate Parsed(lines: seq<Row>)
      reads this, catalogList
    {
      && RowsOf(catalogList) == lines && Distinct(catalogList)
      && Linked(Listed(), idCata) && Mapped(Listed(), idCata, lines) && Topped(Listed(), levelOneMap)
      && Unranged(Listed())
    }

    /** Every object the reader can reach is its own. */
    ghost predicate Owned()
      reads this, Repr
    {
      Listing(catalogList, Repr) && Naming(idCata, Repr) && Closed(Repr)
    }

    static ghost predicate Listing(list: seq<Catalog>, all: set<Catalog>) {
      forall c | c in list :: c in all
    }

    static ghost predicate Naming(ids: map<int, Catalog>, all: set<Catalog>) {
      forall i | i in ids :: ids[i] in all
    }

    static ghost predicate Closed(all: set<Catalog>)
      reads all`parent
    {
      forall c: Catalog | c in all && c.parent != null :: c.parent in all
    }

    static lemma OwnedGrow(list: seq<Catalog>, ids: map<int, Catalog>, all: set<Catalog>, c: Catalog)
      requires Listing(list, all) && Naming(ids, all)
      ensures Listing(list, all + {c}) && Naming(ids, all + {c})
    {
    }

    static lemma OwnedAdd(list: seq<Catalog>, ids: map<int, Catalog>, all: set<Catalog>, c: Catalog, id: int)
      requires Listing(list, all) && Naming(ids, all) && c in all
      ensures Listing(list + [c], all) && Naming(ids[id := c], all)
    {
    }

    static lemma ClosedAdd(all: set<Catalog>, c: Catalog)
      requires Closed(all) && (c.parent == null || c.parent in all)
      ensures Closed(all + {c})
    {
    }

    static lemma OwnedAt(ids: map<int, Catalog>, all: set<Catalog>, id: int)
      requires Naming(ids, all) && id in ids
      ensures ids[id] in all
    {
    }

    lemma ReprHolds()
      requires Owned()
      ensures forall c | c in catalogList :: c in Repr
      ensures forall i | i in idCata :: idCata[i] in Repr
    {
    }

    /** parse_line, behind sscanf. */
    method ParseLine(line: Row, ghost lines: seq<Row>)
      requires Owned()
      modifies this, Repr
      ensures Owned() && fresh(Repr - old(Repr))
      ensures old(Parsed(lines)) && WellFormed(lines + [line]) ==> Parsed(lines + [line])
    {
      if line.parentId == 0 {
        ParseTop(line, lines);
      } else {
        ParseChild(line, lines);
      }
    }

    // ---- one more line ---------------------------------------------------------------------

    /** The objects of the list are those of the lines. */
    static lemma ObjectLine(objs: seq<Catalog>, c: Catalog) returns (k: nat)
      requires c in objs
      ensures k < |objs| && objs[k] == c && RowsOf(objs)[k] == RowOf(c)
    {
      k :| k < |objs| && objs[k] == c;
      RowAt(objs, k);
    }

    /** Which ids are kept once `objs` are parsed: those of the lines and those of their parents. */
    static lemma KnownIds(objs: seq<Catalog>, all: set<Catalog>, ids: map<int, Catalog>, lines: seq<Row>, id: int)
      requires all == (set c | c in objs) && RowsOf(objs) == lines && id != 0
      requires Linked(all, ids) && Mapped(all, ids, lines)
      ensures id in ids <==> Mentioned(lines, id)
    {
      if Mentioned(lines, id) {
        var k :| 0 <= k < |lines| && (lines[k].id == id || lines[k].parentId == id);
        RowAt(objs, k);
        assert objs[k] in all;
      }
    }

    /** A further line changes nothing for the objects of the earlier ones. */
    static lemma MappedLine(objs: seq<Catalog>, all: set<Catalog>, ids: map<int, Catalog>, lines: seq<Row>, line: Row)
      requires all == (set c | c in objs) && RowsOf(objs) == lines && DistinctIds(lines + [line])
      requires Mapped(all, ids, lines)
      ensures Mapped(all, ids, lines + [line])
      ensures forall c | c in all :: c.id != line.id
    {
      hide LineFirst;
      var more := lines + [line];
      forall c | c in all ensures c.id != line.id && (LineFirst(more, c.id) <==> LineFirst(lines, c.id)) {
        var k := ObjectLine(objs, c);
        LineFirstKept(lines, line, k);
        assert more[k].id != more[|lines|].id;
      }
      forall i | i in ids ensures Mentioned(more, i) {
        var k :| 0 <= k < |lines| && (lines[k].id == i || lines[k].parentId == i);
        assert more[k] == lines[k];
      }
    }

    /** An object for an id that has none yet. */
    static lemma MappedHolder(all: set<Catalog>, ids: map<int, Catalog>, lines: seq<Row>, id: int, p: Catalog)
      requires Linked(all, ids) && Mapped(all, ids, lines)
      requires id !in ids && Mentioned(lines, id) && p !in all && forall i | i in ids :: ids[i] != p
      ensures Linked(all, ids[id := p]) && Mapped(all, ids[id := p], lines)
    {
      hide LineFirst, Mentioned;
    }

    /** The object of the line itself. */
    static lemma MappedNew(all: set<Catalog>, ids: map<int, Catalog>, lines: seq<Row>, c: Catalog)
      requires Linked(all, ids) && Mapped(all, ids, lines)
      requires c !in all && (forall i | i in ids :: ids[i] != c) && forall d | d in all :: d.id != c.id
      requires Mentioned(lines, c.id) && (LineFirst(lines, c.id) <==> c.id !in ids)
      requires c.parentId == 0 <==> c.parent == null
      requires c.parent != null ==> c.parentId in ids && ids[c.parentId] == c.parent
      ensures var next := if c.id in ids then ids else ids[c.id := c];
        Linked(all + {c}, next) && Mapped(all + {c}, next, lines)
    {
      hide LineFirst, Mentioned;
    }

    static lemma ToppedNew(all: set<Catalog>, tops: map<string, Catalog>, c: Catalog)
      requires Topped(all, tops) && c !in all && (c.parentId == 0 ==> c.name !in tops)
      ensures Topped(all + {c}, if c.parentId == 0 then tops[c.name := c] else tops)
    {
    }

    /** The line comes first for its own id exactly if the id has not been mentioned before. */
    static lemma FirstMention(lines: seq<Row>, line: Row)
      requires DistinctIds(lines + [line])
      ensures LineFirst(lines + [line], line.id) <==> !Mentioned(lines, line.id) && line.parentId != line.id
      ensures Mentioned(lines + [line], line.id) && Mentioned(lines + [line], line.parentId)
    {
      var more, n := lines + [line], |lines|;
      assert more[n] == line && more[..n + 1] == more;
      LineFirstAt(more, n);
      forall k | 0 <= k < n ensures lines[k].id != line.id && more[k] == lines[k] {
        assert more[k].id != more[n].id;
      }
    }

    static lemma NewName(objs: seq<Catalog>, all: set<Catalog>, tops: map<string, Catalog>, lines: seq<Row>, line: Row)
      requires all == (set c | c in objs) && RowsOf(objs) == lines && DistinctNames(lines + [line])
      requires Topped(all, tops) && line.parentId == 0
      ensures line.name !in tops
    {
      var more, n := lines + [line], |lines|;
      assert more[n] == line && forall k | 0 <= k < n :: more[k] == lines[k];
      assert forall k | 0 <= k < n && more[k].parentId == more[n].parentId :: more[k].name != more[n].name;
      if line.name in tops {
        var k := ObjectLine(objs, tops[line.name]);
      }
    }

    /** A parsed line changes no object of the earlier ones. */
    static twostate lemma Untouched(k: Kept)
      requires forall c | c in k.list :: unchanged(c)
      ensures var all := set c | c in k.list;
        && RowsOf(k.list) == old(RowsOf(k.list)) && Linked(all, k.ids) == old(Linked(all, k.ids))
        && Mapped(all, k.ids, k.lines) == old(Mapped(all, k.ids, k.lines))
        && Topped(all, k.tops) == old(Topped(all, k.tops)) && Unranged(all) == old(Unranged(all))
    {
    }

    /** The new object extends what was parsed before; `ids` are the kept ids once its parent is found. */
    lemma ExtendsParsed(lines: seq<Row>, line: Row, objs: seq<Catalog>, all: set<Catalog>, ids: map<int, Catalog>,
                        tops: map<string, Catalog>, ct: Catalog)
      requires WellFormed(lines + [line]) && RowsOf(objs) == lines && Distinct(objs) && RowOf(ct) == line
      requires all == set c | c in objs
      requires Linked(all, ids) && Mapped(all, ids, lines + [line]) && Topped(all, tops) && Unranged(all)
      requires ct !in all && (forall i | i in ids :: ids[i] != ct) && forall c | c in all :: c.id != line.id
      requires LineFirst(lines + [line], line.id) <==> line.id !in ids
      requires ct.parent == null <==> line.parentId == 0
      requires line.parentId != 0 ==> line.parentId in ids && ct.parent == ids[line.parentId]
      requires line.parentId == 0 ==> ct.start == -1 && ct.offset == -1 && line.name !in tops
      requires catalogList == objs + [ct] && idCata == if line.id in ids then ids else ids[line.id := ct]
      requires levelOneMap == if line.parentId == 0 then tops[line.name := ct] else tops
      ensures Parsed(lines + [line])
    {
      hide LineFirst, Mentioned, RowsOf, Linked, Mapped, Topped;
      FirstMention(lines, line);
      MappedNew(all, ids, lines + [line], ct);
      ToppedNew(all, tops, ct);
      assert Listed() == all + {ct};
      RowsMore(objs, ct);
    }

    static lemma RowsMore(objs: seq<Catalog>, c: Catalog)
      ensures RowsOf(objs + [c]) == RowsOf(objs) + [RowOf(c)]
    {
      assert (objs + [c])[..|objs|] == objs;
    }

    static ghost predicate Overwritten(known: Catalog, line: Row)
      reads known
    {
      && known.id == line.id && known.name == line.name && known.parent == null
      && known.start == 0 && known.offset == 0
    }

    /** The branch for a top-level line whose id is known already: the kept object takes over the line, but
        for the parent id, and gets an empty range. */
    static method Overwrite(known: Catalog, line: Row, ghost all: set<Catalog>)
      requires known in all && Closed(all)
      modifies known
      ensures Closed(all)
      ensures Overwritten(known, line) && known.parentId == old(known.parentId)
    {
      known.id := line.id;
      known.name := line.name;
      known.parent := null;
      known.start, known.offset := 0, 0;
    }

    /** A new top-level object, on the list and in both maps; a known name keeps its object, and a known id
        keeps its own, overwritten. */
    method AddTop(line: Row) returns (ct: Catalog)
      requires line.parentId == 0 && Owned()
      modifies this, Repr
      ensures Owned() && fresh(Repr - old(Repr)) && fresh(ct)
      ensures RowOf(ct) == line && ct.parent == null && ct.start == -1 && ct.offset == -1
      ensures catalogList == old(catalogList) + [ct]
      ensures levelOneMap ==
        if line.name in old(levelOneMap) then old(levelOneMap) else old(levelOneMap)[line.name := ct]
      ensures idCata == if line.id in old(idCata) then old(idCata) else old(idCata)[line.id := ct]
      ensures forall c | c in old(Repr) && (line.id in old(idCata) ==> c != old(idCata)[line.id]) :: unchanged(c)
      ensures line.id in old(idCata) ==> Overwritten(old(idCata)[line.id], line)
      ensures line.id in old(idCata) ==> old(idCata)[line.id].parentId == old(idCata[line.id].parentId)
    {
      hide Listing, Naming, Closed;
      ct := new Catalog(line.id, line.name, line.parentId, null, -1, -1);
      if line.id in idCata {
        OwnedAt(idCata, Repr, line.id);
      }
      OwnedGrow(catalogList, idCata, Repr, ct);
      ClosedAdd(Repr, ct);
      Repr := Repr + {ct};
      OwnedAdd(catalogList, idCata, Repr, ct, line.id);
      if line.name !in levelOneMap {
        levelOneMap := levelOneMap[line.name := ct];
      }
      if line.id !in idCata {
        idCata := idCata[line.id := ct];
      } else {
        Overwrite(idCata[line.id], line, Repr);
      }
      catalogList := catalogList + [ct];
    }

    method ParseTop(line: Row, ghost lines: seq<Row>)
      requires line.parentId == 0 && Owned()
      modifies this, Repr
      ensures Owned() && fresh(Repr - old(Repr))
      ensures old(Parsed(lines)) && WellFormed(lines + [line]) ==> Parsed(lines + [line])
    {
      hide Owned, LineFirst, Mentioned, RowsOf, Linked, Mapped, Topped;
      ghost var good := Parsed(lines) && WellFormed(lines + [line]);
      ghost var objs, all, ids, tops := catalogList, Listed(), idCata, levelOneMap;
      ReprHolds();
      if good {
        NewTop(lines, line);
      }
      var ct := AddTop(line);
      if good {
        Untouched(Kept(objs, ids, tops, lines + [line]));
        ExtendsParsed(lines, line, objs, all, ids, tops, ct);
      }
    }

    /** Before a further top-level line. */
    lemma NewTop(lines: seq<Row>, line: Row)
      requires Parsed(lines) && WellFormed(lines + [line]) && line.parentId == 0
      ensures Mapped(Listed(), idCata, lines + [line]) && line.name !in levelOneMap
      ensures LineFirst(lines + [line], line.id) <==> line.id !in idCata
      ensures forall c | c in Listed() :: c.id != line.id
      ensures line.id in idCata ==> idCata[line.id] !in Listed()
    {
      hide LineFirst, Mentioned, RowsOf, Linked, Topped;
      assert (lines + [line])[|lines|] == line;
      MappedLine(catalogList, Listed(), idCata, lines, line);
      NewName(catalogList, Listed(), levelOneMap, lines, line);
      KnownIds(catalogList, Listed(), idCata, lines, line.id);
      FirstMention(lines, line);
    }

    /** The object of a child's parent: the known one, or a new one that is not on the list. */
    method FindParent(id: int) returns (p: Catalog)
      requires Owned()
      modifies this`idCata, this`Repr
      ensures Owned() && p in Repr && old(Repr) <= Repr && fresh(Repr - old(Repr))
      ensures id in old(idCata) ==> p == old(idCata)[id] && idCata == old(idCata)
      ensures id !in old(idCata) ==> fresh(p) && idCata == old(idCata)[id := p]
    {
      hide Listing, Naming, Closed;
      if id in idCata {
        OwnedAt(idCata, Repr, id);
        return idCata[id];
      }
      var name: string, parentId: int, start: int, offset: int := *, *, *, *;
      p := new Catalog(id, name, parentId, null, start, offset);
      OwnedGrow(catalogList, idCata, Repr, p);
      ClosedAdd(Repr, p);
      Repr := Repr + {p};
      OwnedAdd(catalogList, idCata, Repr, p, id);
      idCata := idCata[id := p];
    }

    /** A new object below the top level, on the list and, unless its id is known, in the id map; so is a new
        object for an unknown parent, but not on the list. */
    method AddChild(line: Row) returns (ct: Catalog)
      requires line.parentId != 0 && Owned()
      modifies this
      ensures Owned() && fresh(Repr - old(Repr)) && fresh(ct) && RowOf(ct) == line && ct.parent != null
      ensures catalogList == old(catalogList) + [ct] && levelOneMap == old(levelOneMap)
      ensures if line.parentId in old(idCata) then ct.parent == old(idCata)[line.parentId]
              else fresh(ct.parent) && ct.parent != ct
      ensures var ids: map<int, Catalog> := old(idCata)[line.parentId := ct.parent];
        idCata == if line.id in ids then ids else ids[line.id := ct]
    {
      hide Listing, Naming, Closed;
      var parent := FindParent(line.parentId);
      assert idCata == old(idCata)[line.parentId := parent];
      var start: int, offset: int := *, *;
      ct := new Catalog(line.id, line.name, line.parentId, parent, start, offset);
      OwnedGrow(catalogList, idCata, Repr, ct);
      ClosedAdd(Repr, ct);
      Repr := Repr + {ct};
      OwnedAdd(catalogList, idCata, Repr, ct, line.id);
      if line.id !in idCata {
        idCata := idCata[line.id := ct];
      }
      catalogList := catalogList + [ct];
    }

    method ParseChild(line: Row, ghost lines: seq<Row>)
      requires line.parentId != 0 && Owned()
      modifies this
      ensures Owned() && fresh(Repr - old(Repr))
      ensures old(Parsed(lines)) && WellFormed(lines + [line]) ==> Parsed(lines + [line])
    {
      hide Owned, LineFirst, Mentioned, RowsOf, Linked, Mapped, Topped;
      ghost var good := Parsed(lines) && WellFormed(lines + [line]);
      ghost var objs, all, ids, tops := catalogList, Listed(), idCata, levelOneMap;
      ReprHolds();
      if good {
        NewChild(lines, line);
      }
      var ct := AddChild(line);
      if good {
        Untouched(Kept(objs, ids, tops, lines + [line]));
        ghost var held := ids[line.parentId := ct.parent];
        if line.parentId in ids {
          assert held == ids;
        } else {
          MappedHolder(all, ids, lines + [line], line.parentId, ct.parent);
        }
        ExtendsParsed(lines, line, objs, all, held, tops, ct);
      }
    }

    /** Before a further line below the top level. */
    lemma NewChild(lines: seq<Row>, line: Row)
      requires Parsed(lines) && WellFormed(lines + [line]) && line.parentId != 0
      ensures Mapped(Listed(), idCata, lines + [line]) && Mentioned(lines + [line], line.parentId)
      ensures LineFirst(lines + [line], line.id) <==> line.id !in idCata && line.id != line.parentId
      ensures forall c | c in Listed() :: c.id != line.id
    {
      hide LineFirst, Mentioned, RowsOf, Linked, Topped, Mapped;
      assert (lines + [line])[|lines|] == line;
      MappedLine(catalogList, Listed(), idCata, lines, line);
      KnownIds(catalogList, Listed(), idCata, lines, line.id);
      FirstMention(lines, line);
    }

    // ---- after the parse -----------------------------------------------------------------

    /** In a file with every parent before its children, the children point at their parents' listed objects
        and every listed object is kept under its id. */
    lemma ParsedLinks(lines: seq<Row>)
      requires Parsed(lines) && WellFormed(lines) && forall k | 0 <= k < |lines| :: HasParentBefore(lines, k)
      ensures forall c | c in catalogList && c.parent != null ::
        c.parent in catalogList && c.parent.id == c.parentId && idCata[c.parentId] == c.parent
    {
      hide LineFirst, RowsOf;
      forall c | c in catalogList && c.parent != null
        ensures c.parent in catalogList && c.parent.id == c.parentId && idCata[c.parentId] == c.parent
      {
        var k := ObjectLine(catalogList, c);
        assert HasParentBefore(lines, k);
        ParentsFirst(lines, c.parentId);
        var j :| 0 <= j < k && lines[j].id == lines[k].parentId;
        RowAt(catalogList, j);
        assert catalogList[j] in Listed() && c in Listed();
      }
    }

    // ---- the children ranges -------------------------------------------------------------

    ghost function Parents(): set<Catalog>
      reads this`catalogList, (set c | c in catalogList)`parent
    {
      set c: Catalog | c in catalogList && c.parent != null :: c.parent
    }

    /** Entry i is a child of p: the range of p grows, or starts when the last child seen was another's. */
    method CountChild(p: Catalog, i: nat, same: bool, ghost par: seq<Catalog?>)
      requires i < |par| && par[i] == p && (Contiguous(par) ==> RangesUpTo(par, i))
      requires if same then p in par[..i] else i == 0 || par[i - 1] != p
      modifies p`start, p`offset
      ensures Contiguous(par) ==> RangesUpTo(par, i + 1)
    {
      if Contiguous(par) {
        if j :| 0 <= j < i && par[j] == p {
          assert par[i - 1] == p;
          assert RangeOk(p, par, i);
        }
      }
      if same {
        p.offset := p.offset + 1;
      } else {
        p.start := i;
        p.offset := 1;
      }
    }

    lemma RangesSkip(par: seq<Catalog?>, i: nat)
      requires i < |par| && par[i] == null && RangesUpTo(par, i)
      ensures RangesUpTo(par, i + 1)
    {
      forall j | 0 <= j <= i && par[j] != null ensures RangeOk(par[j], par, i + 1) {
        assert RangeOk(par[j], par, i);
      }
    }

    /** The loop of load that gives every parent the range of its children. */
    method ComputeRanges()
      modifies Parents()`start, Parents()`offset
      ensures Contiguous(ParentsOf(catalogList)) ==> RangesUpTo(ParentsOf(catalogList), |catalogList|)
    {
      hide Contiguous, RangesUpTo;
      ghost var par := ParentsOf(catalogList);
      var lastParent: Catalog? := null;
      RangesNone(par);
      for i := 0 to |catalogList|
        invariant par == ParentsOf(catalogList) == old(ParentsOf(catalogList))
        invariant i > 0 && par[i - 1] != null ==> lastParent == par[i - 1]
        invariant lastParent != null ==> lastParent in par[..i]
        invariant Contiguous(par) ==> RangesUpTo(par, i)
      {
        RowAt(catalogList, i);
        var now := catalogList[i];
        if now.parent == null {
          if Contiguous(par) {
            RangesSkip(par, i);
          }
          continue;
        }
        CountChild(now.parent, i, now.parent == lastParent, par);
        lastParent := now.parent;
      }
    }

    lemma RangesNone(par: seq<Catalog?>)
      ensures RangesUpTo(par, 0)
    {
    }

    /** Every parent's range is its children; a top-level entry without any keeps {-1, -1}. */
    ghost predicate Ranged()
      reads this`catalogList, Listed()`parent, Listed()`parentId, Listed()`start, Listed()`offset
    {
      forall p | p in Listed() ::
        if p in ParentsOf(catalogList) then RangeOk(p, ParentsOf(catalogList), |catalogList|)
        else p.parentId == 0 ==> p.start == -1 && p.offset == -1
    }

    /** What load leaves behind for a well-formed file. */
    ghost predicate Loaded(lines: seq<Row>)
      reads this, catalogList
    {
      && WellFormed(lines) && RowsOf(catalogList) == Sort(lines, CatalogLe)
      && Linked(Listed(), idCata) && Mapped(Listed(), idCata, lines) && Topped(Listed(), levelOneMap) && Ranged()
    }

    lemma LinkedContiguous(lines: seq<Row>)
      requires Linked(Listed(), idCata) && Mapped(Listed(), idCata, lines) && Arranged(RowsOf(catalogList))
      ensures Contiguous(ParentsOf(catalogList))
    {
      hide LineFirst, Mentioned;
      var par, rows := ParentsOf(catalogList), RowsOf(catalogList);
      forall a, b, c | 0 <= a <= b <= c < |par| && par[a] != null && par[a] == par[c] ensures par[b] == par[a] {
        RowAt(catalogList, a);
        RowAt(catalogList, b);
        RowAt(catalogList, c);
        var x, y, z := catalogList[a], catalogList[b], catalogList[c];
        assert x in Listed() && y in Listed() && z in Listed();
        assert idCata[x.parentId] == idCata[z.parentId];
        SiblingsTogether(rows, a, b, c);
      }
    }

    /** The sort of load. */
    method SortList(ghost lines: seq<Row>)
      requires Owned() && RowsOf(catalogList) == lines
      modifies this`catalogList
      ensures Owned() && Listed() == old(Listed())
      ensures RowsOf(catalogList) == Sort(lines, CatalogLe)
    {
      hide Sort, CatalogLe, ItemLe;
      var rows := RowsOf(catalogList);
      SortObjects(rows, catalogList);
      catalogList := ObjParts(Sort(Zip(rows, catalogList), ItemLe));
    }

    /** load: parses the lines, sorts the list and computes the children ranges. */
    method Load(lines: seq<Row>)
      requires catalogList == [] && idCata == map[] && levelOneMap == map[] && Repr == {}
      modifies this
      ensures WellFormed(lines) ==> Loaded(lines)
    {
      for k := 0 to |lines|
        invariant Owned() && fresh(Repr)
        invariant WellFormed(lines) ==> Parsed(lines[..k])
      {
        assert lines[..k + 1] == lines[..k] + [lines[k]];
        if WellFormed(lines) {
          WellFormedPrefix(lines, k + 1);
        }
        ParseLine(lines[k], lines[..k]);
      }
      assert lines[..|lines|] == lines;
      Finish(lines);
    }

    /** The part of load after the file is read. */
    method Finish(ghost lines: seq<Row>)
      requires Owned() && (WellFormed(lines) ==> Parsed(lines))
      modifies this`catalogList, Repr
      ensures WellFormed(lines) ==> Loaded(lines)
    {
      hide Sort, CatalogLe, Parents, WellFormed, Linked, Mapped, Topped, Unranged, Arranged, RowsOf;
      if WellFormed(lines) {
        SortArranges(lines);
      }
      if catalogList != [] {
        label Before:
        SortList(RowsOf(catalogList));
        assert Linked(Listed(), idCata) == old@Before(Linked(Listed(), idCata));
        assert Mapped(Listed(), idCata, lines) == old@Before(Mapped(Listed(), idCata, lines));
        assert Topped(Listed(), levelOneMap) == old@Before(Topped(Listed(), levelOneMap));
        assert Unranged(Listed()) == old@Before(Unranged(Listed()));
        assert WellFormed(lines) ==> Arrangement(lines);
        ParentsOwned();
        FillRanges(lines);
      } else if WellFormed(lines) {
        EmptyLoaded(lines);
      }
    }

    /** Between the sort and the ranges. */
    ghost predicate Arrangement(lines: seq<Row>)
      reads this, catalogList
    {
      && WellFormed(lines) && RowsOf(catalogList) == Sort(lines, CatalogLe) && Arranged(RowsOf(catalogList))
      && Linked(Listed(), idCata) && Mapped(Listed(), idCata, lines) && Topped(Listed(), levelOneMap)
      && Unranged(Listed())
    }

    lemma ParentsOwned()
      requires Owned()
      ensures Parents() <= Repr
    {
    }

    lemma EmptyLoaded(lines: seq<Row>)
      requires WellFormed(lines) && catalogList == [] && Parsed(lines)
      ensures Loaded(lines)
    {
    }

    method FillRanges(ghost lines: seq<Row>)
      requires Owned()
      modifies Parents()`start, Parents()`offset
      ensures old(Arrangement(lines)) ==> Loaded(lines)
    {
      hide Sort, CatalogLe, RowsOf, ParentsOf, RangesUpTo, WellFormed, Arranged;
      if Arrangement(lines) {
        LinkedContiguous(lines);
      }
      ParentsSame();
      label Before:
      ComputeRanges();
      if old(Arrangement(lines)) {
        assert RowsOf(catalogList) == old@Before(RowsOf(catalogList));
        assert ParentsOf(catalogList) == old@Before(ParentsOf(catalogList));
        assert Linked(Listed(), idCata) == old@Before(Linked(Listed(), idCata));
        assert Mapped(Listed(), idCata, lines) == old@Before(Mapped(Listed(), idCata, lines));
        assert Topped(Listed(), levelOneMap) == old@Before(Topped(Listed(), levelOneMap));
        RangesAre();
      }
    }

    lemma ParentsSame()
      ensures forall p: Catalog | p in Listed() :: p in ParentsOf(catalogList) <==> p in Parents()
    {
      forall p: Catalog | p in Listed() ensures p in ParentsOf(catalogList) <==> p in Parents() {
        if p in ParentsOf(catalogList) {
          var k :| 0 <= k < |catalogList| && ParentsOf(catalogList)[k] == p;
          RowAt(catalogList, k);
          assert catalogList[k] in catalogList && catalogList[k].parent == p;
        }
        if p in Parents() {
          var c: Catalog :| c in catalogList && c.parent == p;
          var k :| 0 <= k < |catalogList| && catalogList[k] == c;
          RowAt(catalogList, k);
        }
      }
    }

    lemma RangesAre()
      requires RangesUpTo(ParentsOf(catalogList), |catalogList|)
      requires forall p | p in Listed() && p !in ParentsOf(catalogList) && p.parentId == 0 ::
        p.start == -1 && p.offset == -1
      ensures Ranged()
    {
      var par := ParentsOf(catalogList);
      forall p | p in Listed() && p in par ensures RangeOk(p, par, |catalogList|) {
        var j :| 0 <= j < |par| && par[j] == p;
      }
    }

    // ---- lookup --------------------------------------------------------------------------

    /** An entry hangs on a listed object exactly if it is its child and the object's line came first. */
    lemma ParentOf(lines: seq<Row>, p: Catalog, j: nat)
      requires Loaded(lines) && p in Listed() && j < |catalogList|
      ensures ParentsOf(catalogList)[j] == p
        <==> RowsOf(catalogList)[j].parentId == p.id && LineFirst(lines, p.id)
    {
      hide Sort, CatalogLe, WellFormed, RowsOf, ParentsOf, LineFirst, Mentioned;
      RowAt(catalogList, j);
      assert catalogList[j] in Listed();
      OwnId(lines, p);
    }

    lemma OwnId(lines: seq<Row>, p: Catalog)
      requires Loaded(lines) && p in Listed()
      ensures p.id != 0
    {
      hide Sort, CatalogLe, LineFirst, Mentioned;
      SortArranges(lines);
      var k := ObjectLine(catalogList, p);
    }

    /** After load, the range of a catalog that can be searched is exactly its set of children. */
    lemma ChildrenRange(lines: seq<Row>, p: Catalog)
      requires Loaded(lines) && p in Listed() && CanSearch(lines, p.id)
      ensures 0 <= p.start && 0 < p.offset && p.start + p.offset <= |catalogList|
      ensures forall j | 0 <= j < |catalogList| ::
        RowsOf(catalogList)[j].parentId == p.id <==> p.start <= j < p.start + p.offset
    {
      hide Sort, CatalogLe, WellFormed, RowsOf, ParentsOf, LineFirst, Linked, Mapped, Topped;
      var rows, par := RowsOf(catalogList), ParentsOf(catalogList);
      var k :| 0 <= k < |lines| && lines[k].parentId == p.id;
      var m := RowKept(lines, k);
      forall j | 0 <= j < |rows| ensures rows[j].parentId == p.id <==> par[j] == p {
        ParentOf(lines, p, j);
      }
      assert par[m] == p;
      assert RangeOk(p, par, |catalogList|);
    }

    /** Ranges of different catalogs are disjoint, and every entry whose parent's line came first is in its
        parent's range. */
    lemma RangesPartition(lines: seq<Row>, j: nat)
      requires Loaded(lines) && j < |catalogList| && catalogList[j].parentId != 0
      ensures forall q | q in Listed() && CanSearch(lines, q.id) ::
        q.start <= j < q.start + q.offset <==> q.id == catalogList[j].parentId
      ensures LineFirst(lines, catalogList[j].parentId) ==> CanSearch(lines, catalogList[j].parentId)
      ensures LineFirst(lines, catalogList[j].parentId) ==> exists q | q in Listed() :: q.id == catalogList[j].parentId
    {
      hide Sort, CatalogLe, WellFormed, RowsOf, ParentsOf, NoneBelow, Linked, Mapped, Topped;
      RowAt(catalogList, j);
      forall q | q in Listed() && CanSearch(lines, q.id)
        ensures q.start <= j < q.start + q.offset <==> q.id == catalogList[j].parentId
      {
        ChildrenRange(lines, q);
      }
      var id := catalogList[j].parentId;
      if LineFirst(lines, id) {
        var k :| 0 <= k < |lines| && lines[k].id == id && NoneBelow(lines[..k + 1], id);
        var m := RowKept(lines, k);
        RowAt(catalogList, m);
        assert catalogList[m] in Listed();
        var n := RowFrom(lines, j);
        assert lines[n].parentId == id;
      }
    }

    /** binary_search: the position of the child with that name in a range of siblings, or -1. */
    method BinarySearch(start: int, offset: int, name: string) returns (r: int)
      requires 0 <= start && 0 < offset && start + offset <= |catalogList|
      requires forall i, j | start <= i < j < start + offset :: LexLe(catalogList[i].name, catalogList[j].name)
      ensures r == -1 || (start <= r < start + offset && catalogList[r].name == name)
      ensures r == -1 ==> forall j | start <= j < start + offset :: catalogList[j].name != name
    {
      var left := start - 1;
      var right := start + offset;
      while left + 1 != right
        invariant start - 1 <= left < right <= start + offset
        invariant forall j | start <= j <= left :: !LexLe(name, catalogList[j].name)
        invariant forall j | right <= j < start + offset :: LexLe(name, catalogList[j].name)
        decreases right - left
      {
        var middle := left + (right - left) / 2;
        if !LexLe(name, catalogList[middle].name) {
          forall j | start <= j <= middle ensures !LexLe(name, catalogList[j].name) {
            NotAfter(name, catalogList[j].name, catalogList[middle].name);
          }
          left := middle;
        } else {
          forall j | middle <= j < start + offset ensures LexLe(name, catalogList[j].name) {
            NotAfter(name, catalogList[middle].name, catalogList[j].name);
          }
          right := middle;
        }
      }
      LexTotal(name, name);
      if right >= start + offset || catalogList[right].name != name {
        forall j | start <= j < start + offset ensures catalogList[j].name != name {
          if j >= right {
            LexTotal(name, catalogList[right].name);
            assert right < j ==> LexLe(catalogList[right].name, catalogList[j].name);
          }
        }
        return -1;
      }
      return right;
    }

    lemma NotAfter(a: string, b: string, c: string)
      ensures (b == c || LexLe(b, c)) && LexLe(a, b) ==> LexLe(a, c)
    {
      if LexLe(b, c) && LexLe(a, b) {
        LexTransitive(a, b, c);
      }
    }

    lemma SiblingsAscend(lines: seq<Row>, p: Catalog)
      requires Loaded(lines) && p in Listed() && CanSearch(lines, p.id)
      ensures 0 <= p.start && 0 < p.offset && p.start + p.offset <= |catalogList|
      ensures forall i, j | p.start <= i < j < p.start + p.offset ::
        LexLe(catalogList[i].name, catalogList[j].name) && catalogList[i].name != catalogList[j].name
    {
      hide Sort, CatalogLe, WellFormed, RowsOf, ParentsOf;
      ChildrenRange(lines, p);
      SortArranges(lines);
      var rows := RowsOf(catalogList);
      forall i, j | p.start <= i < j < p.start + p.offset
        ensures LexLe(catalogList[i].name, catalogList[j].name) && catalogList[i].name != catalogList[j].name
      {
        RowAt(catalogList, i);
        RowAt(catalogList, j);
        assert rows[i].parentId == rows[j].parentId;
      }
    }

    /** The first probe of a search below a top-level catalog is inside the list exactly when the catalog has
        a child and its line came before its first child's. Otherwise it keeps the range {-1, -1}, and the
        code looks at position -2. */
    lemma FirstProbe(lines: seq<Row>, p: Catalog)
      requires Loaded(lines) && p in Listed() && p.parentId == 0
      ensures var left, right := p.start - 1, p.start + p.offset;
        && left + 1 != right
        && (0 <= left + (right - left) / 2 < |catalogList| <==> CanSearch(lines, p.id))
    {
      hide Sort, CatalogLe, WellFormed, RowsOf, ParentsOf, LineFirst, Linked, Mapped, Topped;
      if CanSearch(lines, p.id) {
        ChildrenRange(lines, p);
      } else {
        forall k | 0 <= k < |catalogList| ensures ParentsOf(catalogList)[k] != p {
          ParentOf(lines, p, k);
          var m := RowFrom(lines, k);
          assert lines[m].parentId == RowsOf(catalogList)[k].parentId;
        }
      }
    }

    /** Every listed object stands for a line. */
    lemma LineOf(lines: seq<Row>, p: Catalog) returns (m: nat)
      requires Loaded(lines) && p in Listed()
      ensures m < |lines| && lines[m] == RowOf(p)
    {
      hide Sort, CatalogLe, WellFormed, RowsOf, ParentsOf;
      var k :| 0 <= k < |catalogList| && catalogList[k] == p;
      RowAt(catalogList, k);
      m := RowFrom(lines, k);
    }

    /** The names `level_one_map` finds are the top-level ones of the file. */
    lemma TopIs(lines: seq<Row>, name: string)
      requires Loaded(lines)
      ensures name in levelOneMap <==> HasTop(lines, name)
      ensures name in levelOneMap ==>
        && levelOneMap[name] in Listed()
        && TopId(lines, name) == Some(levelOneMap[name].id)
        && (forall i: nat | IsTop(lines, i, name) :: lines[i].id == levelOneMap[name].id)
    {
      hide Sort, CatalogLe, WellFormed, RowsOf, ParentsOf, TopId;
      forall i: nat | IsTop(lines, i, name)
        ensures name in levelOneMap && TopId(lines, name) == Some(lines[i].id) == Some(levelOneMap[name].id)
      {
        TopIdIs(lines, name, i);
        var m := RowKept(lines, i);
        RowAt(catalogList, m);
        assert catalogList[m] in Listed();
      }
      if name in levelOneMap {
        var m := LineOf(lines, levelOneMap[name]);
        assert IsTop(lines, m, name);
      }
    }

    /** The child `name` of a catalog, found by its range: the one entry with that parent and name. */
    method FindChild(parent: Catalog, name: string, ghost lines: seq<Row>) returns (r: int)
      requires Loaded(lines) && parent in Listed() && CanSearch(lines, parent.id)
      ensures -1 <= r < |catalogList|
      ensures forall j: nat :: IsChildOf(RowsOf(catalogList), j, parent.id, name) <==> j == r
      ensures r >= 0 ==> RowsOf(catalogList)[r] == RowOf(catalogList[r])
    {
      hide Sort, CatalogLe, WellFormed, RowsOf, ParentsOf, Loaded;
      SiblingsAscend(lines, parent);
      ChildrenRange(lines, parent);
      r := BinarySearch(parent.start, parent.offset, name);
      forall j: nat ensures IsChildOf(RowsOf(catalogList), j, parent.id, name) <==> j == r {
        if j < |catalogList| {
          RowAt(catalogList, j);
        }
      }
      if r >= 0 {
        RowAt(catalogList, r);
      }
    }

    /** What FindChild has found, in terms of the file. */
    lemma ChildFound(lines: seq<Row>, id: int, name: string, r: int)
      requires Loaded(lines) && -1 <= r < |catalogList|
      requires forall j: nat :: IsChildOf(RowsOf(catalogList), j, id, name) <==> j == r
      ensures ChildId(lines, id, name).Some? <==> r >= 0
      ensures r >= 0 ==> catalogList[r] in Listed() && ChildId(lines, id, name) == Some(catalogList[r].id)
    {
      hide Sort, CatalogLe, WellFormed, RowsOf, ParentsOf, ChildId, Linked, Mapped, Ranged;
      if r >= 0 {
        RowAt(catalogList, r);
        var m := RowFrom(lines, r);
        assert IsChildOf(RowsOf(catalogList), r as nat, id, name);
        ChildIdIs(lines, id, name, m);
      } else {
        forall j: nat ensures !IsChildOf(lines, j, id, name) {
          if IsChildOf(lines, j, id, name) {
            var m := RowKept(lines, j);
            assert IsChildOf(RowsOf(catalogList), m, id, name);
          }
        }
        NoChildId(lines, id, name);
      }
    }

    /** get_catalog_id: the id of the child, except that list position 0 counts as not found. */
    method GetCatalogId(fCatalog: string, sCatalog: string, ghost lines: seq<Row>) returns (r: int)
      requires Loaded(lines) && Searchable(lines, fCatalog)
      ensures r == CatalogId(lines, fCatalog, sCatalog)
    {
      hide Sort, CatalogLe, WellFormed, RowsOf, ParentsOf, Loaded, TopId, CatalogId;
      TopIs(lines, fCatalog);
      SortKeepsTop(lines, fCatalog);
      ghost var rows := RowsOf(catalogList);
      LoadedRows(lines);
      if fCatalog !in levelOneMap {
        NoTopNoPair(rows, fCatalog, sCatalog);
        NoPairNoId(lines, fCatalog, sCatalog);
        return -1;
      }
      var cid := levelOneMap[fCatalog];
      ghost var i: nat :| IsTop(lines, i, fCatalog);
      var id := FindChild(cid, sCatalog, lines);
      forall j: nat ensures IsPair(rows, fCatalog, sCatalog, j) <==> j == id {
        PairsBelow(lines, fCatalog, sCatalog, cid.id, j);
        assert IsChildOf(RowsOf(catalogList), j, cid.id, sCatalog) <==> j == id;
      }
      CatalogIdAt(lines, fCatalog, sCatalog, id);
      if id <= 0 {
        return -1;
      }
      return catalogList[id].id;
    }

    lemma LoadedRows(lines: seq<Row>)
      requires Loaded(lines)
      ensures RowsOf(catalogList) == Sort(lines, CatalogLe) && WellFormed(lines)
    {
    }

    /** get_id_in_level: the id found at the last level, and the words that are left. */
    method GetIdInLevel(parent: Catalog, left: seq<string>, level: nat, ghost lines: seq<Row>)
      returns (r: Option<int>, rest: seq<string>)
      requires Loaded(lines) && parent in Listed() && SearchableBelow(lines, parent.id, left, level)
      ensures (r, rest) == IdBelow(lines, parent.id, left, level)
      decreases level
    {
      hide Loaded, HasChild, ChildId, IsChildOf, RowsOf;
      for k := 0 to |left|
        invariant forall i | 0 <= i < k :: ChildId(lines, parent.id, left[i]).None?
      {
        var pos := FindChild(parent, left[k], lines);
        ChildFound(lines, parent.id, left[k], pos);
        if pos != -1 {
          assert FirstChild(lines, parent.id, left) == k;
          var found := catalogList[pos];
          if level == 0 {
            return Some(found.id), Without(left, k);
          }
          r, rest := GetIdInLevel(found, Without(left, k), level - 1, lines);
          return;
        }
      }
      return None, left;
    }

    /** get_id: the catalog the words denote. */
    method GetId(segList: seq<string>, level: nat, ghost lines: seq<Row>) returns (r: Option<int>)
      requires Loaded(lines) && SearchableWords(lines, segList, level)
      ensures r == IdOf(lines, segList, level)
    {
      hide Loaded, HasTop, TopId, SearchableBelow, IdBelow;
      for i := 0 to |segList|
        invariant forall k | 0 <= k < i :: !HasTop(lines, segList[k])
      {
        TopIs(lines, segList[i]);
        if segList[i] in levelOneMap {
          assert FirstTop(lines, segList) == i;
          var top := levelOneMap[segList[i]];
          if level == 0 {
            return Some(top.id);
          }
          var rest;
          r, rest := GetIdInLevel(top, Without(segList, i), level - 1, lines);
          return;
        }
      }
      return None;
    }
  }
}
