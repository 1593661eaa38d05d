/** What the index of a document list is, stated directly on the documents.
    A document is the list of its entries; document number `d` is `docs[d]`. */
module IndexSpec {
  import opened IndexTypes
  import Sorting

  type Doc = seq<Entry>

  // ---- what a document says about a term -------------------------------------------------

  function Count(e: Doc, s: nat): nat {
    if e == [] then 0 else (if e[0].sign == s then 1 else 0) + Count(e[1..], s)
  }

  function Fields(e: Doc, s: nat): FieldSet {
    if e == [] then 0 else (if e[0].sign == s then e[0].field else 0) | Fields(e[1..], s)
  }

  /** How many entries carry a smaller sign. */
  function Below(e: Doc, s: nat): nat {
    if e == [] then 0 else (if e[0].sign < s then 1 else 0) + Below(e[1..], s)
  }

  /** The entries of one term, in order. */
  function OfSign(e: Doc, s: nat): Doc {
    if e == [] then [] else if e[0].sign == s then [e[0]] + OfSign(e[1..], s) else OfSign(e[1..], s)
  }

  // ---- index_compare ---------------------------------------------------------------------

  predicate EntryLe(a: Entry, b: Entry) {
    if a.sign != b.sign then a.sign < b.sign
    else if a.field != b.field then a.field < b.field
    else if a.no != b.no then a.no < b.no
    else a.offset <= b.offset
  }

  function SortEntries(e: Doc): Doc {
    Sorting.Sort(e, EntryLe)
  }

  predicate SignOrdered(e: Doc) {
    forall i, j | 0 <= i < j < |e| :: e[i].sign <= e[j].sign
  }

  /** By sign, then field, then number, then offset. */
  lemma SortEntriesSorted(e: Doc)
    ensures Sorting.Sorted(SortEntries(e), EntryLe) && SignOrdered(SortEntries(e))
    ensures var r := SortEntries(e);
      forall i, j | 0 <= i < j < |r| && r[i].sign == r[j].sign ::
        && r[i].field <= r[j].field
        && (r[i].field == r[j].field ==> r[i].no <= r[j].no)
        && (r[i].field == r[j].field && r[i].no == r[j].no ==> r[i].offset <= r[j].offset)
  {
    Sorting.SortSorted(e, EntryLe);
  }

  /** The definitions above, unfolded once at a known head. */
  lemma CountCons(x: Entry, e: Doc, s: nat)
    ensures Count([x] + e, s) == (if x.sign == s then 1 else 0) + Count(e, s)
    ensures Fields([x] + e, s) == (if x.sign == s then x.field else 0) | Fields(e, s)
    ensures Below([x] + e, s) == (if x.sign < s then 1 else 0) + Below(e, s)
  {
    assert ([x] + e)[1..] == e;
  }

  lemma OrSwap(a: FieldSet, b: FieldSet, c: FieldSet)
    ensures a | (b | c) == b | (a | c)
  {
  }

  lemma {:induction false} CountInsert(x: Entry, e: Doc, s: nat, le: (Entry, Entry) -> bool)
    ensures Count(Sorting.Insert(x, e, le), s) == Count([x] + e, s)
    ensures Fields(Sorting.Insert(x, e, le), s) == Fields([x] + e, s)
    ensures Below(Sorting.Insert(x, e, le), s) == Below([x] + e, s)
  {
    if e == [] || le(x, e[0]) {
      assert [x] + e == Sorting.Insert(x, e, le);
    } else {
      var y, t := e[0], e[1..];
      var r := Sorting.Insert(x, t, le);
      assert Sorting.Insert(x, e, le) == [y] + r;
      CountInsert(x, t, s, le);
      hide Count, Fields, Below;
      CountCons(y, r, s);
      CountCons(x, t, s);
      CountCons(x, e, s);
      OrSwap(if x.sign == s then x.field else 0, if y.sign == s then y.field else 0, Fields(t, s));
    }
  }

  /** What a document says about a term does not depend on the order of its entries. */
  lemma {:induction false} SortKeepsCounts(e: Doc, s: nat)
    ensures Count(SortEntries(e), s) == Count(e, s)
    ensures Fields(SortEntries(e), s) == Fields(e, s)
    ensures Below(SortEntries(e), s) == Below(e, s)
  {
    if e != [] {
      var t := e[1..];
      SortKeepsCounts(t, s);
      CountInsert(e[0], SortEntries(t), s, EntryLe);
      CountCons(e[0], SortEntries(t), s);
    }
  }

  lemma {:induction false} CountAppend(a: Doc, b: Doc, s: nat)
    ensures Count(a + b, s) == Count(a, s) + Count(b, s)
    ensures Fields(a + b, s) == Fields(a, s) | Fields(b, s)
    ensures Below(a + b, s) == Below(a, s) + Below(b, s)
  {
    if a == [] {
      assert a + b == b;
    } else {
      var t := a[1..];
      CountAppend(t, b, s);
      assert a + b == [a[0]] + (t + b);
      CountCons(a[0], t + b, s);
      OrAssoc(if a[0].sign == s then a[0].field else 0, Fields(t, s), Fields(b, s));
    }
  }

  /** The count is the number of entries with the sign. */
  lemma {:induction false} CountIs(e: Doc, s: nat)
    ensures Count(e, s) == |set i | 0 <= i < |e| && e[i].sign == s|
  {
    if e != [] {
      var n := |e| - 1;
      var front := e[..n];
      CountIs(front, s);
      assert e == front + [e[n]];
      CountAppend(front, [e[n]], s);
      CountCons(e[n], [], s);
      assert [e[n]] + [] == [e[n]];
      var a, b := set i | 0 <= i < |front| && front[i].sign == s, set i | 0 <= i < |e| && e[i].sign == s;
      assert b == if e[n].sign == s then a + {n} else a;
    }
  }

  /** The union has a bit of the mask exactly if an entry with the sign has. */
  lemma {:induction false} FieldsIs(e: Doc, s: nat, mask: FieldSet)
    ensures Fields(e, s) & mask != 0 <==> exists i | 0 <= i < |e| :: e[i].sign == s && e[i].field & mask != 0
  {
    if e != [] {
      FieldsIs(e[1..], s, mask);
      assert forall i | 0 < i < |e| :: e[i] == e[1..][i - 1];
      OrMask(if e[0].sign == s then e[0].field else 0, Fields(e[1..], s), mask);
    }
  }

  lemma OrMask(a: FieldSet, b: FieldSet, mask: FieldSet)
    ensures (a | b) & mask != 0 <==> a & mask != 0 || b & mask != 0
  {
  }

  lemma OrAssoc(a: FieldSet, b: FieldSet, c: FieldSet)
    ensures a | (b | c) == (a | b) | c
  {
  }

  lemma {:induction false} CountZero(e: Doc, s: nat)
    ensures Count(e, s) == 0 <==> forall i | 0 <= i < |e| :: e[i].sign != s
    ensures Count(e, s) == 0 ==> Fields(e, s) == 0 && OfSign(e, s) == []
  {
    if e != [] {
      CountZero(e[1..], s);
      if e[0].sign != s && Count(e[1..], s) == 0 {
        forall i | 0 <= i < |e| ensures e[i].sign != s {
          if i > 0 { assert e[i] == e[1..][i - 1]; }
        }
      }
      if forall i | 0 <= i < |e| :: e[i].sign != s {
        assert e[0].sign != s;
        forall i | 0 <= i < |e[1..]| ensures e[1..][i].sign != s { assert e[1..][i] == e[i + 1]; }
      }
    }
  }

  // ---- the postings of a term ------------------------------------------------------------

  function HitTotal(docs: seq<Doc>): nat {
    if docs == [] then 0 else HitTotal(docs[..|docs| - 1]) + |docs[|docs| - 1]|
  }

  /** The posting finish_obj writes for sign `s` of document number `d`, when `base` hits have been
      written before. Sign 0 equals the loop's initial `last_sign`, so its hits are appended to
      whatever came before and the location stays at the zero it was cleared to. */
  function DocPosting(base: nat, d: nat, e: Doc, s: nat): Posting {
    Posting(d, HitInfo(Fields(e, s), Count(e, s) % HIT_NUM_MODULUS, if s == 0 then 0 else base + Below(e, s)))
  }

  /** The posting list of a term: its documents from the highest number down. */
  function Postings(docs: seq<Doc>, s: nat): seq<Posting> {
    if docs == [] then []
    else
      var d := |docs| - 1;
      var rest := Postings(docs[..d], s);
      if Count(docs[d], s) > 0 then [DocPosting(HitTotal(docs[..d]), d, docs[d], s)] + rest else rest
  }

  predicate Descending(l: seq<Posting>) {
    forall i, j | 0 <= i < j < |l| :: l[i].objId > l[j].objId
  }

  /** A posting list is strictly descending in the document number and names no later document. */
  lemma {:induction false} PostingsDescending(docs: seq<Doc>, s: nat)
    ensures Descending(Postings(docs, s))
    ensures forall i | 0 <= i < |Postings(docs, s)| :: Postings(docs, s)[i].objId < |docs|
  {
    if docs != [] {
      PostingsDescending(docs[..|docs| - 1], s);
    }
  }

  predicate Occurs(docs: seq<Doc>, s: nat) {
    exists d | 0 <= d < |docs| :: Count(docs[d], s) > 0
  }

  /** The distinct signs of the documents. */
  function Signs(docs: seq<Doc>): set<nat> {
    set d, i | 0 <= d < |docs| && 0 <= i < |docs[d]| :: docs[d][i].sign
  }

  lemma {:induction false} CountFinds(e: Doc, s: nat)
    ensures Count(e, s) > 0 <==> exists i | 0 <= i < |e| :: e[i].sign == s
  {
    if e != [] {
      CountFinds(e[1..], s);
      assert forall i | 0 < i < |e| :: e[i] == e[1..][i - 1];
    }
  }

  lemma OccursIsSign(docs: seq<Doc>, s: nat)
    ensures Occurs(docs, s) <==> s in Signs(docs)
  {
    if d :| 0 <= d < |docs| && Count(docs[d], s) > 0 {
      CountFinds(docs[d], s);
    }
    if s in Signs(docs) {
      var d, i :| 0 <= d < |docs| && 0 <= i < |docs[d]| && docs[d][i].sign == s;
      CountFinds(docs[d], s);
    }
  }

  /** A term has postings exactly when some document contains it. */
  lemma {:induction false} PostingsNonEmpty(docs: seq<Doc>, s: nat)
    ensures Postings(docs, s) != [] <==> Occurs(docs, s)
  {
    if docs != [] {
      var n := |docs| - 1;
      var p := docs[..n];
      PostingsNonEmpty(p, s);
      if Occurs(p, s) {
        var d :| 0 <= d < |p| && Count(p[d], s) > 0;
        assert docs[d] == p[d];
      }
      if d :| 0 <= d < |docs| && Count(docs[d], s) > 0 {
        if d < n { assert p[d] == docs[d]; }
      }
    }
  }

  /** Document d has a posting under s exactly when s occurs in d, and the posting carries the
      union of the fields and the number of occurrences. */
  lemma {:induction false} PostingOfDoc(docs: seq<Doc>, s: nat, p: Posting)
    ensures p in Postings(docs, s) <==>
      && p.objId < |docs| && Count(docs[p.objId], s) > 0
      && p.hit.field == Fields(docs[p.objId], s) && p.hit.num == Count(docs[p.objId], s) % 2048
      && p.hit.loc == if s == 0 then 0 else HitTotal(docs[..p.objId]) + Below(docs[p.objId], s)
  {
    if docs != [] {
      var n := |docs| - 1;
      PostingOfDoc(docs[..n], s, p);
      if p.objId < n {
        assert docs[..n][..p.objId] == docs[..p.objId];
      }
    }
  }
}
