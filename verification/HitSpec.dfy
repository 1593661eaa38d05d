/** The hit file: what finish_obj writes for the documents, and where the hits of a posting stand. */
module HitSpec {
  import opened IndexTypes
  import opened IndexSpec

  function ToHit(x: Entry): Hit {
    Hit(x.field, x.offset % 256)
  }

  function ToHits(e: Doc): (r: seq<Hit>)
    ensures |r| == |e|
  {
    seq(|e|, i requires 0 <= i < |e| => ToHit(e[i]))
  }

  function Concat<T>(parts: seq<seq<T>>): seq<T> {
    if parts == [] then [] else Concat(parts[..|parts| - 1]) + parts[|parts| - 1]
  }

  function HitParts(docs: seq<Doc>): (r: seq<seq<Hit>>)
    ensures |r| == |docs|
  {
    seq(|docs|, i requires 0 <= i < |docs| => ToHits(SortEntries(docs[i])))
  }

  /** Everything finish_obj has written to the hit file: document after document, each sorted. */
  function HitStream(docs: seq<Doc>): seq<Hit> {
    Concat(HitParts(docs))
  }

  lemma HitStreamAdd(docs: seq<Doc>, raw: Doc)
    ensures HitStream(docs + [raw]) == HitStream(docs) + ToHits(SortEntries(raw))
  {
    var p := HitParts(docs + [raw]);
    assert p[..|docs|] == HitParts(docs);
  }

  lemma {:induction false} HitStreamLength(docs: seq<Doc>)
    ensures |HitStream(docs)| == HitTotal(docs)
  {
    if docs != [] {
      var n := |docs| - 1;
      HitStreamLength(docs[..n]);
      HitStreamAdd(docs[..n], docs[n]);
      assert docs[..n] + [docs[n]] == docs;
    }
  }

  /** `run` stands in `h` from position `a` on. */
  ghost predicate RunAt<T>(h: seq<T>, a: nat, run: seq<T>) {
    a + |run| <= |h| && h[a..a + |run|] == run
  }

  lemma TailOrdered(e: Doc)
    requires SignOrdered(e) && e != []
    ensures SignOrdered(e[1..])
    ensures forall i | 0 <= i < |e[1..]| :: e[1..][i].sign >= e[0].sign
  {
    forall i, j | 0 <= i < j < |e[1..]| ensures e[1..][i].sign <= e[1..][j].sign {
      assert e[1..][i] == e[i + 1] && e[1..][j] == e[j + 1];
    }
    forall i | 0 <= i < |e[1..]| ensures e[1..][i].sign >= e[0].sign { assert e[1..][i] == e[i + 1]; }
  }

  lemma {:induction false} OfSignAll(e: Doc, s: nat)
    ensures |OfSign(e, s)| == Count(e, s)
    ensures Count(OfSign(e, s), s) == Count(e, s)
  {
    if e != [] {
      OfSignAll(e[1..], s);
      CountCons(e[0], OfSign(e[1..], s), s);
    }
  }

  /** In a sorted document the entries of one term are one contiguous run. */
  lemma {:induction false} SignRun(e: Doc, s: nat)
    requires SignOrdered(e)
    ensures RunAt(e, Below(e, s), OfSign(e, s))
  {
    if e != [] {
      var t := e[1..];
      TailOrdered(e);
      if e[0].sign > s {
        BelowZero(e, s);
        CountZero(e, s);
      } else {
        SignRun(t, s);
        RunAtTail(e, Below(t, s), OfSign(t, s));
        if e[0].sign == s {
          BelowZero(t, s);
        }
      }
    }
  }

  lemma RunAtTail<T>(e: seq<T>, a: nat, run: seq<T>)
    requires e != [] && RunAt(e[1..], a, run)
    ensures RunAt(e, a + 1, run)
    ensures a == 0 ==> RunAt(e, 0, [e[0]] + run)
  {
    var l := e[a + 1..a + 1 + |run|];
    forall i | 0 <= i < |l| ensures l[i] == run[i] {
      assert e[1..][a..a + |run|][i] == run[i];
    }
    assert l == run;
  }

  lemma {:induction false} BelowZero(e: Doc, s: nat)
    requires forall i | 0 <= i < |e| :: e[i].sign >= s
    ensures Below(e, s) == 0
  {
    if e != [] {
      forall i | 0 <= i < |e[1..]| ensures e[1..][i].sign >= s { assert e[1..][i] == e[i + 1]; }
      BelowZero(e[1..], s);
    }
  }

  lemma RunAtConcat<T>(front: seq<T>, last: seq<T>, a: nat, run: seq<T>)
    ensures RunAt(front, a, run) ==> RunAt(front + last, a, run)
    ensures RunAt(front + last, |front|, last)
  {
  }

  lemma {:induction false} ConcatRun<T>(parts: seq<seq<T>>, d: nat, n: nat)
    requires d < n <= |parts|
    ensures RunAt(Concat(parts[..n]), |Concat(parts[..d])|, parts[d])
    decreases n
  {
    assert parts[..n][..n - 1] == parts[..n - 1];
    RunAtConcat(Concat(parts[..n - 1]), parts[n - 1], |Concat(parts[..d])|, parts[d]);
    if d < n - 1 {
      ConcatRun(parts, d, n - 1);
    }
  }

  lemma HitStreamPrefix(docs: seq<Doc>, d: nat)
    requires d < |docs|
    ensures RunAt(HitStream(docs), HitTotal(docs[..d]), ToHits(SortEntries(docs[d])))
  {
    var parts := HitParts(docs);
    ConcatRun(parts, d, |docs|);
    assert parts[..|docs|] == parts;
    assert parts[..d] == HitParts(docs[..d]);
    HitStreamLength(docs[..d]);
  }

  /** Where the hits of (document d, sign s) start. */
  function RunStart(docs: seq<Doc>, d: nat, s: nat): nat
    requires d < |docs|
  {
    HitTotal(docs[..d]) + Below(docs[d], s)
  }

  /** The run at `RunStart` holds exactly the hits of the term in that document, in sorted order. */
  lemma HitRunContents(docs: seq<Doc>, d: nat, s: nat)
    requires d < |docs|
    ensures |OfSign(SortEntries(docs[d]), s)| == Count(docs[d], s)
    ensures RunAt(HitStream(docs), RunStart(docs, d, s), ToHits(OfSign(SortEntries(docs[d]), s)))
  {
    hide HitTotal, HitStream, SortEntries, Below, Count, Fields, OfSign, ToHits, RunAt, SignOrdered;
    SortEntriesSorted(docs[d]);
    SortKeepsCounts(docs[d], s);
    HitStreamPrefix(docs, d);
    SliceOfHits(HitStream(docs), HitTotal(docs[..d]), SortEntries(docs[d]), s);
    OfSignAll(SortEntries(docs[d]), s);
  }

  /** Each hit of a run carries the field and, in eight bits, the offset of an entry of the term, and the
      fields of a run ascend. */
  lemma HitRunMeans(docs: seq<Doc>, d: nat, s: nat, k: nat)
    requires d < |docs| && k < Count(docs[d], s)
    ensures RunStart(docs, d, s) + Count(docs[d], s) <= |HitStream(docs)|
    ensures var h := HitStream(docs)[RunStart(docs, d, s) + k];
      && (exists i | 0 <= i < |docs[d]| ::
            docs[d][i].sign == s && h.field == docs[d][i].field && h.no == docs[d][i].offset % 256)
      && (k > 0 ==> HitStream(docs)[RunStart(docs, d, s) + k - 1].field <= h.field)
  {
    hide HitStream, SortEntries, Below, Count, OfSign, HitTotal;
    HitRunContents(docs, d, s);
    var e, a := SortEntries(docs[d]), RunStart(docs, d, s);
    var run := OfSign(e, s);
    assert HitStream(docs)[a + k] == HitStream(docs)[a..a + |run|][k] == ToHit(run[k]);
    SortEntriesSorted(docs[d]);
    SortKeepsCounts(docs[d], s);
    SignRun(e, s);
    OfSignAll(e, s);
    var b := Below(e, s);
    assert run[k] == e[b..b + |run|][k] == e[b + k];
    OfSignIs(e, s, k);
    SameEntries(docs[d], e[b + k]);
    if k > 0 {
      assert HitStream(docs)[a + k - 1] == HitStream(docs)[a..a + |run|][k - 1] == ToHit(run[k - 1]);
      assert run[k - 1] == e[b..b + |run|][k - 1] == e[b + k - 1];
      OfSignIs(e, s, k - 1);
    }
  }

  lemma {:induction false} OfSignIs(e: Doc, s: nat, k: nat)
    requires k < |OfSign(e, s)|
    ensures OfSign(e, s)[k].sign == s
  {
    if e[0].sign != s {
      OfSignIs(e[1..], s, k);
    } else if k > 0 {
      OfSignIs(e[1..], s, k - 1);
    }
  }

  lemma SameEntries(e: Doc, x: Entry)
    requires x in SortEntries(e)
    ensures exists i | 0 <= i < |e| :: e[i] == x
  {
    assert x in multiset(SortEntries(e));
    assert x in multiset(e);
  }

  lemma RunAtSlice<T>(h: seq<T>, a: nat, run: seq<T>, b: nat, c: nat)
    requires RunAt(h, a, run) && b + c <= |run|
    ensures a + b + c <= |h| && h[a + b..a + b + c] == run[b..b + c]
  {
    var l, r := h[a + b..a + b + c], run[b..b + c];
    forall i | 0 <= i < |l| ensures l[i] == r[i] {
      assert h[a..a + |run|][b + i] == run[b + i];
    }
  }

  lemma HitsOfSlice(e: Doc, b: nat, c: nat)
    requires b + c <= |e|
    ensures ToHits(e)[b..b + c] == ToHits(e[b..b + c])
  {
  }

  lemma SliceOfHits(h: seq<Hit>, a: nat, e: Doc, s: nat)
    requires RunAt(h, a, ToHits(e)) && SignOrdered(e)
    ensures Below(e, s) + Count(e, s) <= |e|
    ensures RunAt(h, a + Below(e, s), ToHits(OfSign(e, s)))
  {
    SignRun(e, s);
    OfSignAll(e, s);
    var b, c := Below(e, s), Count(e, s);
    hide Below, Count, OfSign, RunAt, SignOrdered;
    RunAtSlice(h, a, ToHits(e), b, c);
    HitsOfSlice(e, b, c);
  }

  /** The posting of (d, s) points at that run exactly when s is not 0, or the run happens to start at 0. */
  lemma PostingLocation(docs: seq<Doc>, d: nat, s: nat)
    requires d < |docs|
    ensures DocPosting(HitTotal(docs[..d]), d, docs[d], s).hit.loc == RunStart(docs, d, s)
            <==> s != 0 || HitTotal(docs[..d]) == 0
  {
    if s == 0 {
      BelowZero(docs[d], 0);
    }
  }

  /** The smallest index with a wrong location: sign 0 in the second document, behind one other hit. */
  lemma ZeroSignMisplaced()
    ensures var docs: seq<Doc> := [[Entry(5, 1, 0, 0)], [Entry(0, 1, 0, 0)]];
      DocPosting(HitTotal(docs[..1]), 1, docs[1], 0).hit.loc == 0 && RunStart(docs, 1, 0) == 1
  {
    var docs: seq<Doc> := [[Entry(5, 1, 0, 0)], [Entry(0, 1, 0, 0)]];
    assert docs[..1][..0] == [] && HitTotal([]) == 0;
    assert HitTotal(docs[..1]) == 1;
    BelowZero(docs[1], 0);
  }

  predicate InRun(docs: seq<Doc>, d: nat, s: nat, h: nat) {
    d < |docs| && RunStart(docs, d, s) <= h < RunStart(docs, d, s) + Count(docs[d], s)
  }

  lemma {:induction false} FindDoc(docs: seq<Doc>, h: nat) returns (d: nat)
    requires h < HitTotal(docs)
    ensures d < |docs| && HitTotal(docs[..d]) <= h < HitTotal(docs[..d]) + |docs[d]|
  {
    var n := |docs| - 1;
    if h < HitTotal(docs[..n]) {
      d := FindDoc(docs[..n], h);
      assert docs[..n][..d] == docs[..d];
    } else {
      d := n;
    }
  }

  /** The runs cover the hit stream. */
  lemma HitRunsCover(docs: seq<Doc>, h: nat) returns (d: nat, s: nat)
    requires h < |HitStream(docs)|
    ensures InRun(docs, d, s, h)
  {
    HitStreamLength(docs);
    d := FindDoc(docs, h);
    var e := SortEntries(docs[d]);
    SortEntriesSorted(docs[d]);
    var k := h - HitTotal(docs[..d]);
    s := e[k].sign;
    SortKeepsCounts(docs[d], s);
    SplitAtSign(e, k);
  }

  lemma SplitAtSign(e: Doc, k: nat)
    requires SignOrdered(e) && k < |e|
    ensures Below(e, e[k].sign) <= k < Below(e, e[k].sign) + Count(e, e[k].sign)
  {
    hide Below, Count, OfSign, Fields;
    var s := e[k].sign;
    SignRun(e, s);
    OfSignAll(e, s);
    var b, c := Below(e, s), Count(e, s);
    BelowIs(e, s, b);
    if k >= b + c {
      CountParts(e, s, b, c);
      assert e[b + c..][k - b - c] == e[k];
      CountZero(e[b + c..], s);
      assert false;
    }
  }

  lemma CountParts(e: Doc, s: nat, b: nat, c: nat)
    requires b + c <= |e|
    ensures Count(e, s) == Count(e[..b], s) + Count(e[b..b + c], s) + Count(e[b + c..], s)
  {
    hide Count, Fields, Below;
    assert e == e[..b] + e[b..b + c] + e[b + c..];
    CountAppend(e[..b] + e[b..b + c], e[b + c..], s);
    CountAppend(e[..b], e[b..b + c], s);
  }

  /** In a sorted document the first `Below` entries are the ones with smaller signs. */
  lemma {:induction false} BelowIs(e: Doc, s: nat, b: nat)
    requires SignOrdered(e) && b == Below(e, s)
    ensures b <= |e|
    ensures forall i | 0 <= i < |e| :: i < b <==> e[i].sign < s
  {
    if e != [] {
      var t := e[1..];
      assert forall i, j | 0 <= i < j < |t| :: t[i] == e[i + 1] && t[j] == e[j + 1];
      if e[0].sign < s {
        BelowIs(t, s, b - 1);
        forall i | 0 <= i < |e| ensures i < b <==> e[i].sign < s {
          if i > 0 { assert e[i] == t[i - 1]; }
        }
      } else {
        BelowZero(e, s);
      }
    }
  }

  lemma {:induction false} HitTotalMonotone(docs: seq<Doc>, d: nat, d': nat)
    requires d < d' <= |docs|
    ensures HitTotal(docs[..d]) + |docs[d]| <= HitTotal(docs[..d'])
    decreases d'
  {
    assert docs[..d'][..d' - 1] == docs[..d' - 1];
    if d < d' - 1 {
      HitTotalMonotone(docs, d, d' - 1);
    }
  }

  lemma RunInDoc(docs: seq<Doc>, d: nat, s: nat)
    requires d < |docs|
    ensures Below(docs[d], s) + Count(docs[d], s) <= |docs[d]|
  {
    SortKeepsCounts(docs[d], s);
    SortEntriesSorted(docs[d]);
    SignRun(SortEntries(docs[d]), s);
    OfSignAll(SortEntries(docs[d]), s);
  }

  /** The runs are pairwise disjoint: with HitRunsCover, they partition the hit stream. */
  lemma HitRunsDisjoint(docs: seq<Doc>, d: nat, s: nat, d': nat, s': nat, h: nat)
    requires InRun(docs, d, s, h) && InRun(docs, d', s', h)
    ensures d == d' && s == s'
  {
    RunInDoc(docs, d, s);
    RunInDoc(docs, d', s');
    if d < d' {
      HitTotalMonotone(docs, d, d');
    } else if d' < d {
      HitTotalMonotone(docs, d', d);
    } else if s < s' {
      SmallerSignFirst(docs[d], s, s');
    } else if s' < s {
      SmallerSignFirst(docs[d], s', s);
    }
  }

  lemma {:induction false} SmallerSignFirst(e: Doc, s: nat, s': nat)
    requires s < s'
    ensures Below(e, s) + Count(e, s) <= Below(e, s')
  {
    if e != [] {
      SmallerSignFirst(e[1..], s, s');
    }
  }
}
