/** One document while finish_obj folds its sorted entries into the index, on values. */
module FoldSpec {
  import opened IndexTypes
  import opened IndexSpec
  import opened HitSpec

  /** The posting list of `s` once the runs of `e` with signs below `bound` are linked in. */
  function ListAfter(docs: seq<Doc>, e: Doc, s: nat, bound: nat): seq<Posting> {
    if s < bound && Count(e, s) > 0
    then [DocPosting(HitTotal(docs), |docs|, e, s)] + Postings(docs, s)
    else Postings(docs, s)
  }

  /** The value of `last_sign` before entry i. */
  function LastSign(e: Doc, i: nat): nat
    requires i <= |e|
  {
    if i == 0 then 0 else e[i - 1].sign
  }

  /** The posting under construction after i entries. */
  function NodeAt(base: nat, d: nat, e: Doc, i: nat): Posting
    requires i <= |e|
  {
    var s := LastSign(e, i);
    Posting(d, HitInfo(Fields(e[..i], s), Count(e[..i], s) % HIT_NUM_MODULUS, if s == 0 then 0 else base + Below(e, s)))
  }

  predicate OpensRun(e: Doc, i: nat) {
    i < |e| && (i > 0 ==> e[i - 1].sign != e[i].sign)
  }

  /** In a sorted document the entry at i opens a new run: no entry before it has its sign, and
      every entry before it has a smaller one. */
  lemma RunOpens(e: Doc, i: nat)
    requires SignOrdered(e) && OpensRun(e, i)
    ensures Below(e, e[i].sign) == i && Count(e[..i], e[i].sign) == 0 && Fields(e[..i], e[i].sign) == 0
    ensures i > 0 ==> e[i - 1].sign < e[i].sign
  {
    var b := e[i].sign;
    forall j | 0 <= j < i ensures e[j].sign < b {
      assert e[j].sign <= e[i - 1].sign;
    }
    BelowIs(e, b, Below(e, b));
    CountZero(e[..i], b);
  }

  /** What is known of a sign that all later entries exceed. */
  lemma RunClosed(e: Doc, i: nat, s: nat)
    requires SignOrdered(e) && i <= |e| && (i < |e| ==> s < e[i].sign)
    ensures Count(e, s) == Count(e[..i], s) && Fields(e, s) == Fields(e[..i], s)
  {
    var front, back := e[..i], e[i..];
    assert e == front + back;
    CountAppend(front, back, s);
    forall j | 0 <= j < |back| ensures back[j].sign != s { assert back[j] == e[i + j]; }
    CountZero(back, s);
  }

  lemma NoSignBetween(e: Doc, i: nat, s: nat)
    requires SignOrdered(e) && i <= |e| && LastSign(e, i) < s && (i < |e| ==> s < e[i].sign)
    ensures Count(e, s) == 0
  {
    forall j | 0 <= j < |e| ensures e[j].sign != s {
      if j < i {
        assert e[j].sign <= e[i - 1].sign;
      } else {
        assert e[i].sign <= e[j].sign;
      }
    }
    CountZero(e, s);
  }

  lemma PrefixStep(e: Doc, i: nat, s: nat)
    requires i < |e|
    ensures Count(e[..i + 1], s) == Count(e[..i], s) + (if e[i].sign == s then 1 else 0)
    ensures Fields(e[..i + 1], s) == Fields(e[..i], s) | (if e[i].sign == s then e[i].field else 0)
    ensures ToHits(e[..i + 1]) == ToHits(e[..i]) + [ToHit(e[i])]
  {
    assert e[..i + 1] == e[..i] + [e[i]];
    CountAppend(e[..i], [e[i]], s);
    CountCons(e[i], [], s);
    assert [e[i]] + [] == [e[i]];
  }

  /** One more entry: the posting it belongs to, as the loop of finish_obj updates it. */
  lemma NodeStep(base: nat, d: nat, e: Doc, i: nat)
    requires SignOrdered(e) && i < |e|
    ensures var h := NodeAt(base, d, e, i).hit;
      NodeAt(base, d, e, i + 1) ==
        if e[i].sign == LastSign(e, i)
        then Posting(d, HitInfo(h.field | e[i].field, (h.num + 1) % HIT_NUM_MODULUS, h.loc))
        else Posting(d, HitInfo(e[i].field, 1, base + i))
  {
    PrefixStep(e, i, e[i].sign);
    if e[i].sign != LastSign(e, i) {
      RunOpens(e, i);
    }
  }

  /** A posting after one more hit, as finish_obj writes it. */
  function WithHit(node: Posting, x: Entry, lastSign: nat, loc: nat): Posting {
    var field := node.hit.field | x.field;
    if x.sign == lastSign
    then Posting(node.objId, HitInfo(field, (node.hit.num + 1) % HIT_NUM_MODULUS, node.hit.loc))
    else Posting(node.objId, HitInfo(field, 1, loc))
  }

  /** The local variables of finish_obj's loop, and the two fields it reads and writes. */
  datatype FoldState = FoldState(objNum: nat, lastSign: nat, node: Option<Posting>, hits: seq<Hit>)

  function FoldStateAt(docs: seq<Doc>, e: Doc, i: nat): FoldState
    requires i <= |e|
  {
    FoldState(|docs|, LastSign(e, i), if i == 0 then None else Some(NodeAt(HitTotal(docs), |docs|, e, i)),
              HitStream(docs) + ToHits(e[..i]))
  }

  /** One round of the loop of finish_obj, on values. */
  lemma FoldStep(docs: seq<Doc>, e: Doc, i: nat, st: FoldState, node: Posting)
    requires SignOrdered(e) && i < |e| && st == FoldStateAt(docs, e, i)
    requires node == if i > 0 && e[i].sign == st.lastSign then st.node.value else Posting(st.objNum, HitInfo(0, 0, 0))
    ensures FoldState(st.objNum, e[i].sign, Some(WithHit(node, e[i], st.lastSign, |st.hits|)), st.hits + [ToHit(e[i])])
            == FoldStateAt(docs, e, i + 1)
  {
    hide NodeAt, WithHit, HitStream, HitTotal, ToHits;
    FoldNode(HitTotal(docs), |docs|, e, i, node);
    FoldHits(docs, e, i);
  }

  lemma FoldNode(base: nat, d: nat, e: Doc, i: nat, node: Posting)
    requires SignOrdered(e) && i < |e|
    requires node == if i > 0 && e[i].sign == LastSign(e, i) then NodeAt(base, d, e, i)
                     else Posting(d, HitInfo(0, 0, 0))
    ensures NodeAt(base, d, e, i + 1) == WithHit(node, e[i], LastSign(e, i), base + i)
  {
    NodeAtStart(base, d, e);
    NodeStep(base, d, e, i);
    assert 0 | e[i].field == e[i].field;
  }

  lemma FoldHits(docs: seq<Doc>, e: Doc, i: nat)
    requires i < |e|
    ensures |HitStream(docs) + ToHits(e[..i])| == HitTotal(docs) + i
    ensures HitStream(docs) + ToHits(e[..i]) + [ToHit(e[i])] == HitStream(docs) + ToHits(e[..i + 1])
  {
    HitStreamLength(docs);
    PrefixStep(e, i, e[i].sign);
  }

  lemma NodeAtStart(base: nat, d: nat, e: Doc)
    requires SignOrdered(e)
    ensures NodeAt(base, d, e, 0) == Posting(d, HitInfo(0, 0, 0))
  {
  }

  /** When a run ends, the posting under construction is the posting of its sign. */
  lemma NodeComplete(base: nat, d: nat, e: Doc, i: nat)
    requires SignOrdered(e) && 0 < i <= |e| && (i < |e| ==> OpensRun(e, i))
    ensures Count(e, LastSign(e, i)) > 0
    ensures NodeAt(base, d, e, i) == DocPosting(base, d, e, LastSign(e, i))
  {
    if i < |e| {
      RunOpens(e, i);
    }
    RunClosed(e, i, LastSign(e, i));
    CountZero(e, LastSign(e, i));
  }

  /** Linking in the posting of the last sign moves the bound up to the next sign. */
  lemma ListAfterStep(docs: seq<Doc>, e: Doc, i: nat, next: nat, s: nat)
    requires SignOrdered(e) && 0 < i <= |e|
    requires if i < |e| then OpensRun(e, i) && next == e[i].sign else next > LastSign(e, i)
    ensures ListAfter(docs, e, s, next) ==
      if s == LastSign(e, i)
      then [DocPosting(HitTotal(docs), |docs|, e, s)] + Postings(docs, s)
      else ListAfter(docs, e, s, LastSign(e, i))
  {
    NodeComplete(HitTotal(docs), |docs|, e, i);
    if i < |e| {
      RunOpens(e, i);
    }
    if LastSign(e, i) < s < next {
      NoSignBetween(e, i, s);
    }
  }

  lemma ListAfterAll(docs: seq<Doc>, raw: Doc, e: Doc, s: nat, bound: nat)
    requires e == SortEntries(raw) && |e| > 0 && bound == e[|e| - 1].sign + 1
    ensures ListAfter(docs, e, s, bound) == Postings(docs + [raw], s)
  {
    hide SortEntries, HitTotal, Postings, Count, Fields, Below;
    SortKeepsCounts(raw, s);
    SortEntriesSorted(raw);
    if s >= bound {
      NoSignBetween(e, |e|, s);
    }
    PostingsAdd(docs, raw, s);
  }

  lemma PostingsAdd(docs: seq<Doc>, raw: Doc, s: nat)
    ensures Postings(docs + [raw], s) ==
      if Count(raw, s) > 0 then [DocPosting(HitTotal(docs), |docs|, raw, s)] + Postings(docs, s) else Postings(docs, s)
  {
    assert (docs + [raw])[..|docs|] == docs;
  }

  /** Before the first entry nothing has been linked in, whatever its sign. */
  lemma ListAfterFirst(docs: seq<Doc>, e: Doc, s: nat)
    requires SignOrdered(e) && |e| > 0
    ensures ListAfter(docs, e, s, e[0].sign) == ListAfter(docs, e, s, 0)
  {
    if s < e[0].sign {
      RunClosed(e, 0, s);
    }
  }

  lemma EmptyDoc(docs: seq<Doc>)
    ensures forall s: nat :: Postings(docs + [[]], s) == Postings(docs, s)
    ensures HitStream(docs + [[]]) == HitStream(docs)
  {
    assert (docs + [[]])[..|docs|] == docs;
    HitStreamAdd(docs, []);
    assert ToHits(SortEntries([])) == [];
  }

  lemma ListsAfterDoc(docs: seq<Doc>, raw: Doc, e: Doc, bound: nat)
    requires e == SortEntries(raw) && |e| > 0 && bound == e[|e| - 1].sign + 1
    ensures forall s: nat :: ListAfter(docs, e, s, bound) == Postings(docs + [raw], s)
    ensures HitStream(docs + [raw]) == HitStream(docs) + ToHits(e[..|e|])
  {
    forall s: nat ensures ListAfter(docs, e, s, bound) == Postings(docs + [raw], s) {
      ListAfterAll(docs, raw, e, s, bound);
    }
    HitStreamAdd(docs, raw);
    assert e[..|e|] == e;
  }
}
