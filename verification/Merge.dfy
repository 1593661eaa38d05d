/** The state of the k-way merge of `_recall`: cursors into the index file and a heap of the
    cursors that still have postings ahead. */
module Merge {
  import opened IndexTypes
  import CursorHeap
  import Ranking

  /** `term_info_t`: the next posting of a term and how many are left, itself included. */
  datatype Cursor = Cursor(sign: nat, index: nat, left: nat)

  predicate CursorsValid(file: seq<Posting>, terms: seq<Cursor>) {
    forall t | 0 <= t < |terms| :: terms[t].index + terms[t].left <= |file|
  }

  /** The postings ahead of each cursor. */
  function Runs(file: seq<Posting>, terms: seq<Cursor>): (r: seq<seq<Posting>>)
    requires CursorsValid(file, terms)
    ensures |r| == |terms|
  {
    seq(|terms|, t requires 0 <= t < |terms| => file[terms[t].index..terms[t].index + terms[t].left])
  }

  lemma RunsMore(file: seq<Posting>, terms: seq<Cursor>, c: Cursor)
    requires CursorsValid(file, terms) && c.index + c.left <= |file|
    ensures CursorsValid(file, terms + [c])
    ensures Runs(file, terms + [c]) == Runs(file, terms) + [file[c.index..c.index + c.left]]
  {
  }

  /** CursorCmp compares the document numbers the cursors point at. */
  function Keys(file: seq<Posting>, terms: seq<Cursor>): nat -> int {
    (t: nat) => if t < |terms| && terms[t].index < |file| then file[terms[t].index].objId else -1
  }

  /** The heap holds exactly the cursors with postings ahead, each once. */
  ghost predicate HoldsActive(heap: seq<nat>, terms: seq<Cursor>) {
    forall t: nat :: multiset(heap)[t] == if t < |terms| && terms[t].left > 0 then 1 else 0
  }

  ghost predicate HeapValid(file: seq<Posting>, terms: seq<Cursor>, heap: seq<nat>) {
    CursorsValid(file, terms) && HoldsActive(heap, terms) && CursorHeap.IsHeap(heap, Keys(file, terms))
  }

  /** A change of keys outside the heap leaves it a heap. */
  lemma KeysAgree<T>(heap: seq<T>, key: T -> int, key': T -> int)
    requires CursorHeap.IsHeap(heap, key) && forall t | t in heap :: key(t) == key'(t)
    ensures CursorHeap.IsHeap(heap, key')
  {
    forall k | 0 < k < |heap| ensures CursorHeap.OrderedAt(heap, key', k) {
      assert CursorHeap.OrderedAt(heap, key, k);
      assert heap[k] in heap && heap[CursorHeap.Parent(k)] in heap;
    }
  }

  lemma ActiveIs(heap: seq<nat>, terms: seq<Cursor>, t: nat)
    requires HoldsActive(heap, terms)
    ensures t in heap <==> t < |terms| && terms[t].left > 0
  {
    assert t in heap <==> t in multiset(heap);
  }

  /** An exhausted heap means nothing is ahead anywhere. */
  lemma {:induction false} NothingAhead(file: seq<Posting>, terms: seq<Cursor>, id: nat)
    requires HeapValid(file, terms, [])
    ensures Ranking.Weight(Runs(file, terms), id) == 0
  {
    forall t | 0 <= t < |terms| ensures Ranking.ListWeight(Runs(file, terms)[t], id) == 0 {
      ActiveIs([], terms, t);
    }
    Ranking.WeightZero(Runs(file, terms), id);
  }

  /** The popped cursor points at the greatest document number of all heads. */
  lemma PoppedGreatest(file: seq<Posting>, terms: seq<Cursor>, heap: seq<nat>, t: nat)
    requires HeapValid(file, terms, heap) && t in heap
    requires forall x | x in heap :: Keys(file, terms)(t) >= Keys(file, terms)(x)
    ensures t < |terms| && terms[t].left > 0 && terms[t].index < |file|
    ensures Runs(file, terms)[t] != [] && Runs(file, terms)[t][0] == file[terms[t].index]
    ensures forall j | 0 <= j < |terms| && Runs(file, terms)[j] != [] ::
      Runs(file, terms)[j][0].objId <= file[terms[t].index].objId
  {
    ActiveIs(heap, terms, t);
    forall j | 0 <= j < |terms| && Runs(file, terms)[j] != []
      ensures Runs(file, terms)[j][0].objId <= file[terms[t].index].objId
    {
      ActiveIs(heap, terms, j);
      assert Keys(file, terms)(t) >= Keys(file, terms)(j);
    }
  }

  /** The step `if (--cursor.left) ++cursor.index` on values. */
  function Stepped(c: Cursor): Cursor
    requires c.left > 0
  {
    if c.left == 1 then c.(left := 0) else Cursor(c.sign, c.index + 1, c.left - 1)
  }

  lemma SteppedRuns(file: seq<Posting>, terms: seq<Cursor>, t: nat)
    requires CursorsValid(file, terms) && t < |terms| && terms[t].left > 0
    ensures CursorsValid(file, terms[t := Stepped(terms[t])])
    ensures Runs(file, terms[t := Stepped(terms[t])]) == Runs(file, terms)[t := Runs(file, terms)[t][1..]]
  {
    var terms' := terms[t := Stepped(terms[t])];
    assert forall k | 0 <= k < |terms'| && k != t :: terms'[k] == terms[k];
    var c := terms[t];
    assert file[c.index..c.index + c.left][1..] == file[c.index + 1..c.index + c.left];
    assert Runs(file, terms')[t] == Runs(file, terms)[t][1..];
  }

  /** Pushing the advanced cursor back, or leaving it out when it is exhausted, restores the heap:
      no cursor inside the heap has changed its key. */
  lemma SteppedHeap(file: seq<Posting>, terms: seq<Cursor>, before: seq<nat>, popped: seq<nat>, t: nat)
    requires HeapValid(file, terms, before) && t < |terms| && terms[t].left > 0
    requires multiset(popped) == multiset(before) - multiset{t} && CursorHeap.IsHeap(popped, Keys(file, terms))
    ensures var terms' := terms[t := Stepped(terms[t])];
      && CursorHeap.IsHeap(popped, Keys(file, terms'))
      && (terms[t].left == 1 ==> HoldsActive(popped, terms'))
      && (terms[t].left > 1 ==>
            forall heap: seq<nat> :: multiset(heap) == multiset(popped) + multiset{t} ==> HoldsActive(heap, terms'))
  {
    var terms' := terms[t := Stepped(terms[t])];
    forall x | x in popped ensures Keys(file, terms)(x) == Keys(file, terms')(x) {
      assert x in multiset(popped);
      assert multiset(before)[t] == 1;
    }
    KeysAgree(popped, Keys(file, terms), Keys(file, terms'));
  }

  function Total(runs: seq<seq<Posting>>): nat {
    if runs == [] then 0 else |runs[0]| + Total(runs[1..])
  }

  lemma {:induction false} TotalUpdate(runs: seq<seq<Posting>>, t: nat, l: seq<Posting>)
    requires t < |runs|
    ensures Total(runs[t := l]) + |runs[t]| == Total(runs) + |l|
  {
    if t == 0 {
      assert runs[0 := l][1..] == runs[1..];
    } else {
      TotalUpdate(runs[1..], t - 1, l);
      assert runs[t := l][1..] == runs[1..][t - 1 := l];
    }
  }
}
