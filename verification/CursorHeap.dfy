/** The array max-heap of se/bs/heap.hpp. Its elements are handles whose keys live elsewhere and may
    change between calls, so every call passes the comparator as it reads the keys then. */
module CursorHeap {

  function Parent(k: nat): nat
    requires k > 0
  {
    (k - 1) / 2
  }

  ghost predicate OrderedAt<T>(s: seq<T>, key: T -> int, k: nat)
    requires 0 < k < |s|
  {
    key(s[Parent(k)]) >= key(s[k])
  }

  ghost predicate IsHeap<T>(s: seq<T>, key: T -> int) {
    forall k | 0 < k < |s| :: OrderedAt(s, key, k)
  }

  /** The root of a heap carries a greatest key. */
  lemma {:induction false} RootGreatest<T>(s: seq<T>, key: T -> int, k: nat)
    requires IsHeap(s, key) && k < |s|
    ensures key(s[0]) >= key(s[k])
  {
    if k > 0 {
      assert OrderedAt(s, key, k);
      RootGreatest(s, key, Parent(k));
    }
  }

  function Swap<T>(s: seq<T>, i: nat, j: nat): (r: seq<T>)
    requires i < |s| && j < |s|
    ensures |r| == |s|
    ensures multiset(r) == multiset(s)
    ensures r[i] == s[j] && r[j] == s[i]
    ensures forall k | 0 <= k < |s| && k != i && k != j :: r[k] == s[k]
  {
    s[i := s[j]][j := s[i]]
  }

  /** Ordered everywhere but between `k` and its parent. */
  ghost predicate RisingAt<T>(s: seq<T>, key: T -> int, k: nat) {
    && k < |s|
    && (forall j | 0 < j < |s| && j != k :: OrderedAt(s, key, j))
    && (forall j | 0 < j < |s| && k > 0 && Parent(j) == k :: key(s[Parent(k)]) >= key(s[j]))
  }

  /** Ordered everywhere but between `k` and its children. */
  ghost predicate SinkingAt<T>(s: seq<T>, key: T -> int, k: nat) {
    && k < |s|
    && (forall j | 0 < j < |s| && Parent(j) != k :: OrderedAt(s, key, j))
    && (forall j | 0 < j < |s| && k > 0 && Parent(j) == k :: key(s[Parent(k)]) >= key(s[j]))
  }

  lemma RiseStep<T>(s: seq<T>, key: T -> int, k: nat)
    requires RisingAt(s, key, k) && k > 0 && key(s[Parent(k)]) < key(s[k])
    ensures RisingAt(Swap(s, k, Parent(k)), key, Parent(k))
  {
    var p := Parent(k);
    var r := Swap(s, k, p);
    forall j | 0 < j < |r| && j != p ensures OrderedAt(r, key, j) {
      if j != k {
        assert OrderedAt(s, key, j);
      }
    }
    if p > 0 {
      assert OrderedAt(s, key, p);
      forall j | 0 < j < |r| && Parent(j) == p ensures key(r[Parent(p)]) >= key(r[j]) {
        if j != k {
          assert OrderedAt(s, key, j);
        }
      }
    }
  }

  lemma SinkStep<T>(s: seq<T>, key: T -> int, k: nat, c: nat)
    requires SinkingAt(s, key, k) && 0 < c < |s| && Parent(c) == k && key(s[k]) < key(s[c])
    requires forall j | 0 < j < |s| && Parent(j) == k :: key(s[j]) <= key(s[c])
    ensures SinkingAt(Swap(s, k, c), key, c)
  {
    var r := Swap(s, k, c);
    forall j | 0 < j < |r| && Parent(j) != c ensures OrderedAt(r, key, j) {
      if Parent(j) != k {
        assert OrderedAt(s, key, j);
      }
    }
    forall j | 0 < j < |r| && Parent(j) == c ensures key(r[k]) >= key(r[j]) {
      assert OrderedAt(s, key, j);
    }
  }

  lemma RiseStart<T>(s: seq<T>, key: T -> int, t: T)
    requires IsHeap(s, key)
    ensures RisingAt(s + [t], key, |s|)
  {
    var r := s + [t];
    forall j | 0 < j < |r| && j != |s| ensures OrderedAt(r, key, j) {
      assert OrderedAt(s, key, j);
    }
  }

  lemma RiseDone<T>(s: seq<T>, key: T -> int, k: nat)
    requires RisingAt(s, key, k) && (k > 0 ==> OrderedAt(s, key, k))
    ensures IsHeap(s, key)
  {
  }

  /** The last element takes the place of the root. */
  function Uprooted<T>(s: seq<T>): (r: seq<T>)
    requires s != []
    ensures multiset(r) == multiset(s) - multiset{s[0]}
  {
    var n := |s| - 1;
    if n == 0 then
      assert s == [s[0]];
      []
    else
      assert s == [s[0]] + s[1..n] + [s[n]];
      [s[n]] + s[1..n]
  }

  lemma SinkStart<T>(s: seq<T>, key: T -> int)
    requires IsHeap(s, key) && |s| > 1
    ensures SinkingAt(Uprooted(s), key, 0)
  {
    var r := Uprooted(s);
    forall j | 0 < j < |r| && Parent(j) != 0 ensures OrderedAt(r, key, j) {
      assert OrderedAt(s, key, j);
      assert r[j] == s[j] && r[Parent(j)] == s[Parent(j)];
    }
  }

  lemma SinkDone<T>(s: seq<T>, key: T -> int, k: nat)
    requires SinkingAt(s, key, k)
    requires forall j | 0 < j < |s| && Parent(j) == k :: key(s[k]) >= key(s[j])
    ensures IsHeap(s, key)
  {
    forall j | 0 < j < |s| ensures OrderedAt(s, key, j) {
    }
  }

  /** The child the loop chooses carries the greatest key of the children. */
  lemma GreatestChild<T>(s: seq<T>, key: T -> int, k: nat, c: nat)
    requires 2 * k + 1 < |s|
    requires c == if 2 * k + 2 < |s| && key(s[2 * k + 1]) < key(s[2 * k + 2]) then 2 * k + 2 else 2 * k + 1
    ensures Parent(c) == k
    ensures forall j | 0 < j < |s| && Parent(j) == k :: key(s[j]) <= key(s[c])
  {
    forall j | 0 < j < |s| && Parent(j) == k ensures key(s[j]) <= key(s[c]) {
      assert j == 2 * k + 1 || j == 2 * k + 2;
    }
  }

  lemma Leaf<T>(s: seq<T>, k: nat)
    requires 2 * k + 1 >= |s|
    ensures forall j | 0 < j < |s| :: Parent(j) != k
  {
  }

  class Heap<T(==)> {
    var data: seq<T>

    constructor ()
      ensures data == []
    {
      data := [];
    }

    method Clear()
      modifies this
      ensures data == []
    {
      data := [];
    }

    /** push_back and std::push_heap. */
    method Push(t: T, key: T -> int)
      requires IsHeap(data, key)
      modifies this
      ensures IsHeap(data, key)
      ensures multiset(data) == multiset(old(data)) + multiset{t}
    {
      RiseStart(data, key, t);
      var k: nat := |data|;
      data := data + [t];
      while k > 0 && key(data[Parent(k)]) < key(data[k])
        invariant RisingAt(data, key, k)
        invariant multiset(data) == multiset(old(data)) + multiset{t}
        decreases k
      {
        RiseStep(data, key, k);
        data := Swap(data, k, Parent(k));
        k := Parent(k);
      }
      RiseDone(data, key, k);
    }

    /** std::pop_heap, back and pop_back: the result has a greatest key, and only it is gone. */
    method Pop(key: T -> int) returns (top: T)
      requires data != [] && IsHeap(data, key)
      modifies this
      ensures IsHeap(data, key)
      ensures top in old(data) && multiset(data) == multiset(old(data)) - multiset{top}
      ensures forall t | t in old(data) :: key(top) >= key(t)
    {
      top := data[0];
      forall t | t in data ensures key(top) >= key(t) {
        var k :| 0 <= k < |data| && data[k] == t;
        RootGreatest(data, key, k);
      }
      if |data| > 1 {
        SinkStart(data, key);
      }
      data := Uprooted(data);
      if data != [] {
        SiftDown(key);
      }
    }

    method SiftDown(key: T -> int)
      requires data != [] && SinkingAt(data, key, 0)
      modifies this
      ensures IsHeap(data, key) && multiset(data) == multiset(old(data))
    {
      hide Parent, SinkingAt;
      var k: nat := 0;
      while 2 * k + 1 < |data|
        invariant k < |data| && SinkingAt(data, key, k)
        invariant multiset(data) == multiset(old(data)) && |data| == |old(data)|
        decreases |data| - k
      {
        var c := 2 * k + 1;
        if c + 1 < |data| && key(data[c]) < key(data[c + 1]) {
          c := c + 1;
        }
        GreatestChild(data, key, k, c);
        if key(data[k]) >= key(data[c]) {
          SinkDone(data, key, k);
          return;
        }
        SinkStep(data, key, k, c);
        data := Swap(data, k, c);
        k := c;
      }
      Leaf(data, k);
      SinkDone(data, key, k);
    }
  }
}
