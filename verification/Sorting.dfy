/** The library sorts the program calls (`qsort`, `std::sort`, `std::stable_sort`), as one stable
    insertion sort over values, with the facts every caller relies on. */
module Sorting {

  /** The order is total and transitive on the elements of `s`. */
  ghost predicate OrderOn<T>(s: seq<T>, le: (T, T) -> bool) {
    && (forall x, y | x in s && y in s :: le(x, y) || le(y, x))
    && (forall x, y, z | x in s && y in s && z in s && le(x, y) && le(y, z) :: le(x, z))
  }

  ghost predicate Sorted<T>(s: seq<T>, le: (T, T) -> bool) {
    forall i, j | 0 <= i < j < |s| :: le(s[i], s[j])
  }

  ghost predicate AntisymmetricOn<T>(s: seq<T>, le: (T, T) -> bool) {
    forall x, y | x in s && y in s && le(x, y) && le(y, x) :: x == y
  }

  /** Places `x` before the first element it does not have to follow, so before its equals. */
  function Insert<T>(x: T, s: seq<T>, le: (T, T) -> bool): (r: seq<T>)
    ensures multiset(r) == multiset{x} + multiset(s)
    ensures |r| == |s| + 1
  {
    if s == [] then [x]
    else if le(x, s[0]) then [x] + s
    else
      assert s == [s[0]] + s[1..];
      [s[0]] + Insert(x, s[1..], le)
  }

  function Sort<T>(s: seq<T>, le: (T, T) -> bool): (r: seq<T>)
    ensures multiset(r) == multiset(s)
    ensures |r| == |s|
  {
    if s == [] then []
    else
      assert s == [s[0]] + s[1..];
      Insert(s[0], Sort(s[1..], le), le)
  }

  lemma SameElements<T>(a: seq<T>, b: seq<T>)
    requires multiset(a) == multiset(b)
    ensures |a| == |b|
    ensures forall x :: x in a <==> x in b
  {
    assert |multiset(a)| == |a| && |multiset(b)| == |b|;
    forall x ensures x in a <==> x in b {
      assert x in a <==> x in multiset(a);
      assert x in b <==> x in multiset(b);
    }
  }

  lemma InsertElements<T>(x: T, s: seq<T>, le: (T, T) -> bool)
    ensures forall y | y in Insert(x, s, le) :: y == x || y in s
  {
    hide Insert;
    forall y | y in Insert(x, s, le) ensures y == x || y in s {
      assert y in multiset(Insert(x, s, le));
      assert y == x || y in multiset(s);
    }
  }

  lemma SortedCons<T>(x: T, s: seq<T>, le: (T, T) -> bool)
    requires Sorted(s, le) && forall y | y in s :: le(x, y)
    ensures Sorted([x] + s, le)
  {
  }

  lemma SortedConcat<T>(a: seq<T>, b: seq<T>, le: (T, T) -> bool)
    requires Sorted(a, le) && Sorted(b, le) && forall x, y | x in a && y in b :: le(x, y)
    ensures Sorted(a + b, le)
  {
    var s := a + b;
    forall i, j | 0 <= i < j < |s| ensures le(s[i], s[j]) {
      if i < |a| <= j {
        assert s[i] in a && s[j] in b;
      }
    }
  }

  lemma SortedParts<T>(s: seq<T>, le: (T, T) -> bool, p: nat)
    requires Sorted(s, le) && p <= |s|
    ensures Sorted(s[..p], le) && Sorted(s[p..], le)
  {
  }

  lemma SortedTail<T>(s: seq<T>, le: (T, T) -> bool)
    requires Sorted(s, le) && s != []
    ensures Sorted(s[1..], le)
    ensures forall y | y in s[1..] :: y in s && le(s[0], y)
  {
  }

  lemma {:induction false} InsertSorted<T>(x: T, s: seq<T>, le: (T, T) -> bool)
    requires Sorted(s, le) && OrderOn([x] + s, le)
    ensures Sorted(Insert(x, s, le), le)
  {
    if s != [] {
      var y, t := s[0], s[1..];
      assert x in [x] + s && y in [x] + s && forall z | z in s :: z in [x] + s;
      SortedTail(s, le);
      if le(x, y) {
        forall z | z in s ensures le(x, z) {
          assert z == y || z in t;
        }
        SortedCons(x, s, le);
      } else {
        assert forall z | z in [x] + t :: z in [x] + s;
        InsertSorted(x, t, le);
        InsertElements(x, t, le);
        SortedCons(y, Insert(x, t, le), le);
      }
    }
  }

  /** Sorting yields the same elements in order. */
  lemma {:induction false} SortSorted<T>(s: seq<T>, le: (T, T) -> bool)
    requires OrderOn(s, le)
    ensures Sorted(Sort(s, le), le)
  {
    if s != [] {
      var r := Sort(s[1..], le);
      forall y | y in [s[0]] + r ensures y in s {
        if y in r {
          assert y in multiset(r);
          assert y in multiset(s[1..]);
        }
      }
      assert forall y | y in s[1..] :: y in s;
      SortSorted(s[1..], le);
      InsertSorted(s[0], r, le);
    }
  }

  lemma TailElements<T>(a: seq<T>)
    requires a != []
    ensures multiset(a[1..]) == multiset(a) - multiset{a[0]}
    ensures forall y :: y in a[1..] ==> y in a
  {
    assert a == [a[0]] + a[1..];
  }

  lemma HeadLeast<T>(a: seq<T>, x: T, le: (T, T) -> bool)
    requires Sorted(a, le) && x in a && x != a[0]
    ensures le(a[0], x)
  {
    var i :| 0 <= i < |a| && a[i] == x;
    assert i > 0;
  }

  /** Where the order tells any two elements apart, there is only one sorted arrangement. */
  lemma {:induction false} SortedUnique<T>(a: seq<T>, b: seq<T>, le: (T, T) -> bool)
    requires multiset(a) == multiset(b)
    requires Sorted(a, le) && Sorted(b, le) && AntisymmetricOn(a, le)
    ensures a == b
  {
    SameElements(a, b);
    if a != [] {
      assert a[0] in a && b[0] in b;
      if a[0] != b[0] {
        HeadLeast(a, b[0], le);
        HeadLeast(b, a[0], le);
        assert false;
      }
      TailElements(a);
      TailElements(b);
      SortedUnique(a[1..], b[1..], le);
      assert a == [a[0]] + a[1..] && b == [b[0]] + b[1..];
    }
  }

  ghost predicate Distinct<T>(s: seq<T>) {
    forall i, j | 0 <= i < j < |s| :: s[i] != s[j]
  }

  lemma {:induction false} DistinctOnce<T>(a: seq<T>, x: T)
    requires Distinct(a)
    ensures multiset(a)[x] <= 1
  {
    if a != [] {
      var n := |a| - 1;
      assert a == a[..n] + [a[n]];
      DistinctOnce(a[..n], x);
      if x == a[n] {
        assert x !in a[..n];
        assert x !in multiset(a[..n]);
      }
    }
  }

  lemma CancelElement<T>(a: multiset<T>, b: multiset<T>, x: T)
    requires a + multiset{x} == b + multiset{x}
    ensures a == b
  {
    forall y ensures a[y] == b[y] {
      assert (a + multiset{x})[y] == (b + multiset{x})[y];
    }
  }

  lemma CountedTwice<T>(b: seq<T>, i: nat, j: nat)
    requires i < j < |b| && b[i] == b[j]
    ensures multiset(b)[b[j]] >= 2
  {
    assert b == b[..j] + b[j..];
    assert b[j] == b[..j][i] && b[j] == b[j..][0];
    assert b[j] in multiset(b[..j]) && b[j] in multiset(b[j..]);
  }

  /** Rearranging keeps elements distinct. */
  lemma DistinctSort<T>(a: seq<T>, b: seq<T>)
    requires multiset(a) == multiset(b) && Distinct(a)
    ensures Distinct(b)
  {
    forall i, j | 0 <= i < j < |b| ensures b[i] != b[j] {
      DistinctOnce(a, b[j]);
      if b[i] == b[j] {
        CountedTwice(b, i, j);
        assert false;
      }
    }
  }
}
