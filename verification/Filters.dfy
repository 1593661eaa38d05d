/** The filters of a search (se/bs/bs.cpp) and what they mean. */
module Filters {
  import opened IndexTypes

  datatype NumericFilter = NumericFilter(name: string, low: int, high: int)

  datatype SearchCondition = SearchCondition(numericFilter: seq<NumericFilter>, tagFilter: seq<string>)

  predicate Within(b: Brief, f: NumericFilter) {
    && (f.name == "type" ==> f.low <= b.typ <= f.high)
    && (f.name == "catalog" ==> f.low <= b.catalogId <= f.high)
  }

  predicate NumericOk(b: Brief, fs: seq<NumericFilter>) {
    forall f | f in fs :: Within(b, f)
  }

  predicate Ascending(s: seq<int>) {
    forall i, j | 0 <= i < j < |s| :: s[i] <= s[j]
  }

  predicate AtMost(a: int, b: int) {
    a <= b
  }

  /** The brief carries every wanted tag, as often as it is wanted. */
  predicate TagsOk(b: Brief, wanted: seq<int>) {
    multiset(wanted) <= multiset(b.tagIds)
  }

  /** The ids of the requested tags that are known. */
  function KnownTags(tags: seq<string>, tagData: map<string, int>): seq<int> {
    if tags == [] then []
    else
      var rest := KnownTags(tags[..|tags| - 1], tagData);
      if tags[|tags| - 1] in tagData then rest + [tagData[tags[|tags| - 1]]] else rest
  }

  /** The ids of the requested tags, each as often as a known tag has it. */
  lemma {:induction false} KnownTagsAre(tags: seq<string>, tagData: map<string, int>, id: int)
    ensures multiset(KnownTags(tags, tagData))[id]
            == |set i | 0 <= i < |tags| && tags[i] in tagData && tagData[tags[i]] == id|
  {
    if tags != [] {
      var n := |tags| - 1;
      var front := tags[..n];
      KnownTagsAre(front, tagData, id);
      var a := set i | 0 <= i < |front| && front[i] in tagData && tagData[front[i]] == id;
      var b := set i | 0 <= i < |tags| && tags[i] in tagData && tagData[tags[i]] == id;
      assert b == if tags[n] in tagData && tagData[tags[n]] == id then a + {n} else a;
    }
  }

  /** A type filter bounds the type, a catalog filter the catalog, and any other name nothing. */
  lemma NumericOkIs(b: Brief, fs: seq<NumericFilter>)
    ensures NumericOk(b, fs) <==> forall i | 0 <= i < |fs| ::
      && (fs[i].name == "type" ==> fs[i].low <= b.typ <= fs[i].high)
      && (fs[i].name == "catalog" ==> fs[i].low <= b.catalogId <= fs[i].high)
  {
    assert NumericOk(b, fs) <==> forall i | 0 <= i < |fs| :: Within(b, fs[i]);
  }

  /** numeric_filter: true means the document is dropped. */
  method NumericFilterDrops(brief: Brief, filters: seq<NumericFilter>) returns (drop: bool)
    ensures drop <==> !NumericOk(brief, filters)
    ensures drop <==> exists i | 0 <= i < |filters| ::
      || (filters[i].name == "type" && !(filters[i].low <= brief.typ <= filters[i].high))
      || (filters[i].name == "catalog" && !(filters[i].low <= brief.catalogId <= filters[i].high))
  {
    NumericOkIs(brief, filters);
    for i := 0 to |filters|
      invariant forall k | 0 <= k < i :: Within(brief, filters[k])
    {
      var f := filters[i];
      var value := 0;
      if f.name == "type" {
        value := brief.typ;
      } else if f.name == "catalog" {
        value := brief.catalogId;
      } else {
        continue;
      }
      if value < f.low || value > f.high {
        assert f in filters && !Within(brief, f);
        return true;
      }
    }
    return false;
  }

  /** The two-pointer walk of tag_filter. */
  predicate Covered(wanted: seq<int>, tags: seq<int>)
    decreases |tags|
  {
    if wanted == [] then true
    else if tags == [] then false
    else if tags[0] < wanted[0] then Covered(wanted, tags[1..])
    else if tags[0] > wanted[0] then false
    else Covered(wanted[1..], tags[1..])
  }

  lemma AscendingTail(s: seq<int>)
    requires Ascending(s) && s != []
    ensures Ascending(s[1..]) && multiset(s) == multiset{s[0]} + multiset(s[1..])
    ensures forall x | x in multiset(s) :: x >= s[0]
  {
    assert s == [s[0]] + s[1..];
    forall x | x in multiset(s) ensures x >= s[0] {
      assert x in s;
    }
  }

  lemma Cancel(x: int, a: multiset<int>, b: multiset<int>)
    ensures multiset{x} + a <= multiset{x} + b <==> a <= b
  {
    if multiset{x} + a <= multiset{x} + b {
      forall y ensures a[y] <= b[y] {
        assert (multiset{x} + a)[y] <= (multiset{x} + b)[y];
      }
    }
  }

  lemma Unwanted(x: int, a: multiset<int>, b: multiset<int>)
    requires x !in a
    ensures a <= multiset{x} + b <==> a <= b
  {
    if a <= multiset{x} + b {
      forall y ensures a[y] <= b[y] {
        assert a[y] <= (multiset{x} + b)[y];
      }
    }
  }

  /** On sorted sides the walk decides multiset inclusion. */
  lemma {:induction false} CoveredIsInclusion(wanted: seq<int>, tags: seq<int>)
    requires Ascending(wanted) && Ascending(tags)
    ensures Covered(wanted, tags) <==> multiset(wanted) <= multiset(tags)
    decreases |tags|
  {
    if wanted != [] && tags != [] {
      var w, t := wanted[0], tags[0];
      AscendingTail(wanted);
      AscendingTail(tags);
      if t < w {
        CoveredIsInclusion(wanted, tags[1..]);
        assert t !in multiset(wanted);
        Unwanted(t, multiset(wanted), multiset(tags[1..]));
      } else if t > w {
        assert w !in multiset(tags) && w in multiset(wanted);
      } else {
        CoveredIsInclusion(wanted[1..], tags[1..]);
        Cancel(w, multiset(wanted[1..]), multiset(tags[1..]));
      }
    } else if wanted != [] {
      assert multiset(wanted)[wanted[0]] > 0;
    }
  }

  /** tag_filter: true means the document is dropped. */
  method TagFilterDrops(brief: Brief, wanted: seq<int>) returns (drop: bool)
    requires Ascending(wanted) && Ascending(brief.tagIds)
    ensures drop <==> !TagsOk(brief, wanted)
    ensures drop <==> exists id :: multiset(wanted)[id] > multiset(brief.tagIds)[id]
  {
    var tags := brief.tagIds;
    CoveredIsInclusion(wanted, tags);
    var j := 0;
    for i := 0 to |wanted|
      invariant j <= |tags|
      invariant Covered(wanted, tags) <==> Covered(wanted[i..], tags[j..])
    {
      var filtTag := wanted[i];
      var found := false;
      while j < |tags|
        invariant j <= |tags| && !found
        invariant Covered(wanted, tags) <==> Covered(wanted[i..], tags[j..])
      {
        assert tags[j..][1..] == tags[j + 1..];
        if tags[j] < filtTag {
          j := j + 1;
        } else if tags[j] > filtTag {
          return true;
        } else {
          found := true;
          break;
        }
      }
      if found {
        assert tags[j..][1..] == tags[j + 1..] && wanted[i..][1..] == wanted[i + 1..];
        j := j + 1;
      } else {
        return true;
      }
    }
    return false;
  }
}
