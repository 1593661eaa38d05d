/** Inputs on which the search does less than its purpose suggests. */
module Limits {
  import opened IndexTypes
  import IndexSpec
  import Sorting
  import opened Ranking
  import opened Answer
  import Bs
  import Filters

  // ---- 2048 hits of one term in one document ---------------------------------------------

  predicate OneField(e: IndexSpec.Doc, s: nat, f: FieldSet) {
    forall i | 0 <= i < |e| :: e[i].sign == s && e[i].field == f
  }

  lemma {:induction false} OneFieldIs(e: IndexSpec.Doc, s: nat, f: FieldSet)
    requires OneField(e, s, f)
    ensures IndexSpec.Count(e, s) == |e| && IndexSpec.Fields(e, s) == if e == [] then 0 else f
  {
    if e != [] {
      assert forall i | 0 < i < |e| :: e[1..][i - 1] == e[i];
      OneFieldIs(e[1..], s, f);
    }
  }

  /** A document in which the term occurs `n` times, in one field. */
  function Repeated(n: nat): IndexSpec.Doc {
    seq(n, i requires 0 <= i < n => Entry(5, 1, 0, i))
  }

  lemma RepeatedWeight(n: nat)
    requires n > 0
    ensures DocWeight([Repeated(n)], 5, 0) == Contribution(HitInfo(1, n % HIT_NUM_MODULUS, 0))
  {
    OneFieldIs(Repeated(n), 5, 1);
  }

  /** The hit that makes 2048 takes away what 2047 hits have earned. */
  lemma WrapLosesWeight()
    ensures DocWeight([Repeated(2047)], 5, 0) == 15
    ensures DocWeight([Repeated(2048)], 5, 0) == 10
  {
    RepeatedWeight(2047);
    RepeatedWeight(2048);
    assert PopCount(1) == 1;
  }

  // ---- a 760th document that matches two tokens ------------------------------------------

  /** Documents that contain term 1; document 0 contains term 2 as well. */
  function Documents(): (docs: seq<IndexSpec.Doc>)
    ensures |docs| == MAX_RECALL_NUM
  {
    seq(MAX_RECALL_NUM, d requires 0 <= d < MAX_RECALL_NUM =>
      if d == 0 then [Entry(1, 1, 0, 0), Entry(2, 1, 1, 0)] else [Entry(1, 1, 0, 0)])
  }

  function Briefs(): (briefs: seq<Brief>)
    ensures |briefs| == MAX_RECALL_NUM
  {
    seq(MAX_RECALL_NUM, d requires 0 <= d < MAX_RECALL_NUM => Brief(d, 0, 0, [], 0, 0))
  }

  const SIGN: string -> nat := (word: string) => if word == "a" then 1 else 2

  const QUERY: Bs.Input := Bs.Input(["a", "b"], Filters.SearchCondition([], []))

  function Expected(d: nat): Obj {
    Obj(d, d, if d == 0 then 22 else 11)
  }

  lemma TermWeights(d: nat)
    requires d < MAX_RECALL_NUM
    ensures DocWeight(Documents(), 1, d) == 11 && DocWeight(Documents(), 2, d) == if d == 0 then 11 else 0
  {
    var e := Documents()[d];
    IndexSpec.CountCons(Entry(1, 1, 0, 0), e[1..], 1);
    IndexSpec.CountCons(Entry(1, 1, 0, 0), e[1..], 2);
    assert e == [Entry(1, 1, 0, 0)] + e[1..];
    if d == 0 {
      assert e[1..] == [Entry(2, 1, 1, 0)] + [];
      IndexSpec.CountCons(Entry(2, 1, 1, 0), [], 1);
      IndexSpec.CountCons(Entry(2, 1, 1, 0), [], 2);
    }
    assert PopCount(1) == 1;
  }

  lemma FullWeight(d: nat)
    requires d < MAX_RECALL_NUM
    ensures TokenWeight(Documents(), SIGN, Bs.FirstTokens(QUERY.token), d) == Expected(d).weight
  {
    hide DocWeight;
    TermWeights(d);
    OneToken(Documents(), SIGN, "a", d);
    OneToken(Documents(), SIGN, "b", d);
    TokenWeightConcat(Documents(), SIGN, ["a"], ["b"], d);
    assert ["a"] + ["b"] == ["a", "b"];
  }

  function Expecteds(n: nat): (objs: seq<Obj>)
    ensures |objs| == n
  {
    seq(n, i requires 0 <= i < n => Expected(n - 1 - i))
  }

  lemma {:induction false} ScanIsExpected(n: nat)
    requires n <= MAX_RECALL_NUM
    ensures NaiveScan(Documents(), Briefs(), SIGN, map[], QUERY, n) == Expecteds(n)
  {
    if n > 0 {
      hide TokenWeight;
      ScanIsExpected(n - 1);
      FullWeight(n - 1);
      assert Expecteds(n) == [Expected(n - 1)] + Expecteds(n - 1);
    }
  }

  lemma ActualOrder()
    ensures var actual := Truncated(Expecteds(MAX_RECALL_NUM), 11); Sorting.Sort(actual, Heavier) == actual
  {
    hide Sorting.Sort, Heavier;
    var actual := Truncated(Expecteds(MAX_RECALL_NUM), 11);
    assert forall i | 0 <= i < MAX_RECALL_NUM :: actual[i].weight == 11 && actual[i].objId == MAX_RECALL_NUM - 1 - i;
    RankingUnique(actual, actual);
  }

  lemma IdealOrder()
    ensures var scan := Expecteds(MAX_RECALL_NUM);
      Sorting.Sort(scan, Heavier) == [scan[MAX_RECALL_NUM - 1]] + scan[..MAX_RECALL_NUM - 1]
  {
    hide Sorting.Sort, Heavier;
    var scan := Expecteds(MAX_RECALL_NUM);
    var front, last := scan[..MAX_RECALL_NUM - 1], scan[MAX_RECALL_NUM - 1];
    assert scan == front + [last];
    assert multiset([last] + front) == multiset(scan);
    assert forall i | 0 <= i < |front| :: front[i].weight == 11 && front[i].objId == MAX_RECALL_NUM - 1 - i;
    RankingUnique(scan, [last] + front);
  }

  /** Document 0 matches both tokens and should come first; it comes last. */
  lemma BestComesLast()
    ensures IsAnswer(Documents(), Briefs(), SIGN, map[], QUERY, Bs.Ids(Truncated(Expecteds(MAX_RECALL_NUM), 11)))
    ensures forall out | IsAnswer(Documents(), Briefs(), SIGN, map[], QUERY, out) ::
      |out| == MAX_RECALL_NUM && out[MAX_RECALL_NUM - 1] == 0
    ensures var scan := NaiveScan(Documents(), Briefs(), SIGN, map[], QUERY, MAX_RECALL_NUM);
      var ideal := Bs.Ids(Sorting.Sort(scan, Heavier));
      |ideal| == MAX_RECALL_NUM && ideal[0] == 0
  {
    hide NaiveScan, DocWeight, Sorting.Sort, Heavier, Documents, Briefs;
    ScanIsExpected(MAX_RECALL_NUM);
    TermWeights(0);
    assert Bs.FirstTokens(QUERY.token)[0] == "a" && SIGN("a") == 1;
    ActualOrder();
    IdealOrder();
  }
}
