/** What a query selects and how it is ranked, stated on the posting lists, and the reasoning that
    ties the merge of the lists (se/bs/bs.cpp) to it. */
module Ranking {
  import opened IndexTypes
  import Sorting
  import IndexSpec

  const MAX_RECALL_NUM: nat := 760

  /** `basic_weight` is counted in tenths. */
  datatype Obj = Obj(id: int, objId: nat, weight: nat)

  // ---- weights ---------------------------------------------------------------------------

  /** What one posting adds: one, plus a tenth for every field times hit, up to a half. */
  function Contribution(h: HitInfo): (r: nat)
    ensures 10 <= r <= 15
  {
    var score := PopCount(h.field) * h.num;
    10 + if score > 5 then 5 else score
  }

  /** Without hits a tenth of ten; every further hit adds a tenth for each field, up to five in all. */
  lemma ContributionGrows(field: FieldSet, n: nat, loc: nat)
    ensures Contribution(HitInfo(field, 0, loc)) == 10
    ensures PopCount(field) * (n + 1) <= 5 ==>
      Contribution(HitInfo(field, n + 1, loc)) == Contribution(HitInfo(field, n, loc)) + PopCount(field)
    ensures PopCount(field) * n >= 5 ==> Contribution(HitInfo(field, n, loc)) == 15
  {
    hide PopCount;
    assert PopCount(field) * (n + 1) == PopCount(field) * n + PopCount(field);
  }

  function ListWeight(l: seq<Posting>, id: nat): nat {
    if l == [] then 0 else (if l[0].objId == id then Contribution(l[0].hit) else 0) + ListWeight(l[1..], id)
  }

  /** The sum over all lists; it is positive exactly for the documents some list names. */
  function Weight(ls: seq<seq<Posting>>, id: nat): nat {
    if ls == [] then 0 else ListWeight(ls[0], id) + Weight(ls[1..], id)
  }

  lemma {:induction false} ListWeightConcat(a: seq<Posting>, b: seq<Posting>, id: nat)
    ensures ListWeight(a + b, id) == ListWeight(a, id) + ListWeight(b, id)
  {
    if a == [] {
      assert a + b == b;
    } else {
      ListWeightConcat(a[1..], b, id);
      assert (a + b)[1..] == a[1..] + b;
    }
  }

  lemma {:induction false} WeightConcat(a: seq<seq<Posting>>, b: seq<seq<Posting>>, id: nat)
    ensures Weight(a + b, id) == Weight(a, id) + Weight(b, id)
  {
    if a == [] {
      assert a + b == b;
    } else {
      WeightConcat(a[1..], b, id);
      assert (a + b)[1..] == a[1..] + b;
    }
  }

  lemma {:induction false} WeightUpdate(ls: seq<seq<Posting>>, i: nat, l: seq<Posting>, id: nat)
    requires i < |ls|
    ensures Weight(ls[i := l], id) + ListWeight(ls[i], id) == Weight(ls, id) + ListWeight(l, id)
  {
    if i == 0 {
      assert ls[0 := l][1..] == ls[1..];
    } else {
      WeightUpdate(ls[1..], i - 1, l, id);
      assert ls[i := l][1..] == ls[1..][i - 1 := l];
    }
  }

  /** A document outside a list gets nothing from it, one inside gets its own contribution. */
  lemma {:induction false} ListWeightIs(l: seq<Posting>, id: nat)
    requires IndexSpec.Descending(l)
    ensures forall k | 0 <= k < |l| && l[k].objId == id :: ListWeight(l, id) == Contribution(l[k].hit)
    ensures (forall k | 0 <= k < |l| :: l[k].objId != id) ==> ListWeight(l, id) == 0
    ensures l != [] && l[0].objId < id ==> ListWeight(l, id) == 0
    ensures ListWeight(l, id) <= 15
  {
    if l != [] {
      var t := l[1..];
      assert forall i, j | 0 <= i < j < |t| :: t[i] == l[i + 1] && t[j] == l[j + 1];
      ListWeightIs(t, id);
      if t != [] { assert t[0] == l[1]; }
      forall k | 0 <= k < |l| && l[k].objId == id ensures ListWeight(l, id) == Contribution(l[k].hit) {
        if k == 0 {
          assert t != [] ==> t[0].objId < id;
        } else {
          assert t[k - 1] == l[k];
        }
      }
      if forall k | 0 <= k < |l| :: l[k].objId != id {
        forall k | 0 <= k < |t| ensures t[k].objId != id { assert t[k] == l[k + 1]; }
      }
    }
  }

  lemma {:induction false} ListWeightSource(l: seq<Posting>, id: nat) returns (k: nat)
    requires ListWeight(l, id) > 0
    ensures k < |l| && l[k].objId == id
  {
    if l[0].objId == id {
      k := 0;
    } else {
      k := ListWeightSource(l[1..], id);
      k := k + 1;
    }
  }

  lemma {:induction false} WeightAtLeast(ls: seq<seq<Posting>>, i: nat, id: nat)
    requires i < |ls|
    ensures ListWeight(ls[i], id) <= Weight(ls, id)
  {
    if i > 0 {
      WeightAtLeast(ls[1..], i - 1, id);
    }
  }

  lemma {:induction false} WeightSource(ls: seq<seq<Posting>>, id: nat) returns (i: nat)
    requires Weight(ls, id) > 0
    ensures i < |ls| && ListWeight(ls[i], id) > 0
  {
    if ListWeight(ls[0], id) > 0 {
      i := 0;
    } else {
      i := WeightSource(ls[1..], id);
      i := i + 1;
    }
  }

  lemma {:induction false} WeightZero(ls: seq<seq<Posting>>, id: nat)
    requires forall i | 0 <= i < |ls| :: ListWeight(ls[i], id) == 0
    ensures Weight(ls, id) == 0
  {
    if ls != [] {
      var t := ls[1..];
      assert forall i | 0 <= i < |t| :: t[i] == ls[i + 1];
      WeightZero(t, id);
    }
  }

  // ---- the merge -------------------------------------------------------------------------

  ghost predicate AllDescending(ls: seq<seq<Posting>>) {
    forall i | 0 <= i < |ls| :: IndexSpec.Descending(ls[i])
  }

  /** `ls` is cut into what the cursors have passed and what is still ahead of them. */
  ghost predicate Cut(ls: seq<seq<Posting>>, done: seq<seq<Posting>>, rest: seq<seq<Posting>>) {
    && |done| == |rest| == |ls|
    && (forall i | 0 <= i < |ls| :: ls[i] == done[i] + rest[i])
  }

  /** Nothing passed lies below the bound, nothing ahead lies above it. */
  ghost predicate Frontier(done: seq<seq<Posting>>, rest: seq<seq<Posting>>, bound: nat) {
    && (forall id: nat :: Weight(done, id) > 0 ==> id >= bound)
    && (forall id: nat :: Weight(rest, id) > 0 ==> id <= bound)
  }

  predicate ObjDescending(objs: seq<Obj>) {
    forall i, j | 0 <= i < j < |objs| :: objs[i].objId > objs[j].objId
  }

  predicate HasObj(objs: seq<Obj>, id: nat) {
    exists k | 0 <= k < |objs| :: objs[k].objId == id
  }

  /** `objs` lists, in descending order, kept documents of `ls` with their weights. */
  ghost predicate Weighed(ls: seq<seq<Posting>>, keep: nat -> bool, name: nat -> int, objs: seq<Obj>) {
    && ObjDescending(objs)
    && (forall k | 0 <= k < |objs| :: keep(objs[k].objId) && objs[k].weight == Weight(ls, objs[k].objId) > 0
                                      && objs[k].id == name(objs[k].objId))
  }

  /** And it lists all of them. */
  ghost predicate Collected(ls: seq<seq<Posting>>, keep: nat -> bool, name: nat -> int, objs: seq<Obj>) {
    && Weighed(ls, keep, name, objs)
    && (forall id: nat :: keep(id) && Weight(ls, id) > 0 ==> HasObj(objs, id))
  }

  lemma {:induction false} CutWeight(ls: seq<seq<Posting>>, done: seq<seq<Posting>>, rest: seq<seq<Posting>>, id: nat)
    requires Cut(ls, done, rest)
    ensures Weight(ls, id) == Weight(done, id) + Weight(rest, id)
  {
    if ls != [] {
      ListWeightConcat(done[0], rest[0], id);
      CutWeight(ls[1..], done[1..], rest[1..], id);
    }
  }

  /** The passed and remaining parts after cursor i advances. */
  function Advanced(done: seq<seq<Posting>>, rest: seq<seq<Posting>>, i: nat): (r: seq<seq<Posting>>)
    requires i < |done| == |rest| && rest[i] != []
    ensures |r| == |done|
  {
    done[i := done[i] + [rest[i][0]]]
  }

  lemma AdvanceWeight(done: seq<seq<Posting>>, rest: seq<seq<Posting>>, i: nat, id: nat)
    requires i < |done| == |rest| && rest[i] != []
    ensures var p := rest[i][0];
      Weight(Advanced(done, rest, i), id) == Weight(done, id) + if p.objId == id then Contribution(p.hit) else 0
  {
    var p := rest[i][0];
    WeightUpdate(done, i, done[i] + [p], id);
    ListWeightConcat(done[i], [p], id);
  }

  lemma AdvanceCut(ls: seq<seq<Posting>>, done: seq<seq<Posting>>, rest: seq<seq<Posting>>, i: nat)
    requires Cut(ls, done, rest) && i < |ls| && rest[i] != []
    ensures Cut(ls, Advanced(done, rest, i), rest[i := rest[i][1..]])
  {
    assert rest[i] == [rest[i][0]] + rest[i][1..];
  }

  /** The head with the greatest document number is the next bound. */
  lemma AdvanceFrontier(done: seq<seq<Posting>>, rest: seq<seq<Posting>>, i: nat, bound: nat)
    requires i < |done| == |rest| && rest[i] != [] && AllDescending(rest) && Frontier(done, rest, bound)
    requires forall j | 0 <= j < |rest| && rest[j] != [] :: rest[j][0].objId <= rest[i][0].objId
    ensures rest[i][0].objId <= bound
    ensures Frontier(Advanced(done, rest, i), rest[i := rest[i][1..]], rest[i][0].objId)
  {
    var top := rest[i][0].objId;
    ListWeightIs(rest[i], top);
    WeightAtLeast(rest, i, top);
    forall id: nat | Weight(Advanced(done, rest, i), id) > 0 ensures id >= top {
      AdvanceWeight(done, rest, i, id);
    }
    var rest' := rest[i := rest[i][1..]];
    forall id: nat | Weight(rest', id) > 0 ensures id <= top {
      if id > top {
        forall j | 0 <= j < |rest'| ensures ListWeight(rest'[j], id) == 0 {
          ListWeightIs(rest[j], id);
          assert j == i || rest'[j] == rest[j];
        }
        WeightZero(rest', id);
      }
    }
  }

  lemma AdvanceDescending(rest: seq<seq<Posting>>, i: nat)
    requires i < |rest| && rest[i] != [] && AllDescending(rest)
    ensures AllDescending(rest[i := rest[i][1..]])
  {
    var t := rest[i][1..];
    assert forall a, b | 0 <= a < b < |t| :: t[a] == rest[i][a + 1] && t[b] == rest[i][b + 1];
  }

  /** add_obj on values: a new document is appended, the current one gains weight. */
  function WithPosting(objs: seq<Obj>, p: Posting, name: nat -> int): seq<Obj> {
    var n := |objs| - 1;
    if objs != [] && objs[n].objId == p.objId
    then objs[n := objs[n].(weight := objs[n].weight + Contribution(p.hit))]
    else objs + [Obj(name(p.objId), p.objId, Contribution(p.hit))]
  }

  /** `after` weighs like `before`, but for document `top`, which has `gain` more. */
  ghost predicate Gained(before: seq<seq<Posting>>, after: seq<seq<Posting>>, top: nat, gain: nat) {
    forall id: nat :: Weight(after, id) == Weight(before, id) + if id == top then gain else 0
  }

  lemma CollectSkip(done: seq<seq<Posting>>, done': seq<seq<Posting>>, p: Posting,
                    keep: nat -> bool, name: nat -> int, objs: seq<Obj>)
    requires Collected(done, keep, name, objs) && Gained(done, done', p.objId, Contribution(p.hit)) && !keep(p.objId)
    ensures Collected(done', keep, name, objs)
  {
    hide Weight, Contribution;
  }

  lemma CollectSame(done: seq<seq<Posting>>, done': seq<seq<Posting>>, p: Posting,
                    keep: nat -> bool, name: nat -> int, objs: seq<Obj>)
    requires Collected(done, keep, name, objs) && Gained(done, done', p.objId, Contribution(p.hit))
    requires objs != [] && objs[|objs| - 1].objId == p.objId
    ensures Collected(done', keep, name, WithPosting(objs, p, name))
  {
    hide Weight, Contribution;
    var r := WithPosting(objs, p, name);
    assert forall k | 0 <= k < |objs| :: r[k].objId == objs[k].objId;
    forall id: nat | HasObj(objs, id) ensures HasObj(r, id) {
      var k :| 0 <= k < |objs| && objs[k].objId == id;
      assert r[k].objId == id;
    }
  }

  lemma CollectNew(done: seq<seq<Posting>>, done': seq<seq<Posting>>, p: Posting,
                   keep: nat -> bool, name: nat -> int, objs: seq<Obj>)
    requires Collected(done, keep, name, objs) && Gained(done, done', p.objId, Contribution(p.hit)) && keep(p.objId)
    requires forall k | 0 <= k < |objs| :: objs[k].objId > p.objId
    ensures Collected(done', keep, name, objs + [Obj(name(p.objId), p.objId, Contribution(p.hit))])
    ensures Weight(done, p.objId) == 0
  {
    hide Weight, Contribution;
    var r := objs + [Obj(name(p.objId), p.objId, Contribution(p.hit))];
    assert !HasObj(objs, p.objId);
    forall id: nat | HasObj(objs, id) || id == p.objId ensures HasObj(r, id) {
      if id == p.objId {
        assert r[|objs|].objId == id;
      } else {
        var k :| 0 <= k < |objs| && objs[k].objId == id;
        assert r[k].objId == id;
      }
    }
  }

  /** One posting further, the collection is still right. */
  lemma CollectStep(done: seq<seq<Posting>>, rest: seq<seq<Posting>>, i: nat, bound: nat,
                    keep: nat -> bool, name: nat -> int, objs: seq<Obj>)
    requires i < |done| == |rest| && rest[i] != [] && rest[i][0].objId <= bound
    requires Collected(done, keep, name, objs) && Frontier(done, rest, bound)
    ensures var p := rest[i][0];
      Collected(Advanced(done, rest, i), keep, name, if keep(p.objId) then WithPosting(objs, p, name) else objs)
    ensures var p := rest[i][0];
      keep(p.objId) && |WithPosting(objs, p, name)| > |objs| ==> Weight(done, p.objId) == 0
  {
    hide Weight, Contribution, Advanced;
    var p := rest[i][0];
    var done' := Advanced(done, rest, i);
    forall id: nat ensures Weight(done', id) == Weight(done, id) + if id == p.objId then Contribution(p.hit) else 0 {
      AdvanceWeight(done, rest, i, id);
    }
    if !keep(p.objId) {
      CollectSkip(done, done', p, keep, name, objs);
    } else if objs != [] && objs[|objs| - 1].objId == p.objId {
      CollectSame(done, done', p, keep, name, objs);
    } else {
      forall k | 0 <= k < |objs| ensures objs[k].objId > p.objId {
        assert objs[|objs| - 1].objId >= bound;
      }
      CollectNew(done, done', p, keep, name, objs);
    }
  }

  // ---- the naive scan --------------------------------------------------------------------

  /** All documents below `n`, from the highest number down, that match and are kept. */
  function Scan(ls: seq<seq<Posting>>, keep: nat -> bool, name: nat -> int, n: nat): seq<Obj> {
    if n == 0 then []
    else if Weight(ls, n - 1) > 0 && keep(n - 1)
    then [Obj(name(n - 1), n - 1, Weight(ls, n - 1))] + Scan(ls, keep, name, n - 1)
    else Scan(ls, keep, name, n - 1)
  }

  ghost predicate AllBelow(s: seq<Obj>, n: nat) {
    forall k | 0 <= k < |s| :: s[k].objId < n
  }

  lemma {:induction false} ScanBelow(ls: seq<seq<Posting>>, keep: nat -> bool, name: nat -> int, n: nat)
    ensures AllBelow(Scan(ls, keep, name, n), n)
  {
    hide Weight;
    if n > 0 {
      ScanBelow(ls, keep, name, n - 1);
    }
  }

  /** Or all of those below `n`. */
  ghost predicate CollectedBelow(ls: seq<seq<Posting>>, keep: nat -> bool, name: nat -> int, objs: seq<Obj>, n: nat) {
    && Weighed(ls, keep, name, objs)
    && (forall id: nat | id < n :: keep(id) && Weight(ls, id) > 0 ==> HasObj(objs, id))
  }

  lemma CollectOne(ls: seq<seq<Posting>>, keep: nat -> bool, name: nat -> int, t: seq<Obj>, n: nat)
    requires CollectedBelow(ls, keep, name, t, n) && AllBelow(t, n)
    ensures Weight(ls, n) > 0 && keep(n) ==>
      CollectedBelow(ls, keep, name, [Obj(name(n), n, Weight(ls, n))] + t, n + 1)
    ensures !(Weight(ls, n) > 0 && keep(n)) ==> CollectedBelow(ls, keep, name, t, n + 1)
  {
    hide Weight;
    var s := [Obj(name(n), n, Weight(ls, n))] + t;
    forall id: nat | id <= n && (id == n || HasObj(t, id)) ensures HasObj(s, id) {
      if id == n {
        assert s[0].objId == id;
      } else {
        var k :| 0 <= k < |t| && t[k].objId == id;
        assert s[k + 1] == t[k];
      }
    }
  }

  /** The scan lists exactly the kept documents of the lists, each with its full weight. */
  lemma {:induction false} ScanCollects(ls: seq<seq<Posting>>, keep: nat -> bool, name: nat -> int, n: nat)
    ensures CollectedBelow(ls, keep, name, Scan(ls, keep, name, n), n)
  {
    if n == 0 {
      CollectNone(ls, keep, name);
    } else {
      hide Weight, AllBelow, CollectedBelow, Scan;
      ScanStep(ls, keep, name, n);
      ScanCollects(ls, keep, name, n - 1);
      ScanBelow(ls, keep, name, n - 1);
      CollectOne(ls, keep, name, Scan(ls, keep, name, n - 1), n - 1);
    }
  }

  lemma ScanStep(ls: seq<seq<Posting>>, keep: nat -> bool, name: nat -> int, n: nat)
    requires n > 0
    ensures Scan(ls, keep, name, 0) == []
    ensures Scan(ls, keep, name, n) ==
      if Weight(ls, n - 1) > 0 && keep(n - 1)
      then [Obj(name(n - 1), n - 1, Weight(ls, n - 1))] + Scan(ls, keep, name, n - 1)
      else Scan(ls, keep, name, n - 1)
  {
    hide Weight;
  }

  lemma CollectNone(ls: seq<seq<Posting>>, keep: nat -> bool, name: nat -> int)
    ensures CollectedBelow(ls, keep, name, [], 0)
  {
  }

  /** The weight is what a single list contributes to the document. */
  ghost predicate FromOneList(ls: seq<seq<Posting>>, o: Obj) {
    exists i | 0 <= i < |ls| :: o.weight == ListWeight(ls[i], o.objId) > 0
  }

  /** What the merge leaves behind, in terms of the full lists: a prefix of the scan's documents; every
      weight but that of the 760th is the full sum, and the 760th has what one list contributes. */
  ghost predicate IsRecall(ls: seq<seq<Posting>>, keep: nat -> bool, name: nat -> int, objs: seq<Obj>) {
    && ObjDescending(objs) && |objs| <= MAX_RECALL_NUM
    && (forall k | 0 <= k < |objs| ::
          keep(objs[k].objId) && Weight(ls, objs[k].objId) > 0 && objs[k].id == name(objs[k].objId))
    && (forall k | 0 <= k < |objs| && k != MAX_RECALL_NUM - 1 :: objs[k].weight == Weight(ls, objs[k].objId))
    && (forall id: nat :: keep(id) && Weight(ls, id) > 0 && !HasObj(objs, id) ==>
          |objs| == MAX_RECALL_NUM && id < objs[MAX_RECALL_NUM - 1].objId)
    && (|objs| == MAX_RECALL_NUM ==> FromOneList(ls, objs[MAX_RECALL_NUM - 1]))
  }

  /** At the end of the merge the cut either leaves nothing ahead or has just produced the 760th. */
  lemma MergeResult(ls: seq<seq<Posting>>, done: seq<seq<Posting>>, rest: seq<seq<Posting>>, bound: nat,
                    keep: nat -> bool, name: nat -> int, objs: seq<Obj>)
    requires Cut(ls, done, rest) && Frontier(done, rest, bound) && Collected(done, keep, name, objs)
    requires |objs| < MAX_RECALL_NUM ==> forall id: nat :: Weight(rest, id) == 0
    requires |objs| <= MAX_RECALL_NUM
    requires |objs| == MAX_RECALL_NUM ==>
      objs[MAX_RECALL_NUM - 1].objId == bound && FromOneList(ls, objs[MAX_RECALL_NUM - 1])
    ensures IsRecall(ls, keep, name, objs)
  {
    hide Weight, FromOneList, Cut;
    forall id: nat ensures Weight(ls, id) == Weight(done, id) + Weight(rest, id) {
      CutWeight(ls, done, rest, id);
    }
    forall k | 0 <= k < |objs| && k != MAX_RECALL_NUM - 1 ensures objs[k].weight == Weight(ls, objs[k].objId) {
      if |objs| == MAX_RECALL_NUM {
        assert objs[k].objId > objs[MAX_RECALL_NUM - 1].objId;
      }
    }
    forall id: nat | keep(id) && Weight(ls, id) > 0 && !HasObj(objs, id)
      ensures |objs| == MAX_RECALL_NUM && id < objs[MAX_RECALL_NUM - 1].objId
    {
      assert Weight(done, id) == 0;
    }
  }

  /** Position by position, `a` names the documents `b` starts with. */
  ghost predicate TopPart(a: seq<Obj>, b: seq<Obj>) {
    |a| <= |b| && forall k | 0 <= k < |a| :: a[k].objId == b[k].objId
  }

  /** Two descending lists, the first a top part of the second, agree position by position. */
  lemma {:induction false} SameDocument(a: seq<Obj>, b: seq<Obj>, k: nat)
    requires ObjDescending(a) && ObjDescending(b) && k < |a|
    requires forall i | 0 <= i < |a| :: HasObj(b, a[i].objId)
    requires forall i | 0 <= i < |b| :: HasObj(a, b[i].objId) || b[i].objId < a[|a| - 1].objId
    ensures k < |b| && a[k].objId == b[k].objId
  {
    forall i | 0 <= i < k ensures i < |b| && a[i].objId == b[i].objId {
      SameDocument(a, b, i);
    }
    hide HasObj;
    var p := ObjAt(b, a[k].objId);
    assert forall i | 0 <= i < k :: b[i].objId == a[i].objId > a[k].objId;
    assert k <= p;
    if HasObj(a, b[k].objId) {
      var q := ObjAt(a, b[k].objId);
      assert forall i | 0 <= i < k :: a[i].objId == b[i].objId > b[k].objId;
    }
  }

  lemma ObjAt(objs: seq<Obj>, id: nat) returns (k: nat)
    requires HasObj(objs, id)
    ensures k < |objs| && objs[k].objId == id
  {
    k :| k < |objs| && objs[k].objId == id;
  }

  lemma SameDocuments(a: seq<Obj>, b: seq<Obj>)
    requires ObjDescending(a) && ObjDescending(b)
    requires forall i | 0 <= i < |a| :: HasObj(b, a[i].objId)
    requires forall i | 0 <= i < |b| :: HasObj(a, b[i].objId) || (a != [] && b[i].objId < a[|a| - 1].objId)
    ensures TopPart(a, b)
    ensures (forall i | 0 <= i < |b| :: HasObj(a, b[i].objId)) ==> |a| == |b|
  {
    forall k | 0 <= k < |a| ensures k < |b| && a[k].objId == b[k].objId {
      SameDocument(a, b, k);
    }
    if a != [] {
      assert a[|a| - 1].objId == b[|a| - 1].objId;
    }
    if b != [] && HasObj(a, b[|b| - 1].objId) {
      var n := |b| - 1;
      var k :| 0 <= k < |a| && a[k].objId == b[n].objId;
      assert k < n ==> b[k].objId > b[n].objId;
    }
  }

  /** The merge is the naive scan: exactly, when fewer than 760 documents survive; otherwise its first
      760 documents with their full weights, but for the 760th, which has one list's contribution. */
  lemma RecallIsScan(ls: seq<seq<Posting>>, keep: nat -> bool, name: nat -> int, n: nat, objs: seq<Obj>)
    requires IsRecall(ls, keep, name, objs) && forall id: nat :: keep(id) ==> id < n
    ensures var scan := Scan(ls, keep, name, n);
      && (|scan| < MAX_RECALL_NUM ==> objs == scan)
      && (|scan| >= MAX_RECALL_NUM ==>
            && |objs| == MAX_RECALL_NUM && objs[..MAX_RECALL_NUM - 1] == scan[..MAX_RECALL_NUM - 1]
            && var last := objs[MAX_RECALL_NUM - 1];
            && last == scan[MAX_RECALL_NUM - 1].(weight := last.weight)
            && FromOneList(ls, last))
  {
    hide Weight, FromOneList, Scan;
    var scan := Scan(ls, keep, name, n);
    ScanCollects(ls, keep, name, n);
    forall i | 0 <= i < |objs| ensures HasObj(scan, objs[i].objId) {}
    forall i | 0 <= i < |scan| && !HasObj(objs, scan[i].objId)
      ensures |objs| == MAX_RECALL_NUM && scan[i].objId < objs[|objs| - 1].objId {}
    SameDocuments(objs, scan);
    forall k | 0 <= k < |objs|
      ensures objs[k] == scan[k].(weight := objs[k].weight)
      ensures k != MAX_RECALL_NUM - 1 ==> objs[k] == scan[k]
    {
      assert objs[k].objId == scan[k].objId;
    }
  }

  /** When the 760th document is in one list only, even its weight is the full sum; and only then. */
  lemma LastWeightExact(ls: seq<seq<Posting>>, i: nat, id: nat)
    requires i < |ls| && ListWeight(ls[i], id) > 0
    ensures ListWeight(ls[i], id) == Weight(ls, id) <==>
      forall j | 0 <= j < |ls| && j != i :: ListWeight(ls[j], id) == 0
  {
    var others := ls[i := []];
    WeightUpdate(ls, i, [], id);
    if Weight(others, id) > 0 {
      var j := WeightSource(others, id);
      assert j != i && others[j] == ls[j];
    } else {
      forall j | 0 <= j < |ls| && j != i ensures ListWeight(ls[j], id) == 0 {
        WeightAtLeast(others, j, id);
        assert others[j] == ls[j];
      }
    }
  }

  // ---- the order of the output -----------------------------------------------------------

  /** compare_basic_weight, as a non-strict order. */
  predicate Heavier(a: Obj, b: Obj) {
    a.weight >= b.weight
  }

  predicate Ranked(a: Obj, b: Obj) {
    a.weight > b.weight || (a.weight == b.weight && a.objId >= b.objId)
  }

  lemma RankedMeans(a: Obj, b: Obj)
    ensures Ranked(a, b) ==> a.weight >= b.weight
  {
  }

  lemma {:induction false} InsertRanked(x: Obj, s: seq<Obj>)
    requires Sorting.Sorted(s, Ranked) && forall k | 0 <= k < |s| :: x.objId > s[k].objId
    ensures Sorting.Sorted(Sorting.Insert(x, s, Heavier), Ranked)
  {
    if s != [] {
      var y, t := s[0], s[1..];
      Sorting.SortedTail(s, Ranked);
      forall z | z in s ensures x.objId > z.objId && (z == y || Ranked(y, z)) {
        assert z == y || z in t;
      }
      if Heavier(x, y) {
        Sorting.SortedCons(x, s, Ranked);
      } else {
        InsertRanked(x, t);
        Sorting.InsertElements(x, t, Heavier);
        Sorting.SortedCons(y, Sorting.Insert(x, t, Heavier), Ranked);
      }
    }
  }

  /** The stable sort of the recalled documents: heavier first, and on equal weight the later document. */
  lemma {:induction false} SortRanks(objs: seq<Obj>)
    requires ObjDescending(objs)
    ensures Sorting.Sorted(Sorting.Sort(objs, Heavier), Ranked)
  {
    if objs != [] {
      var t := objs[1..];
      assert forall i, j | 0 <= i < j < |t| :: t[i] == objs[i + 1] && t[j] == objs[j + 1];
      SortRanks(t);
      var r := Sorting.Sort(t, Heavier);
      forall k | 0 <= k < |r| ensures objs[0].objId > r[k].objId {
        assert r[k] in multiset(r);
        assert r[k] in multiset(t);
        var j :| 0 <= j < |t| && t[j] == r[k];
        assert objs[0].objId > objs[j + 1].objId;
      }
      InsertRanked(objs[0], r);
    }
  }

  /** That order determines the output: any ranked arrangement of the documents is the sorted one. */
  lemma RankingUnique(objs: seq<Obj>, out: seq<Obj>)
    requires ObjDescending(objs) && multiset(out) == multiset(objs) && Sorting.Sorted(out, Ranked)
    ensures out == Sorting.Sort(objs, Heavier)
  {
    SortRanks(objs);
    forall x, y | x in out && y in out && Ranked(x, y) && Ranked(y, x) ensures x == y {
      assert x in multiset(objs) && y in multiset(objs);
      var i :| 0 <= i < |objs| && objs[i] == x;
      var j :| 0 <= j < |objs| && objs[j] == y;
      assert i < j || i == j || j < i;
    }
    Sorting.SortedUnique(out, Sorting.Sort(objs, Heavier), Ranked);
  }

  // ---- a last document with too little weight --------------------------------------------

  /** The documents of a list, in its order. */
  function DocNos(objs: seq<Obj>): (r: seq<nat>)
    ensures |r| == |objs|
  {
    seq(|objs|, i requires 0 <= i < |objs| => objs[i].objId)
  }

  /** How many objects at the front weigh at least `w`. */
  function Place(objs: seq<Obj>, w: nat): (p: nat)
    ensures p <= |objs| && (forall i | 0 <= i < p :: objs[i].weight >= w) && (p < |objs| ==> objs[p].weight < w)
  {
    if objs == [] || objs[0].weight < w then 0
    else
      assert forall i | 0 < i < |objs| :: objs[i] == objs[1..][i - 1];
      1 + Place(objs[1..], w)
  }

  /** Where the document with the lowest number is ranked: behind all that weigh no less. */
  lemma SortLast(front: seq<Obj>, last: Obj)
    requires ObjDescending(front + [last])
    ensures var f := Sorting.Sort(front, Heavier);
      Sorting.Sort(front + [last], Heavier) == f[..Place(f, last.weight)] + [last] + f[Place(f, last.weight)..]
  {
    hide Sorting.Sort, Heavier;
    var f := Sorting.Sort(front, Heavier);
    var p := Place(f, last.weight);
    FrontOf(front, last);
    SortRanks(front);
    Sorting.SameElements(front, f);
    RankedAround(f, last);
    assert f == f[..p] + f[p..];
    RankingUnique(front + [last], f[..p] + [last] + f[p..]);
  }

  lemma FrontOf(front: seq<Obj>, last: Obj)
    requires ObjDescending(front + [last])
    ensures ObjDescending(front) && forall o | o in front :: o.objId > last.objId
  {
    var all, n := front + [last], |front|;
    assert all[n] == last && forall i | 0 <= i < n :: all[i] == front[i] && all[i].objId > all[n].objId;
  }

  lemma RankedAround(f: seq<Obj>, last: Obj)
    requires Sorting.Sorted(f, Ranked) && forall o | o in f :: o.objId > last.objId
    ensures var p := Place(f, last.weight); Sorting.Sorted(f[..p] + [last] + f[p..], Ranked)
  {
    var p := Place(f, last.weight);
    hide Place;
    Sorting.SortedParts(f, Ranked, p);
    forall o | o in f[..p] ensures Ranked(o, last) {
      assert o in f;
    }
    forall o | o in f[p..] ensures Ranked(last, o) {
      var i :| 0 <= i < |f[p..]| && f[p..][i] == o;
      assert 0 < i ==> Ranked(f[p], f[p + i]);
    }
    Sorting.SortedConcat(f[..p], [last], Ranked);
    forall x, y | x in f[..p] + [last] && y in f[p..] ensures Ranked(x, y) {
      assert x == last || (x in f[..p] && Ranked(x, last) && Ranked(last, y));
    }
    Sorting.SortedConcat(f[..p] + [last], f[p..], Ranked);
  }

  /** Two places for one new document give two orders. */
  lemma PlacedApart(f: seq<Obj>, a: Obj, b: Obj, p: nat, q: nat)
    requires p <= |f| && q <= |f| && a.objId == b.objId && forall o | o in f :: o.objId != a.objId
    ensures DocNos(f[..p] + [a] + f[p..]) == DocNos(f[..q] + [b] + f[q..]) <==> p == q
  {
    var x, y := f[..p] + [a] + f[p..], f[..q] + [b] + f[q..];
    if p == q {
      assert forall i | 0 <= i < |x| :: x[i].objId == y[i].objId;
    } else {
      assert DocNos(x)[p] == a.objId;
      assert y[p] in f by {
        assert y[p] == if p < q then f[p] else f[p - 1];
      }
    }
  }

  /** Lowering the weight of the lowest document keeps the order exactly if no other weight lies between. */
  lemma LowerLast(front: seq<Obj>, last: Obj, w: nat)
    requires ObjDescending(front + [last]) && w <= last.weight
    ensures DocNos(Sorting.Sort(front + [last.(weight := w)], Heavier)) == DocNos(Sorting.Sort(front + [last], Heavier))
      <==> forall o | o in front :: !(w <= o.weight < last.weight)
  {
    hide Sorting.Sort, Heavier, DocNos;
    var f, low := Sorting.Sort(front, Heavier), last.(weight := w);
    var all := front + [last];
    assert forall i | 0 <= i < |all| :: (front + [low])[i].objId == all[i].objId;
    FrontOf(front, last);
    Sorting.SameElements(front, f);
    SortLast(front, last);
    SortLast(front, low);
    PlacedApart(f, low, last, Place(f, w), Place(f, last.weight));
    SortRanks(front);
    PlacesEqual(f, w, last.weight);
  }

  lemma PlacesEqual(f: seq<Obj>, low: nat, high: nat)
    requires Sorting.Sorted(f, Ranked) && low <= high
    ensures Place(f, low) == Place(f, high) <==> forall o | o in f :: !(low <= o.weight < high)
  {
    hide Place;
    var p, q := Place(f, high), Place(f, low);
    assert p <= q;
    if p < q {
      assert f[p] in f;
    }
    forall o | o in f && low <= o.weight < high ensures p < q {
      var i :| 0 <= i < |f| && f[i] == o;
      assert q < i ==> Ranked(f[q], f[i]);
    }
  }
}
