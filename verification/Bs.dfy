/** The search itself (se/bs/bs.cpp). */
module Bs {
  import opened IndexTypes
  import Sorting
  import IndexSpec
  import FlushSpec
  import ID = IndexData
  import CursorHeap
  import opened Ranking
  import opened Merge
  import opened Filters

  const BS_MAX_TERM_NUM: nat := 15

  /** `ret::OK`. */
  const OK: int := 0

  /** The "none" marker of the filter memo, `(uint32_t)-1`. */
  const NO_OBJ: nat := 0xFFFF_FFFF

  /** An index the searcher can work on; flush produces such an index. */
  ghost predicate IndexOk(terms: seq<Term>, file: seq<Posting>, briefs: seq<Brief>) {
    && 0 < |terms| <= 0x8000_0000 && FlushSpec.SignsAscend(terms)
    && (forall k | 0 <= k < |terms| ::
          && terms[k].num > 0 && terms[k].offset + terms[k].num <= |file|
          && IndexSpec.Descending(file[terms[k].offset..terms[k].offset + terms[k].num]))
    && (forall h | 0 <= h < |file| :: file[h].objId <= NO_OBJ)
    && |briefs| <= NO_OBJ
    && (forall d | 0 <= d < |briefs| :: Ascending(briefs[d].tagIds))
  }

  lemma TermsOk(terms: seq<Term>, file: seq<Posting>, briefs: seq<Brief>)
    requires IndexOk(terms, file, briefs)
    ensures 0 < |terms| <= 0x8000_0000 && FlushSpec.SignsAscend(terms)
    ensures forall t | t in terms :: t.num > 0 && t.offset + t.num <= |file|
  {
  }

  /** The posting list the files hold for a sign; empty when there is none. */
  ghost function FiledList(terms: seq<Term>, file: seq<Posting>, s: nat): seq<Posting> {
    if FlushSpec.HasTerm(terms, s) then
      var k :| 0 <= k < |terms| && terms[k].sign == s;
      if terms[k].offset + terms[k].num <= |file| then file[terms[k].offset..terms[k].offset + terms[k].num] else []
    else []
  }

  lemma FiledListIs(terms: seq<Term>, file: seq<Posting>, k: nat)
    requires FlushSpec.SignsAscend(terms) && k < |terms| && terms[k].offset + terms[k].num <= |file|
    ensures FiledList(terms, file, terms[k].sign) == file[terms[k].offset..terms[k].offset + terms[k].num]
  {
    assert FlushSpec.HasTerm(terms, terms[k].sign);
  }

  datatype Input = Input(token: seq<string>, condition: SearchCondition)

  /** The lists a query merges: those of its non-empty, indexed tokens among the first fifteen. */
  ghost function Loaded(terms: seq<Term>, file: seq<Posting>, sign64: string -> nat, token: seq<string>)
    : seq<seq<Posting>>
  {
    if token == [] then []
    else
      var n := |token| - 1;
      var rest := Loaded(terms, file, sign64, token[..n]);
      if token[n] == "" || !FlushSpec.HasTerm(terms, sign64(token[n])) then rest
      else rest + [FiledList(terms, file, sign64(token[n]))]
  }

  /** A located token appends its list to the merge. */
  lemma LoadStep(terms: seq<Term>, file: seq<Posting>, sign64: string -> nat, tokens: seq<string>,
                 before: seq<Cursor>, txt: string, t: Term)
    requires FlushSpec.SignsAscend(terms) && t in terms && t.offset + t.num <= |file|
    requires txt != "" && t.sign == sign64(txt)
    requires CursorsValid(file, before) && Runs(file, before) == Loaded(terms, file, sign64, tokens)
    ensures var after := before + [Cursor(t.sign, t.offset, t.num)];
      CursorsValid(file, after) && Runs(file, after) == Loaded(terms, file, sign64, tokens + [txt])
  {
    hide FiledList, Runs, CursorsValid, FlushSpec.SignsAscend;
    RunsMore(file, before, Cursor(t.sign, t.offset, t.num));
    var k :| 0 <= k < |terms| && terms[k] == t;
    FiledListIs(terms, file, k);
    LoadMore(terms, file, sign64, tokens, txt);
    assert FlushSpec.HasTerm(terms, t.sign);
  }

  lemma NothingLoaded(terms: seq<Term>, file: seq<Posting>, sign64: string -> nat)
    ensures CursorsValid(file, []) && Runs(file, []) == Loaded(terms, file, sign64, [])
  {
  }

  lemma LoadMore(terms: seq<Term>, file: seq<Posting>, sign64: string -> nat, tokens: seq<string>, txt: string)
    ensures Loaded(terms, file, sign64, tokens + [txt]) ==
      if txt == "" || !FlushSpec.HasTerm(terms, sign64(txt)) then Loaded(terms, file, sign64, tokens)
      else Loaded(terms, file, sign64, tokens) + [FiledList(terms, file, sign64(txt))]
  {
    hide FiledList, FlushSpec.HasTerm;
    assert (tokens + [txt])[..|tokens|] == tokens;
  }

  lemma {:induction false} LoadedDescending(terms: seq<Term>, file: seq<Posting>, briefs: seq<Brief>,
                                            sign64: string -> nat, token: seq<string>)
    requires IndexOk(terms, file, briefs)
    ensures AllDescending(Loaded(terms, file, sign64, token))
  {
    if token != [] {
      LoadedDescending(terms, file, briefs, sign64, token[..|token| - 1]);
    }
  }

  lemma NoLists(keep: nat -> bool, name: nat -> int)
    ensures IsRecall([], keep, name, [])
  {
  }

  function Ids(objs: seq<Obj>): (r: seq<int>)
    ensures |r| == |objs|
  {
    seq(|objs|, i requires 0 <= i < |objs| => objs[i].id)
  }

  function FirstTokens(token: seq<string>): seq<string> {
    if |token| <= BS_MAX_TERM_NUM then token else token[..BS_MAX_TERM_NUM]
  }

  /** filt, negated: the document has a brief and passes both filters. */
  function Keeper(briefs: seq<Brief>, numeric: seq<NumericFilter>, wanted: seq<int>): nat -> bool {
    (id: nat) => id < |briefs| && NumericOk(briefs[id], numeric) && TagsOk(briefs[id], wanted)
  }

  function Namer(briefs: seq<Brief>): nat -> int {
    (id: nat) => if id < |briefs| then briefs[id].id else 0
  }

  lemma KeptHasBrief(briefs: seq<Brief>, numeric: seq<NumericFilter>, wanted: seq<int>)
    ensures forall id: nat :: Keeper(briefs, numeric, wanted)(id) ==> id < |briefs|
  {
  }

  /** The invariant of the merge loop. */
  ghost predicate Merging(file: seq<Posting>, ls: seq<seq<Posting>>, terms: seq<Cursor>, heap: seq<nat>,
                          done: seq<seq<Posting>>, bound: nat, keep: nat -> bool, name: nat -> int, objs: seq<Obj>) {
    && HeapValid(file, terms, heap)
    && AllDescending(Runs(file, terms)) && Cut(ls, done, Runs(file, terms))
    && Frontier(done, Runs(file, terms), bound)
    && Collected(done, keep, name, objs)
  }

  /** One popped posting, everything but the heap. */
  lemma MergeStep(file: seq<Posting>, ls: seq<seq<Posting>>, terms: seq<Cursor>, heap: seq<nat>, t: nat,
                  done: seq<seq<Posting>>, bound: nat, keep: nat -> bool, name: nat -> int, objs: seq<Obj>)
    requires Merging(file, ls, terms, heap, done, bound, keep, name, objs) && AllDescending(ls) && t in heap
    requires forall x | x in heap :: Keys(file, terms)(t) >= Keys(file, terms)(x)
    ensures t < |terms| && terms[t].left > 0 && terms[t].index < |file|
    ensures var p := file[terms[t].index];
      var terms' := terms[t := Stepped(terms[t])];
      var objs' := if keep(p.objId) then WithPosting(objs, p, name) else objs;
      && CursorsValid(file, terms') && |done| == |terms| && Runs(file, terms)[t] != []
      && var done' := Advanced(done, Runs(file, terms), t);
      && p.objId <= bound
      && AllDescending(Runs(file, terms')) && Cut(ls, done', Runs(file, terms'))
      && Frontier(done', Runs(file, terms'), p.objId)
      && Collected(done', keep, name, objs')
      && Total(Runs(file, terms')) < Total(Runs(file, terms))
      && FromOneList(ls, Obj(name(p.objId), p.objId, Contribution(p.hit)))
  {
    hide Collected, Frontier, Cut, Weight, CursorHeap.IsHeap, HoldsActive, Advanced, Contribution, Keys;
    PoppedGreatest(file, terms, heap, t);
    var runs := Runs(file, terms);
    SteppedRuns(file, terms, t);
    CutAt(ls, done, runs, t);
    AdvanceFrontier(done, runs, t, bound);
    AdvanceCut(ls, done, runs, t);
    AdvanceDescending(runs, t);
    CollectStep(done, runs, t, bound, keep, name, objs);
    TotalUpdate(runs, t, runs[t][1..]);
    ListWeightIs(ls[t], runs[t][0].objId);
    assert ListWeight(ls[t], runs[t][0].objId) == Contribution(runs[t][0].hit) > 0;
  }

  lemma CutAt(ls: seq<seq<Posting>>, done: seq<seq<Posting>>, rest: seq<seq<Posting>>, t: nat)
    requires Cut(ls, done, rest) && t < |rest| && rest[t] != []
    ensures |ls| == |done| == |rest| && |done[t]| < |ls[t]| && ls[t][|done[t]|] == rest[t][0]
  {
  }

  /** Before the loop nothing is passed and everything is ahead. */
  lemma MergeStart(file: seq<Posting>, terms: seq<Cursor>, heap: seq<nat>, keep: nat -> bool, name: nat -> int)
    returns (done: seq<seq<Posting>>)
    requires HeapValid(file, terms, heap) && AllDescending(Runs(file, terms))
    requires forall h | 0 <= h < |file| :: file[h].objId <= NO_OBJ
    ensures Merging(file, Runs(file, terms), terms, heap, done, NO_OBJ, keep, name, [])
  {
    var runs := Runs(file, terms);
    done := seq(|runs|, _ => []);
    forall id: nat ensures Weight(done, id) == 0 {
      WeightZero(done, id);
    }
    forall id: nat | Weight(runs, id) > 0 ensures id <= NO_OBJ {
      var t := WeightSource(runs, id);
      var k := ListWeightSource(runs[t], id);
      assert runs[t][k] == file[terms[t].index + k];
    }
    assert forall t | 0 <= t < |runs| :: runs[t] == done[t] + runs[t];
  }

  /** When the loop stops, the objects are the recall of the lists. */
  lemma MergeEnd(file: seq<Posting>, ls: seq<seq<Posting>>, terms: seq<Cursor>, heap: seq<nat>,
                 done: seq<seq<Posting>>, bound: nat, keep: nat -> bool, name: nat -> int, objs: seq<Obj>)
    requires Merging(file, ls, terms, heap, done, bound, keep, name, objs)
    requires heap == [] || |objs| >= MAX_RECALL_NUM
    requires Capped(ls, objs, bound)
    ensures IsRecall(ls, keep, name, objs)
  {
    hide Weight, FromOneList, Cut, Frontier, Collected, IsRecall;
    if heap == [] {
      forall id: nat ensures Weight(Runs(file, terms), id) == 0 {
        NothingAhead(file, terms, id);
      }
    }
    MergeResult(ls, done, Runs(file, terms), bound, keep, name, objs);
  }

  /** What the two memo variables of the loop remember. */
  ghost predicate MemoOk(keep: nat -> bool, bound: nat, lastFilt: nat, lastValid: nat) {
    && !keep(lastFilt) && lastFilt <= NO_OBJ && (lastFilt == NO_OBJ || lastFilt >= bound)
    && (lastValid == NO_OBJ || keep(lastValid))
  }

  /** At most 760 objects, and the 760th is the document just popped, with one list's contribution. */
  ghost predicate Capped(ls: seq<seq<Posting>>, objs: seq<Obj>, bound: nat) {
    && |objs| <= MAX_RECALL_NUM
    && (|objs| == MAX_RECALL_NUM ==>
          objs[MAX_RECALL_NUM - 1].objId == bound && FromOneList(ls, objs[MAX_RECALL_NUM - 1]))
  }

  /** How many postings are still ahead. */
  ghost function Ahead(file: seq<Posting>, terms: seq<Cursor>): nat {
    if CursorsValid(file, terms) then Total(Runs(file, terms)) else 0
  }

  /** The memo gives the verdict of `filt` for the document just popped. */
  lemma MemoVerdict(keep: nat -> bool, bound: nat, lastFilt: nat, lastValid: nat, id: nat)
    requires MemoOk(keep, bound, lastFilt, lastValid) && id <= bound && id <= NO_OBJ && !keep(NO_OBJ)
    ensures lastFilt == id ==> !keep(id)
    ensures lastFilt != id && lastValid == id ==> keep(id)
  {
  }

  class ThreadData {
    const index: ID.IndexData
    const tagData: map<string, int>
    const sign64: string -> nat

    var obj: seq<Obj>
    const term: array<Cursor>
    var termNum: nat
    const indexHeap: CursorHeap.Heap<nat>
    var tagFiltId: seq<int>

    constructor (index: ID.IndexData, tagData: map<string, int>, sign64: string -> nat)
      ensures this.index == index && this.tagData == tagData && this.sign64 == sign64
      ensures term.Length == BS_MAX_TERM_NUM && fresh(term) && fresh(indexHeap)
    {
      this.index, this.tagData, this.sign64 := index, tagData, sign64;
      obj, termNum, tagFiltId := [], 0, [];
      term := new Cursor[BS_MAX_TERM_NUM](_ => Cursor(0, 0, 0));
      indexHeap := new CursorHeap.Heap();
    }

    ghost predicate Ready()
      reads this, index
    {
      && term.Length == BS_MAX_TERM_NUM
      && IndexOk(index.term, index.index, index.brief)
    }

    ghost function Keep(input: Input): nat -> bool
      reads this, index
    {
      Keeper(index.brief, input.condition.numericFilter, tagFiltId)
    }

    ghost function Terms(): seq<Cursor>
      reads this, term
      requires termNum <= term.Length
    {
      term[..termNum]
    }

    /** _prepare, after the index has been pinned. */
    method Prepare(input: Input)
      modifies this, indexHeap
      ensures obj == [] && termNum == 0 && indexHeap.data == []
      ensures Ascending(tagFiltId)
      ensures multiset(tagFiltId) == multiset(KnownTags(input.condition.tagFilter, tagData))
    {
      obj := [];
      termNum := 0;
      indexHeap.Clear();
      var ids: seq<int> := [];
      var tags := input.condition.tagFilter;
      for i := 0 to |tags|
        invariant ids == KnownTags(tags[..i], tagData)
        invariant obj == [] && termNum == 0 && indexHeap.data == []
      {
        assert tags[..i + 1][..i] == tags[..i];
        if tags[i] in tagData {
          ids := ids + [tagData[tags[i]]];
        }
      }
      assert tags[..|tags|] == tags;
      tagFiltId := Sorting.Sort(ids, AtMost);
      Sorting.SortSorted(ids, AtMost);
      forall i, j | 0 <= i < j < |tagFiltId| ensures tagFiltId[i] <= tagFiltId[j] {
        assert AtMost(tagFiltId[i], tagFiltId[j]);
      }
    }

    /** filt: true means the document is dropped. */
    method Filt(objId: nat, input: Input) returns (drop: bool)
      requires Ready() && Ascending(tagFiltId)
      ensures drop <==> !Keep(input)(objId)
    {
      var brief := index.GetBrief(objId);
      if brief.None? {
        return true;
      }
      drop := NumericFilterDrops(brief.value, input.condition.numericFilter);
      if drop {
        return true;
      }
      drop := TagFilterDrops(brief.value, tagFiltId);
    }

    /** add_obj. */
    method AddObj(p: Posting)
      requires p.objId < |index.brief|
      modifies this`obj
      ensures obj == WithPosting(old(obj), p, Namer(index.brief))
    {
      var brief := index.GetBrief(p.objId).value;
      var n := |obj|;
      if !(n > 0 && p.objId == obj[n - 1].objId) {
        obj := obj + [Obj(brief.id, p.objId, 0)];
      }
      var last := |obj| - 1;
      var hitFieldNum := CountFields(p.hit.field);
      var hitScore := hitFieldNum * p.hit.num;
      if hitScore > 5 {
        hitScore := 5;
      }
      obj := obj[last := obj[last].(weight := obj[last].weight + 10 + hitScore)];
    }

    /** The first `num` cursors are those of the given tokens. */
    ghost predicate CursorsOf(num: nat, tokens: seq<string>)
      reads this, index, term
    {
      && num <= term.Length && CursorsValid(index.index, term[..num])
      && (forall t | 0 <= t < num :: term[t].left > 0)
      && Runs(index.index, term[..num]) == Loaded(index.term, index.index, sign64, tokens)
    }

    /** One round of load_index: a token that has postings gets the next cursor. */
    method LoadToken(txt: string, num: nat, ghost tokens: seq<string>) returns (next: nat)
      requires Ready() && num < BS_MAX_TERM_NUM && CursorsOf(num, tokens)
      modifies term
      ensures next <= num + 1 && CursorsOf(next, tokens + [txt])
    {
      TermsOk(index.term, index.index, index.brief);
      hide IndexOk, FlushSpec.SignsAscend, ID.Rounds, Loaded, Runs, CursorsValid, FiledList;
      LoadMore(index.term, index.index, sign64, tokens, txt);
      if txt == "" {
        return num;
      }
      var sign := sign64(txt);
      var located := index.LocateTerm(sign);
      if located.None? {
        return num;
      }
      var t := located.value;
      LoadStep(index.term, index.index, sign64, tokens, term[..num], txt, t);
      ghost var before := term[..num];
      term[num] := Cursor(sign, t.offset, t.num);
      assert term[..num + 1] == before + [term[num]];
      return num + 1;
    }

    /** load_index: one cursor for every token that has postings. */
    method LoadIndex(input: Input)
      requires Ready() && termNum == 0
      modifies this`termNum, term
      ensures termNum <= BS_MAX_TERM_NUM && CursorsOf(termNum, FirstTokens(input.token))
    {
      hide IndexOk, Loaded, Runs, CursorsValid;
      NothingLoaded(index.term, index.index, sign64);
      var num: nat := 0;
      var i := 0;
      assert term[..0] == [] && input.token[..0] == [];
      while i < BS_MAX_TERM_NUM && i < |input.token|
        invariant num <= i <= |FirstTokens(input.token)|
        invariant CursorsOf(num, input.token[..i])
      {
        assert input.token[..i + 1] == input.token[..i] + [input.token[i]];
        num := LoadToken(input.token[i], num, input.token[..i]);
        i := i + 1;
      }
      assert input.token[..i] == FirstTokens(input.token);
      termNum := num;
    }

    /** The pushes before the loop of _recall. */
    method PushAll()
      requires Ready() && termNum <= BS_MAX_TERM_NUM && CursorsValid(index.index, Terms())
      requires indexHeap.data == [] && forall t | 0 <= t < termNum :: term[t].left > 0
      modifies indexHeap
      ensures HeapValid(index.index, Terms(), indexHeap.data)
    {
      var key := Keys(index.index, term[..termNum]);
      for i := 0 to termNum
        invariant CursorHeap.IsHeap(indexHeap.data, key)
        invariant forall t: nat :: multiset(indexHeap.data)[t] == if t < i then 1 else 0
      {
        indexHeap.Push(i, key);
      }
    }

    /** The end of a round of the loop: the popped cursor moves on and returns to the heap, unless
        it is exhausted. */
    method Advance(t: nat, ghost before: seq<nat>)
      requires termNum <= term.Length && t < termNum && term[t].left > 0
      requires HeapValid(index.index, Terms(), before)
      requires multiset(indexHeap.data) == multiset(before) - multiset{t}
      requires CursorHeap.IsHeap(indexHeap.data, Keys(index.index, Terms()))
      modifies term, indexHeap
      ensures Terms() == old(Terms())[t := Stepped(old(term[t]))]
      ensures HeapValid(index.index, Terms(), indexHeap.data)
    {
      SteppedRuns(index.index, Terms(), t);
      SteppedHeap(index.index, Terms(), before, indexHeap.data, t);
      ghost var next := Terms()[t := Stepped(term[t])];
      term[t] := term[t].(left := term[t].left - 1);
      if term[t].left != 0 {
        term[t] := term[t].(index := term[t].index + 1);
        assert Terms() == next;
        indexHeap.Push(t, Keys(index.index, term[..termNum]));
      } else {
        assert Terms() == next;
      }
    }

    /** One round of the loop of _recall. */
    method Round(input: Input, lastFilt: nat, lastValid: nat,
                 ghost ls: seq<seq<Posting>>, ghost done: seq<seq<Posting>>, ghost bound: nat)
      returns (lastFilt': nat, lastValid': nat, ghost done': seq<seq<Posting>>, ghost bound': nat)
      requires Ready() && Ascending(tagFiltId) && termNum <= BS_MAX_TERM_NUM && indexHeap.data != []
      requires AllDescending(ls) && |obj| < MAX_RECALL_NUM
      requires Merging(index.index, ls, Terms(), indexHeap.data, done, bound, Keep(input), Namer(index.brief), obj)
      requires MemoOk(Keep(input), bound, lastFilt, lastValid)
      modifies this`obj, term, indexHeap
      ensures Merging(index.index, ls, Terms(), indexHeap.data, done', bound', Keep(input), Namer(index.brief), obj)
      ensures MemoOk(Keep(input), bound', lastFilt', lastValid')
      ensures Capped(ls, obj, bound')
      ensures Ahead(index.index, Terms()) < old(Ahead(index.index, Terms()))
    {
      hide AllDescending, Cut, Frontier, Collected, Total, Runs, FromOneList, Contribution, Advanced;
      hide Loaded, Keeper, Namer;
      ghost var keep, name, before := Keep(input), Namer(index.brief), indexHeap.data;
      KeptHasBrief(index.brief, input.condition.numericFilter, tagFiltId);
      var t := indexHeap.Pop(Keys(index.index, term[..termNum]));
      MergeStep(index.index, ls, Terms(), before, t, done, bound, keep, name, obj);
      done' := Advanced(done, Runs(index.index, Terms()), t);
      var p := index.index[term[t].index];
      bound' := p.objId;
      MemoVerdict(keep, bound, lastFilt, lastValid, p.objId);
      lastFilt', lastValid' := lastFilt, lastValid;
      if lastFilt != p.objId {
        var drop := false;
        if lastValid != p.objId {
          drop := Filt(p.objId, input);
        }
        if drop {
          lastFilt' := p.objId;
        } else {
          lastValid' := p.objId;
          AddObj(p);
        }
      }
      Advance(t, before);
    }

    /** The lists the query merges. */
    ghost function Lists(input: Input): seq<seq<Posting>>
      reads this, index
    {
      Loaded(index.term, index.index, sign64, FirstTokens(input.token))
    }

    /** The loop of _recall. */
    method MergeAll(input: Input)
      requires Ready() && Ascending(tagFiltId) && termNum <= BS_MAX_TERM_NUM && obj == []
      requires HeapValid(index.index, Terms(), indexHeap.data) && AllDescending(Runs(index.index, Terms()))
      modifies this`obj, term, indexHeap
      ensures IsRecall(old(Runs(index.index, Terms())), Keep(input), Namer(index.brief), obj)
    {
      ghost var ls := Runs(index.index, Terms());
      var lastFilt, lastValid := NO_OBJ, NO_OBJ;
      ghost var bound := NO_OBJ;
      ghost var keep, name := Keep(input), Namer(index.brief);
      ghost var done := MergeStart(index.index, Terms(), indexHeap.data, keep, name);
      KeptHasBrief(index.brief, input.condition.numericFilter, tagFiltId);
      hide Merging, AllDescending, Runs, FromOneList, Keeper, Namer, HeapValid, Ahead, Weight;
      hide IndexOk, Ascending, IsRecall;
      while indexHeap.data != [] && |obj| < MAX_RECALL_NUM
        invariant Merging(index.index, ls, Terms(), indexHeap.data, done, bound, keep, name, obj)
        invariant MemoOk(keep, bound, lastFilt, lastValid) && Capped(ls, obj, bound)
        decreases Ahead(index.index, Terms())
      {
        lastFilt, lastValid, done, bound := Round(input, lastFilt, lastValid, ls, done, bound);
      }
      MergeEnd(index.index, ls, Terms(), indexHeap.data, done, bound, keep, name, obj);
    }

    /** _recall. */
    method Recall(input: Input) returns (ghost recalled: seq<Obj>)
      requires Ready() && Ascending(tagFiltId) && termNum == 0 && obj == [] && indexHeap.data == []
      modifies this`obj, this`termNum, term, indexHeap
      ensures tagFiltId == old(tagFiltId)
      ensures IsRecall(Lists(input), Keep(input), Namer(index.brief), recalled)
      ensures obj == Sorting.Sort(recalled, Heavier)
    {
      LoadIndex(input);
      LoadedDescending(index.term, index.index, index.brief, sign64, FirstTokens(input.token));
      if termNum == 0 {
        recalled := [];
        NoLists(Keep(input), Namer(index.brief));
        return;
      }
      PushAll();
      MergeAll(input);
      recalled := obj;
      obj := Sorting.Sort(obj, Heavier);
    }

    /** basic_search, between pinning the index and letting it go: the ids of the recalled documents,
        in the order of their weights, and no error. */
    method BasicSearch(input: Input) returns (errNo: int, id: seq<int>, ghost recalled: seq<Obj>)
      requires Ready()
      modifies this, term, indexHeap
      ensures multiset(tagFiltId) == multiset(KnownTags(input.condition.tagFilter, tagData))
      ensures IsRecall(Lists(input), Keep(input), Namer(index.brief), recalled)
      ensures errNo == OK && id == Ids(Sorting.Sort(recalled, Heavier))
    {
      hide IsRecall, Loaded, Keeper, Namer, KnownTags, IndexOk, Ascending, FirstTokens;
      Prepare(input);
      recalled := Recall(input);
      errNo, id := CopyResult();
    }

    /** _copy_result. */
    method CopyResult() returns (errNo: int, id: seq<int>)
      ensures errNo == OK && id == Ids(obj)
      ensures |id| == |obj| && forall k | 0 <= k < |obj| :: id[k] == obj[k].id
    {
      id := [];
      for i := 0 to |obj|
        invariant id == Ids(obj[..i])
      {
        id := id + [obj[i].id];
      }
      assert obj[..|obj|] == obj;
      errNo := OK;
    }
  }
}
