/** The double-buffered index switch (se/bs/index_manager.cpp) as a state machine. Searchers pin and
    release an index in atomic steps; the one updater thread runs `update` in four steps that
    interleave with them. */
module IndexManager {
  import opened IndexTypes

  const VERSION_NUM: nat := 2

  /** An `IndexData` object: still being filled (or abandoned by a failed load), or loaded. */
  datatype Content = Partial | Complete(index: int)

  /** `index_data_t`; `data` is a pointer into the heap of index objects. */
  datatype Slot = Slot(data: Option<nat>, ref: int, timestamp: int)

  /** What a searcher holds between get_index_data and unref_index_data. */
  datatype Pin = Pin(version: nat, data: Option<nat>)

  /** Where the updater stands: past the checks of `update`, loading, or about to publish. */
  datatype Updater =
    | Idle
    | Checked(version: nat, time: int)
    | Loading(version: nat, time: int)
    | Ready(version: nat, time: int)

  datatype State = State(
    slots: seq<Slot>,
    latest: nat,
    threads: map<nat, Pin>,
    updater: Updater,
    heap: map<nat, Content>,
    nextObj: nat)

  datatype Action =
    | Get(thread: nat)
    | Unref(thread: nat)
    | Check(mtime: int)
    | PathFails
    | BeginLoad
    | LoadFails
    | LoadDone(index: int)
    | Publish

  const INITIAL: State :=
    State([Slot(None, 0, 0), Slot(None, 0, 0)], 0, map[], Idle, map[], 0)

  predicate Shaped(s: State) {
    && |s.slots| == VERSION_NUM && s.latest < VERSION_NUM
    && (s.updater != Idle ==> s.updater.version < VERSION_NUM)
    && (forall t | t in s.threads :: s.threads[t].version < VERSION_NUM)
  }

  /** get_index_data asserts that the thread holds nothing; unref_index_data needs it to hold something. */
  predicate Enabled(s: State, a: Action)
    requires Shaped(s)
  {
    match a
    case Get(t) => t !in s.threads
    case Unref(t) => t in s.threads
    case Check(_) => s.updater == Idle
    case PathFails => s.updater.Checked?
    case BeginLoad => s.updater.Checked?
    case LoadFails => s.updater.Loading?
    case LoadDone(_) => s.updater.Loading?
    case Publish => s.updater.Ready?
  }

  function AddRef(s: State, v: nat, delta: int): seq<Slot>
    requires Shaped(s) && v < VERSION_NUM
  {
    s.slots[v := s.slots[v].(ref := s.slots[v].ref + delta)]
  }

  /** Pins version v for thread t. */
  function PinAt(s: State, t: nat, v: nat): State
    requires Shaped(s) && v < VERSION_NUM
  {
    s.(slots := AddRef(s, v, 1), threads := s.threads[t := Pin(v, s.slots[v].data)])
  }

  function Step(s: State, a: Action): State
    requires Shaped(s) && Enabled(s, a)
  {
    match a
    case Get(t) =>
      PinAt(s, t, s.latest)
    case Unref(t) =>
      s.(slots := AddRef(s, s.threads[t].version, -1), threads := s.threads - {t})
    case Check(mtime) =>
      var version := (s.latest + 1) % VERSION_NUM;
      if s.slots[s.latest].timestamp >= mtime || s.slots[version].ref != 0 then s
      else s.(updater := Checked(version, mtime))
    case PathFails =>
      s.(updater := Idle)
    case BeginLoad =>
      var v := s.updater.version;
      var kept := if s.slots[v].data.Some? then s.heap - {s.slots[v].data.value} else s.heap;
      s.(slots := s.slots[v := s.slots[v].(data := Some(s.nextObj))], heap := kept[s.nextObj := Partial],
         nextObj := s.nextObj + 1, updater := Loading(v, s.updater.time))
    case LoadFails =>
      s.(updater := Idle)
    case LoadDone(index) =>
      var data := s.slots[s.updater.version].data;
      s.(heap := if data.Some? then s.heap[data.value := Complete(index)] else s.heap,
         updater := Ready(s.updater.version, s.updater.time))
    case Publish =>
      var v := s.updater.version;
      s.(slots := s.slots[v := s.slots[v].(ref := 0, timestamp := s.updater.time)], latest := v, updater := Idle)
  }

  // ---- the invariant ---------------------------------------------------------------------

  function PinnedTo(threads: map<nat, Pin>, v: nat): set<nat> {
    set t | t in threads && threads[t].version == v
  }

  /** Each slot counts the threads pinned to it. */
  predicate RefsCount(s: State) {
    forall v | 0 <= v < |s.slots| :: s.slots[v].ref == |PinnedTo(s.threads, v)|
  }

  predicate IsComplete(s: State, data: Option<nat>) {
    data.Some? ==> data.value in s.heap && s.heap[data.value].Complete?
  }

  /** What a thread holds is what its slot still holds: neither replaced, nor deleted, nor half loaded. */
  predicate PinsHold(s: State)
    requires Shaped(s)
  {
    forall t | t in s.threads ::
      s.threads[t].data == s.slots[s.threads[t].version].data && IsComplete(s, s.threads[t].data)
  }

  /** The slots point at distinct live objects, and nothing else is alive. */
  predicate HeapIsSlots(s: State) {
    && (forall p | p in s.heap :: p < s.nextObj && exists v | 0 <= v < |s.slots| :: s.slots[v].data == Some(p))
    && (forall v | 0 <= v < |s.slots| && s.slots[v].data.Some? :: s.slots[v].data.value in s.heap)
    && (forall v, w | 0 <= v < w < |s.slots| && s.slots[v].data.Some? :: s.slots[v].data != s.slots[w].data)
  }

  /** The published slot is loaded; nothing is published before the first index is. */
  predicate PublishedOk(s: State)
    requires Shaped(s)
  {
    var slot := s.slots[s.latest];
    IsComplete(s, slot.data) && slot.timestamp >= 0 && (slot.timestamp > 0 <==> slot.data.Some?)
  }

  /** The slot under work is the unpublished one, nobody is pinned to it, and the index is newer. */
  predicate UpdaterOk(s: State)
    requires Shaped(s)
  {
    s.updater != Idle ==>
      && s.updater.version != s.latest
      && s.slots[s.updater.version].ref == 0
      && s.updater.time > s.slots[s.latest].timestamp
      && (s.updater.Loading? || s.updater.Ready? ==> s.slots[s.updater.version].data.Some?)
      && (s.updater.Ready? ==> IsComplete(s, s.slots[s.updater.version].data))
  }

  predicate Inv(s: State) {
    Shaped(s) && RefsCount(s) && PinsHold(s) && HeapIsSlots(s) && PublishedOk(s) && UpdaterOk(s)
  }

  lemma NobodyPinned(s: State, v: nat, t: nat)
    requires Shaped(s) && RefsCount(s) && v < VERSION_NUM && s.slots[v].ref == 0 && t in s.threads
    ensures s.threads[t].version != v
  {
    assert |PinnedTo(s.threads, v)| == 0;
    assert t !in PinnedTo(s.threads, v);
  }

  lemma PinRefs(s: State, t: nat, v: nat)
    requires Shaped(s) && RefsCount(s) && t !in s.threads && v < VERSION_NUM
    ensures Shaped(PinAt(s, t, v)) && RefsCount(PinAt(s, t, v))
  {
    hide PinnedTo;
    forall w | 0 <= w < VERSION_NUM ensures PinAt(s, t, v).slots[w].ref == |PinnedTo(PinAt(s, t, v).threads, w)| {
      PinnedMore(s.threads, t, Pin(v, s.slots[v].data), w);
    }
  }

  lemma PinnedMore(threads: map<nat, Pin>, t: nat, pin: Pin, v: nat)
    requires t !in threads
    ensures |PinnedTo(threads[t := pin], v)| == |PinnedTo(threads, v)| + if pin.version == v then 1 else 0
  {
    var more := PinnedTo(threads[t := pin], v);
    if pin.version == v {
      assert more == PinnedTo(threads, v) + {t};
    } else {
      assert more == PinnedTo(threads, v);
    }
  }

  lemma UnrefRefs(s: State, t: nat)
    requires Shaped(s) && RefsCount(s) && t in s.threads
    ensures RefsCount(Step(s, Unref(t)))
  {
    hide PinnedTo;
    var s' := Step(s, Unref(t));
    forall w | 0 <= w < VERSION_NUM ensures s'.slots[w].ref == |PinnedTo(s'.threads, w)| {
      PinnedMore(s'.threads, t, s.threads[t], w);
      assert s'.threads[t := s.threads[t]] == s.threads;
    }
  }

  lemma BeginLoadInv(s: State)
    requires Inv(s) && Enabled(s, BeginLoad)
    ensures Inv(Step(s, BeginLoad))
  {
    hide PinnedTo, RefsCount, PinsHold, HeapIsSlots;
    BeginLoadPins(s);
    BeginLoadHeap(s);
    RefsSame(s, Step(s, BeginLoad));
  }

  lemma RefsSame(s: State, s': State)
    requires RefsCount(s) && |s'.slots| == |s.slots| && s'.threads == s.threads
    requires forall v | 0 <= v < |s.slots| :: s'.slots[v].ref == s.slots[v].ref
    ensures RefsCount(s')
  {
    hide PinnedTo;
  }

  lemma BeginLoadPins(s: State)
    requires Shaped(s) && RefsCount(s) && PinsHold(s) && HeapIsSlots(s) && UpdaterOk(s) && Enabled(s, BeginLoad)
    ensures PinsHold(Step(s, BeginLoad))
  {
    hide RefsCount;
    forall t | t in s.threads ensures s.threads[t].version != s.updater.version {
      NobodyPinned(s, s.updater.version, t);
    }
  }

  lemma BeginLoadHeap(s: State)
    requires Shaped(s) && HeapIsSlots(s) && Enabled(s, BeginLoad)
    ensures HeapIsSlots(Step(s, BeginLoad))
  {
    var s' := Step(s, BeginLoad);
    var v := s.updater.version;
    forall p | p in s'.heap ensures p < s'.nextObj && exists w | 0 <= w < |s'.slots| :: s'.slots[w].data == Some(p) {
      if p == s.nextObj {
        assert s'.slots[v].data == Some(p);
      } else {
        var w :| 0 <= w < |s.slots| && s.slots[w].data == Some(p);
        assert s'.slots[w].data == Some(p);
      }
    }
  }

  lemma LoadDoneInv(s: State, index: int)
    requires Inv(s) && Enabled(s, LoadDone(index))
    ensures Inv(Step(s, LoadDone(index)))
  {
    hide PinnedTo;
    var s' := Step(s, LoadDone(index));
    var v := s.updater.version;
    assert s'.heap.Keys == s.heap.Keys;
  }

  /** Line 121 of index_manager.cpp resets the reference count of the slot it publishes: the count is
      already zero, so no pin is lost. */
  lemma PublishLosesNoRef(s: State)
    requires Inv(s) && Enabled(s, Publish)
    ensures s.slots[s.updater.version].ref == 0 && PinnedTo(s.threads, s.updater.version) == {}
    ensures forall v | 0 <= v < VERSION_NUM :: Step(s, Publish).slots[v].ref == s.slots[v].ref
  {
    assert |PinnedTo(s.threads, s.updater.version)| == 0;
  }

  /** Nothing but counts and pins differs. */
  ghost predicate SameData(s: State, s': State) {
    && Shaped(s) && Shaped(s')
    && s'.heap == s.heap && s'.nextObj == s.nextObj && s'.latest == s.latest && s'.updater == s.updater
    && (forall v | 0 <= v < VERSION_NUM ::
          s'.slots[v].data == s.slots[v].data && s'.slots[v].timestamp == s.slots[v].timestamp)
  }

  lemma SameDataInv(s: State, s': State)
    requires Inv(s) && SameData(s, s') && RefsCount(s') && PinsHold(s')
    requires s.updater != Idle ==> s'.slots[s.updater.version].ref == 0
    ensures Inv(s')
  {
    hide PinnedTo, RefsCount, PinsHold;
    forall p | p in s'.heap ensures exists v | 0 <= v < |s'.slots| :: s'.slots[v].data == Some(p) {
      var v :| 0 <= v < |s.slots| && s.slots[v].data == Some(p);
      assert s'.slots[v].data == Some(p);
    }
  }

  lemma GetInv(s: State, t: nat)
    requires Inv(s) && Enabled(s, Get(t))
    ensures Inv(Step(s, Get(t)))
  {
    hide PinnedTo, HeapIsSlots, RefsCount;
    PinRefs(s, t, s.latest);
    SameDataInv(s, Step(s, Get(t)));
  }

  lemma UnrefInv(s: State, t: nat)
    requires Inv(s) && Enabled(s, Unref(t))
    ensures Inv(Step(s, Unref(t)))
  {
    hide PinnedTo, HeapIsSlots, RefsCount;
    UnrefRefs(s, t);
    if s.updater != Idle {
      NobodyPinned(s, s.updater.version, t);
    }
    SameDataInv(s, Step(s, Unref(t)));
  }

  lemma PublishInv(s: State)
    requires Inv(s) && Enabled(s, Publish)
    ensures Inv(Step(s, Publish))
  {
    PublishLosesNoRef(s);
    hide PinnedTo;
    var s' := Step(s, Publish);
    forall p | p in s'.heap ensures exists v | 0 <= v < |s'.slots| :: s'.slots[v].data == Some(p) {
      var v :| 0 <= v < |s.slots| && s.slots[v].data == Some(p);
      assert s'.slots[v].data == Some(p);
    }
  }

  /** Every step keeps the invariant. */
  lemma StepInv(s: State, a: Action)
    requires Inv(s) && Enabled(s, a)
    ensures Inv(Step(s, a))
  {
    match a
    case Get(t) => GetInv(s, t);
    case Unref(t) => UnrefInv(s, t);
    case Check(mtime) => UpdaterInv(s, a);
    case PathFails => UpdaterInv(s, a);
    case BeginLoad => BeginLoadInv(s);
    case LoadFails => UpdaterInv(s, a);
    case LoadDone(index) => LoadDoneInv(s, index);
    case Publish => PublishInv(s);
  }

  lemma UpdaterInv(s: State, a: Action)
    requires Inv(s) && Enabled(s, a) && (a.Check? || a.PathFails? || a.LoadFails?)
    ensures Inv(Step(s, a))
  {
    hide PinnedTo;
  }

  // ---- runs ------------------------------------------------------------------------------

  /** A sequence whose steps are all enabled where they are taken. */
  predicate Possible(s: State, actions: seq<Action>)
    decreases |actions|
  {
    Shaped(s) &&
    (actions == [] || (Enabled(s, actions[0]) && Possible(Step(s, actions[0]), actions[1..])))
  }

  function Final(s: State, actions: seq<Action>): (e: State)
    requires Possible(s, actions)
    ensures Shaped(e)
    decreases |actions|
  {
    if actions == [] then s else Final(Step(s, actions[0]), actions[1..])
  }

  lemma InitialInv()
    ensures Inv(INITIAL)
  {
    assert PinnedTo(INITIAL.threads, 0) == {} && PinnedTo(INITIAL.threads, 1) == {};
  }

  /** The invariant holds at every point of every interleaving of searches and updates. */
  lemma {:induction false} RunKeepsInv(s: State, actions: seq<Action>, k: nat)
    requires Inv(s) && Possible(s, actions) && k <= |actions|
    ensures Possible(s, actions[..k]) && Inv(Final(s, actions[..k]))
    decreases |actions|
  {
    hide Inv;
    Reaches(s);
    if k > 0 {
      StepInv(s, actions[0]);
      RunKeepsInv(Step(s, actions[0]), actions[1..], k - 1);
      assert actions[..k][1..] == actions[1..][..k - 1];
    }
  }

  lemma Reaches(s: State)
    requires Inv(s)
    ensures Shaped(s) && Possible(s, []) && Final(s, []) == s
  {
  }

  lemma StepKeepsPin(s: State, a: Action, t: nat)
    requires Inv(s) && Enabled(s, a) && t in s.threads && a != Unref(t)
    ensures t in Step(s, a).threads && Step(s, a).threads[t] == s.threads[t]
    ensures var p := s.threads[t].data;
      p.Some? ==> p.value in Step(s, a).heap && Step(s, a).heap[p.value] == s.heap[p.value]
  {
    if a.BeginLoad? || a.LoadDone? {
      NobodyPinned(s, s.updater.version, t);
    }
  }

  /** From get_index_data to unref_index_data a search reads one fixed index: whatever happens in
      between, it keeps its version, and the object it points at is neither deleted nor changed. */
  lemma {:induction false} SearchReadsOneIndex(s: State, actions: seq<Action>, t: nat)
    requires Inv(s) && Possible(s, actions) && t in s.threads && Unref(t) !in actions
    ensures var e := Final(s, actions);
      && t in e.threads && e.threads[t] == s.threads[t]
      && var p := s.threads[t].data;
      && (p.Some? ==> p.value in e.heap && e.heap[p.value] == s.heap[p.value] && e.heap[p.value].Complete?)
    decreases |actions|
  {
    if actions != [] {
      assert actions[0] in actions && forall a | a in actions[1..] :: a in actions;
      StepInv(s, actions[0]);
      StepKeepsPin(s, actions[0], t);
      SearchReadsOneIndex(Step(s, actions[0]), actions[1..], t);
    }
  }

  /** get_index_data hands out the published index; before the first publication, and only then, it
      hands out nothing. */
  lemma GetReadsPublished(s: State, t: nat)
    requires Inv(s) && Enabled(s, Get(t))
    ensures var pin := Step(s, Get(t)).threads[t];
      && pin == Pin(s.latest, s.slots[s.latest].data)
      && (pin.data == None <==> s.slots[s.latest].timestamp == 0)
      && (pin.data.Some? ==> s.heap[pin.data.value].Complete?)
  {
  }

  /** From _prepare to _clean: the search pins what is published when it starts, still finds it unchanged
      when it ends, and releasing it takes back exactly its own count. */
  lemma PrepareToClean(s: State, actions: seq<Action>, t: nat)
    requires Inv(s) && Enabled(s, Get(t)) && Possible(Step(s, Get(t)), actions) && Unref(t) !in actions
    ensures var e := Final(Step(s, Get(t)), actions);
      && Enabled(e, Unref(t)) && e.threads[t] == Pin(s.latest, s.slots[s.latest].data)
      && (var p := e.threads[t].data;
          p.Some? ==> p.value in e.heap && e.heap[p.value] == s.heap[p.value] && e.heap[p.value].Complete?)
      && var done := Step(e, Unref(t));
      && done.threads == e.threads - {t}
      && forall v | 0 <= v < VERSION_NUM :: done.slots[v].ref == e.slots[v].ref - if v == s.latest then 1 else 0
  {
    hide RefsCount, PinsHold, HeapIsSlots;
    StepInv(s, Get(t));
    SearchReadsOneIndex(Step(s, Get(t)), actions, t);
    RunKeepsInv(Step(s, Get(t)), actions, |actions|);
    assert actions[..|actions|] == actions;
  }

  function Published(s: State): int
    requires Shaped(s)
  {
    s.slots[s.latest].timestamp
  }

  /** Publications only move forward in time, so once an index is published every later search has one. */
  lemma {:induction false} PublishedForward(s: State, actions: seq<Action>)
    requires Inv(s) && Possible(s, actions)
    ensures Published(Final(s, actions)) >= Published(s)
    ensures Published(s) > 0 ==> Final(s, actions).slots[Final(s, actions).latest].data.Some?
    decreases |actions|
  {
    hide Step, RefsCount, PinsHold, HeapIsSlots;
    if actions != [] {
      StepInv(s, actions[0]);
      StepForward(s, actions[0]);
      PublishedForward(Step(s, actions[0]), actions[1..]);
    }
  }

  lemma StepForward(s: State, a: Action)
    requires Inv(s) && Enabled(s, a) && Inv(Step(s, a))
    ensures Published(Step(s, a)) >= Published(s)
  {
    hide RefsCount, PinsHold, HeapIsSlots;
  }

  /** `update` gets past its checks exactly when the file is newer and nobody searches the old slot. It then goes
      on with the other slot and the time of the file; otherwise it changes nothing. */
  lemma UpdateProceeds(s: State, mtime: int)
    requires Inv(s) && s.updater == Idle
    ensures Step(s, Check(mtime)) ==
      if mtime > Published(s) && PinnedTo(s.threads, 1 - s.latest) == {}
      then s.(updater := Checked(1 - s.latest, mtime)) else s
  {
    var other := 1 - s.latest;
    assert s.slots[other].ref == |PinnedTo(s.threads, other)|;
    assert PinnedTo(s.threads, other) == {} <==> |PinnedTo(s.threads, other)| == 0;
  }

  /** From there, loading and publishing make the new index the one later searches get. */
  lemma UpdatePublishes(s: State, index: int)
    requires Inv(s) && s.updater.Checked?
    ensures var run := [BeginLoad, LoadDone(index), Publish];
      && Possible(s, run)
      && var e := Final(s, run);
      && e.latest == s.updater.version && Published(e) == s.updater.time
      && e.slots[e.latest].data.Some? && e.slots[e.latest].data.value in e.heap
      && e.heap[e.slots[e.latest].data.value] == Complete(index)
  {
    hide PinnedTo, RefsCount, PinsHold, HeapIsSlots;
    StepInv(s, BeginLoad);
    var s1 := Step(s, BeginLoad);
    StepInv(s1, LoadDone(index));
    var s2 := Step(s1, LoadDone(index));
    StepInv(s2, Publish);
    var s3 := Step(s2, Publish);
    assert Possible(s3, []) && Final(s3, []) == s3;
    ConsRun(s2, Publish, []);
    ConsRun(s1, LoadDone(index), [Publish]);
    ConsRun(s, BeginLoad, [LoadDone(index), Publish]);
    assert [Publish] + [] == [Publish] && [LoadDone(index)] + [Publish] == [LoadDone(index), Publish];
    assert [BeginLoad] + [LoadDone(index), Publish] == [BeginLoad, LoadDone(index), Publish];
  }

  lemma ConsRun(s: State, a: Action, rest: seq<Action>)
    requires Shaped(s) && Enabled(s, a) && Possible(Step(s, a), rest)
    ensures Possible(s, [a] + rest) && Final(s, [a] + rest) == Final(Step(s, a), rest)
  {
    assert ([a] + rest)[1..] == rest;
  }

  /** A whole update of a newer file while nobody searches the old slot: its index is the one later searches
      get, under the time of the file, in the other slot; the index before it stays where it was. */
  lemma UpdateInstalls(s: State, mtime: int, index: int)
    requires Inv(s) && s.updater == Idle && mtime > Published(s) && PinnedTo(s.threads, 1 - s.latest) == {}
    ensures var run := [Check(mtime), BeginLoad, LoadDone(index), Publish];
      && Possible(s, run)
      && var e := Final(s, run);
      && e.latest == 1 - s.latest && Published(e) == mtime && e.updater == Idle
      && e.slots[e.latest].data.Some? && e.slots[e.latest].data.value in e.heap
      && e.heap[e.slots[e.latest].data.value] == Complete(index)
      && e.slots[s.latest] == s.slots[s.latest] && e.threads == s.threads
  {
    hide PinnedTo, RefsCount, PinsHold, HeapIsSlots;
    UpdateProceeds(s, mtime);
    StepInv(s, Check(mtime));
    var c := Step(s, Check(mtime));
    UpdatePublishes(c, index);
    ConsRun(s, Check(mtime), [BeginLoad, LoadDone(index), Publish]);
    assert [Check(mtime)] + [BeginLoad, LoadDone(index), Publish]
           == [Check(mtime), BeginLoad, LoadDone(index), Publish];
    PublishedElsewhere(c, index);
  }

  lemma PublishedElsewhere(s: State, index: int)
    requires Inv(s) && s.updater.Checked?
    ensures var run := [BeginLoad, LoadDone(index), Publish];
      && Possible(s, run)
      && var e := Final(s, run);
      && e.slots[s.latest] == s.slots[s.latest] && e.threads == s.threads && e.updater == Idle
  {
    hide PinnedTo, RefsCount, PinsHold, HeapIsSlots;
    UpdatePublishes(s, index);
    var run := [BeginLoad, LoadDone(index), Publish];
    var s1 := Step(s, BeginLoad);
    var s2 := Step(s1, LoadDone(index));
    assert run[1..] == [LoadDone(index), Publish] && run[1..][1..] == [Publish] && [Publish][1..] == [];
    assert Final(s, run) == Final(s1, [LoadDone(index), Publish]);
    assert Final(s1, [LoadDone(index), Publish]) == Final(s2, [Publish]);
    assert Final(s2, [Publish]) == Final(Step(s2, Publish), []) == Step(s2, Publish);
  }

  /** A check of a file that is not newer than the published index changes nothing. */
  lemma NothingNew(s: State, mtime: int)
    requires Shaped(s) && s.updater == Idle && mtime <= Published(s)
    ensures Step(s, Check(mtime)) == s
  {
  }

  /** Only a publication changes what is published: until the next one, checks of a file that is no newer
      change nothing, whatever searches and failed updates happen in between. */
  lemma {:induction false} NothingNewUntilPublish(s: State, actions: seq<Action>, mtime: int)
    requires Shaped(s) && Possible(s, actions) && Publish !in actions && mtime <= Published(s)
    ensures var e := Final(s, actions);
      && e.latest == s.latest && Published(e) == Published(s)
      && (e.updater == Idle ==> Step(e, Check(mtime)) == e)
    decreases |actions|
  {
    if actions == [] {
      if s.updater == Idle {
        NothingNew(s, mtime);
      }
    } else {
      assert actions[0] in actions && forall a | a in actions[1..] :: a in actions;
      assert Step(s, actions[0]).latest == s.latest;
      NothingNewUntilPublish(Step(s, actions[0]), actions[1..], mtime);
    }
  }

  /** An update that fails leaves the published index, its time and its slot alone, so a check of the same file
      starts it again. */
  lemma FailureRetries(s: State)
    requires Inv(s) && s.updater.Checked?
    ensures var gone, e := Step(s, PathFails), Step(Step(s, BeginLoad), LoadFails);
      && gone == s.(updater := Idle) && Step(gone, Check(s.updater.time)) == s
      && e.latest == s.latest && e.slots[s.latest] == s.slots[s.latest] && e.threads == s.threads && e.updater == Idle
      && Step(e, Check(s.updater.time)) == e.(updater := s.updater)
  {
    hide PinnedTo, RefsCount, PinsHold, HeapIsSlots;
  }

  // ---- why pinning has to be one step ----------------------------------------------------

  /** A thread that has read the version v earlier and increments its count only now keeps the
      invariant exactly when that slot is not being replaced and does not hold a failed load. */
  lemma LatePinSafe(s: State, t: nat, v: nat)
    requires Inv(s) && t !in s.threads && v < VERSION_NUM
    ensures Inv(PinAt(s, t, v)) <==>
      (s.updater == Idle || s.updater.version != v) && IsComplete(s, s.slots[v].data)
  {
    PinRefs(s, t, v);
    var s' := PinAt(s, t, v);
    hide PinnedTo, RefsCount;
    assert s'.threads[t] == Pin(v, s.slots[v].data) && s'.slots[v].ref == s.slots[v].ref + 1;
    if (s.updater == Idle || s.updater.version != v) && IsComplete(s, s.slots[v].data) {
      SameDataInv(s, s');
    }
  }

  /** One update completes, and the next one passes its checks. */
  const RACE: seq<Action> := [Check(1), BeginLoad, LoadDone(7), Publish, Check(2)]

  lemma RaceState()
    ensures Inv(INITIAL) && Possible(INITIAL, RACE)
    ensures Final(INITIAL, RACE) ==
      State([Slot(None, 0, 0), Slot(Some(0), 0, 1)], 1, map[], Checked(0, 2), map[0 := Complete(7)], 1)
  {
    hide Inv;
    InitialInv();
    var s1 := Step(INITIAL, Check(1));
    assert s1 == INITIAL.(updater := Checked(1, 1));
    var s2 := Step(s1, BeginLoad);
    assert s2 == State([Slot(None, 0, 0), Slot(Some(0), 0, 0)], 0, map[], Loading(1, 1), map[0 := Partial], 1);
    var s3 := Step(s2, LoadDone(7));
    assert s3 == State([Slot(None, 0, 0), Slot(Some(0), 0, 0)], 0, map[], Ready(1, 1), map[0 := Complete(7)], 1);
    var s4 := Step(s3, Publish);
    assert s4 == State([Slot(None, 0, 0), Slot(Some(0), 0, 1)], 1, map[], Idle, map[0 := Complete(7)], 1);
    var s5 := Step(s4, Check(2));
    assert s5 == s4.(updater := Checked(0, 2));
    RunFrom(INITIAL, Check(1), RACE);
    RunFrom(s1, BeginLoad, RACE[1..]);
    RunFrom(s2, LoadDone(7), RACE[2..]);
    RunFrom(s3, Publish, RACE[3..]);
    RunFrom(s4, Check(2), RACE[4..]);
    assert RACE[1..][1..] == RACE[2..] && RACE[2..][1..] == RACE[3..];
    assert RACE[3..][1..] == RACE[4..] && RACE[4..][1..] == [];
    Reaches(s5);
  }

  lemma RunFrom(s: State, a: Action, run: seq<Action>)
    requires Inv(s) && Enabled(s, a) && run != [] && run[0] == a
    ensures Inv(Step(s, a))
    ensures Possible(Step(s, a), run[1..]) ==> Possible(s, run) && Final(s, run) == Final(Step(s, a), run[1..])
  {
    StepInv(s, a);
  }

  /** Such a thread exists: it reads version 0 at the start and counts itself in after that run. */
  lemma GetMustBeAtomic(t: nat)
    ensures Possible(INITIAL, RACE)
    ensures Inv(Final(INITIAL, RACE)) && !Inv(PinAt(Final(INITIAL, RACE), t, INITIAL.latest))
  {
    RaceState();
    RunKeepsInv(INITIAL, RACE, |RACE|);
    assert RACE[..|RACE|] == RACE;
    hide Inv;
    LatePinSafe(Final(INITIAL, RACE), t, 0);
  }
}
