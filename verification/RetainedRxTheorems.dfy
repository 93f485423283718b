/**
 * Safety of the retained-RX registry over every run: what the hardware owns is queued,
 * live mappings are the registered ones, leases are honoured once, numbers never repeat,
 * and legacy RX never overlaps a published registry.
 */
module RetainedRxTheorems {
  import opened Basics
  import opened RetainedRxModel

  // ---- the invariant ---------------------------------------------------------------

  /** A buffer the hardware owns is queued: this holds at every intermediate step, too. */
  ghost predicate HwIsQueued(s: RxState) {
    forall d :: d in s.hw ==> QueuedAt(s.slots, d)
  }

  ghost predicate DistinctEntries(slots: Slots) {
    forall i, j :: 0 <= i < j < |slots| && slots[i].Some? && slots[j].Some? ==>
      slots[i].value.dio != slots[j].value.dio && slots[i].value.id != slots[j].value.id &&
      !Overlap(slots[i].value.layout, slots[j].value.layout)
  }

  /** Every registered buffer has bytes. */
  ghost predicate Nonempty(slots: Slots) {
    forall i :: 0 <= i < |slots| && slots[i].Some? ==> slots[i].value.layout.capacity > 0
  }

  ghost predicate OneBorrowed(slots: Slots) {
    forall i, j :: 0 <= i < j < |slots| && slots[i].Some? && slots[j].Some? ==>
      !(slots[i].value.state == Borrowed && slots[j].value.state == Borrowed)
  }

  ghost predicate DrawnFor(s: RxState, n: nat, use: Serial) {
    1 <= n <= |s.draws| && s.draws[n - 1] == use
  }

  ghost predicate Numbered(s: RxState) {
    && |s.draws| == s.serial <= U64_MAX
    && (s.published ==> DrawnFor(s, s.generation, ForGeneration))
    && forall i :: 0 <= i < |s.slots| && s.slots[i].Some? ==>
      DrawnFor(s, s.slots[i].value.id, ForId) && DrawnFor(s, s.slots[i].value.generation, ForGeneration)
  }

  /** The live DMA mappings are the registered ones, and none of them was ever given back. */
  ghost predicate LiveMappings(s: RxState) {
    s.mapped == Mappings(s.slots) && s.undone !! s.mapped
  }

  ghost predicate Admission(s: RxState) {
    s.legacy == |s.calls| <= UINT_MAX && (s.published ==> s.legacy == 0)
  }

  ghost predicate QueuedIsHw(s: RxState) {
    forall i :: 0 <= i < |s.slots| && s.slots[i].Some? && s.slots[i].value.state == Queued ==>
      s.slots[i].value.dio in s.hw
  }

  ghost predicate Inv(s: RxState) {
    && |s.slots| == SLOTS
    && (!s.published ==> forall i :: 0 <= i < SLOTS ==> s.slots[i].None?)
    && HwIsQueued(s) && QueuedIsHw(s)
    && DistinctEntries(s.slots) && OneBorrowed(s.slots) && Nonempty(s.slots)
    && Numbered(s) && LiveMappings(s) && Admission(s)
  }

  lemma InitialInv()
    ensures Inv(Initial())
  {
  }

  // ---- table lemmas ----------------------------------------------------------------

  lemma MappingAt(slots: Slots, i: nat)
    requires i < |slots| && slots[i].Some?
    ensures slots[i].value.dio in Mappings(slots)
  {
  }

  lemma MappingsOfPut(slots: Slots, i: nat, e: Entry)
    requires i < |slots|
    requires slots[i].Some? ==> slots[i].value.dio == e.dio
    ensures Mappings(slots[i := Some(e)]) == Mappings(slots) + {e.dio}
  {
    var put := slots[i := Some(e)];
    forall d | d in Mappings(slots) + {e.dio} ensures d in Mappings(put) {
      if d == e.dio {
        MappingAt(put, i);
      } else {
        var k :| 0 <= k < |slots| && slots[k].Some? && slots[k].value.dio == d;
        MappingAt(put, k);
      }
    }
  }

  lemma MappingsOfClear(slots: Slots, i: nat)
    requires i < |slots| && slots[i].Some? && DistinctEntries(slots)
    ensures Mappings(slots[i := None]) == Mappings(slots) - {slots[i].value.dio}
  {
    var clear := slots[i := None];
    forall d | d in Mappings(slots) - {slots[i].value.dio} ensures d in Mappings(clear) {
      var k :| 0 <= k < |slots| && slots[k].Some? && slots[k].value.dio == d;
      MappingAt(clear, k);
    }
  }

  lemma MappingsOfDetach(slots: Slots, hw: set<nat>)
    ensures Mappings(DetachAll(slots, hw)) == Mappings(slots)
  {
    var r := DetachAll(slots, hw);
    forall i | 0 <= i < |slots| && slots[i].Some?
      ensures slots[i].value.dio in Mappings(r) && r[i].Some? && r[i].value.dio in Mappings(slots)
    {
      MappingAt(r, i);
    }
  }

  lemma DetachOneIsAll(slots: Slots, d: nat)
    ensures DetachOne(slots, d) == DetachAll(slots, {d})
  {
  }

  /** Giving buffers back through the release callback keeps the invariant. */
  lemma ReleaseKeeps(s: RxState, gone: set<nat>)
    requires |s.slots| == SLOTS && Inv(s.(hw := s.hw + gone))
    ensures Inv(s.(slots := DetachAll(s.slots, gone), hw := s.hw - gone))
  {
    var t := s.(slots := DetachAll(s.slots, gone), hw := s.hw - gone);
    MappingsOfDetach(s.slots, gone);
    forall d | d in t.hw ensures QueuedAt(t.slots, d) {
      var i :| 0 <= i < SLOTS && s.slots[i].Some? && s.slots[i].value.dio == d && s.slots[i].value.state == Queued;
      assert t.slots[i] == s.slots[i];
    }
  }

  // ---- every step keeps it ---------------------------------------------------------

  lemma PublishKeeps(s: RxState, c: Caller, key: Key, haveMemory: bool, idle: bool)
    requires Inv(s)
    ensures Inv(Publish(s, c, key, haveMemory, idle).s)
  {
  }

  /** Entering a new registration under a fresh mapping. */
  lemma EnterKeeps(s: RxState, i: nat, e: Entry)
    requires Inv(s) && s.published && i < SLOTS && s.slots[i].None? && s.serial < U64_MAX
    requires e == NewEntry(s, e.layout, e.dio) && !OverlapsAny(s.slots, e.layout)
    requires e.dio !in s.mapped && e.dio !in s.undone && e.layout.capacity > 0
    ensures Inv(Draw(s, ForId).(slots := s.slots[i := Some(e)], mapped := s.mapped + {e.dio}, hw := s.hw + {e.dio}))
  {
    var t := Draw(s, ForId).(slots := s.slots[i := Some(e)], mapped := s.mapped + {e.dio}, hw := s.hw + {e.dio});
    MappingsOfPut(s.slots, i, e);
    forall d | d in t.hw ensures QueuedAt(t.slots, d) {
      if d == e.dio {
        assert t.slots[i].value.dio == d;
      } else {
        var k :| 0 <= k < SLOTS && s.slots[k].Some? && s.slots[k].value.dio == d && s.slots[k].value.state == Queued;
        assert t.slots[k] == s.slots[k];
      }
    }
    forall k | 0 <= k < SLOTS && s.slots[k].Some?
      ensures s.slots[k].value.dio != e.dio && s.slots[k].value.id != e.id
      ensures !Overlap(s.slots[k].value.layout, e.layout) && !Overlap(e.layout, s.slots[k].value.layout)
    {
      MappingAt(s.slots, k);
    }
    assert forall n, use :: DrawnFor(s, n, use) ==> DrawnFor(t, n, use);
  }

  lemma InsertKeeps(s: RxState, c: Caller, key: Key, env: InsertEnv)
    requires Inv(s) && FreshMapping(s, env.mapping)
    ensures Inv(Insert(s, c, key, env).s)
  {
    var i := FreeSlot(s.slots, 0);
    if OwnedBy(s, c) && !s.stale && s.serial < U64_MAX && CheckLayout(key.layout) == Success &&
       !OverlapsAny(s.slots, key.layout) && i < SLOTS && env.haveMemory && env.mapping.Mapped? {
      var dio := env.mapping.dio;
      var e := NewEntry(s, key.layout, dio);
      var t := Draw(s, ForId).(slots := s.slots[i := Some(e)], mapped := s.mapped + {dio}, hw := s.hw + {dio});
      EnterKeeps(s, i, e);
      if env.submit != Success {
        if env.unmap == Success {
          UndoneEntryKeeps(s, dio);
        } else {
          ReleaseKeeps(t.(hw := s.hw), {dio});
          DetachOneIsAll(t.slots, dio);
          DetachIsSetState(t.slots, i);
          assert s.hw - {dio} == s.hw;
        }
      }
    }
  }

  lemma UndoneEntryKeeps(s: RxState, dio: nat)
    requires Inv(s) && s.serial < U64_MAX && dio !in s.mapped
    ensures Inv(Draw(s, ForId).(undone := s.undone + {dio}))
  {
    var t := Draw(s, ForId);
    assert forall n, use :: DrawnFor(s, n, use) ==> DrawnFor(t, n, use);
  }

  lemma DetachIsSetState(slots: Slots, i: nat)
    requires i < |slots| && slots[i].Some? && DistinctEntries(slots)
    ensures DetachOne(slots, slots[i].value.dio) == SetState(slots, i, Detached)
  {
  }

  /** The entry behind a mapping, with a new state and sequence. */
  lemma RestateKeeps(s: RxState, i: nat, e: Entry, hw: set<nat>)
    requires Inv(s) && i < SLOTS && s.slots[i].Some?
    requires e == s.slots[i].value.(state := e.state, sequence := e.sequence)
    requires hw == if e.state == Queued then s.hw + {e.dio} else s.hw - {e.dio}
    requires e.state == Borrowed ==> !SomeBorrowed(s.slots)
    ensures Inv(s.(slots := s.slots[i := Some(e)], hw := hw))
  {
    var t := s.(slots := s.slots[i := Some(e)], hw := hw);
    MappingsOfPut(s.slots, i, e);
    MappingAt(s.slots, i);
    assert Mappings(t.slots) == s.mapped;
    RestateOwned(s, i, e, hw);
  }

  lemma RestateOwned(s: RxState, i: nat, e: Entry, hw: set<nat>)
    requires |s.slots| == SLOTS && HwIsQueued(s) && DistinctEntries(s.slots) && i < SLOTS && s.slots[i].Some?
    requires e == s.slots[i].value.(state := e.state, sequence := e.sequence)
    requires hw == if e.state == Queued then s.hw + {e.dio} else s.hw - {e.dio}
    ensures HwIsQueued(s.(slots := s.slots[i := Some(e)], hw := hw))
  {
    var t := s.(slots := s.slots[i := Some(e)], hw := hw);
    forall d | d in t.hw ensures QueuedAt(t.slots, d) {
      if d == e.dio {
        assert t.slots[i].value.dio == d;
      } else {
        var k :| 0 <= k < SLOTS && s.slots[k].Some? && s.slots[k].value.dio == d && s.slots[k].value.state == Queued;
        assert t.slots[k] == s.slots[k];
      }
    }
  }

  lemma FetchKeeps(s: RxState, c: Caller, deq: Dequeue, ack: AckEnv)
    requires Inv(s) && DequeueContract(s, deq)
    ensures Inv(Fetch(s, c, deq, ack).s)
  {
    if OwnedBy(s, c) && !s.stale && !SomeBorrowed(s.slots) {
      match deq
      case Nothing(status) =>
      case Dropped(dio, status) =>
        assert s.hw + {dio} == s.hw;
        ReleaseKeeps(s, {dio});
        DetachOneIsAll(s.slots, dio);
      case Completed(dio, epoch, formatChange) =>
        FetchCompletedKeeps(s, dio, epoch, formatChange, ack);
    }
  }

  /** A buffer on its way through dequeue, in no queue, with its registration still queued. */
  lemma InTransitKeeps(s: RxState, d: nat)
    requires Inv(s) && d in s.hw
    ensures Inv(Release(s.(hw := s.hw - {d}), d))
  {
    var t := s.(hw := s.hw - {d});
    assert t.hw - {d} == t.hw && s.(hw := s.hw + {d}) == s;
    assert t.(hw := t.hw + {d}) == s;
    ReleaseKeeps(t, {d});
    DetachOneIsAll(t.slots, d);
  }

  lemma AckKeeps(s: RxState, d: nat, epoch: nat, ack: AckEnv)
    requires Inv(s) && d in s.hw
    ensures Inv(AckFormat(s.(hw := s.hw - {d}), d, epoch, ack).s)
  {
    InTransitKeeps(s, d);
    assert s.hw - {d} + {d} == s.hw;
  }

  lemma FetchCompletedKeeps(s: RxState, d: nat, epoch: nat, formatChange: bool, ack: AckEnv)
    requires Inv(s) && d in s.hw && !SomeBorrowed(s.slots)
    ensures Inv(FetchCompleted(s, d, epoch, formatChange, ack).s)
  {
    InTransitKeeps(s, d);
    if exists i :: EntryAt(s.slots, i, d) {
      var i :| EntryAt(s.slots, i, d);
      var e := s.slots[i].value;
      assert forall k :: EntryAt(s.slots, k, d) ==> k == i;
      FetchEntryKeeps(s, i, d, epoch, formatChange, ack);
    }
  }

  lemma FetchEntryKeeps(s: RxState, i: nat, d: nat, epoch: nat, formatChange: bool, ack: AckEnv)
    requires Inv(s) && d in s.hw && !SomeBorrowed(s.slots) && EntryAt(s.slots, i, d)
    ensures Inv(FetchEntry(s.(hw := s.hw - {d}), i, d, epoch, formatChange, ack).s)
  {
    var e := s.slots[i].value;
    if e.state != Queued || epoch != e.epoch {
      InTransitKeeps(s, d);
    } else if formatChange {
      AckKeeps(s, d, epoch, ack);
    } else if e.sequence == U64_MAX {
      RestateKeeps(s, i, e.(state := Detached), s.hw - {d});
    } else {
      RestateKeeps(s, i, e.(state := Borrowed, sequence := e.sequence + 1), s.hw - {d});
    }
  }

  lemma RetireKeeps(s: RxState, c: Caller, key: Key, env: ReturnEnv)
    requires Inv(s)
    ensures Inv(Retire(s, c, key, env).s)
  {
    if OwnedBy(s, c) && exists i :: IdAt(s.slots, i, key.id) {
      var i :| IdAt(s.slots, i, key.id);
      assert forall k :: IdAt(s.slots, k, key.id) ==> k == i;
      var e := s.slots[i].value;
      if Honours(e, key) {
        ClearKeeps(s, i);
      }
    }
  }

  /** Removing a registration that is not queued and undoing its mapping. */
  lemma ClearKeeps(s: RxState, i: nat)
    requires Inv(s) && i < SLOTS && s.slots[i].Some? && s.slots[i].value.state != Queued
    ensures var d := s.slots[i].value.dio;
      d in s.mapped && d !in s.hw &&
      Inv(s.(slots := s.slots[i := None], mapped := s.mapped - {d}, undone := s.undone + {d}))
  {
    var d := s.slots[i].value.dio;
    var t := s.(slots := s.slots[i := None], mapped := s.mapped - {d}, undone := s.undone + {d});
    MappingsOfClear(s.slots, i);
    MappingAt(s.slots, i);
    forall x | x in s.hw ensures QueuedAt(t.slots, x) && x != d {
      var k :| 0 <= k < SLOTS && s.slots[k].Some? && s.slots[k].value.dio == x && s.slots[k].value.state == Queued;
      assert t.slots[k] == s.slots[k];
    }
  }

  lemma RepostKeeps(s: RxState, c: Caller, key: Key, env: ReturnEnv)
    requires Inv(s)
    ensures Inv(Repost(s, c, key, env).s)
  {
    if OwnedBy(s, c) && exists i :: IdAt(s.slots, i, key.id) {
      var i :| IdAt(s.slots, i, key.id);
      assert forall k :: IdAt(s.slots, k, key.id) ==> k == i;
      var e := s.slots[i].value;
      if Honours(e, key) {
        RestateKeeps(s, i, e.(state := Queued), s.hw + {e.dio});
      }
    }
  }

  lemma StopKeeps(s: RxState, stopped: bool, epochMoved: bool)
    requires Inv(s)
    ensures Inv(StopCapture(s, stopped, epochMoved))
    ensures stopped ==> StopCapture(s, stopped, epochMoved).hw == {}
  {
    assert s.hw + s.hw == s.hw && s.hw - s.hw == {};
    assert s.(hw := s.hw + s.hw) == s;
    ReleaseKeeps(s, s.hw);
  }

  lemma {:induction false} UnmapKeeps(s: RxState, i: nat, refuses: set<nat>)
    requires Inv(s) && i <= SLOTS && !AnyQueued(s.slots)
    requires forall k :: 0 <= k < i ==> s.slots[k].None?
    ensures var o := UnmapFrom(s, i, refuses);
      Inv(o.s) && !AnyQueued(o.s.slots) && o.s.published == s.published &&
      (o.status == Success ==> forall k :: 0 <= k < SLOTS ==> o.s.slots[k].None?)
    decreases SLOTS - i
  {
    if i < SLOTS {
      if s.slots[i].None? {
        UnmapKeeps(s, i + 1, refuses);
      } else if s.slots[i].value.dio !in refuses {
        ClearKeeps(s, i);
        var d := s.slots[i].value.dio;
        UnmapKeeps(s.(slots := s.slots[i := None], mapped := s.mapped - {d}, undone := s.undone + {d}), i + 1, refuses);
      }
    }
  }

  lemma CleanupKeeps(s: RxState, destroy: bool, refuses: set<nat>)
    requires Inv(s)
    ensures Inv(Cleanup(s, destroy, refuses).s)
  {
    if s.published && !AnyQueued(s.slots) {
      UnmapKeeps(s, 0, refuses);
    }
  }

  lemma LegacyKeeps(s: RxState, call: nat)
    requires Inv(s)
    ensures call !in s.calls ==> Inv(LegacyEnter(s, call))
    ensures call in s.calls ==> s.legacy > 0 && Inv(LegacyLeave(s, call))
  {
    if call in s.calls {
      assert |s.calls - {call}| == |s.calls| - 1;
    }
  }

  lemma StepKeeps(s: RxState, e: Event)
    requires Inv(s) && Allowed(s, e)
    ensures Inv(Apply(s, e).s)
  {
    match e
    case LegacyEnterEvent(call) => LegacyKeeps(s, call);
    case LegacyLeaveEvent(call) => LegacyKeeps(s, call);
    case SessionEvent(session) =>
    case PublishEvent(c, key, haveMemory, quiet) => PublishKeeps(s, c, key, haveMemory, quiet);
    case InsertEvent(c, key, env) => InsertKeeps(s, c, key, env);
    case FetchEvent(c, deq, ack) => FetchKeeps(s, c, deq, ack);
    case RepostEvent(c, key, env) => RepostKeeps(s, c, key, env);
    case RetireEvent(c, key, env) => RetireKeeps(s, c, key, env);
    case RetireAllEvent(c, admitted, env) => RetireAllKeeps(s, c, admitted, env);
    case TeardownEvent(env) => TeardownKeeps(s, env);
    case SuspendEvent => SuspendKeeps(s);
    case FlushEvent(discard, flush, env) => FlushKeeps(s, discard, flush, env);
    case QuiesceEvent(kept, refuses) => QuiesceKeeps(s, kept, refuses);
    case PauseIdleEvent(idle) => PauseIdleKeeps(s, idle);
  }

  lemma SuspendKeeps(s: RxState)
    requires Inv(s)
    ensures Inv(Suspend(s))
  {
  }

  lemma PauseIdleKeeps(s: RxState, idle: bool)
    requires Inv(s)
    ensures Inv(PauseIdle(s, idle))
  {
  }

  lemma RetireAllKeeps(s: RxState, c: Caller, admitted: Status, env: StopEnv)
    requires Inv(s)
    ensures Inv(RetireAll(s, c, admitted, env).s)
  {
    StopAllKeeps(s, env, false);
  }

  lemma TeardownKeeps(s: RxState, env: StopEnv)
    requires Inv(s)
    ensures Inv(Teardown(s, env).s)
  {
    StopAllKeeps(s, env, true);
  }

  lemma FlushKeeps(s: RxState, discard: bool, f: FlushEnv, env: StopEnv)
    requires Inv(s)
    ensures Inv(Flush(s, discard, f, env).s)
  {
    var t := StopCapture(s, env.stopped, env.epochMoved);
    StopAllKeeps(s, env, false);
    SuspendKeeps(t);
    SuspendKeeps(Cleanup(t, false, env.refuses).s);
  }

  lemma QuiesceKeeps(s: RxState, kept: bool, refuses: set<nat>)
    requires Inv(s)
    ensures Inv(RetireQuiesced(s, kept, refuses))
  {
    StopAllKeeps(s, StopEnv(true, true, refuses), false);
    SuspendKeeps(Cleanup(StopCapture(s, true, true), false, refuses).s);
  }

  lemma StopAllKeeps(s: RxState, env: StopEnv, destroy: bool)
    requires Inv(s)
    ensures Inv(StopCapture(s, env.stopped, env.epochMoved))
    ensures Inv(Cleanup(StopCapture(s, env.stopped, env.epochMoved), destroy, env.refuses).s)
  {
    StopKeeps(s, env.stopped, env.epochMoved);
    CleanupKeeps(StopCapture(s, env.stopped, env.epochMoved), destroy, env.refuses);
  }

  // ---- leases ----------------------------------------------------------------------

  /** Slots only move on: registrations vanish, appear under new numbers, or are lent anew. */
  ghost predicate MovesOn(s: RxState, t: RxState) {
    && |t.slots| == |s.slots| && s.serial <= t.serial && s.draws <= t.draws
    && (t.published ==>
          t.generation > s.serial || (s.published && t.generation == s.generation && t.owner == s.owner))
    && forall i :: 0 <= i < |t.slots| && t.slots[i].Some? ==>
      var e := t.slots[i].value;
      || e.id > s.serial
      || (s.slots[i].Some? && e == s.slots[i].value.(sequence := e.sequence, state := e.state) &&
          (e.sequence > s.slots[i].value.sequence ||
           (e.sequence == s.slots[i].value.sequence && (e.state == Borrowed ==> s.slots[i].value.state == Borrowed))))
  }

  lemma {:induction false} UnmapMovesOn(s: RxState, i: nat, refuses: set<nat>)
    requires i <= |s.slots|
    ensures MovesOn(s, UnmapFrom(s, i, refuses).s)
    decreases |s.slots| - i
  {
    if i < |s.slots| {
      if s.slots[i].None? {
        UnmapMovesOn(s, i + 1, refuses);
      } else if s.slots[i].value.dio !in refuses {
        var d := s.slots[i].value.dio;
        UnmapMovesOn(s.(slots := s.slots[i := None], mapped := s.mapped - {d}, undone := s.undone + {d}), i + 1, refuses);
      }
    }
  }

  lemma CleanupMovesOn(s: RxState, destroy: bool, refuses: set<nat>)
    ensures MovesOn(s, Cleanup(s, destroy, refuses).s)
  {
    if s.published && !AnyQueued(s.slots) {
      UnmapMovesOn(s, 0, refuses);
    }
  }

  lemma InsertMovesOn(s: RxState, c: Caller, key: Key, env: InsertEnv)
    requires Inv(s)
    ensures MovesOn(s, Insert(s, c, key, env).s)
  {
  }

  lemma FetchCompletedMovesOn(s: RxState, d: nat, epoch: nat, formatChange: bool, ack: AckEnv)
    requires Inv(s)
    ensures MovesOn(s, FetchCompleted(s, d, epoch, formatChange, ack).s)
  {
    var t := s.(hw := s.hw - {d});
    if exists i :: EntryAt(t.slots, i, d) {
      var i :| EntryAt(t.slots, i, d);
      assert forall k :: EntryAt(t.slots, k, d) ==> k == i;
      FetchEntryMovesOn(s, i, d, epoch, formatChange, ack);
    }
  }

  lemma FetchEntryMovesOn(s: RxState, i: nat, d: nat, epoch: nat, formatChange: bool, ack: AckEnv)
    requires Inv(s) && EntryAt(s.slots, i, d)
    ensures MovesOn(s, FetchEntry(s.(hw := s.hw - {d}), i, d, epoch, formatChange, ack).s)
  {
  }

  lemma FetchMovesOn(s: RxState, c: Caller, deq: Dequeue, ack: AckEnv)
    requires Inv(s)
    ensures MovesOn(s, Fetch(s, c, deq, ack).s)
  {
    if deq.Completed? {
      FetchCompletedMovesOn(s, deq.dio, deq.epoch, deq.formatChange, ack);
    }
  }

  lemma RepostMovesOn(s: RxState, c: Caller, key: Key, env: ReturnEnv)
    requires Inv(s)
    ensures MovesOn(s, Repost(s, c, key, env).s)
  {
  }

  lemma RetireMovesOn(s: RxState, c: Caller, key: Key, env: ReturnEnv)
    requires Inv(s)
    ensures MovesOn(s, Retire(s, c, key, env).s)
  {
  }

  lemma StopMovesOn(s: RxState, env: StopEnv, destroy: bool)
    requires Inv(s)
    ensures MovesOn(s, StopCapture(s, env.stopped, env.epochMoved))
    ensures MovesOn(s, Cleanup(StopCapture(s, env.stopped, env.epochMoved), destroy, env.refuses).s)
  {
    CleanupMovesOn(StopCapture(s, env.stopped, env.epochMoved), destroy, env.refuses);
  }

  lemma RetireAllMovesOn(s: RxState, c: Caller, admitted: Status, env: StopEnv)
    requires Inv(s)
    ensures MovesOn(s, RetireAll(s, c, admitted, env).s)
  {
    StopMovesOn(s, env, false);
  }

  lemma TeardownMovesOn(s: RxState, env: StopEnv)
    requires Inv(s)
    ensures MovesOn(s, Teardown(s, env).s)
  {
    StopMovesOn(s, env, true);
  }

  lemma FlushMovesOn(s: RxState, discard: bool, f: FlushEnv, env: StopEnv)
    requires Inv(s)
    ensures MovesOn(s, Flush(s, discard, f, env).s)
  {
    StopMovesOn(s, env, false);
  }

  lemma QuiesceMovesOn(s: RxState, kept: bool, refuses: set<nat>)
    requires Inv(s)
    ensures MovesOn(s, RetireQuiesced(s, kept, refuses))
  {
    StopMovesOn(s, StopEnv(true, true, refuses), false);
  }

  lemma PublishMovesOn(s: RxState, c: Caller, key: Key, haveMemory: bool, idle: bool)
    requires Inv(s)
    ensures MovesOn(s, Publish(s, c, key, haveMemory, idle).s)
  {
  }

  lemma StepMovesOn(s: RxState, e: Event)
    requires Inv(s) && Allowed(s, e)
    ensures MovesOn(s, Apply(s, e).s)
  {
    match e
    case InsertEvent(c, key, env) => InsertMovesOn(s, c, key, env);
    case FetchEvent(c, deq, ack) => FetchMovesOn(s, c, deq, ack);
    case RepostEvent(c, key, env) => RepostMovesOn(s, c, key, env);
    case RetireEvent(c, key, env) => RetireMovesOn(s, c, key, env);
    case PublishEvent(c, key, haveMemory, quiet) => PublishMovesOn(s, c, key, haveMemory, quiet);
    case RetireAllEvent(c, admitted, env) => RetireAllMovesOn(s, c, admitted, env);
    case TeardownEvent(env) => TeardownMovesOn(s, env);
    case FlushEvent(discard, flush, env) => FlushMovesOn(s, discard, flush, env);
    case QuiesceEvent(kept, refuses) => QuiesceMovesOn(s, kept, refuses);
    case _ =>
  }

  /** The lease (id, sequence) was taken and can never be honoured (again). */
  ghost predicate Spent(s: RxState, id: nat, sequence: nat) {
    && id <= s.serial
    && forall i :: IdAt(s.slots, i, id) ==>
      var e := s.slots[i].value;
      e.sequence > sequence || (e.sequence == sequence && e.state != Borrowed)
  }

  /** A repost or retire of that lease that succeeded. */
  ghost predicate Honoured(e: Event, o: Outcome, id: nat, sequence: nat) {
    (e.RepostEvent? || e.RetireEvent?) && e.key.id == id && e.key.sequence == sequence && o.status == Success
  }

  lemma SpentForGood(s: RxState, e: Event, id: nat, sequence: nat)
    requires Inv(s) && Allowed(s, e) && Spent(s, id, sequence)
    ensures Spent(Apply(s, e).s, id, sequence) && !Honoured(e, Apply(s, e), id, sequence)
  {
    StepMovesOn(s, e);
    var t := Apply(s, e).s;
    forall i | IdAt(t.slots, i, id)
      ensures var x := t.slots[i].value; x.sequence > sequence || (x.sequence == sequence && x.state != Borrowed)
    {
      assert IdAt(s.slots, i, id);
    }
  }

  lemma HonouredIsSpent(s: RxState, e: Event, id: nat, sequence: nat)
    requires Inv(s) && Allowed(s, e) && Honoured(e, Apply(s, e), id, sequence)
    ensures Spent(Apply(s, e).s, id, sequence)
  {
    var i :| IdAt(s.slots, i, id);
    assert forall k :: IdAt(s.slots, k, id) ==> k == i;
  }

  // ---- whole runs ------------------------------------------------------------------

  ghost predicate AllowedRun(s: RxState, events: seq<Event>)
    requires Inv(s)
    decreases |events|
  {
    events == [] ||
    (Allowed(s, events[0]) && (StepKeeps(s, events[0]); AllowedRun(Apply(s, events[0]).s, events[1..])))
  }

  /** The outcome of event k. */
  ghost function OutcomeAt(s: RxState, events: seq<Event>, k: nat): (o: Outcome)
    requires Inv(s) && AllowedRun(s, events) && k < |events|
    ensures Inv(o.s)
    decreases |events|
  {
    StepKeeps(s, events[0]);
    if k == 0 then Apply(s, events[0]) else OutcomeAt(Apply(s, events[0]).s, events[1..], k - 1)
  }

  lemma {:induction false} NeverAgain(s: RxState, events: seq<Event>, k: nat, id: nat, sequence: nat)
    requires Inv(s) && AllowedRun(s, events) && k < |events| && Spent(s, id, sequence)
    ensures !Honoured(events[k], OutcomeAt(s, events, k), id, sequence)
    decreases |events|
  {
    StepKeeps(s, events[0]);
    SpentForGood(s, events[0], id, sequence);
    if k > 0 {
      NeverAgain(Apply(s, events[0]).s, events[1..], k - 1, id, sequence);
    }
  }

  /** A borrow lease is honoured at most once in a whole run. */
  lemma {:induction false} LeaseHonouredOnce(s: RxState, events: seq<Event>, i: nat, j: nat, id: nat, sequence: nat)
    requires Inv(s) && AllowedRun(s, events) && i < j < |events|
    requires Honoured(events[i], OutcomeAt(s, events, i), id, sequence)
    ensures !Honoured(events[j], OutcomeAt(s, events, j), id, sequence)
    decreases |events|
  {
    StepKeeps(s, events[0]);
    if i == 0 {
      HonouredIsSpent(s, events[0], id, sequence);
      NeverAgain(Apply(s, events[0]).s, events[1..], j - 1, id, sequence);
    } else {
      LeaseHonouredOnce(Apply(s, events[0]).s, events[1..], i - 1, j - 1, id, sequence);
    }
  }

  ghost predicate Covers(l: Layout, x: int) { l.address <= x < l.address + l.capacity }

  ghost predicate SharesByte(a: Layout, b: Layout) { exists x :: Covers(a, x) && Covers(b, x) }

  /** No address lies in two live registrations. */
  ghost predicate NoByteShared(slots: Slots) {
    forall i, j :: 0 <= i < j < |slots| && slots[i].Some? && slots[j].Some? ==>
      !SharesByte(slots[i].value.layout, slots[j].value.layout)
  }

  /** The driver's comparison of two ranges finds a common address if there is one. */
  lemma OverlapIsShared(a: Layout, b: Layout)
    requires a.capacity > 0 && b.capacity > 0
    ensures Overlap(a, b) <==> SharesByte(a, b)
  {
    if Overlap(a, b) {
      var x := if a.address < b.address then b.address else a.address;
      assert Covers(a, x) && Covers(b, x);
    }
  }

  /** What a reader of the registry can rely on at any point of any run from setup. */
  lemma RunIsSafe(events: seq<Event>, k: nat)
    requires Inv(Initial()) && AllowedRun(Initial(), events) && k < |events|
    ensures var s := OutcomeAt(Initial(), events, k).s;
      && (forall d :: d in s.hw <==> QueuedAt(s.slots, d))
      && s.mapped == Mappings(s.slots) && s.undone !! s.mapped && s.hw <= s.mapped
      && DistinctEntries(s.slots) && OneBorrowed(s.slots) && NoByteShared(s.slots)
      && (s.published ==> s.calls == {})
  {
    var s := OutcomeAt(Initial(), events, k).s;
    forall i, j | 0 <= i < j < |s.slots| && s.slots[i].Some? && s.slots[j].Some?
      ensures !SharesByte(s.slots[i].value.layout, s.slots[j].value.layout)
    {
      OverlapIsShared(s.slots[i].value.layout, s.slots[j].value.layout);
    }
    forall d | d in s.hw ensures d in s.mapped {
      var i :| 0 <= i < SLOTS && s.slots[i].Some? && s.slots[i].value.dio == d && s.slots[i].value.state == Queued;
      MappingAt(s.slots, i);
    }
  }

  lemma MovesOnAgain(r: RxState, s: RxState, t: RxState)
    requires MovesOn(r, s) && MovesOn(s, t)
    ensures MovesOn(r, t)
  {
  }

  lemma {:induction false} RunMovesOn(s: RxState, events: seq<Event>, k: nat)
    requires Inv(s) && AllowedRun(s, events) && k < |events|
    ensures MovesOn(s, OutcomeAt(s, events, k).s)
    decreases |events|
  {
    StepKeeps(s, events[0]);
    StepMovesOn(s, events[0]);
    if k > 0 {
      var t := Apply(s, events[0]).s;
      RunMovesOn(t, events[1..], k - 1);
      MovesOnAgain(s, t, OutcomeAt(t, events[1..], k - 1).s);
    }
  }

  lemma {:induction false} LaterMovesOn(s: RxState, events: seq<Event>, i: nat, j: nat)
    requires Inv(s) && AllowedRun(s, events) && i < j < |events|
    ensures MovesOn(OutcomeAt(s, events, i).s, OutcomeAt(s, events, j).s)
    decreases |events|
  {
    StepKeeps(s, events[0]);
    if i == 0 {
      RunMovesOn(Apply(s, events[0]).s, events[1..], j - 1);
    } else {
      LaterMovesOn(Apply(s, events[0]).s, events[1..], i - 1, j - 1);
    }
  }

  /** Two registrations are one: a sequence number and a state is all that may have changed. */
  ghost predicate SameRegistration(a: Entry, b: Entry) {
    b == a.(sequence := b.sequence, state := b.state)
  }

  /** Numbers at an earlier and a later point of a run. */
  lemma NumbersLast(s: RxState, t: RxState, a: nat, b: nat)
    requires Inv(s) && Inv(t) && MovesOn(s, t)
    requires a < SLOTS && b < SLOTS && s.slots[a].Some? && t.slots[b].Some?
    ensures var e, f := s.slots[a].value, t.slots[b].value;
      && (e.id == f.id ==> a == b && SameRegistration(e, f))
      && e.id != f.generation && f.id != e.generation
      && (t.published ==> e.id != t.generation) && (s.published ==> f.id != s.generation)
  {
    var e, f := s.slots[a].value, t.slots[b].value;
    assert DrawnFor(s, e.id, ForId) && DrawnFor(t, f.id, ForId);
    assert DrawnFor(t, e.id, ForId) && DrawnFor(t, f.generation, ForGeneration) && DrawnFor(t, e.generation, ForGeneration);
  }

  /**
   * At any two points of a run, equal registration ids are one registration in one slot,
   * equal generations are one owner's registry, and no id is ever also a generation.
   */
  lemma NumbersNeverRepeat(s: RxState, events: seq<Event>, i: nat, j: nat)
    requires Inv(s) && AllowedRun(s, events) && i < j < |events|
    ensures var x, y := OutcomeAt(s, events, i).s, OutcomeAt(s, events, j).s;
      && (x.published && y.published && x.generation == y.generation ==> x.owner == y.owner)
      && forall a, b :: 0 <= a < SLOTS && 0 <= b < SLOTS && x.slots[a].Some? && y.slots[b].Some? ==>
        var e, f := x.slots[a].value, y.slots[b].value;
        && (e.id == f.id ==> a == b && SameRegistration(e, f))
        && e.id != f.generation && f.id != e.generation
        && (y.published ==> e.id != y.generation) && (x.published ==> f.id != x.generation)
  {
    var x, y := OutcomeAt(s, events, i).s, OutcomeAt(s, events, j).s;
    LaterMovesOn(s, events, i, j);
    forall a, b | 0 <= a < SLOTS && 0 <= b < SLOTS && x.slots[a].Some? && y.slots[b].Some?
      ensures var e, f := x.slots[a].value, y.slots[b].value;
        && (e.id == f.id ==> a == b && SameRegistration(e, f))
        && e.id != f.generation && f.id != e.generation
        && (y.published ==> e.id != y.generation) && (x.published ==> f.id != x.generation)
    {
      NumbersLast(x, y, a, b);
    }
  }

  /** No registration id is ever also a generation, of this registry or of a registration. */
  lemma NumbersNeverMix(s: RxState, i: nat, j: nat)
    requires Inv(s) && i < SLOTS && j < SLOTS && s.slots[i].Some? && s.slots[j].Some?
    ensures s.slots[i].value.id != s.slots[j].value.generation
    ensures s.published ==> s.slots[i].value.id != s.generation
    ensures s.slots[i].value.id <= s.serial <= U64_MAX
  {
  }
}
