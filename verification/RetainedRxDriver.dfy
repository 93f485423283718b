/**
 * The retained-RX operations as the driver runs them, on the command context's own
 * fields. Every write of the shared state and every hardware call is followed by a ghost
 * record of the state, so the contracts also speak about the steps in between.
 */
module RetainedRxDriver {
  import opened Basics
  import opened RetainedRxModel
  import opened RetainedRxTheorems

  class RxCommand {
    var published: bool
    var owner: Caller
    var generation: nat
    var stale: bool
    const entries: array<Option<Entry>>
    var serial: nat
    var epoch: nat
    var legacy: nat
    var session: Option<nat>

    // The hardware layer and the run so far, as far as the proof follows them.
    ghost var hw: set<nat>
    ghost var mapped: set<nat>
    ghost var undone: set<nat>
    ghost var draws: seq<Serial>
    ghost var calls: set<nat>
    ghost var trace: seq<RxState>

    ghost function View(): RxState
      reads this, entries
    {
      RxState(published, owner, generation, stale, entries[..], serial, epoch, legacy, session,
              hw, mapped, undone, draws, calls)
    }

    ghost predicate Valid()
      reads this, entries
    {
      Inv(View())
    }

    /** Every state recorded since `from` had the hardware's buffers queued and still mapped. */
    ghost predicate SafeSince(from: nat)
      reads this
    {
      from <= |trace| && forall k :: from <= k < |trace| ==> Safe(trace[k])
    }

    constructor ()
      ensures Valid() && View() == Initial() && fresh(entries) && trace == []
    {
      published, owner, generation, stale := false, Caller(0, 0, 0), 0, false;
      entries := new Option<Entry>[SLOTS](_ => None);
      serial, epoch, legacy, session := 0, 0, 0, None;
      hw, mapped, undone, draws, calls, trace := {}, {}, {}, [], {}, [];
      new;
      assert entries[..] == Initial().slots;
    }

    ghost method Record()
      requires Safe(View())
      modifies this`trace
      ensures trace == old(trace) + [View()]
    {
      trace := trace + [View()];
    }

    // ---- the hardware layer: who may call it, and when -----------------------------

    /** A queue takes the buffer: it must be mapped, queued in the registry, and not owned yet. */
    ghost method HardwareTakes(d: nat)
      requires Safe(View()) && d in mapped && d !in hw && QueuedAt(entries[..], d)
      modifies this`hw, this`trace
      ensures hw == old(hw) + {d} && trace == old(trace) + [View()] && Safe(View())
    {
      hw := hw + {d};
      Record();
    }

    ghost method HardwareGives(d: nat)
      requires Safe(View()) && d in hw
      modifies this`hw, this`trace
      ensures hw == old(hw) - {d} && trace == old(trace) + [View()] && Safe(View())
    {
      hw := hw - {d};
      Record();
    }

    /** crystalhd_unmap_dio succeeding: only for a live mapping the hardware does not own. */
    ghost method Undo(d: nat)
      requires Safe(View()) && d in mapped && d !in hw
      modifies this`mapped, this`undone, this`trace
      ensures mapped == old(mapped) - {d} && undone == old(undone) + {d} && trace == old(trace) + [View()] && Safe(View())
    {
      mapped, undone := mapped - {d}, undone + {d};
      Record();
    }

    /** The registration in slot i gets a new state (WRITE_ONCE of the entry's state). */
    method WriteState(i: nat, st: EntryState)
      requires i < entries.Length && entries[i].Some? && Safe(View())
      requires entries[i].value.dio in hw ==> st == Queued
      requires DistinctEntries(entries[..])
      modifies entries, this`trace
      ensures entries[..] == SetState(old(entries[..]), i, st) && trace == old(trace) + [View()] && Safe(View())
    {
      entries[i] := Some(entries[i].value.(state := st));
      assert entries[..] == SetState(old(entries[..]), i, st);
      StateWriteIsSafe(old(View()), i, st);
      Record();
    }

    method MarkStale()
      requires Safe(View())
      modifies this`stale, this`trace
      ensures stale && trace == old(trace) + [View()] && Safe(View())
    {
      stale := true;
      Record();
    }

    // ---- operations ----------------------------------------------------------------

    method LegacyRxEnter(ghost call: nat) returns (admitted: bool)
      requires Valid() && call !in calls
      modifies this
      ensures Valid() && View() == LegacyEnter(old(View()), call)
      ensures admitted <==> LegacyAllowed(old(View()))
      ensures trace == old(trace)
    {
      LegacyKeeps(View(), call);
      admitted := !published && legacy != UINT_MAX;
      if admitted {
        legacy, calls := legacy + 1, calls + {call};
      }
    }

    method LegacyRxLeave(ghost call: nat)
      requires Valid() && call in calls
      modifies this
      ensures Valid() && View() == LegacyLeave(old(View()), call)
      ensures trace == old(trace)
    {
      LegacyKeeps(View(), call);
      legacy, calls := legacy - 1, calls - {call};
    }

    method IsOwner(c: Caller) returns (owns: bool)
      requires Valid()
      ensures owns <==> OwnedBy(View(), c)
    {
      owns := published && c.user < MAX_OPENS && c.fileOwner != 0 && c.fileEpoch != 0 && owner == c &&
        session == Some(c.user);
    }

    method PublishRegistry(c: Caller, key: Key, haveMemory: bool, idle: bool) returns (sts: Status)
      requires Valid()
      modifies this
      ensures Valid() && SafeSince(|old(trace)|) && old(trace) <= trace
      ensures Outcome(View(), sts) == Publish(old(View()), c, key, haveMemory, idle)
    {
      PublishKeeps(View(), c, key, haveMemory, idle);
      if !WellFormedRequest(c, key) {
        return InvArg;
      }
      if session != Some(c.user) {
        return ErrUsage;
      }
      if !published {
        if serial == U64_MAX || !haveMemory {
          return InsuffRes;
        }
        if legacy != 0 || !idle {
          return Busy;
        }
        OpenRegistry(c, Publish(View(), c, key, haveMemory, idle).s);
      }
      sts := Success;
    }

    /** The registry under a fresh generation. */
    method OpenRegistry(c: Caller, ghost next: RxState)
      requires Valid() && Inv(next) && serial < U64_MAX
      requires next == View().(serial := serial + 1, draws := draws + [ForGeneration], owner := c,
        generation := serial + 1, stale := false, published := true)
      modifies this
      ensures View() == next && SafeSince(|old(trace)|) && old(trace) <= trace
    {
      serial, draws := serial + 1, draws + [ForGeneration];
      owner, generation, stale := c, serial, false;
      published := true;
      InvIsSafe(View());
      Record();
    }

    /** The first free slot, or the overlap that forbids the registration. */
    method FindSlot(layout: Layout) returns (overlap: bool, slot: nat)
      requires Valid()
      ensures overlap <==> OverlapsAny(entries[..], layout)
      ensures slot == FreeSlot(entries[..], 0)
    {
      slot := SLOTS;
      var i := 0;
      overlap := false;
      while i < SLOTS
        invariant 0 <= i <= SLOTS
        invariant overlap <==> exists k :: 0 <= k < i && entries[..][k].Some? && Overlap(layout, entries[..][k].value.layout)
        invariant if slot == SLOTS then FreeSlot(entries[..], 0) == FreeSlot(entries[..], i)
          else slot < i && slot == FreeSlot(entries[..], 0)
      {
        assert entries[..][i] == entries[i];
        if entries[i].None? {
          if slot == SLOTS {
            slot := i;
          }
        } else if Overlap(layout, entries[i].value.layout) {
          overlap := true;
        }
        i := i + 1;
      }
    }

    method InsertEntry(c: Caller, key: Key, env: InsertEnv) returns (sts: Status)
      requires Valid() && FreshMapping(View(), env.mapping)
      modifies this, entries
      ensures Valid() && SafeSince(|old(trace)|) && old(trace) <= trace
      ensures Outcome(View(), sts) == Insert(old(View()), c, key, env)
    {
      ghost var before := View();
      InsertKeeps(before, c, key, env);
      var owns := IsOwner(c);
      if !owns || stale {
        return ErrUsage;
      }
      if serial == U64_MAX {
        return InsuffRes;
      }
      sts := CheckLayout(key.layout);
      if sts != Success {
        return;
      }
      var overlap, slot := FindSlot(key.layout);
      if overlap {
        return InvArg;
      }
      if slot == SLOTS || !env.haveMemory {
        return InsuffRes;
      }
      if env.mapping.MapFailed? {
        return if env.mapping.status == Success then OtherError else env.mapping.status;
      }
      sts := SubmitNew(slot, key.layout, env.mapping.dio, env.submit, env.unmap);
    }

    /** A freshly mapped buffer enters slot `slot`, queued but not handed over yet. */
    method EnterSlot(slot: nat, layout: Layout, dio: nat)
      requires Valid() && published && slot < SLOTS && entries[slot].None? && serial < U64_MAX
      requires dio !in mapped && dio !in undone && !OverlapsAny(entries[..], layout) && layout.capacity > 0
      modifies this, entries
      ensures var s := old(View());
        View() == Draw(s, ForId).(slots := s.slots[slot := Some(NewEntry(s, layout, dio))], mapped := s.mapped + {dio})
      ensures Safe(View()) && DistinctEntries(entries[..])
      ensures old(trace) <= trace && SafeSince(|old(trace)|)
    {
      ghost var s := View();
      ghost var e := NewEntry(s, layout, dio);
      EnterKeeps(s, slot, e);
      InvIsSafe(s);
      mapped := mapped + {dio};
      Record();
      serial, draws := serial + 1, draws + [ForId];
      entries[slot] := Some(Entry(serial, generation, 0, layout, dio, epoch, Queued));
      assert entries[..] == s.slots[slot := Some(e)];
      ghost var entered := View();
      InvIsSafe(entered.(hw := entered.hw + {dio}));
      FewerOwnedIsSafe(entered.(hw := entered.hw + {dio}), entered);
      Record();
    }

    /** Takes back an entry the hardware refused. */
    method WithdrawSlot(slot: nat, unmap: Status) returns (ok: bool)
      requires Safe(View()) && DistinctEntries(entries[..])
      requires slot < entries.Length && entries[slot].Some? && entries[slot].value.dio in mapped && entries[slot].value.dio !in hw
      modifies this, entries
      ensures old(trace) <= trace && SafeSince(|old(trace)|)
      ensures ok <==> unmap == Success
      ensures var s := old(View());
        var dio := old(entries[slot]).value.dio;
        View() == if ok then s.(slots := s.slots[slot := None], mapped := s.mapped - {dio}, undone := s.undone + {dio})
          else s.(slots := SetState(s.slots, slot, Detached), stale := true)
    {
      ghost var s := View();
      var dio := entries[slot].value.dio;
      WriteState(slot, Detached);
      assert entries[..][slot] == entries[slot];
      if unmap != Success {
        MarkStale();
        return false;
      }
      Undo(dio);
      ghost var before := View();
      entries[slot] := None;
      assert entries[..] == before.slots[slot := None] == s.slots[slot := None];
      UnownedSlotIsSafe(before, slot);
      Record();
      ok := true;
    }

    /** A freshly mapped buffer enters slot `slot` and is handed to the hardware. */
    method SubmitNew(slot: nat, layout: Layout, dio: nat, submit: Status, unmap: Status) returns (sts: Status)
      requires Valid() && published && slot < SLOTS && entries[slot].None? && serial < U64_MAX
      requires dio !in mapped && dio !in undone && !OverlapsAny(entries[..], layout) && layout.capacity > 0
      modifies this, entries
      ensures old(trace) <= trace && SafeSince(|old(trace)|)
      ensures var s := old(View());
        var e := NewEntry(s, layout, dio);
        var d := Draw(s, ForId).(slots := s.slots[slot := Some(e)], mapped := s.mapped + {dio});
        Outcome(View(), sts) ==
          if submit == Success then Outcome(d.(hw := d.hw + {dio}), Success)
          else if unmap == Success then
            Outcome(d.(slots := s.slots, mapped := s.mapped, undone := s.undone + {dio}), submit)
          else Outcome(d.(slots := SetState(d.slots, slot, Detached), stale := true), IoError)
    {
      ghost var s := View();
      InvIsSafe(s);
      EnterSlot(slot, layout, dio);
      assert entries[..][slot] == entries[slot];
      if submit == Success {
        HardwareTakes(dio);
        return Success;
      }
      var ok := WithdrawSlot(slot, unmap);
      assert s.mapped + {dio} - {dio} == s.mapped;
      assert s.slots[slot := Some(NewEntry(s, layout, dio))][slot := None] == s.slots;
      sts := if ok then submit else IoError;
    }

    method Register(c: Caller, key: Key, haveMemory: bool, idle: bool, env: InsertEnv) returns (sts: Status)
      requires Valid() && FreshMapping(View(), env.mapping)
      modifies this, entries
      ensures Valid() && SafeSince(|old(trace)|) && old(trace) <= trace
      ensures var p := Publish(old(View()), c, key, haveMemory, idle);
        Outcome(View(), sts) == if p.status == Success then Insert(p.s, c, key, env) else p
    {
      PublishKeeps(View(), c, key, haveMemory, idle);
      sts := PublishRegistry(c, key, haveMemory, idle);
      if sts == Success {
        sts := InsertEntry(c, key, env);
      }
    }

    method AnyBorrowed() returns (busy: bool)
      requires Valid()
      ensures busy <==> SomeBorrowed(entries[..])
    {
      for i := 0 to SLOTS
        invariant forall k :: 0 <= k < i && entries[..][k].Some? ==> entries[..][k].value.state != Borrowed
      {
        assert entries[..][i] == entries[i];
        if entries[i].Some? && entries[i].value.state == Borrowed {
          return true;
        }
      }
      busy := false;
    }

    /** The registration whose buffer has mapping d. */
    method FindBuffer(d: nat) returns (slot: nat)
      requires entries.Length == SLOTS
      ensures slot <= SLOTS && (slot < SLOTS ==> EntryAt(entries[..], slot, d))
      ensures slot == SLOTS ==> forall i :: !EntryAt(entries[..], i, d)
    {
      slot := 0;
      while slot < SLOTS
        invariant slot <= SLOTS && forall i :: 0 <= i < slot ==> !EntryAt(entries[..], i, d)
      {
        assert entries[..][slot] == entries[slot];
        if entries[slot].Some? && entries[slot].value.dio == d {
          return;
        }
        slot := slot + 1;
      }
    }

    /** The hardware layer drops a buffer through the release callback. */
    method ReleaseBuffer(d: nat)
      requires Safe(View()) && DistinctEntries(entries[..]) && entries.Length == SLOTS && d !in hw
      modifies entries, this`trace
      ensures View() == Release(old(View()), d) && Safe(View())
      ensures old(trace) <= trace && SafeSince(|old(trace)|)
    {
      var slot := FindBuffer(d);
      assert hw - {d} == hw;
      if slot < SLOTS {
        DetachIsSetState(entries[..], slot);
        WriteState(slot, Detached);
      } else {
        NothingToDetach(entries[..], d);
      }
    }

    /** crystalhd_rx_ack_format on a buffer that dequeue has just detached. */
    method AckFormatChange(d: nat, bufferEpoch: nat, env: AckEnv) returns (sts: Status)
      requires Safe(View()) && DistinctEntries(entries[..]) && entries.Length == SLOTS
      requires d !in hw && d in mapped && QueuedAt(entries[..], d)
      modifies this, entries
      ensures Outcome(View(), sts) == AckFormat(old(View()), d, bufferEpoch, env)
      ensures old(trace) <= trace && SafeSince(|old(trace)|)
    {
      if env.interrupted || bufferEpoch != epoch || !env.capturing {
        ReleaseBuffer(d);
        return UserAbort;
      }
      if env.requeue != Success {
        ReleaseBuffer(d);
        return env.requeue;
      }
      HardwareTakes(d);
      sts := if env.restart == NoData then Success else env.restart;
    }

    method FetchBuffer(c: Caller, deq: Dequeue, ack: AckEnv) returns (sts: Status)
      requires Valid() && DequeueContract(View(), deq)
      modifies this, entries
      ensures Valid() && old(trace) <= trace && SafeSince(|old(trace)|)
      ensures Outcome(View(), sts) == Fetch(old(View()), c, deq, ack)
    {
      FetchKeeps(View(), c, deq, ack);
      InvIsSafe(View());
      var owns := IsOwner(c);
      if !owns {
        return ErrUsage;
      }
      if stale {
        return UserAbort;
      }
      var busy := AnyBorrowed();
      if busy {
        return Busy;
      }
      match deq
      case Nothing(status) =>
        sts := status;
      case Dropped(dio, status) =>
        ghost var s := View();
        HardwareGives(dio);
        ReleaseBuffer(dio);
        assert hw == s.hw - {dio};
        sts := status;
      case Completed(dio, bufferEpoch, formatChange) =>
        sts := TakeCompletion(dio, bufferEpoch, formatChange, ack);
    }

    method TakeCompletion(d: nat, bufferEpoch: nat, formatChange: bool, ack: AckEnv) returns (sts: Status)
      requires Valid() && d in hw && !SomeBorrowed(entries[..])
      modifies this, entries
      ensures old(trace) <= trace && SafeSince(|old(trace)|)
      ensures Outcome(View(), sts) == FetchCompleted(old(View()), d, bufferEpoch, formatChange, ack)
    {
      InvIsSafe(View());
      HardwareGives(d);
      var slot := FindBuffer(d);
      assert slot < SLOTS ==> entries[..][slot] == entries[slot];
      assert forall k :: EntryAt(entries[..], k, d) ==> k == slot;
      if slot == SLOTS {
        ReleaseBuffer(d);
        MarkStale();
        return IoError;
      }
      sts := TakeEntry(slot, d, bufferEpoch, formatChange, ack);
    }

    /** The completed buffer's entry: lent, acknowledged, or found out of step. */
    method TakeEntry(slot: nat, d: nat, bufferEpoch: nat, formatChange: bool, ack: AckEnv) returns (sts: Status)
      requires Safe(View()) && DistinctEntries(entries[..]) && entries.Length == SLOTS
      requires slot < SLOTS && EntryAt(entries[..], slot, d) && d in mapped && d !in hw
      modifies this, entries
      ensures old(trace) <= trace && SafeSince(|old(trace)|)
      ensures Outcome(View(), sts) == FetchEntry(old(View()), slot, d, bufferEpoch, formatChange, ack)
    {
      assert entries[..][slot] == entries[slot];
      if entries[slot].value.state != Queued || bufferEpoch != entries[slot].value.epoch {
        ReleaseBuffer(d);
        MarkStale();
        return IoError;
      }
      if formatChange {
        sts := AckFormatChange(d, bufferEpoch, ack);
      } else {
        sts := Borrow(slot);
      }
    }

    /** A completed picture goes to user space under the entry's next borrow sequence. */
    method Borrow(slot: nat) returns (sts: Status)
      requires Safe(View()) && DistinctEntries(entries[..])
      requires slot < entries.Length && entries[slot].Some? && entries[slot].value.dio !in hw
      modifies this`stale, this`trace, entries
      ensures old(trace) <= trace && SafeSince(|old(trace)|)
      ensures var s, e := old(View()), old(entries[slot]).value;
        Outcome(View(), sts) ==
          if e.sequence == U64_MAX then Outcome(s.(slots := SetState(s.slots, slot, Detached), stale := true), IoError)
          else Outcome(s.(slots := s.slots[slot := Some(e.(sequence := e.sequence + 1, state := Borrowed))]), Success)
    {
      if entries[slot].value.sequence == U64_MAX {
        WriteState(slot, Detached);
        MarkStale();
        return IoError;
      }
      Lend(slot);
      sts := Success;
    }

    /** The next borrow of a queued registration. */
    method Lend(slot: nat)
      requires Safe(View()) && DistinctEntries(entries[..])
      requires slot < entries.Length && entries[slot].Some? && entries[slot].value.dio !in hw
      modifies entries, this`trace
      ensures old(trace) <= trace && SafeSince(|old(trace)|)
      ensures var e := old(entries[slot]).value;
        entries[..] == old(entries[..])[slot := Some(e.(sequence := e.sequence + 1, state := Borrowed))]
    {
      ghost var s := View();
      var e := entries[slot].value;
      entries[slot] := Some(e.(sequence := e.sequence + 1));
      assert entries[..] == s.slots[slot := Some(e.(sequence := e.sequence + 1))];
      SequenceWriteIsSafe(s, slot, e.sequence + 1);
      Record();
      WriteState(slot, Borrowed);
    }

    method FindId(id: nat) returns (slot: nat)
      requires Valid()
      ensures slot <= SLOTS && (slot < SLOTS ==> IdAt(entries[..], slot, id))
      ensures slot == SLOTS ==> forall i :: !IdAt(entries[..], i, id)
    {
      slot := 0;
      while slot < SLOTS
        invariant slot <= SLOTS && forall i :: 0 <= i < slot ==> !IdAt(entries[..], i, id)
      {
        assert entries[..][slot] == entries[slot];
        if entries[slot].Some? && entries[slot].value.id == id {
          return;
        }
        slot := slot + 1;
      }
    }

    method RetireOne(c: Caller, key: Key, env: ReturnEnv) returns (sts: Status)
      requires Valid()
      modifies this, entries
      ensures Valid() && old(trace) <= trace && SafeSince(|old(trace)|)
      ensures Outcome(View(), sts) == Retire(old(View()), c, key, env)
    {
      RetireKeeps(View(), c, key, env);
      InvIsSafe(View());
      var owns := IsOwner(c);
      if !owns {
        return ErrUsage;
      }
      var slot := FindId(key.id);
      if slot == SLOTS {
        return InvArg;
      }
      assert entries[..][slot] == entries[slot];
      assert forall k :: IdAt(entries[..], k, key.id) ==> k == slot;
      var e := entries[slot].value;
      if !Honours(e, key) {
        return InvArg;
      }
      if env.faulted && !env.quiesced {
        return IoError;
      }
      if env.unmap != Success {
        MarkStale();
        return env.unmap;
      }
      ClearSlot(slot);
      sts := Success;
    }

    /** Gives a registration's mapping back and empties its slot. */
    method ClearSlot(slot: nat)
      requires Valid() && slot < SLOTS && entries[slot].Some? && entries[slot].value.state != Queued
      modifies this, entries
      ensures Valid() && old(trace) <= trace && SafeSince(|old(trace)|)
      ensures var s := old(View());
        var d := old(entries[slot]).value.dio;
        View() == s.(slots := s.slots[slot := None], mapped := s.mapped - {d}, undone := s.undone + {d})
    {
      ghost var s := View();
      ClearKeeps(s, slot);
      InvIsSafe(s);
      Undo(entries[slot].value.dio);
      entries[slot] := None;
      assert entries[..] == s.slots[slot := None];
      InvIsSafe(View());
      Record();
    }

    method RepostOne(c: Caller, key: Key, env: ReturnEnv) returns (sts: Status)
      requires Valid()
      modifies this, entries
      ensures Valid() && old(trace) <= trace && SafeSince(|old(trace)|)
      ensures Outcome(View(), sts) == Repost(old(View()), c, key, env)
    {
      RepostKeeps(View(), c, key, env);
      InvIsSafe(View());
      var owns := IsOwner(c);
      if !owns {
        return ErrUsage;
      }
      var slot := FindId(key.id);
      if slot == SLOTS {
        return InvArg;
      }
      assert entries[..][slot] == entries[slot];
      assert forall k :: IdAt(entries[..], k, key.id) ==> k == slot;
      var e := entries[slot].value;
      if !Honours(e, key) {
        return InvArg;
      }
      if stale || e.epoch != epoch || key.generation != generation {
        return UserAbort;
      }
      Resubmit(slot, env.submit);
      sts := env.submit;
    }

    /** Queued first, then handed over; borrowed again when the hardware refuses. */
    method Resubmit(slot: nat, submit: Status)
      requires Valid() && slot < SLOTS && entries[slot].Some? && entries[slot].value.state == Borrowed
      modifies this, entries
      ensures old(trace) <= trace && SafeSince(|old(trace)|)
      ensures var s := old(View());
        View() == if submit != Success then s
          else s.(slots := SetState(s.slots, slot, Queued), hw := s.hw + {old(entries[slot]).value.dio})
    {
      ghost var s := View();
      var d := entries[slot].value.dio;
      InvIsSafe(s);
      BorrowedIsOurs(s, slot);
      WriteState(slot, Queued);
      assert entries[..][slot] == entries[slot];
      if submit != Success {
        WriteState(slot, Borrowed);
        assert entries[..] == s.slots;
      } else {
        assert EntryAt(entries[..], slot, d);
        HardwareTakes(d);
      }
    }

    /** A stop that succeeded hands every queued buffer back through the callback. */
    method ReleaseAll(ghost gone: set<nat>)
      requires Safe(View()) && DistinctEntries(entries[..]) && entries.Length == SLOTS && hw == {}
      requires forall i :: 0 <= i < SLOTS && entries[i].Some? ==>
        (entries[i].value.state == Queued <==> entries[i].value.dio in gone)
      modifies entries, this`trace
      ensures entries[..] == DetachAll(old(entries[..]), gone)
      ensures old(trace) <= trace && SafeSince(|old(trace)|)
    {
      var i := 0;
      while i < SLOTS
        invariant 0 <= i <= SLOTS && Safe(View()) && DistinctEntries(entries[..])
        invariant forall k :: 0 <= k < i ==> entries[k] == DetachAll(old(entries[..]), gone)[k]
        invariant forall k :: i <= k < SLOTS ==> entries[k] == old(entries[k])
        invariant old(trace) <= trace && SafeSince(|old(trace)|)
      {
        if entries[i].Some? && entries[i].value.state == Queued {
          WriteState(i, Detached);
        }
        i := i + 1;
      }
    }

    method StopRx(env: StopEnv)
      requires Valid()
      modifies this, entries
      ensures Valid() && old(trace) <= trace && SafeSince(|old(trace)|)
      ensures View() == StopCapture(old(View()), env.stopped, env.epochMoved)
    {
      ghost var s := View();
      StopKeeps(s, env.stopped, env.epochMoved);
      InvIsSafe(s);
      if env.stopped || env.epochMoved {
        epoch := epoch + 1;
      }
      if env.stopped {
        hw := {};
        Record();
        forall i | 0 <= i < SLOTS && entries[i].Some?
          ensures entries[i].value.state == Queued <==> entries[i].value.dio in s.hw
        {
          QueuedExactlyOwned(s, i);
        }
        ReleaseAll(s.hw);
      }
    }

    /** crystalhd_retained_cleanup; `refuses` are the mappings that cannot be undone. */
    method CleanupRegistry(destroy: bool, ghost refuses: set<nat>, refusal: nat -> bool) returns (ok: bool)
      requires Valid() && forall d :: refusal(d) <==> d in refuses
      modifies this, entries
      ensures Valid() && old(trace) <= trace && SafeSince(|old(trace)|)
      ensures View() == Cleanup(old(View()), destroy, refuses).s
      ensures ok <==> Cleanup(old(View()), destroy, refuses).status == Success
    {
      ghost var s := View();
      CleanupKeeps(s, destroy, refuses);
      InvIsSafe(s);
      if !published {
        return true;
      }
      var queued := HasQueued();
      if queued {
        return false;
      }
      ok := UnmapAll(refuses, refusal);
      if !ok {
        return;
      }
      Renew(destroy);
    }

    /** An emptied registry goes away, or on under a new generation. */
    method Renew(destroy: bool)
      requires Valid() && published && forall i :: 0 <= i < SLOTS ==> entries[..][i].None?
      modifies this
      ensures Valid() && old(trace) <= trace && SafeSince(|old(trace)|)
      ensures var s := old(View());
        View() == if destroy then s.(published := false)
          else if s.serial == U64_MAX then s.(stale := true)
          else Draw(s, ForGeneration).(stale := false, generation := s.serial + 1)
    {
      if destroy {
        published := false;
      } else {
        stale := serial == U64_MAX;
        if !stale {
          serial, draws := serial + 1, draws + [ForGeneration];
          generation := serial;
        }
      }
      InvIsSafe(View());
      Record();
    }

    method HasQueued() returns (queued: bool)
      requires Valid()
      ensures queued <==> AnyQueued(entries[..])
    {
      for i := 0 to SLOTS
        invariant forall k :: 0 <= k < i && entries[..][k].Some? ==> entries[..][k].value.state != Queued
      {
        assert entries[..][i] == entries[i];
        if entries[i].Some? && entries[i].value.state == Queued {
          return true;
        }
      }
      queued := false;
    }

    method UnmapAll(ghost refuses: set<nat>, refusal: nat -> bool) returns (ok: bool)
      requires Valid() && !AnyQueued(entries[..]) && forall d :: refusal(d) <==> d in refuses
      modifies this, entries
      ensures Valid() && old(trace) <= trace && SafeSince(|old(trace)|)
      ensures View() == UnmapFrom(old(View()), 0, refuses).s
      ensures ok <==> UnmapFrom(old(View()), 0, refuses).status == Success
      ensures ok ==> forall k :: 0 <= k < SLOTS ==> entries[..][k].None?
      ensures published == old(published)
    {
      UnmapKeeps(View(), 0, refuses);
      ghost var spec := UnmapFrom(View(), 0, refuses);
      var i := 0;
      while i < SLOTS
        invariant 0 <= i <= SLOTS && Valid() && !AnyQueued(entries[..])
        invariant spec == UnmapFrom(View(), i, refuses)
        invariant old(trace) <= trace && SafeSince(|old(trace)|)
      {
        assert entries[..][i] == entries[i];
        if entries[i].Some? {
          var d := entries[i].value.dio;
          if refusal(d) {
            return false;
          }
          ClearSlot(i);
        }
        i := i + 1;
      }
      ok := true;
    }

    method RetireEverything(c: Caller, admitted: Status, env: StopEnv, refusal: nat -> bool) returns (sts: Status)
      requires Valid() && forall d :: refusal(d) <==> d in env.refuses
      modifies this, entries
      ensures Valid() && old(trace) <= trace && SafeSince(|old(trace)|)
      ensures Outcome(View(), sts) == RetireAll(old(View()), c, admitted, env)
    {
      var owns := IsOwner(c);
      if !owns {
        return ErrUsage;
      }
      if admitted != Success {
        return admitted;
      }
      StopRx(env);
      var ok := env.stopped;
      if ok {
        ok := CleanupRegistry(false, env.refuses, refusal);
      }
      sts := Success;
      if !ok {
        InvIsSafe(View());
        MarkStale();
        sts := IoError;
      }
    }

    /** Stop, then clean up without an owner check; what cannot be undone leaves the registry stale. */
    method StopAndClean(env: StopEnv, refusal: nat -> bool) returns (sts: Status)
      requires Valid() && forall d :: refusal(d) <==> d in env.refuses
      modifies this, entries
      ensures Valid() && old(trace) <= trace && SafeSince(|old(trace)|)
      ensures Outcome(View(), sts) == Flush(old(View()), false, FlushEnv(false, true, true, Success), env)
    {
      StopRx(env);
      var ok := env.stopped;
      if ok {
        ok := CleanupRegistry(false, env.refuses, refusal);
      }
      sts := Success;
      if !ok {
        InvIsSafe(View());
        if published {
          MarkStale();
        }
        sts := IoError;
      }
    }

    /** crystalhd_capture_flush */
    method CaptureFlush(discard: bool, f: FlushEnv, env: StopEnv, refusal: nat -> bool) returns (sts: Status)
      requires Valid() && forall d :: refusal(d) <==> d in env.refuses
      modifies this, entries
      ensures Valid() && old(trace) <= trace && SafeSince(|old(trace)|)
      ensures Outcome(View(), sts) == Flush(old(View()), discard, f, env)
    {
      if f.interrupted {
        return UserAbort;
      }
      if !f.capturing && (discard || !f.initial) {
        return ErrUsage;
      }
      if discard {
        return if f.restart == NoData then Success else f.restart;
      }
      sts := StopAndClean(env, refusal);
    }

    /** crystalhd_rx_retire_quiesced */
    method RetireAllQuiesced(kept: bool, ghost refuses: set<nat>, refusal: nat -> bool)
      requires Valid() && forall d :: refusal(d) <==> d in refuses
      modifies this, entries
      ensures Valid() && old(trace) <= trace && SafeSince(|old(trace)|)
      ensures View() == RetireQuiesced(old(View()), kept, refuses)
    {
      if kept {
        return;
      }
      StopRx(StopEnv(true, true, {}));
      var ok := CleanupRegistry(false, refuses, refusal);
      if !ok && published {
        InvIsSafe(View());
        MarkStale();
      }
    }
  }

  // ---- what intermediate states guarantee --------------------------------------------

  /** Buffers the hardware owns are queued in the registry and mapped; nothing undone is owned. */
  ghost predicate Safe(s: RxState) {
    HwIsQueued(s) && s.hw <= s.mapped && s.undone !! s.mapped
  }

  lemma InvIsSafe(s: RxState)
    requires Inv(s)
    ensures Safe(s)
  {
    forall d | d in s.hw ensures d in s.mapped {
      var i :| 0 <= i < SLOTS && s.slots[i].Some? && s.slots[i].value.dio == d && s.slots[i].value.state == Queued;
      MappingAt(s.slots, i);
    }
  }

  lemma FewerOwnedIsSafe(s: RxState, t: RxState)
    requires Safe(s) && t == s.(hw := t.hw) && t.hw <= s.hw
    ensures Safe(t)
  {
  }

  lemma StateWriteIsSafe(s: RxState, i: nat, st: EntryState)
    requires Safe(s) && i < |s.slots| && s.slots[i].Some? && DistinctEntries(s.slots)
    requires s.slots[i].value.dio in s.hw ==> st == Queued
    ensures Safe(s.(slots := SetState(s.slots, i, st)))
  {
    var t := SetState(s.slots, i, st);
    forall d | d in s.hw ensures QueuedAt(t, d) {
      var k :| 0 <= k < |s.slots| && s.slots[k].Some? && s.slots[k].value.dio == d && s.slots[k].value.state == Queued;
      assert t[k].Some? && t[k].value.dio == d && t[k].value.state == Queued;
    }
  }

  lemma SequenceWriteIsSafe(s: RxState, i: nat, sequence: nat)
    requires Safe(s) && i < |s.slots| && s.slots[i].Some?
    ensures Safe(s.(slots := s.slots[i := Some(s.slots[i].value.(sequence := sequence))]))
  {
    var t := s.slots[i := Some(s.slots[i].value.(sequence := sequence))];
    forall d | d in s.hw ensures QueuedAt(t, d) {
      var k :| 0 <= k < |s.slots| && s.slots[k].Some? && s.slots[k].value.dio == d && s.slots[k].value.state == Queued;
      assert t[k].Some? && t[k].value.dio == d && t[k].value.state == Queued;
    }
  }

  lemma UnownedSlotIsSafe(s: RxState, i: nat)
    requires Safe(s) && i < |s.slots| && s.slots[i].Some? && s.slots[i].value.dio !in s.hw
    ensures Safe(s.(slots := s.slots[i := None]))
  {
    var t := s.slots[i := None];
    forall d | d in s.hw ensures QueuedAt(t, d) {
      var k :| 0 <= k < |s.slots| && s.slots[k].Some? && s.slots[k].value.dio == d && s.slots[k].value.state == Queued;
      assert t[k].Some? && t[k].value.dio == d && t[k].value.state == Queued;
    }
  }

  lemma NothingToDetach(slots: Slots, d: nat)
    requires forall i :: !EntryAt(slots, i, d)
    ensures DetachOne(slots, d) == slots
  {
    forall i | 0 <= i < |slots| ensures DetachOne(slots, d)[i] == slots[i] {
      assert !EntryAt(slots, i, d);
    }
  }

  lemma BorrowedIsOurs(s: RxState, i: nat)
    requires Inv(s) && i < SLOTS && s.slots[i].Some? && s.slots[i].value.state == Borrowed
    ensures s.slots[i].value.dio in s.mapped && s.slots[i].value.dio !in s.hw
  {
    MappingAt(s.slots, i);
  }

  lemma QueuedExactlyOwned(s: RxState, i: nat)
    requires Inv(s) && i < SLOTS && s.slots[i].Some?
    ensures s.slots[i].value.state == Queued <==> s.slots[i].value.dio in s.hw
  {
  }
}
