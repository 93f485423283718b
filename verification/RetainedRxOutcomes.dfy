/**
 * When each request to the retained-RX registry succeeds, and what it then does: conditions
 * over the fields of the request, the registry and the hardware's answers.
 */
module RetainedRxOutcomes {
  import opened Basics
  import opened RetainedRxModel
  import opened RetainedRxTheorems

  const SERIAL_LIMIT := 0xFFFF_FFFF_FFFF_FFFF

  /** The caller is the file, in the same epoch, that published the registry and has the session. */
  ghost predicate Authorised(s: RxState, c: Caller) {
    && s.published && c.user <= 2 && c.fileOwner > 0 && c.fileEpoch > 0
    && s.owner.fileOwner == c.fileOwner && s.owner.fileEpoch == c.fileEpoch && s.owner.user == c.user
    && s.session == Some(c.user)
  }

  // ---- legacy admission --------------------------------------------------------------

  /** Legacy receive is admitted exactly while no registry is published and the counter has room. */
  lemma LegacyEntersIff(s: RxState, call: nat)
    ensures LegacyAllowed(s) <==> !s.published && s.legacy != 0xFFFF_FFFF
    ensures LegacyEnter(s, call) ==
      if LegacyAllowed(s) then s.(legacy := s.legacy + 1, calls := s.calls + {call}) else s
  {
  }

  // ---- register ----------------------------------------------------------------------

  /** A first request: all numbers zero, a range that fits 64 bits, from an open file. */
  ghost predicate FirstRequest(c: Caller, key: Key) {
    && key.id == 0 && key.generation == 0 && key.sequence == 0 && key.stateZero
    && key.layout.address > 0 && key.layout.address + key.layout.capacity <= SERIAL_LIMIT
    && c.fileOwner > 0 && c.fileEpoch > 0 && c.user <= 2
  }

  /** A registry is published exactly for the session's file while legacy receive is idle. */
  lemma PublishesIff(s: RxState, c: Caller, key: Key, haveMemory: bool, idle: bool)
    ensures var o := Publish(s, c, key, haveMemory, idle);
      o.status == Success <==>
        FirstRequest(c, key) && s.session == Some(c.user) &&
        (s.published || (s.serial != SERIAL_LIMIT && haveMemory && s.legacy == 0 && idle))
    ensures var o := Publish(s, c, key, haveMemory, idle);
      if o.status == Success && !s.published then
        && o.s.published && o.s.owner == c && !o.s.stale && o.s.generation == s.serial + 1 == o.s.serial
        && o.s.slots == s.slots && o.s.hw == s.hw && o.s.mapped == s.mapped
      else o.s == s
  {
  }

  /** One plane with its offset, or an interleaved picture without one, on a word boundary. */
  ghost predicate Usable(l: Layout) {
    l.address > 0 && l.capacity > 0 && l.address % 4 == 0 && (l.format == 0 <==> l.uvOffset > 0)
  }

  ghost predicate HasFree(slots: Slots) { exists i :: 0 <= i < |slots| && slots[i].None? }

  ghost predicate SharesWithNone(slots: Slots, layout: Layout) {
    forall i :: 0 <= i < |slots| && slots[i].Some? ==> !SharesByte(layout, slots[i].value.layout)
  }

  lemma OverlapsAnyIsShared(slots: Slots, layout: Layout)
    requires Nonempty(slots) && layout.capacity > 0
    ensures OverlapsAny(slots, layout) <==> !SharesWithNone(slots, layout)
  {
    forall i | 0 <= i < |slots| && slots[i].Some?
      ensures Overlap(layout, slots[i].value.layout) <==> SharesByte(layout, slots[i].value.layout)
    {
      OverlapIsShared(layout, slots[i].value.layout);
    }
  }

  lemma {:induction false} FreeSlotIff(slots: Slots, i: nat)
    requires i <= |slots| && forall k :: 0 <= k < i ==> slots[k].Some?
    ensures FreeSlot(slots, i) < |slots| <==> HasFree(slots)
    decreases |slots| - i
  {
    if i < |slots| && slots[i].Some? {
      FreeSlotIff(slots, i + 1);
    }
  }

  /** Everything a registration needs but memory that is nobody else's. */
  ghost predicate Registrable(s: RxState, c: Caller, layout: Layout, env: InsertEnv) {
    && Authorised(s, c) && !s.stale && s.serial != SERIAL_LIMIT && Usable(layout) && HasFree(s.slots)
    && env.haveMemory && env.mapping.Mapped? && env.submit == Success
  }

  /** The new registration: queued with the hardware under the next number. */
  ghost predicate Registered(s: RxState, t: RxState, layout: Layout, dio: nat, i: nat) {
    && i < |s.slots| && s.slots[i].None?
    && t == s.(serial := s.serial + 1, draws := s.draws + [ForId], mapped := s.mapped + {dio}, hw := s.hw + {dio},
               slots := s.slots[i := Some(Entry(s.serial + 1, s.generation, 0, layout, dio, s.epoch, Queued))])
  }

  /** A registration succeeds if and only if it shares no byte with a live one, given all else. */
  lemma RegistersIff(s: RxState, c: Caller, key: Key, env: InsertEnv)
    requires Inv(s)
    ensures var o := Insert(s, c, key, env);
      o.status == Success <==> Registrable(s, c, key.layout, env) && SharesWithNone(s.slots, key.layout)
    ensures var o := Insert(s, c, key, env);
      && (o.status == Success ==> Registered(s, o.s, key.layout, env.mapping.dio, FreeSlot(s.slots, 0)))
      && (Registrable(s, c, key.layout, env) && !SharesWithNone(s.slots, key.layout) ==> o == Outcome(s, InvArg))
  {
    FreeSlotIff(s.slots, 0);
    if key.layout.capacity > 0 {
      OverlapsAnyIsShared(s.slots, key.layout);
    }
  }

  // ---- fetch -------------------------------------------------------------------------

  /** The registration behind a completion, queued in the same capture epoch. */
  ghost predicate Delivers(s: RxState, i: int, dio: nat, epoch: nat) {
    && 0 <= i < |s.slots| && s.slots[i].Some? && s.slots[i].value.dio == dio
    && s.slots[i].value.state == Queued && s.slots[i].value.epoch == epoch
  }

  ghost predicate NothingBorrowed(slots: Slots) {
    forall i :: 0 <= i < |slots| && slots[i].Some? ==> slots[i].value.state != Borrowed
  }

  /** Slot i was lent: its sequence number is one higher, and the hardware has let go of it. */
  ghost predicate Lent(s: RxState, t: RxState, i: int) {
    && 0 <= i < |s.slots| && s.slots[i].Some?
    && t == s.(hw := s.hw - {s.slots[i].value.dio}, slots := s.slots[i := Some(
         s.slots[i].value.(sequence := s.slots[i].value.sequence + 1, state := Borrowed))])
  }

  /** A completed picture is lent exactly to the owner, one at a time, while nothing is stale. */
  lemma LendsIff(s: RxState, c: Caller, dio: nat, epoch: nat, ack: AckEnv)
    requires Inv(s) && dio in s.hw
    ensures var o := Fetch(s, c, Completed(dio, epoch, false), ack);
      o.status == Success <==>
        Authorised(s, c) && !s.stale && NothingBorrowed(s.slots) &&
        exists i :: Delivers(s, i, dio, epoch) && s.slots[i].value.sequence != SERIAL_LIMIT
    ensures var o := Fetch(s, c, Completed(dio, epoch, false), ack);
      o.status == Success ==> exists i :: Delivers(s, i, dio, epoch) && Lent(s, o.s, i)
  {
    if Authorised(s, c) && !s.stale && NothingBorrowed(s.slots) {
      QueuedHasEntry(s, dio);
      var i :| EntryAt(s.slots, i, dio);
      assert forall k :: EntryAt(s.slots, k, dio) ==> k == i;
      LendsEntry(s, i, dio, epoch, ack);
      assert Fetch(s, c, Completed(dio, epoch, false), ack) == FetchCompleted(s, dio, epoch, false, ack);
      assert forall k :: Delivers(s, k, dio, epoch) ==> k == i;
    }
  }

  lemma QueuedHasEntry(s: RxState, dio: nat)
    requires Inv(s) && dio in s.hw
    ensures exists i :: EntryAt(s.slots, i, dio)
  {
    assert QueuedAt(s.slots, dio);
    var i :| 0 <= i < |s.slots| && s.slots[i].Some? && s.slots[i].value.dio == dio && s.slots[i].value.state == Queued;
    assert EntryAt(s.slots, i, dio);
  }

  lemma LendsEntry(s: RxState, i: int, dio: nat, epoch: nat, ack: AckEnv)
    requires |s.slots| == SLOTS && EntryAt(s.slots, i, dio) && forall k :: EntryAt(s.slots, k, dio) ==> k == i
    ensures var o := FetchCompleted(s, dio, epoch, false, ack);
      && (o.status == Success <==> Delivers(s, i, dio, epoch) && s.slots[i].value.sequence != SERIAL_LIMIT)
      && (o.status == Success ==> Lent(s, o.s, i))
  {
    assert EntryAt(s.(hw := s.hw - {dio}).slots, i, dio);
  }

  /** A format change is acknowledged while capture goes on in the same epoch and the buffer is queued again. */
  ghost predicate Acknowledged(s: RxState, epoch: nat, ack: AckEnv) {
    !ack.interrupted && epoch == s.epoch && ack.capturing && ack.requeue == Success
  }

  /** Acknowledged, a format change leaves the registry as it is; otherwise its buffer is detached. */
  lemma AcknowledgesIff(s: RxState, c: Caller, i: int, dio: nat, epoch: nat, ack: AckEnv)
    requires Inv(s) && dio in s.hw && Authorised(s, c) && !s.stale && NothingBorrowed(s.slots)
    requires Delivers(s, i, dio, epoch)
    ensures var o := Fetch(s, c, Completed(dio, epoch, true), ack);
      if Acknowledged(s, epoch, ack) then o.s == s && (o.status == Success <==> ack.restart in {Success, NoData})
      else
        && o.status != Success
        && o.s == s.(hw := s.hw - {dio}, slots := s.slots[i := Some(s.slots[i].value.(state := Detached))])
  {
    var t := s.(hw := s.hw - {dio});
    assert EntryAt(t.slots, i, dio);
    assert forall k :: EntryAt(t.slots, k, dio) ==> k == i;
    assert Fetch(s, c, Completed(dio, epoch, true), ack) == FetchCompleted(s, dio, epoch, true, ack);
    assert FetchCompleted(s, dio, epoch, true, ack) == AckFormat(t, dio, epoch, ack);
    DetachIsSetState(s.slots, i);
    assert t.hw + {dio} == s.hw && t.hw - {dio} == t.hw;
  }

  // ---- returning a lease -------------------------------------------------------------

  /** The key is the lease that slot i is out on, number for number. */
  ghost predicate Leased(s: RxState, i: int, key: Key) {
    && 0 <= i < |s.slots| && s.slots[i].Some? && s.slots[i].value.state == Borrowed && key.borrowed
    && s.slots[i].value.id == key.id && s.slots[i].value.generation == key.generation
    && s.slots[i].value.sequence == key.sequence && s.slots[i].value.layout == key.layout
  }

  lemma OneId(s: RxState, i: int, id: nat)
    requires Inv(s) && IdAt(s.slots, i, id)
    ensures forall k :: IdAt(s.slots, k, id) ==> k == i
  {
  }

  /** A lease is reposted exactly by its owner, while the registry is current and the hardware takes it. */
  lemma RepostsIff(s: RxState, c: Caller, key: Key, env: ReturnEnv)
    requires Inv(s)
    ensures var o := Repost(s, c, key, env);
      o.status == Success <==>
        Authorised(s, c) && !s.stale && env.submit == Success && key.generation == s.generation &&
        exists i :: Leased(s, i, key) && s.slots[i].value.epoch == s.epoch
    ensures var o := Repost(s, c, key, env);
      if o.status == Success then
        exists i :: Leased(s, i, key) && o.s == s.(hw := s.hw + {s.slots[i].value.dio},
          slots := s.slots[i := Some(s.slots[i].value.(state := Queued))])
      else o.s == s
  {
    if exists i :: IdAt(s.slots, i, key.id) {
      var i :| IdAt(s.slots, i, key.id);
      OneId(s, i, key.id);
      assert forall k :: Leased(s, k, key) ==> k == i;
      assert Honours(s.slots[i].value, key) <==> Leased(s, i, key);
    } else {
      assert forall k :: Leased(s, k, key) ==> IdAt(s.slots, k, key.id);
    }
  }

  /** A lease is retired exactly by its owner, unless the device failed and is not quiet, or unmapping fails. */
  lemma RetiresIff(s: RxState, c: Caller, key: Key, env: ReturnEnv)
    requires Inv(s)
    ensures var o := Retire(s, c, key, env);
      o.status == Success <==>
        Authorised(s, c) && (env.faulted ==> env.quiesced) && env.unmap == Success && exists i :: Leased(s, i, key)
    ensures var o := Retire(s, c, key, env);
      if o.status == Success then
        exists i :: Leased(s, i, key) && o.s == s.(slots := s.slots[i := None],
          mapped := s.mapped - {s.slots[i].value.dio}, undone := s.undone + {s.slots[i].value.dio})
      else o.s == s.(stale := o.s.stale) && (s.stale ==> o.s.stale)
  {
    if exists i :: IdAt(s.slots, i, key.id) {
      var i :| IdAt(s.slots, i, key.id);
      OneId(s, i, key.id);
      assert forall k :: Leased(s, k, key) ==> k == i;
      assert Honours(s.slots[i].value, key) <==> Leased(s, i, key);
    } else {
      assert forall k :: Leased(s, k, key) ==> IdAt(s.slots, k, key.id);
    }
  }

  // ---- retiring everything -----------------------------------------------------------

  ghost predicate NoneRefuses(s: RxState, refuses: set<nat>) { s.mapped !! refuses }

  /** Mappings given back: everything live is undone, nothing else has changed but the slots. */
  ghost predicate GaveBack(s: RxState, o: Outcome, refuses: set<nat>) {
    && (o.status == Success <==> NoneRefuses(s, refuses))
    && (o.status == Success ==> o.s == s.(slots := o.s.slots, mapped := {}, undone := s.undone + s.mapped))
  }

  lemma GaveBackToo(s: RxState, t: RxState, o: Outcome, d: nat, refuses: set<nat>)
    requires d in s.mapped && d !in refuses && GaveBack(t, o, refuses)
    requires t == s.(slots := t.slots, mapped := s.mapped - {d}, undone := s.undone + {d})
    ensures GaveBack(s, o, refuses)
  {
    assert s.undone + {d} + (s.mapped - {d}) == s.undone + s.mapped;
    assert NoneRefuses(t, refuses) <==> NoneRefuses(s, refuses);
  }

  lemma {:induction false} UnmapsIff(s: RxState, i: nat, refuses: set<nat>)
    requires Inv(s) && i <= SLOTS && !AnyQueued(s.slots) && forall k :: 0 <= k < i ==> s.slots[k].None?
    ensures GaveBack(s, UnmapFrom(s, i, refuses), refuses)
    decreases SLOTS - i
  {
    if i == SLOTS {
      assert s.mapped == {} && s.undone + {} == s.undone;
    } else if s.slots[i].None? {
      UnmapsIff(s, i + 1, refuses);
    } else {
      var d := s.slots[i].value.dio;
      MappingAt(s.slots, i);
      if d !in refuses {
        ClearKeeps(s, i);
        var t := s.(slots := s.slots[i := None], mapped := s.mapped - {d}, undone := s.undone + {d});
        UnmapsIff(t, i + 1, refuses);
        GaveBackToo(s, t, UnmapFrom(t, i + 1, refuses), d, refuses);
      }
    }
  }

  lemma StopDetaches(s: RxState, epochMoved: bool)
    requires Inv(s)
    ensures !AnyQueued(StopCapture(s, true, epochMoved).slots)
  {
    var t := StopCapture(s, true, epochMoved);
    forall i | 0 <= i < |t.slots| && t.slots[i].Some? ensures t.slots[i].value.state != Queued {
      assert s.slots[i].Some?;
    }
  }

  /** The whole registry is retired exactly when capture stops and every mapping can be undone. */
  lemma RetiresAllIff(s: RxState, c: Caller, admitted: Status, env: StopEnv)
    requires Inv(s)
    ensures var o := RetireAll(s, c, admitted, env);
      o.status == Success <==>
        Authorised(s, c) && admitted == Success && env.stopped && NoneRefuses(s, env.refuses)
    ensures var o := RetireAll(s, c, admitted, env);
      o.status == Success ==>
        && o.s.published && o.s.hw == {} && o.s.mapped == {} && o.s.undone == s.undone + s.mapped
        && (forall e :: e in o.s.slots ==> e == None)
        && (if s.serial == SERIAL_LIMIT then o.s.stale
            else !o.s.stale && o.s.generation == s.serial + 1 == o.s.serial)
  {
    if env.stopped {
      var t := StopCapture(s, true, env.epochMoved);
      StopKeeps(s, true, env.epochMoved);
      StopDetaches(s, env.epochMoved);
      UnmapKeeps(t, 0, env.refuses);
      UnmapsIff(t, 0, env.refuses);
    }
  }
}
