/**
 * The retained-RX registry of driver/linux/crystalhd_cmds.c as a state machine: every
 * operation is a function of the state and of what the hardware layer answers.
 */
module RetainedRxModel {
  import opened Basics

  const SLOTS := 16        // BC_RX_LIST_CNT
  const MAX_OPENS := 3     // BC_LINK_MAX_OPENS
  const UINT_MAX := 0xFFFF_FFFF

  datatype Status = Success | InvArg | ErrUsage | InsuffRes | Busy | NotImpl | UserAbort | IoError | NoData | OtherError

  /** Detached is entry state 0: the packet left the core. */
  datatype EntryState = Detached | Queued | Borrowed

  datatype Layout = Layout(address: nat, capacity: nat, uvOffset: nat, format: nat)

  /** One registration; `dio` is the handle of its DMA mapping. */
  datatype Entry = Entry(id: nat, generation: nat, sequence: nat, layout: Layout, dio: nat, epoch: nat, state: EntryState)

  datatype Caller = Caller(fileOwner: nat, fileEpoch: nat, user: nat)

  /** What a number taken from the serial was used for; number n is draw n - 1. */
  datatype Serial = ForGeneration | ForId

  type Slots = seq<Option<Entry>>

  /**
   * `hw` holds the mappings owned by the RX queues, `mapped` the live DMA mappings,
   * `undone` those given back, `draws` how every number of the serial was used.
   */
  datatype RxState = RxState(
    published: bool, owner: Caller, generation: nat, stale: bool, slots: Slots,
    serial: nat, epoch: nat, legacy: nat, session: Option<nat>,
    hw: set<nat>, mapped: set<nat>, undone: set<nat>, draws: seq<Serial>, calls: set<nat>)

  /** crystalhd_setup_cmd_context: nothing registered, serial 0. */
  function Initial(): RxState {
    RxState(false, Caller(0, 0, 0), 0, false, seq(SLOTS, _ => None), 0, 0, 0, None, {}, {}, {}, [], {})
  }

  /** A registration request or lease as user space hands it in. */
  datatype Key = Key(id: nat, generation: nat, sequence: nat, layout: Layout, borrowed: bool, stateZero: bool)

  datatype Outcome = Outcome(s: RxState, status: Status)

  // ---- tables ----------------------------------------------------------------------

  ghost function Mappings(slots: Slots): set<nat> {
    set i | 0 <= i < |slots| && slots[i].Some? :: slots[i].value.dio
  }

  ghost predicate QueuedAt(slots: Slots, d: nat) {
    exists i :: 0 <= i < |slots| && slots[i].Some? && slots[i].value.dio == d && slots[i].value.state == Queued
  }

  ghost function SetState(slots: Slots, i: nat, st: EntryState): (r: Slots)
    requires i < |slots| && slots[i].Some?
    ensures |r| == |slots|
  {
    slots[i := Some(slots[i].value.(state := st))]
  }

  /** The release callback: the entry behind mapping d is no longer in the core. */
  ghost function DetachOne(slots: Slots, d: nat): (r: Slots)
    ensures |r| == |slots|
  {
    seq(|slots|, i requires 0 <= i < |slots| =>
      if slots[i].Some? && slots[i].value.dio == d then Some(slots[i].value.(state := Detached)) else slots[i])
  }

  ghost function DetachAll(slots: Slots, hw: set<nat>): (r: Slots)
    ensures |r| == |slots|
  {
    seq(|slots|, i requires 0 <= i < |slots| =>
      if slots[i].Some? && slots[i].value.dio in hw then Some(slots[i].value.(state := Detached)) else slots[i])
  }

  /** The hardware layer gives the buffer behind mapping d back through its callback. */
  ghost function Release(s: RxState, d: nat): RxState {
    s.(slots := DetachOne(s.slots, d), hw := s.hw - {d})
  }

  function FreeSlot(slots: Slots, i: nat): (f: nat)
    requires i <= |slots|
    ensures i <= f <= |slots| && (f < |slots| ==> slots[f].None?)
    decreases |slots| - i
  {
    if i == |slots| || slots[i].None? then i else FreeSlot(slots, i + 1)
  }

  predicate Overlap(a: Layout, b: Layout) {
    a.address < b.address + b.capacity && b.address < a.address + a.capacity
  }

  ghost predicate OverlapsAny(slots: Slots, layout: Layout) {
    exists i :: 0 <= i < |slots| && slots[i].Some? && Overlap(layout, slots[i].value.layout)
  }

  // ---- admission -------------------------------------------------------------------

  /** crystalhd_legacy_rx_enter; `call` names the caller inside the admission window. */
  function LegacyAllowed(s: RxState): bool { !s.published && s.legacy != UINT_MAX }

  function LegacyEnter(s: RxState, call: nat): RxState {
    if LegacyAllowed(s) then s.(legacy := s.legacy + 1, calls := s.calls + {call}) else s
  }

  function LegacyLeave(s: RxState, call: nat): RxState
    requires s.legacy > 0
  {
    s.(legacy := s.legacy - 1, calls := s.calls - {call})
  }

  /** crystalhd_retained_owner */
  predicate OwnedBy(s: RxState, c: Caller) {
    s.published && c.user < MAX_OPENS && c.fileOwner != 0 && c.fileEpoch != 0 &&
    s.owner == c && s.session == Some(c.user)
  }

  /** bc_cproc_check_inbuffs for a capture buffer. */
  function CheckLayout(l: Layout): Status {
    if l.address == 0 || l.capacity == 0 then InvArg
    else if l.address % 4 != 0 then NotImpl
    else if l.format == 0 && l.uvOffset == 0 then InvArg
    else if l.format != 0 && l.uvOffset != 0 then InvArg
    else Success
  }

  /** ++ctx->retained_rx_serial */
  function Draw(s: RxState, use: Serial): RxState {
    s.(serial := s.serial + 1, draws := s.draws + [use])
  }

  // ---- register --------------------------------------------------------------------

  predicate WellFormedRequest(c: Caller, key: Key) {
    && key.id == 0 && key.generation == 0 && key.sequence == 0 && key.stateZero
    && key.layout.address != 0 && key.layout.address + key.layout.capacity <= U64_MAX
    && c.fileOwner != 0 && c.fileEpoch != 0 && c.user < MAX_OPENS
  }

  /** The first half of REGISTER: publish a registry unless legacy RX is active. */
  function Publish(s: RxState, c: Caller, key: Key, haveMemory: bool, idle: bool): Outcome {
    if !WellFormedRequest(c, key) then Outcome(s, InvArg)
    else if s.session != Some(c.user) then Outcome(s, ErrUsage)
    else if s.published then Outcome(s, Success)
    else if s.serial == U64_MAX || !haveMemory then Outcome(s, InsuffRes)
    else if s.legacy != 0 || !idle then Outcome(s, Busy)
    else
      var d := Draw(s, ForGeneration);
      Outcome(d.(published := true, owner := c, generation := d.serial, stale := false), Success)
  }

  datatype MapResult = Mapped(dio: nat) | MapFailed(status: Status)

  /** Hardware answers while an entry is registered. */
  datatype InsertEnv = InsertEnv(haveMemory: bool, mapping: MapResult, submit: Status, unmap: Status)

  ghost predicate FreshMapping(s: RxState, m: MapResult) {
    m.Mapped? ==> m.dio !in s.mapped && m.dio !in s.undone && m.dio !in s.hw
  }

  ghost function NewEntry(s: RxState, layout: Layout, dio: nat): Entry {
    Entry(s.serial + 1, s.generation, 0, layout, dio, s.epoch, Queued)
  }

  /** The second half of REGISTER: map, enter in a slot, hand to the hardware, undo on failure. */
  ghost function Insert(s: RxState, c: Caller, key: Key, env: InsertEnv): Outcome
    requires |s.slots| == SLOTS
  {
    if !OwnedBy(s, c) || s.stale then Outcome(s, ErrUsage)
    else if s.serial == U64_MAX then Outcome(s, InsuffRes)
    else if CheckLayout(key.layout) != Success then Outcome(s, CheckLayout(key.layout))
    else if OverlapsAny(s.slots, key.layout) then Outcome(s, InvArg)
    else
      var i := FreeSlot(s.slots, 0);
      if i == SLOTS || !env.haveMemory then Outcome(s, InsuffRes)
      else match env.mapping
        case MapFailed(status) => Outcome(s, if status == Success then OtherError else status)
        case Mapped(dio) =>
          var e := NewEntry(s, key.layout, dio);
          var d := Draw(s, ForId).(slots := s.slots[i := Some(e)], mapped := s.mapped + {dio});
          if env.submit == Success then Outcome(d.(hw := d.hw + {dio}), Success)
          else if env.unmap == Success then
            Outcome(d.(slots := s.slots, mapped := s.mapped, undone := s.undone + {dio}), env.submit)
          else Outcome(d.(slots := SetState(d.slots, i, Detached), stale := true), IoError)
  }

  // ---- fetch -----------------------------------------------------------------------

  /** A completed buffer: its mapping, the epoch it was queued in, and a format change mark. */
  datatype Dequeue =
    | Nothing(status: Status)
    | Dropped(dio: nat, status: Status)
    | Completed(dio: nat, epoch: nat, formatChange: bool)

  /** crystalhd_rx_ack_format: interrupted, capture still on, and what requeueing answers. */
  datatype AckEnv = AckEnv(interrupted: bool, capturing: bool, requeue: Status, restart: Status)

  ghost predicate DequeueContract(s: RxState, d: Dequeue) {
    match d
    case Nothing(status) => status != Success
    case Dropped(dio, status) => dio in s.hw && status != Success
    case Completed(dio, _, _) => dio in s.hw
  }

  ghost predicate EntryAt(slots: Slots, i: int, d: nat) {
    0 <= i < |slots| && slots[i].Some? && slots[i].value.dio == d
  }

  ghost predicate SomeBorrowed(slots: Slots) {
    exists i :: 0 <= i < |slots| && slots[i].Some? && slots[i].value.state == Borrowed
  }

  /** `s` no longer has the buffer in a queue; on success it is queued again. */
  ghost function AckFormat(s: RxState, d: nat, epoch: nat, env: AckEnv): Outcome {
    if env.interrupted || epoch != s.epoch || !env.capturing then Outcome(Release(s, d), UserAbort)
    else if env.requeue != Success then Outcome(Release(s, d), env.requeue)
    else Outcome(s.(hw := s.hw + {d}), if env.restart == NoData then Success else env.restart)
  }

  ghost function FetchCompleted(s: RxState, d: nat, epoch: nat, formatChange: bool, ack: AckEnv): Outcome {
    var t := s.(hw := s.hw - {d});
    if !exists i :: EntryAt(t.slots, i, d) then Outcome(Release(t, d).(stale := true), IoError)
    else
      var i :| EntryAt(t.slots, i, d);
      FetchEntry(t, i, d, epoch, formatChange, ack)
  }

  /** The entry behind a completion: lent, acknowledged, or found out of step. */
  ghost function FetchEntry(t: RxState, i: nat, d: nat, epoch: nat, formatChange: bool, ack: AckEnv): Outcome
    requires EntryAt(t.slots, i, d)
  {
    var e := t.slots[i].value;
    if e.state != Queued || epoch != e.epoch then Outcome(Release(t, d).(stale := true), IoError)
    else if formatChange then AckFormat(t, d, epoch, ack)
    else if e.sequence == U64_MAX then Outcome(t.(slots := SetState(t.slots, i, Detached), stale := true), IoError)
    else Outcome(t.(slots := t.slots[i := Some(e.(sequence := e.sequence + 1, state := Borrowed))]), Success)
  }

  ghost function Fetch(s: RxState, c: Caller, deq: Dequeue, ack: AckEnv): Outcome {
    if !OwnedBy(s, c) then Outcome(s, ErrUsage)
    else if s.stale then Outcome(s, UserAbort)
    else if SomeBorrowed(s.slots) then Outcome(s, Busy)
    else match deq
      case Nothing(status) => Outcome(s, status)
      case Dropped(dio, status) => Outcome(Release(s, dio), status)
      case Completed(dio, epoch, formatChange) => FetchCompleted(s, dio, epoch, formatChange, ack)
  }

  // ---- returning a lease -----------------------------------------------------------

  datatype ReturnEnv = ReturnEnv(faulted: bool, quiesced: bool, submit: Status, unmap: Status)

  ghost predicate IdAt(slots: Slots, i: int, id: nat) {
    0 <= i < |slots| && slots[i].Some? && slots[i].value.id == id
  }

  /** The lease a key names is the one the entry is out on. */
  predicate Honours(e: Entry, key: Key) {
    && key.generation == e.generation && key.sequence == e.sequence && key.layout == e.layout
    && key.borrowed && e.state == Borrowed
  }

  ghost function Retire(s: RxState, c: Caller, key: Key, env: ReturnEnv): Outcome {
    if !OwnedBy(s, c) then Outcome(s, ErrUsage)
    else if !exists i :: IdAt(s.slots, i, key.id) then Outcome(s, InvArg)
    else
      var i :| IdAt(s.slots, i, key.id);
      var e := s.slots[i].value;
      if !Honours(e, key) then Outcome(s, InvArg)
      else if env.faulted && !env.quiesced then Outcome(s, IoError)
      else if env.unmap != Success then Outcome(s.(stale := true), env.unmap)
      else Outcome(s.(slots := s.slots[i := None], mapped := s.mapped - {e.dio}, undone := s.undone + {e.dio}), Success)
  }

  ghost function Repost(s: RxState, c: Caller, key: Key, env: ReturnEnv): Outcome {
    if !OwnedBy(s, c) then Outcome(s, ErrUsage)
    else if !exists i :: IdAt(s.slots, i, key.id) then Outcome(s, InvArg)
    else
      var i :| IdAt(s.slots, i, key.id);
      var e := s.slots[i].value;
      if !Honours(e, key) then Outcome(s, InvArg)
      else if s.stale || e.epoch != s.epoch || key.generation != s.generation then Outcome(s, UserAbort)
      else if env.submit != Success then Outcome(s, env.submit)
      else Outcome(s.(slots := SetState(s.slots, i, Queued), hw := s.hw + {e.dio}), Success)
  }

  // ---- retiring everything ---------------------------------------------------------

  /** crystalhd_hw_stop_capture_locked(unmap): releases every queued buffer or keeps them all. */
  ghost function StopCapture(s: RxState, stopped: bool, epochMoved: bool): RxState {
    var t := if stopped || epochMoved then s.(epoch := s.epoch + 1) else s;
    if stopped then t.(slots := DetachAll(t.slots, t.hw), hw := {}) else t
  }

  ghost predicate AnyQueued(slots: Slots) {
    exists i :: 0 <= i < |slots| && slots[i].Some? && slots[i].value.state == Queued
  }

  /** Slots i to 15, unmapped one by one until a mapping refuses. */
  ghost function UnmapFrom(s: RxState, i: nat, refuses: set<nat>): Outcome
    requires i <= |s.slots|
    decreases |s.slots| - i
  {
    if i == |s.slots| then Outcome(s, Success)
    else if s.slots[i].None? then UnmapFrom(s, i + 1, refuses)
    else
      var d := s.slots[i].value.dio;
      if d in refuses then Outcome(s, IoError)
      else UnmapFrom(s.(slots := s.slots[i := None], mapped := s.mapped - {d}, undone := s.undone + {d}), i + 1, refuses)
  }

  /** crystalhd_retained_cleanup */
  ghost function Cleanup(s: RxState, destroy: bool, refuses: set<nat>): Outcome {
    if !s.published then Outcome(s, Success)
    else if AnyQueued(s.slots) then Outcome(s, IoError)
    else
      var o := UnmapFrom(s, 0, refuses);
      if o.status != Success then o
      else if destroy then Outcome(o.s.(published := false), Success)
      else if o.s.serial == U64_MAX then Outcome(o.s.(stale := true), Success)
      else
        var d := Draw(o.s, ForGeneration);
        Outcome(d.(stale := false, generation := d.serial), Success)
  }

  /** What the hardware layer answers to a stop, and which mappings refuse to be undone. */
  datatype StopEnv = StopEnv(stopped: bool, epochMoved: bool, refuses: set<nat>)

  ghost function RetireAll(s: RxState, c: Caller, admitted: Status, env: StopEnv): Outcome {
    if !OwnedBy(s, c) then Outcome(s, ErrUsage)
    else if admitted != Success then Outcome(s, admitted)
    else
      var t := StopCapture(s, env.stopped, env.epochMoved);
      if !env.stopped then Outcome(t.(stale := true), IoError)
      else
        var o := Cleanup(t, false, env.refuses);
        if o.status == Success then o else Outcome(o.s.(stale := true), IoError)
  }

  /** Session end: capture stopped, then the registry destroyed (crystalhd_retire_hw_context). */
  ghost function Teardown(s: RxState, env: StopEnv): Outcome {
    var t := StopCapture(s, env.stopped, env.epochMoved);
    if !env.stopped then Outcome(t, IoError) else Cleanup(t, true, env.refuses)
  }

  /** crystalhd_suspend revokes borrow authority first. */
  function Suspend(s: RxState): RxState {
    if s.published then s.(stale := true) else s
  }

  /** What a flush finds: an interrupted wait, capture enabled, a session not yet started, the restart's answer. */
  datatype FlushEnv = FlushEnv(interrupted: bool, capturing: bool, initial: bool, restart: Status)

  /** crystalhd_capture_flush: nobody's ownership is asked for. A discard unmaps nothing. */
  ghost function Flush(s: RxState, discard: bool, f: FlushEnv, env: StopEnv): Outcome {
    if f.interrupted then Outcome(s, UserAbort)
    else if !f.capturing && (discard || !f.initial) then Outcome(s, ErrUsage)
    else if discard then Outcome(s, if f.restart == NoData then Success else f.restart)
    else
      var t := StopCapture(s, env.stopped, env.epochMoved);
      if !env.stopped then Outcome(Suspend(t), IoError)
      else
        var o := Cleanup(t, false, env.refuses);
        if o.status == Success then o else Outcome(Suspend(o.s), IoError)
  }

  /** crystalhd_rx_retire_quiesced: DMA is off, so every queue gives its buffers back. */
  ghost function RetireQuiesced(s: RxState, kept: bool, refuses: set<nat>): RxState {
    if kept then s
    else
      var o := Cleanup(StopCapture(s, true, true), false, refuses);
      if o.status == Success then o.s else Suspend(o.s)
  }

  /** crystalhd_rx_pause_metadata_idle, once the inventory is found idle. */
  function PauseIdle(s: RxState, idle: bool): RxState {
    if idle then Suspend(s.(epoch := s.epoch + 1)) else s
  }

  // ---- runs ------------------------------------------------------------------------

  /**
   * The atomic steps, in any interleaving. The two halves of REGISTER are separate steps:
   * legacy RX only takes ctx_lock, so it can run between them.
   */
  datatype Event =
    | LegacyEnterEvent(call: nat)
    | LegacyLeaveEvent(call: nat)
    | SessionEvent(session: Option<nat>)
    | PublishEvent(caller: Caller, key: Key, haveMemory: bool, quiet: bool)
    | InsertEvent(caller: Caller, key: Key, insert: InsertEnv)
    | FetchEvent(caller: Caller, deq: Dequeue, ack: AckEnv)
    | RepostEvent(caller: Caller, key: Key, ret: ReturnEnv)
    | RetireEvent(caller: Caller, key: Key, ret: ReturnEnv)
    | RetireAllEvent(caller: Caller, admitted: Status, stop: StopEnv)
    | TeardownEvent(stop: StopEnv)
    | SuspendEvent
    | FlushEvent(discard: bool, flush: FlushEnv, stop: StopEnv)
    | QuiesceEvent(kept: bool, refuses: set<nat>)
    | PauseIdleEvent(idle: bool)

  /** What callers and the hardware layer owe the driver. */
  ghost predicate Allowed(s: RxState, e: Event) {
    match e
    case LegacyEnterEvent(call) => call !in s.calls
    case LegacyLeaveEvent(call) => call in s.calls
    case InsertEvent(_, _, env) => FreshMapping(s, env.mapping)
    case FetchEvent(_, deq, _) => DequeueContract(s, deq)
    case _ => true
  }

  ghost function Apply(s: RxState, e: Event): Outcome
    requires |s.slots| == SLOTS && s.legacy == |s.calls|
    requires Allowed(s, e)
  {
    match e
    case LegacyEnterEvent(call) => Outcome(LegacyEnter(s, call), if LegacyAllowed(s) then Success else ErrUsage)
    case LegacyLeaveEvent(call) => Outcome(LegacyLeave(s, call), Success)
    case SessionEvent(session) => Outcome(s.(session := session), Success)
    case PublishEvent(c, key, haveMemory, quiet) => Publish(s, c, key, haveMemory, quiet)
    case InsertEvent(c, key, env) => Insert(s, c, key, env)
    case FetchEvent(c, deq, ack) => Fetch(s, c, deq, ack)
    case RepostEvent(c, key, env) => Repost(s, c, key, env)
    case RetireEvent(c, key, env) => Retire(s, c, key, env)
    case RetireAllEvent(c, admitted, env) => RetireAll(s, c, admitted, env)
    case TeardownEvent(env) => Teardown(s, env)
    case SuspendEvent => Outcome(Suspend(s), Success)
    case FlushEvent(discard, flush, env) => Flush(s, discard, flush, env)
    case QuiesceEvent(kept, refuses) => Outcome(RetireQuiesced(s, kept, refuses), Success)
    case PauseIdleEvent(idle) => Outcome(PauseIdle(s, idle), Success)
  }
}
