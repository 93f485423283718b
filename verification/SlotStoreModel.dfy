/**
 * The private slot store (scripts/native-runtime-slots.py): which slots are retained, which
 * is active, which one a rollback returns to, and removal that may be finished later.
 */
module SlotStoreModel {
  import opened Basics

  /** A slot is named by its archive's digest. */
  type Slot = string

  const MAX_SLOTS := 16

  datatype Pending = Pending(name: string, entries: set<Slot>)

  /** state.json, replaced as one leaf. */
  datatype Selection = Selection(active: Option<Slot>, previous: Option<Slot>, slots: set<Slot>, pending: Option<Pending>)

  /** The record, the directories under slots/, and the .remove- directories. */
  datatype Store = Store(disk: Selection, dirs: set<Slot>, trash: map<string, set<Slot>>)

  function Created(): Store { Store(Selection(None, None, {}, None), {}, map[]) }

  /** A step works, raises without effect, or raises (an interrupt) after its effect. */
  datatype Outcome = Done | FailedBefore | FailedAfter

  datatype Executed = Executed(store: Store, ok: bool)

  // ---- what locked_store insists on --------------------------------------------------

  predicate Admissible(s: Store) {
    && |s.disk.slots| <= MAX_SLOTS && s.dirs == s.disk.slots
    && (s.disk.active.Some? ==> s.disk.active.value in s.disk.slots)
    && (s.disk.previous.Some? ==> s.disk.previous.value in s.disk.slots)
    && (s.disk.active.None? || s.disk.active != s.disk.previous)
    && (s.disk.pending.Some? ==> s.disk.pending.value.entries != {})
    && forall name :: name in s.trash ==> s.disk.pending.Some? && name == s.disk.pending.value.name
  }

  /** What the operations keep beyond that. */
  predicate Inv(s: Store) {
    && Admissible(s)
    && (s.disk.previous.Some? ==> s.disk.active.Some?)
    && (s.disk.pending.Some? ==> s.disk.slots == {})
    && forall name :: name in s.trash ==> s.disk.pending.Some? && s.trash[name] <= s.disk.pending.value.entries
  }

  // ---- install and update ------------------------------------------------------------

  /** prepared: extracted and audited; rereads and removes are the handler's own steps. */
  datatype InstallFaults = InstallFaults(prepared: bool, rename: Outcome, write: Outcome, rereads: bool, removes: bool)

  function Selected(d: Selection, slot: Slot): Selection {
    d.(active := Some(slot), previous := d.active, slots := d.slots + {slot})
  }

  /** publish-selection: the candidate moves in, then the record names it. */
  function Publish(s: Store, slot: Slot, f: InstallFaults): Executed {
    var moved := s.(dirs := s.dirs + {slot});
    match f.rename
    case FailedBefore => Executed(s, false)
    case FailedAfter => Executed(moved, false)
    case Done =>
      match f.write
      case Done => Executed(moved.(disk := Selected(s.disk, slot)), true)
      case FailedAfter => Executed(moved.(disk := Selected(s.disk, slot)), false)
      case FailedBefore =>
        if f.rereads && f.removes then Executed(moved.(dirs := moved.dirs - {slot}), false) else Executed(moved, false)
  }

  predicate InstallAdmitted(s: Store, update: bool, slot: Slot) {
    && s.disk.pending.None? && s.disk.active.Some? == update
    && slot !in s.disk.slots && |s.disk.slots| < MAX_SLOTS
  }

  function Install(s: Store, update: bool, slot: Slot, f: InstallFaults): Executed {
    if !InstallAdmitted(s, update, slot) || !f.prepared then Executed(s, false) else Publish(s, slot, f)
  }

  // ---- rollback ----------------------------------------------------------------------

  function Swapped(d: Selection): Selection { d.(active := d.previous, previous := d.active) }

  function Rollback(s: Store, audited: bool, write: Outcome): Executed {
    if s.disk.pending.Some? || s.disk.previous.None? || !audited || write.FailedBefore? then Executed(s, false)
    else Executed(s.(disk := Swapped(s.disk)), write.Done?)
  }

  // ---- removal -----------------------------------------------------------------------

  /** A removal directory checked, deleted down to `left`, and the record cleared. */
  datatype CleanFaults = CleanFaults(matches: bool, deletes: bool, left: set<Slot>, write: Outcome)

  /** finish_pending_removal */
  function FinishPending(s: Store, f: CleanFaults): Executed {
    if s.disk.pending.None? then Executed(s, true)
    else
      var name := s.disk.pending.value.name;
      if name in s.trash && !f.matches then Executed(s, false)
      else if name in s.trash && !f.deletes then Executed(s.(trash := s.trash[name := s.trash[name] * f.left]), false)
      else
        var t := s.(trash := s.trash - {name});
        if f.write.FailedBefore? then Executed(t, false)
        else Executed(t.(disk := t.disk.(pending := None)), f.write.Done?)
  }

  /** How many leading slots move before one raises. */
  function MovedCount(moves: seq<Outcome>): (n: nat)
    ensures n <= |moves| && (n < |moves| ==> !moves[n].Done?)
    ensures forall k :: 0 <= k < n ==> moves[k].Done?
  {
    if moves == [] || !moves[0].Done? then 0 else MovedCount(moves[1..]) + 1
  }

  function Elements(order: seq<Slot>): set<Slot> { set k | k in order }

  /** The slots that are gone from slots/ when the n-th move raised. */
  function Gone(order: seq<Slot>, moves: seq<Outcome>): set<Slot>
    requires |moves| == |order|
  {
    var n := MovedCount(moves);
    Elements(order[..n]) + (if n < |moves| && moves[n].FailedAfter? then {order[n]} else {})
  }

  /**
   * owned: the payload is unchanged; fits: the receipt is small enough; undoes: the
   * handler reads the record and moves everything it knows of back; clears: the finally
   * clause removes an empty directory.
   */
  datatype RemoveFaults = RemoveFaults(
    first: CleanFaults, owned: bool, mkdir: Outcome, fits: bool, moves: seq<Outcome>,
    write: Outcome, undoes: bool, clears: bool, second: CleanFaults)

  function Unselected(d: Selection, name: string): Selection {
    Selection(None, None, {}, Some(Pending(name, d.slots)))
  }

  /** The removal directory, removed if it is empty. */
  function DropEmpty(s: Store, name: string, clears: bool): Store {
    if name in s.trash && s.trash[name] == {} && clears then s.(trash := s.trash - {name}) else s
  }

  /** What the handler leaves when moving or recording raised without being recorded. */
  function Undone(s: Store, name: string, order: seq<Slot>, f: RemoveFaults): Store
    requires |f.moves| == |order|
  {
    var gone, known := Gone(order, f.moves), Elements(order[..MovedCount(f.moves)]);
    var lost := if f.undoes then gone - known else gone;
    s.(dirs := s.dirs - lost, trash := s.trash[name := lost])
  }

  /** unselect-owned-payload, with the directory already made. */
  function Unselect(s: Store, name: string, order: seq<Slot>, f: RemoveFaults): Executed
    requires |f.moves| == |order|
  {
    if MovedCount(f.moves) < |order| || f.write.FailedBefore? then Executed(Undone(s, name, order, f), false)
    else
      Executed(s.(disk := Unselected(s.disk, name), dirs := s.dirs - Elements(order),
                  trash := s.trash[name := Elements(order)]), f.write.Done?)
  }

  function RemoveSlots(s: Store, name: string, order: seq<Slot>, f: RemoveFaults): Executed
    requires |f.moves| == |order|
  {
    if f.mkdir.FailedBefore? then Executed(s, false)
    else if f.mkdir.FailedAfter? then Executed(s.(trash := s.trash[name := {}]), false)
    else if !f.fits then Executed(DropEmpty(s.(trash := s.trash[name := {}]), name, f.clears), false)
    else
      var u := Unselect(s, name, order, f);
      if !u.ok then Executed(DropEmpty(u.store, name, f.clears), false)
      else
        var c := FinishPending(u.store, f.second);
        Executed(DropEmpty(c.store, name, f.clears), c.ok)
  }

  /** remove; `order` is the order the record lists its slots in, `name` a fresh directory. */
  function Remove(s: Store, name: string, order: seq<Slot>, f: RemoveFaults): Executed
    requires |f.moves| == |order|
  {
    var c := FinishPending(s, f.first);
    if !c.ok || !f.owned then Executed(c.store, false)
    else if c.store.disk.slots == {} then Executed(c.store, true)
    else RemoveSlots(c.store, name, order, f)
  }

  // ---- commands ----------------------------------------------------------------------

  datatype Command =
    | InstallCommand(update: bool, slot: Slot, install: InstallFaults)
    | RollbackCommand(audited: bool, write: Outcome)
    | RemoveCommand(name: string, order: seq<Slot>, remove: RemoveFaults)

  ghost predicate Lists(order: seq<Slot>, slots: set<Slot>) {
    Elements(order) == slots && forall i, j :: 0 <= i < j < |order| ==> order[i] != order[j]
  }

  /** A removal lists the recorded slots once each, and its directory is new. */
  ghost predicate WellFormed(s: Store, c: Command) {
    c.RemoveCommand? ==>
      && |c.remove.moves| == |c.order| && Lists(c.order, s.disk.slots)
      && c.name !in s.trash && (s.disk.pending.Some? ==> c.name != s.disk.pending.value.name)
  }

  /** execute: nothing is done to a store that is not admissible. */
  function Execute(s: Store, c: Command): Executed
    requires c.RemoveCommand? ==> |c.remove.moves| == |c.order|
  {
    if !Admissible(s) then Executed(s, false)
    else
      match c
      case InstallCommand(update, slot, f) => Install(s, update, slot, f)
      case RollbackCommand(audited, write) => Rollback(s, audited, write)
      case RemoveCommand(name, order, f) => Remove(s, name, order, f)
  }
}
