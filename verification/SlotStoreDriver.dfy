/**
 * execute and finish_pending_removal (scripts/native-runtime-slots.py), renaming directories
 * and replacing the record step by step; each method refines its function in SlotStoreModel.
 */
module SlotStoreDriver {
  import opened Basics
  import opened SlotStoreModel

  class SlotStore {
    var disk: Selection
    var dirs: set<Slot>
    var trash: map<string, set<Slot>>

    function View(): Store
      reads this
    {
      Store(disk, dirs, trash)
    }

    constructor ()
      ensures View() == Created()
    {
      disk, dirs, trash := Selection(None, None, {}, None), {}, map[];
    }

    // ---- primitives ------------------------------------------------------------------

    /** Path.rename of a directory into slots/. */
    method MoveIn(slot: Slot, outcome: Outcome) returns (ok: bool)
      modifies this`dirs
      ensures dirs == if outcome.FailedBefore? then old(dirs) else old(dirs) + {slot}
      ensures ok == outcome.Done?
    {
      if outcome != FailedBefore {
        dirs := dirs + {slot};
      }
      ok := outcome == Done;
    }

    /** Path.rename of a slot into a removal directory. */
    method MoveOut(slot: Slot, name: string, outcome: Outcome) returns (ok: bool)
      requires name in trash
      modifies this`dirs, this`trash
      ensures dirs == if outcome.FailedBefore? then old(dirs) else old(dirs) - {slot}
      ensures trash == if outcome.FailedBefore? then old(trash) else old(trash)[name := old(trash)[name] + {slot}]
      ensures ok == outcome.Done?
    {
      if outcome != FailedBefore {
        dirs := dirs - {slot};
        trash := trash[name := trash[name] + {slot}];
      }
      ok := outcome == Done;
    }

    /** write_state: one leaf replacement. */
    method WriteState(value: Selection, outcome: Outcome) returns (ok: bool)
      modifies this`disk
      ensures disk == if outcome.FailedBefore? then old(disk) else value
      ensures ok == outcome.Done?
    {
      if outcome != FailedBefore {
        disk := value;
      }
      ok := outcome == Done;
    }

    // ---- install, update, rollback ---------------------------------------------------

    method InstallSlot(update: bool, slot: Slot, f: InstallFaults) returns (ok: bool)
      modifies this
      ensures Executed(View(), ok) == Install(old(View()), update, slot, f)
    {
      if disk.pending.Some? || disk.active.Some? != update || slot in disk.slots || |disk.slots| >= MAX_SLOTS {
        return false;
      }
      if !f.prepared {
        return false;
      }
      var state := disk;
      ok := MoveIn(slot, f.rename);
      if !ok {
        return;
      }
      var updated := state.(active := Some(slot), previous := state.active, slots := state.slots + {slot});
      ok := WriteState(updated, f.write);
      if !ok && f.rereads && disk == state && f.removes {
        dirs := dirs - {slot};
      }
    }

    method RollbackSlot(audited: bool, write: Outcome) returns (ok: bool)
      modifies this`disk
      ensures Executed(View(), ok) == Rollback(old(View()), audited, write)
    {
      if disk.pending.Some? || disk.previous.None? || !audited {
        return false;
      }
      ok := WriteState(disk.(active := disk.previous, previous := disk.active), write);
    }

    // ---- removal ---------------------------------------------------------------------

    method FinishPendingRemoval(f: CleanFaults) returns (ok: bool)
      modifies this`disk, this`trash
      ensures Executed(View(), ok) == FinishPending(old(View()), f)
    {
      if disk.pending.None? {
        return true;
      }
      var name := disk.pending.value.name;
      if name in trash {
        if !f.matches {
          return false;
        }
        if !f.deletes {
          trash := trash[name := trash[name] * f.left];
          return false;
        }
        trash := trash - {name};
      }
      assert trash == old(trash) - {name};
      ok := WriteState(disk.(pending := None), f.write);
    }

    /** The slots moved away one by one, and those the handler would know of. */
    method MoveAll(name: string, order: seq<Slot>, moves: seq<Outcome>) returns (ok: bool, moved: nat)
      requires |moves| == |order| && name in trash && trash[name] == {}
      modifies this`dirs, this`trash
      ensures moved == MovedCount(moves) && ok == (moved == |order|)
      ensures dirs == old(dirs) - Gone(order, moves)
      ensures trash == old(trash)[name := Gone(order, moves)]
    {
      moved := 0;
      assert Elements(order[..0]) == {};
      while moved < |order|
        invariant 0 <= moved <= |order|
        invariant MovedCount(moves) == moved + MovedCount(moves[moved..])
        invariant dirs == old(dirs) - Elements(order[..moved])
        invariant trash == old(trash)[name := Elements(order[..moved])]
      {
        assert moves[moved..][1..] == moves[moved + 1..];
        MovedMore(order, moved);
        ok := MoveOut(order[moved], name, moves[moved]);
        if !ok {
          assert Gone(order, moves) == Elements(order[..moved]) + if moves[moved].FailedAfter? then {order[moved]} else {};
          assert dirs == old(dirs) - Gone(order, moves);
          assert trash[name] == Gone(order, moves) && trash == old(trash)[name := trash[name]];
          return;
        }
        moved := moved + 1;
      }
      assert moves[moved..] == [];
      assert Gone(order, moves) == Elements(order[..moved]);
      ok := true;
    }

    /** The handler: what it knows of goes back, in reverse. */
    method MoveBack(name: string, order: seq<Slot>, moved: nat, ghost lost: set<Slot>)
      requires moved <= |order| && name in trash && trash[name] == Elements(order[..moved]) + lost
      requires lost !! Elements(order[..moved])
      requires forall i, j :: 0 <= i < j < |order| ==> order[i] != order[j]
      modifies this`dirs, this`trash
      ensures dirs == old(dirs) + Elements(order[..moved]) && trash == old(trash)[name := lost]
    {
      var k := moved;
      while k > 0
        invariant 0 <= k <= moved
        invariant name in trash && trash == old(trash)[name := Elements(order[..k]) + lost]
        invariant dirs + Elements(order[..k]) == old(dirs) + Elements(order[..moved])
      {
        k := k - 1;
        MovedMore(order, k);
        Distinct(order, k);
        assert order[k] in Elements(order[..moved]) by { assert order[..moved][k] == order[k]; }
        assert Elements(order[..k + 1]) + lost - {order[k]} == Elements(order[..k]) + lost;
        dirs := dirs + {order[k]};
        trash := trash[name := trash[name] - {order[k]}];
      }
      assert Elements(order[..0]) == {};
      assert {} + lost == lost;
    }

    /** unselect-owned-payload: move everything, then record it, or undo what is known. */
    method UnselectPayload(name: string, order: seq<Slot>, f: RemoveFaults) returns (ok: bool)
      requires |f.moves| == |order| && name in trash && trash[name] == {} && Elements(order) <= dirs
      requires disk.pending.None?
      requires forall i, j :: 0 <= i < j < |order| ==> order[i] != order[j]
      modifies this
      ensures Executed(View(), ok) == Unselect(old(View()), name, order, f)
    {
      var state := disk;
      ghost var before := dirs;
      var moved;
      ok, moved := MoveAll(name, order, f.moves);
      if ok {
        assert order[..moved] == order && Gone(order, f.moves) == Elements(order);
        ok := WriteState(Unselected(state, name), f.write);
        if disk != state {
          return;
        }
      }
      if f.undoes {
        ghost var lost := Gone(order, f.moves) - Elements(order[..moved]);
        LostIsUnknown(order, f.moves);
        MoveBack(name, order, moved, lost);
        assert dirs == before - lost;
      }
    }

    /** The finally clause: an empty removal directory goes. */
    method DropIfEmpty(name: string, clears: bool)
      modifies this`trash
      ensures View() == DropEmpty(old(View()), name, clears)
    {
      if name in trash && trash[name] == {} && clears {
        trash := trash - {name};
      }
    }

    method RemoveRecorded(name: string, order: seq<Slot>, f: RemoveFaults) returns (ok: bool)
      requires |f.moves| == |order| && name !in trash && Elements(order) <= dirs && disk.pending.None?
      requires forall i, j :: 0 <= i < j < |order| ==> order[i] != order[j]
      modifies this
      ensures Executed(View(), ok) == RemoveSlots(old(View()), name, order, f)
    {
      if f.mkdir == FailedBefore {
        return false;
      }
      ghost var s := View();
      trash := trash[name := {}];
      if f.mkdir == FailedAfter {
        return false;
      }
      ok := f.fits;
      if ok {
        UnselectSame(s, name, order, f);
        ok := UnselectPayload(name, order, f);
        if ok {
          ok := FinishPendingRemoval(f.second);
        }
      }
      DropIfEmpty(name, f.clears);
    }

    /** remove */
    method RemoveAll(name: string, order: seq<Slot>, f: RemoveFaults) returns (ok: bool)
      requires |f.moves| == |order| && Lists(order, disk.slots) && dirs == disk.slots
      requires name !in trash
      modifies this
      ensures Executed(View(), ok) == Remove(old(View()), name, order, f)
    {
      ok := FinishPendingRemoval(f.first);
      if !ok {
        return;
      }
      if !f.owned {
        return false;
      }
      if disk.slots == {} {
        return true;
      }
      ok := RemoveRecorded(name, order, f);
    }

    /** execute, once the store's lock is held: an inadmissible store is left alone. */
    method ExecuteCommand(c: Command) returns (ok: bool)
      requires WellFormed(View(), c)
      modifies this
      ensures Executed(View(), ok) == Execute(old(View()), c)
    {
      if !Admissible(View()) {
        return false;
      }
      match c
      case InstallCommand(update, slot, f) => ok := InstallSlot(update, slot, f);
      case RollbackCommand(audited, write) => ok := RollbackSlot(audited, write);
      case RemoveCommand(name, order, f) => ok := RemoveAll(name, order, f);
    }
  }

  lemma SetTwice(m: map<string, set<Slot>>, name: string, x: set<Slot>, y: set<Slot>)
    ensures m[name := x][name := y] == m[name := y]
  {
  }

  lemma UnselectSame(s: Store, name: string, order: seq<Slot>, f: RemoveFaults)
    requires |f.moves| == |order|
    ensures Unselect(s.(trash := s.trash[name := {}]), name, order, f) == Unselect(s, name, order, f)
  {
    var t := s.(trash := s.trash[name := {}]);
    SetTwice(s.trash, name, {}, Elements(order));
    SetTwice(s.trash, name, {}, Undone(s, name, order, f).trash[name]);
    assert Undone(t, name, order, f) == Undone(s, name, order, f);
  }

  /** Only the interrupted slot is gone without the handler's knowing. */
  lemma LostIsUnknown(order: seq<Slot>, moves: seq<Outcome>)
    requires |moves| == |order|
    ensures var known := Elements(order[..MovedCount(moves)]);
      Gone(order, moves) == known + (Gone(order, moves) - known) && known <= Elements(order)
  {
    var n := MovedCount(moves);
    assert forall x :: x in order[..n] ==> x in order;
  }

  lemma MovedMore(order: seq<Slot>, k: nat)
    requires k < |order|
    ensures Elements(order[..k + 1]) == Elements(order[..k]) + {order[k]}
  {
    assert order[..k + 1] == order[..k] + [order[k]];
  }

  lemma Distinct(order: seq<Slot>, k: nat)
    requires k < |order| && forall i, j :: 0 <= i < j < |order| ==> order[i] != order[j]
    ensures order[k] !in Elements(order[..k])
  {
  }
}
