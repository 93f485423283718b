/** What every sequence of slot operations keeps, and which faults it does not survive. */
module SlotStoreTheorems {
  import opened Basics
  import opened SlotStoreModel

  // ---- which faults are survived -----------------------------------------------------

  /** No interrupt between moving the candidate in and recording it, and a working handler. */
  predicate InstallSafe(f: InstallFaults) {
    && !f.rename.FailedAfter?
    && (f.rename.Done? && f.write.FailedBefore? ==> f.rereads && f.removes)
  }

  /**
   * The same for removal of recorded slots, by the step that raises: making the directory
   * must not take effect first; a receipt that does not fit needs only the directory cleared;
   * once all slots moved and the record was replaced nothing can go wrong; before that, the
   * raising move must have had no effect, and what did move must come back.
   */
  predicate Survives(order: seq<Slot>, f: RemoveFaults)
    requires |f.moves| == |order|
  {
    var n := MovedCount(f.moves);
    if !f.mkdir.Done? then f.mkdir.FailedBefore?
    else if !f.fits then f.clears
    else if n == |order| && !f.write.FailedBefore? then true
    else f.clears && (n < |order| ==> f.moves[n].FailedBefore?) && (n > 0 ==> f.undoes)
  }

  /** Only a command that gets as far as its renames can do harm. */
  predicate Safe(s: Store, c: Command)
    requires c.RemoveCommand? ==> |c.remove.moves| == |c.order|
  {
    match c
    case InstallCommand(update, slot, f) => InstallAdmitted(s, update, slot) && f.prepared ==> InstallSafe(f)
    case RollbackCommand(_, _) => true
    case RemoveCommand(_, order, f) => s.disk.slots != {} && f.owned ==> Survives(order, f)
  }

  lemma AddOne(slots: set<Slot>, slot: Slot)
    requires slot !in slots
    ensures |slots + {slot}| == |slots| + 1
  {
  }

  /** Once a candidate is ready, the invariant survives exactly the safe faults. */
  lemma PublishKeepsIffSafe(s: Store, update: bool, slot: Slot, f: InstallFaults)
    requires Inv(s) && InstallAdmitted(s, update, slot)
    ensures Inv(Publish(s, slot, f).store) <==> InstallSafe(f)
  {
    AddOne(s.disk.slots, slot);
    if InstallSafe(f) {
      assert s.dirs + {slot} - {slot} == s.dirs;
    } else {
      assert slot in Publish(s, slot, f).store.dirs && slot !in Publish(s, slot, f).store.disk.slots;
    }
  }

  lemma OnlyTrash(s: Store, name: string)
    requires Inv(s) && s.disk.pending.Some? && name == s.disk.pending.value.name
    ensures s.trash - {name} == map[]
  {
    assert (s.trash - {name}).Keys == {};
  }

  lemma FinishKeeps(s: Store, f: CleanFaults)
    requires Inv(s)
    ensures var r := FinishPending(s, f);
      && Inv(r.store) && r.store.dirs == s.dirs && r.store.disk == s.disk.(pending := r.store.disk.pending)
      && (r.ok ==> r.store.disk.pending.None? && r.store.trash == map[])
  {
    if s.disk.pending.None? {
      assert s.trash == map[];
    } else {
      var name := s.disk.pending.value.name;
      OnlyTrash(s, name);
      if name in s.trash && (!f.matches || !f.deletes) {
      } else {
        var t := s.(trash := s.trash - {name});
        assert t.trash == map[] && Inv(t);
      }
    }
  }

  /** The handler puts the store back exactly when what moved is known of and comes back. */
  lemma UndoneIffSafe(s: Store, name: string, order: seq<Slot>, f: RemoveFaults)
    requires Inv(s) && s.disk.pending.None? && |f.moves| == |order| && Lists(order, s.disk.slots)
    ensures var n := MovedCount(f.moves);
      Inv(DropEmpty(Undone(s, name, order, f), name, f.clears)) <==>
      f.clears && (n < |order| ==> f.moves[n].FailedBefore?) && (n > 0 ==> f.undoes)
  {
    var n := MovedCount(f.moves);
    var u := Undone(s, name, order, f);
    UndoneTrash(name, order, f);
    assert name in u.trash && (u.trash[name] == {} ==> u.dirs == s.dirs);
    assert s.trash == map[] && u.trash - {name} == map[];
  }

  /** Nothing stays in the removal directory exactly when nothing is lost. */
  lemma UndoneTrash(name: string, order: seq<Slot>, f: RemoveFaults)
    requires |f.moves| == |order|
    requires forall i, j :: 0 <= i < j < |order| ==> order[i] != order[j]
    ensures var n := MovedCount(f.moves); var gone := Gone(order, f.moves);
      (if f.undoes then gone - Elements(order[..n]) else gone) == {} <==>
      (n < |order| ==> f.moves[n].FailedBefore?) && (n > 0 ==> f.undoes)
  {
    var n := MovedCount(f.moves);
    var gone, known := Gone(order, f.moves), Elements(order[..n]);
    if n > 0 {
      assert order[..n][0] in known;
    }
    if n < |order| && f.moves[n].FailedAfter? {
      assert order[n] in gone - known;
    }
  }

  /** A removal of recorded slots keeps the store whole exactly under the faults it survives. */
  lemma RemoveKeepsIffSurvives(s: Store, name: string, order: seq<Slot>, f: RemoveFaults)
    requires Inv(s) && s.disk.pending.None? && s.disk.slots != {}
    requires |f.moves| == |order| && Lists(order, s.disk.slots)
    ensures Inv(RemoveSlots(s, name, order, f).store) <==> Survives(order, f)
  {
    assert s.trash == map[];
    var made := s.(trash := s.trash[name := {}]);
    assert name in made.trash && !Inv(made);
    assert made.trash - {name} == s.trash;
    UndoneIffSafe(s, name, order, f);
    if f.mkdir.Done? && f.fits && MovedCount(f.moves) == |order| && !f.write.FailedBefore? {
      var u := Unselect(s, name, order, f);
      assert u.store.dirs == {} && Inv(u.store);
      FinishKeeps(u.store, f.second);
      DropKeeps(u.store, name, f.clears);
      DropKeeps(FinishPending(u.store, f.second).store, name, f.clears);
    }
  }

  lemma DropKeeps(s: Store, name: string, clears: bool)
    requires Inv(s)
    ensures Inv(DropEmpty(s, name, clears))
  {
  }

  /** A command keeps the store whole if and only if its faults are safe. */
  lemma StepKeepsIffSafe(s: Store, c: Command)
    requires Inv(s) && WellFormed(s, c)
    ensures Inv(Execute(s, c).store) <==> Safe(s, c)
  {
    match c
    case InstallCommand(update, slot, f) =>
      if InstallAdmitted(s, update, slot) {
        PublishKeepsIffSafe(s, update, slot, f);
      }
    case RollbackCommand(audited, write) =>
    case RemoveCommand(name, order, f) =>
      FinishKeeps(s, f.first);
      if f.owned && s.disk.slots != {} {
        RemoveKeepsIffSurvives(s, name, order, f);
      }
  }

  /** What a fault breaks, locked_store notices. */
  lemma BrokenIsRefused(s: Store, c: Command)
    requires Inv(s) && WellFormed(s, c) && !Safe(s, c)
    ensures !Admissible(Execute(s, c).store)
  {
    match c
    case InstallCommand(update, slot, f) =>
      assert slot in Publish(s, slot, f).store.dirs && slot !in Publish(s, slot, f).store.disk.slots;
    case RemoveCommand(name, order, f) =>
      assert Execute(s, c) == RemoveSlots(s, name, order, f);
      if f.mkdir.Done? && f.fits {
        UndoneTrash(name, order, f);
      }
      assert name in RemoveSlots(s, name, order, f).store.trash;
  }

  // ---- whole runs --------------------------------------------------------------------

  ghost predicate WellFormedRun(s: Store, commands: seq<Command>)
    decreases |commands|
  {
    commands == [] || (WellFormed(s, commands[0]) && WellFormedRun(Execute(s, commands[0]).store, commands[1..]))
  }

  ghost predicate SafeRun(s: Store, commands: seq<Command>)
    requires WellFormedRun(s, commands)
    decreases |commands|
  {
    commands == [] || (Safe(s, commands[0]) && SafeRun(Execute(s, commands[0]).store, commands[1..]))
  }

  ghost function Run(s: Store, commands: seq<Command>): Store
    requires WellFormedRun(s, commands)
    decreases |commands|
  {
    if commands == [] then s else Run(Execute(s, commands[0]).store, commands[1..])
  }

  lemma {:induction false} RefusedForGood(s: Store, commands: seq<Command>)
    requires !Admissible(s) && WellFormedRun(s, commands)
    ensures Run(s, commands) == s
    decreases |commands|
  {
    if commands != [] {
      RefusedForGood(s, commands[1..]);
    }
  }

  /** A sequence of commands leaves a whole store if and only if every command's faults were safe. */
  lemma {:induction false} StoreStaysWhole(s: Store, commands: seq<Command>)
    requires Inv(s) && WellFormedRun(s, commands)
    ensures Inv(Run(s, commands)) <==> SafeRun(s, commands)
    decreases |commands|
  {
    if commands != [] {
      var t := Execute(s, commands[0]).store;
      StepKeepsIffSafe(s, commands[0]);
      if Safe(s, commands[0]) {
        StoreStaysWhole(t, commands[1..]);
      } else {
        BrokenIsRefused(s, commands[0]);
        RefusedForGood(t, commands[1..]);
      }
    }
  }

  lemma CreatedIsWhole()
    ensures Inv(Created())
  {
  }

  // ---- single operations -------------------------------------------------------------

  /** A selection only ever changes to an audited slot, or to none. */
  lemma OnlyAuditedIsSelected(s: Store, c: Command)
    requires Inv(s) && WellFormed(s, c)
    requires Execute(s, c).store.disk.active != s.disk.active
    ensures match c
      case InstallCommand(_, slot, f) => f.prepared && Execute(s, c).store.disk.active == Some(slot)
      case RollbackCommand(audited, _) => audited && Execute(s, c).store.disk.active == s.disk.previous
      case RemoveCommand(_, _, _) => Execute(s, c).store.disk == s.disk.(active := None, previous := None, slots := {},
                                       pending := Execute(s, c).store.disk.pending)
  {
  }

  /** While a removal is pending nothing is installed, updated or rolled back. */
  lemma PendingBlocks(s: Store, c: Command)
    requires s.disk.pending.Some? && !c.RemoveCommand?
    ensures Execute(s, c) == Executed(s, false)
  {
  }

  /** Two rollbacks are none. */
  lemma RollbackTwice(s: Store)
    requires Inv(s) && s.disk.pending.None? && s.disk.previous.Some?
    ensures var r := Execute(s, RollbackCommand(true, Done));
      r.ok && r.store != s && Execute(r.store, RollbackCommand(true, Done)) == Executed(s, true)
  {
  }

  /** After an update, a rollback returns to the slot that was active, and keeps the new one. */
  lemma UpdateThenRollback(s: Store, slot: Slot, f: InstallFaults)
    requires Inv(s) && InstallAdmitted(s, true, slot) && f.prepared && f.rename.Done? && f.write.Done?
    ensures var u := Execute(s, InstallCommand(true, slot, f));
      && u.ok && u.store.disk.active == Some(slot) && u.store.disk.previous == s.disk.active
      && Execute(u.store, RollbackCommand(true, Done)) ==
        Executed(u.store.(disk := s.disk.(previous := Some(slot), slots := s.disk.slots + {slot})), true)
  {
    PublishKeepsIffSafe(s, true, slot, f);
  }

  // ---- when operations succeed -------------------------------------------------------

  /** What an install or update leaves: the candidate is active, and what was active is previous. */
  ghost predicate Selects(s: Store, t: Store, slot: Slot) {
    && t.disk.active == Some(slot) && t.disk.previous == s.disk.active && t.disk.slots == s.disk.slots + {slot}
    && t.disk.pending == s.disk.pending && t.dirs == s.dirs + {slot} && t.trash == s.trash
  }

  /**
   * Install needs no active slot and update one; neither takes a retained slot, a full store,
   * a pending removal or a candidate that did not pass. Then the candidate is selected.
   */
  lemma InstallSucceedsIff(s: Store, update: bool, slot: Slot, f: InstallFaults)
    requires Inv(s)
    ensures var r := Execute(s, InstallCommand(update, slot, f));
      r.ok <==>
        s.disk.pending == None && (if update then s.disk.active != None else s.disk.active == None) &&
        slot !in s.disk.slots && |s.disk.slots| <= 15 && f.prepared && f.rename == Done && f.write == Done
    ensures var r := Execute(s, InstallCommand(update, slot, f)); r.ok ==> Selects(s, r.store, slot)
  {
  }

  /** The first installation into a created store selects its slot, with nothing to roll back to. */
  lemma FirstInstallSelects(slot: Slot, f: InstallFaults)
    requires f.prepared && f.rename == Done && f.write == Done
    ensures Execute(Created(), InstallCommand(false, slot, f)) ==
      Executed(Store(Selection(Some(slot), None, {slot}, None), {slot}, map[]), true)
  {
  }

  /** A rollback succeeds exactly with an audited previous slot, and exchanges it with the active one. */
  lemma RollbackSucceedsIff(s: Store, audited: bool, write: Outcome)
    requires Inv(s)
    ensures var r := Execute(s, RollbackCommand(audited, write));
      r.ok <==> s.disk.pending == None && s.disk.previous != None && audited && write == Done
    ensures var r := Execute(s, RollbackCommand(audited, write));
      r.ok ==> r.store == s.(disk := s.disk.(active := s.disk.previous, previous := s.disk.active))
  {
  }

  /** A removal directory that is there must match and be deleted, and the record be replaced. */
  predicate Cleans(there: bool, f: CleanFaults) { (there ==> f.matches && f.deletes) && f.write == Done }

  /** A removal succeeds exactly if what was pending is finished and, if slots are recorded, every step works. */
  lemma RemoveSucceedsIff(s: Store, name: string, order: seq<Slot>, f: RemoveFaults)
    requires Inv(s) && WellFormed(s, RemoveCommand(name, order, f))
    ensures var r := Execute(s, RemoveCommand(name, order, f));
      r.ok <==>
        (s.disk.pending.Some? ==> Cleans(s.disk.pending.value.name in s.trash, f.first)) && f.owned &&
        (s.disk.slots != {} ==>
          f.mkdir == Done && f.fits && MovedCount(f.moves) == |order| && f.write == Done && Cleans(true, f.second))
    ensures var r := Execute(s, RemoveCommand(name, order, f)); r.ok ==> r.store == Created()
  {
    FinishKeeps(s, f.first);
    var d := FinishPending(s, f.first).store;
    if s.disk.slots != {} && f.owned && f.mkdir.Done? && f.fits {
      RemovesAll(d, name, order, f);
    }
  }

  lemma RemovesAll(s: Store, name: string, order: seq<Slot>, f: RemoveFaults)
    requires Inv(s) && s.disk.pending.None? && s.disk.slots != {} && f.mkdir.Done? && f.fits
    requires |f.moves| == |order| && Lists(order, s.disk.slots)
    ensures var r := RemoveSlots(s, name, order, f);
      && (r.ok <==> MovedCount(f.moves) == |order| && f.write == Done && Cleans(true, f.second))
      && (r.ok ==> r.store == Created())
  {
    var u := Unselect(s, name, order, f);
    if u.ok {
      assert u.store.dirs == {} && s.trash == map[];
      assert u.store.trash - {name} == map[];
    }
  }

  predicate Faultless(f: RemoveFaults) {
    && f.first.matches && f.first.deletes && f.first.write.Done? && f.owned && f.mkdir.Done? && f.fits
    && f.write.Done? && f.second.matches && f.second.deletes && f.second.write.Done?
    && forall k :: 0 <= k < |f.moves| ==> f.moves[k].Done?
  }

  lemma {:induction false} AllMoved(moves: seq<Outcome>)
    requires forall k :: 0 <= k < |moves| ==> moves[k].Done?
    ensures MovedCount(moves) == |moves|
  {
    if moves != [] {
      AllMoved(moves[1..]);
    }
  }

  /** A removal without faults finishes what was pending and leaves an empty store. */
  lemma RemoveEmpties(s: Store, name: string, order: seq<Slot>, f: RemoveFaults)
    requires Inv(s) && WellFormed(s, RemoveCommand(name, order, f)) && Faultless(f)
    ensures Execute(s, RemoveCommand(name, order, f)) == Executed(Created(), true)
  {
    FinishKeeps(s, f.first);
    AllMoved(f.moves);
    var d := FinishPending(s, f.first).store;
    assert d.trash == map[];
    if d.disk.slots == {} {
      assert d == Created();
    } else {
      assert order[..|order|] == order;
      var u := Unselect(d, name, order, f).store;
      assert u.dirs == {};
      assert u.trash - {name} == map[];
    }
  }

  /** The smallest store that an interrupt right after a move breaks. */
  lemma InterruptedMoveBreaks(s: Store, name: string, slot: Slot, f: RemoveFaults)
    requires s == Store(Selection(Some(slot), None, {slot}, None), {slot}, map[])
    requires f.owned && f.mkdir.Done? && f.fits && f.moves == [FailedAfter] && f.undoes && f.clears
    ensures Inv(s) && !Admissible(Execute(s, RemoveCommand(name, [slot], f)).store)
  {
    assert [slot][..0] == [];
    assert MovedCount(f.moves) == 0;
    assert Gone([slot], f.moves) == {slot};
    assert slot !in Execute(s, RemoveCommand(name, [slot], f)).store.dirs;
  }
}
