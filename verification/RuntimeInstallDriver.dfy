/**
 * InstallUndo and install (scripts/install-runtime.py), changing leaves, links and the list
 * of touched leaves step by step; each method refines its function in RuntimeInstallModel.
 */
module RuntimeInstallDriver {
  import opened Basics
  import opened RuntimeInstallModel

  class Installer {
    const payload: Payload
    const faults: Faults
    var clock: nat
    var files: Files
    var backups: Files
    var changed: seq<Leaf>
    ghost var trace: seq<Files>

    ghost function View(): World
      reads this
    {
      World(clock, files, backups, trace)
    }

    constructor (p: Payload, present: Files, schedule: Faults)
      ensures payload == p && faults == schedule && changed == []
      ensures View() == World(0, present, map[], [])
    {
      payload, faults := p, schedule;
      clock, files, backups, changed, trace := 0, present, map[], [], [];
    }

    // ---- primitives ------------------------------------------------------------------

    method Next() returns (outcome: Outcome)
      modifies this`clock
      ensures clock == old(clock) + 1 && outcome == faults(old(clock))
    {
      outcome := faults(clock);
      clock := clock + 1;
    }

    /** publish_file, once its temporary is written. */
    method ReplaceLeaf(leaf: Leaf, content: Content) returns (ok: bool)
      modifies this`clock, this`files, this`trace
      ensures Step(View(), ok) == Replace(faults, old(View()), leaf, content)
    {
      var outcome := Next();
      if outcome != FailedBefore {
        files := files[leaf := content];
      }
      trace := trace + [files];
      ok := outcome == Done;
    }

    method UnlinkLeaf(leaf: Leaf) returns (ok: bool)
      modifies this`clock, this`files, this`trace
      ensures Step(View(), ok) == Unlink(faults, old(View()), leaf)
    {
      var outcome := Next();
      if outcome != FailedBefore {
        files := files - {leaf};
      }
      trace := trace + [files];
      ok := outcome == Done;
    }

    /** install-runtime-activate, or sync_directory alone. */
    method RunTouchless() returns (ok: bool)
      modifies this`clock, this`trace
      ensures Step(View(), ok) == Touchless(faults, old(View()))
    {
      var outcome := Next();
      trace := trace + [files];
      ok := outcome == Done;
    }

    method Mark(phase: Content) returns (ok: bool)
      modifies this`clock, this`files, this`trace
      ensures Step(View(), ok) == WriteMarker(payload, faults, old(View()), phase)
    {
      ok := ReplaceLeaf(payload.marker, phase);
    }

    // ---- InstallUndo -----------------------------------------------------------------

    method Retain()
      modifies this`backups
      ensures View() == Started(payload, old(View()))
    {
      backups := map leaf | leaf in files && (leaf in payload.Order() || leaf == payload.marker) :: files[leaf];
    }

    method Touch(leaf: Leaf)
      modifies this`changed
      ensures changed == if leaf in old(changed) then old(changed) else old(changed) + [leaf]
    {
      if leaf !in changed {
        changed := changed + [leaf];
      }
    }

    method RestoreLeaf(leaf: Leaf) returns (ok: bool)
      modifies this`clock, this`files, this`backups, this`trace
      ensures Step(View(), ok) == Restore(faults, old(View()), leaf)
    {
      if leaf in backups {
        var outcome := Next();
        ok := outcome == Done;
        if outcome != FailedBefore {
          files := files[leaf := backups[leaf]];
          var linked := FailedBefore;
          if outcome == FailedAfter {
            linked := Next();
          }
          if linked == FailedBefore {
            backups := backups - {leaf};
          }
        }
        trace := trace + [files];
      } else if leaf in files {
        ok := UnlinkLeaf(leaf);
      } else {
        ok := RunTouchless();
      }
    }

    /** restore_payload: everything touched but the marker, in reverse. */
    method RestorePayload(ghost m: nat) returns (ok: bool)
      requires payload.Valid() && Touched(m)
      modifies this`clock, this`files, this`backups, this`trace
      ensures Step(View(), ok) == RestoreFrom(payload, faults, old(View()), m)
    {
      ok := true;
      var k := |changed|;
      while k > 0
        invariant 0 <= k <= m + 1
        invariant Pending(ok, if k > 0 then k - 1 else 0, RestoreFrom(payload, faults, old(View()), m))
      {
        k := k - 1;
        if changed[k] == payload.marker {
          assert k == 0;
          continue;
        }
        assert changed[k] == payload.Order()[k - 1];
        var restored := RestoreLeaf(changed[k]);
        ok := ok && restored;
      }
    }

    /** With k leaves to go, the result is still to be the same. */
    ghost predicate Pending(ok: bool, k: nat, result: Step)
      reads this
      requires k <= |payload.Order()|
    {
      var rest := RestoreFrom(payload, faults, View(), k);
      Step(rest.world, ok && rest.ok) == result
    }

    // ---- install ---------------------------------------------------------------------

    /** m leaves were touched. */
    ghost predicate Touched(m: nat)
      reads this
    {
      m <= |payload.Order()| && changed == [payload.marker] + payload.Order()[..m]
    }

    method PublishLeaf(i: nat) returns (ok: bool)
      requires payload.Valid() && i < |payload.Order()| && Touched(i)
      modifies this`clock, this`files, this`changed, this`trace
      ensures Touched(i + 1)
      ensures Step(View(), ok) == Replace(faults, old(View()), payload.Order()[i], payload.content[payload.Order()[i]])
    {
      var leaf := payload.Order()[i];
      assert leaf !in payload.Order()[..i];
      assert payload.Order()[..i + 1] == payload.Order()[..i] + [leaf];
      Touch(leaf);
      ok := ReplaceLeaf(leaf, payload.content[leaf]);
    }

    /** Everything but the receipt and VERSION. */
    method PublishOthers() returns (ok: bool, ghost m: nat)
      requires payload.Valid() && Touched(0)
      modifies this`clock, this`files, this`changed, this`trace
      ensures Touched(m)
      ensures Progress(View(), ok, m, false) == PublishFrom(payload, faults, old(View()), 0, |payload.others|, false)
    {
      var i := 0;
      ghost var whole := PublishFrom(payload, faults, View(), 0, |payload.others|, false);
      while i < |payload.others|
        invariant 0 <= i <= |payload.others| && Touched(i)
        invariant whole == PublishFrom(payload, faults, View(), i, |payload.others|, false)
      {
        ok := PublishLeaf(i);
        i := i + 1;
        if !ok {
          m := i;
          return;
        }
      }
      ok, m := true, i;
    }

    /** The receipt, then VERSION. */
    method PublishRecords(ghost activated: bool) returns (ok: bool, ghost m: nat)
      requires payload.Valid() && Touched(|payload.others|)
      modifies this`clock, this`files, this`changed, this`trace
      ensures Touched(m)
      ensures Progress(View(), ok, m, activated) ==
        PublishFrom(payload, faults, old(View()), |payload.others|, |payload.others| + 2, activated)
    {
      m := |payload.others| + 1;
      ok := PublishLeaf(|payload.others|);
      if !ok {
        return;
      }
      ghost var w := View();
      m := |payload.others| + 2;
      ok := PublishLeaf(|payload.others| + 1);
      assert Progress(View(), ok, m, activated) ==
        PublishFrom(payload, faults, w, |payload.others| + 1, |payload.others| + 2, activated);
    }

    /** Up to the activation. */
    method GoForward() returns (ok: bool, activated: bool, ghost m: nat)
      requires payload.Valid() && changed == []
      modifies this`clock, this`files, this`changed, this`trace
      ensures Touched(m)
      ensures Progress(View(), ok, m, activated) == Forward(payload, faults, old(View()))
    {
      activated, m := false, 0;
      Touch(payload.marker);
      assert Touched(0);
      ok := Mark("publish");
      if !ok {
        return;
      }
      ghost var w := View();
      ok, m := PublishOthers();
      PublishedInOrder(payload, faults, w, 0, |payload.others|, false);
      if !ok {
        return;
      }
      ok := Mark("activate");
      if !ok {
        return;
      }
      activated := true;
      ok, m := GoRecord();
    }

    method GoRecord() returns (ok: bool, ghost m: nat)
      requires payload.Valid() && Touched(|payload.others|)
      modifies this`clock, this`files, this`changed, this`trace
      ensures Touched(m)
      ensures Progress(View(), ok, m, true) == Record(payload, faults, old(View()))
    {
      m := |payload.others|;
      ok := RunTouchless();
      if !ok {
        return;
      }
      ok := Mark("record");
      if !ok {
        return;
      }
      ok, m := PublishRecords(true);
      if !ok {
        return;
      }
      ok := UnlinkLeaf(payload.marker);
    }

    /** The handler of a caught failure. */
    method Rollback(ghost m: nat, activated: bool) returns (ok: bool)
      requires payload.Valid() && Touched(m)
      modifies this`clock, this`files, this`backups, this`trace
      ensures Step(View(), ok) == Undo(payload, faults, old(View()), m, activated)
    {
      var _ := Mark("rollback");
      ok := RestorePayload(m);
      if !ok {
        var _ := Mark("rollback-failed");
        return;
      }
      ok := FinishRollback(activated);
    }

    method FinishRollback(activated: bool) returns (ok: bool)
      modifies this`clock, this`files, this`backups, this`trace
      ensures Step(View(), ok) == FinishUndo(payload, faults, old(View()), activated)
    {
      ok := true;
      if activated {
        var _ := Mark("rollback-activate");
        ok := RunTouchless();
      }
      if ok {
        ok := RestoreLeaf(payload.marker);
      }
      if !ok {
        var phase := if activated then "rollback-activate-failed" else "rollback-failed";
        var _ := Mark(phase);
      }
    }

    method InstallRuntime() returns (result: Result)
      requires payload.Valid() && changed == []
      modifies this
      ensures Ending(View(), result) == Install(payload, faults, old(View()))
    {
      Retain();
      var ok, activated, m := GoForward();
      if ok {
        return Installed;
      }
      var undone := Rollback(m, activated);
      result := if undone then Restored else Incomplete;
    }
  }
}
