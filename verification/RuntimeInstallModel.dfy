/**
 * The runtime installer (scripts/install-runtime.py): marker, publish, activate, and undo
 * from retained originals. The file system is a map from leaves to contents; every
 * primitive may fail before or after its effect, and the process may die between any two.
 */
module RuntimeInstallModel {
  import opened Basics

  type Leaf = string
  type Content = string
  type Files = map<Leaf, Content>

  function At(s: Files, leaf: Leaf): Option<Content> { if leaf in s then Some(s[leaf]) else None }

  /** What is to be published, the receipt and VERSION last. */
  datatype Payload = Payload(others: seq<Leaf>, receipt: Leaf, version: Leaf, marker: Leaf, content: Files) {
    function Order(): seq<Leaf> { others + [receipt, version] }

    /** payload_files: no target twice, and no installation state among them. */
    ghost predicate Valid() {
      && (forall i, j :: 0 <= i < j < |Order()| ==> Order()[i] != Order()[j])
      && (forall i :: 0 <= i < |Order()| ==> Order()[i] in content && Order()[i] != marker)
    }
  }

  /** A primitive works, fails without effect, or takes effect and then fails (its fsync). */
  datatype Outcome = Done | FailedBefore | FailedAfter

  /** What becomes of the n-th primitive. */
  type Faults = nat -> Outcome

  /** The leaves, the links InstallUndo holds, and every state a kill could have left so far. */
  datatype World = World(clock: nat, files: Files, backups: Files, trace: seq<Files>)

  datatype Step = Step(world: World, ok: bool)

  function Tick(w: World, files: Files): World { World(w.clock + 1, files, w.backups, w.trace + [files]) }

  // ---- primitives --------------------------------------------------------------------

  /** os.replace of one leaf, then fsync of its directory. */
  function Replace(f: Faults, w: World, leaf: Leaf, content: Content): Step {
    Step(Tick(w, if f(w.clock).FailedBefore? then w.files else w.files[leaf := content]), f(w.clock).Done?)
  }

  function Unlink(f: Faults, w: World, leaf: Leaf): Step {
    Step(Tick(w, if f(w.clock).FailedBefore? then w.files else w.files - {leaf}), f(w.clock).Done?)
  }

  /** A step that touches no leaf: install-runtime-activate, or an fsync alone. */
  function Touchless(f: Faults, w: World): Step { Step(Tick(w, w.files), f(w.clock).Done?) }

  function WriteMarker(p: Payload, f: Faults, w: World, phase: Content): Step { Replace(f, w, p.marker, phase) }

  /** InstallUndo: a link to every original, before anything is replaced. */
  function Retained(p: Payload, files: Files): Files {
    map leaf | leaf in files && (leaf in p.Order() || leaf == p.marker) :: files[leaf]
  }

  /**
   * The retained original back in place, or the leaf gone if there was none. When only
   * the fsync failed, the original is linked for undo once more if that can be done.
   */
  function Restore(f: Faults, w: World, leaf: Leaf): Step {
    if leaf in w.backups then
      var back := w.files[leaf := w.backups[leaf]];
      match f(w.clock)
      case Done => Step(Tick(w, back).(backups := w.backups - {leaf}), true)
      case FailedBefore => Step(Tick(w, w.files), false)
      case FailedAfter =>
        var linked := if f(w.clock + 1).FailedBefore? then w.backups - {leaf} else w.backups;
        Step(World(w.clock + 2, back, linked, w.trace + [back]), false)
    else if leaf in w.files then Unlink(f, w, leaf)
    else Touchless(f, w)
  }

  // ---- going forward -----------------------------------------------------------------

  /** Where the forward path stopped: how many leaves were touched, and whether activation was tried. */
  datatype Progress = Progress(world: World, ok: bool, touched: nat, activated: bool)

  /** Leaves i up to n in order, each touched, then replaced. */
  function PublishFrom(p: Payload, f: Faults, w: World, i: nat, n: nat, activated: bool): Progress
    requires p.Valid() && i <= n <= |p.Order()|
    decreases n - i
  {
    if i == n then Progress(w, true, n, activated)
    else
      var r := Replace(f, w, p.Order()[i], p.content[p.Order()[i]]);
      if r.ok then PublishFrom(p, f, r.world, i + 1, n, activated) else Progress(r.world, false, i + 1, activated)
  }

  /** From the first marker to its removal. */
  function Forward(p: Payload, f: Faults, w: World): Progress
    requires p.Valid()
  {
    var a := WriteMarker(p, f, w, "publish");
    if !a.ok then Progress(a.world, false, 0, false)
    else
      var b := PublishFrom(p, f, a.world, 0, |p.others|, false);
      if !b.ok then b
      else
        var c := WriteMarker(p, f, b.world, "activate");
        if !c.ok then Progress(c.world, false, b.touched, false) else Record(p, f, c.world)
  }

  /** Activation, the receipt, VERSION. */
  function Record(p: Payload, f: Faults, w: World): Progress
    requires p.Valid()
  {
    var n := |p.others|;
    var a := Touchless(f, w);
    if !a.ok then Progress(a.world, false, n, true)
    else
      var b := WriteMarker(p, f, a.world, "record");
      if !b.ok then Progress(b.world, false, n, true)
      else
        var c := PublishFrom(p, f, b.world, n, n + 2, true);
        if !c.ok then c
        else
          var d := Unlink(f, c.world, p.marker);
          Progress(d.world, d.ok, c.touched, true)
  }

  // ---- going back --------------------------------------------------------------------

  /** restore_payload: the first k leaves in reverse, going on past failures. */
  function RestoreFrom(p: Payload, f: Faults, w: World, k: nat): Step
    requires k <= |p.Order()|
    decreases k
  {
    if k == 0 then Step(w, true)
    else
      var r := Restore(f, w, p.Order()[k - 1]);
      var rest := RestoreFrom(p, f, r.world, k - 1);
      Step(rest.world, r.ok && rest.ok)
  }

  /** The undo of a caught failure. A marker that cannot be written does not stop it. */
  function Undo(p: Payload, f: Faults, w: World, m: nat, activated: bool): Step
    requires m <= |p.Order()|
  {
    var r := RestoreFrom(p, f, WriteMarker(p, f, w, "rollback").world, m);
    if r.ok then FinishUndo(p, f, r.world, activated)
    else Step(WriteMarker(p, f, r.world, "rollback-failed").world, false)
  }

  /** With the leaves back: activate them again if they had been, and restore the marker. */
  function FinishUndo(p: Payload, f: Faults, w: World, activated: bool): Step {
    var a := if activated then Touchless(f, WriteMarker(p, f, w, "rollback-activate").world) else Step(w, true);
    var b := if a.ok then Restore(f, a.world, p.marker) else a;
    if b.ok then b
    else
      var phase := if activated then "rollback-activate-failed" else "rollback-failed";
      Step(WriteMarker(p, f, b.world, phase).world, false)
  }

  // ---- the whole ---------------------------------------------------------------------

  datatype Result = Installed | Restored | Incomplete

  datatype Ending = Ending(world: World, result: Result)

  /** From the retained originals on. */
  function Started(p: Payload, w: World): World { w.(backups := Retained(p, w.files)) }

  /** install, from the retained originals to its three ways of ending. */
  function Install(p: Payload, f: Faults, w: World): Ending
    requires p.Valid()
  {
    var g := Forward(p, f, Started(p, w));
    if g.ok then Ending(g.world, Installed)
    else
      TouchedInOrder(p, f, Started(p, w));
      var u := Undo(p, f, g.world, g.touched, g.activated);
      Ending(u.world, if u.ok then Restored else Incomplete)
  }

  lemma TouchedInOrder(p: Payload, f: Faults, w: World)
    requires p.Valid()
    ensures Forward(p, f, w).touched <= |p.Order()|
  {
    var a := WriteMarker(p, f, w, "publish").world;
    PublishedInOrder(p, f, a, 0, |p.others|, false);
    var c := WriteMarker(p, f, PublishFrom(p, f, a, 0, |p.others|, false).world, "activate").world;
    PublishedInOrder(p, f, WriteMarker(p, f, Touchless(f, c).world, "record").world, |p.others|, |p.others| + 2, true);
  }

  lemma {:induction false} PublishedInOrder(p: Payload, f: Faults, w: World, i: nat, n: nat, activated: bool)
    requires p.Valid() && i <= n <= |p.Order()|
    ensures var r := PublishFrom(p, f, w, i, n, activated); i <= r.touched <= n && (r.ok ==> r.touched == n)
    decreases n - i
  {
    if i < n {
      PublishedInOrder(p, f, Replace(f, w, p.Order()[i], p.content[p.Order()[i]]).world, i + 1, n, activated);
    }
  }
}
