/** What a kill can leave behind, how an installation ends, and which faults decide it. */
module RuntimeInstallTheorems {
  import opened Basics
  import opened RuntimeInstallModel

  // ---- states between two steps ------------------------------------------------------

  /** The first n leaves in order are new, everything but the marker is otherwise as it was. */
  ghost predicate Track(p: Payload, orig: Files, s: Files, n: nat)
    requires n <= |p.Order()|
  {
    forall leaf :: leaf != p.marker ==>
      At(s, leaf) == if leaf in p.Order()[..n] then At(p.content, leaf) else At(orig, leaf)
  }

  ghost predicate Tracked(p: Payload, orig: Files, s: Files) {
    exists n :: 0 <= n <= |p.Order()| && Track(p, orig, s, n)
  }

  ghost predicate Marked(p: Payload, s: Files, n: nat) {
    p.marker in s || n == 0 || n == |p.Order()|
  }

  ghost predicate OnTrack(p: Payload, orig: Files, s: Files) {
    exists n :: 0 <= n <= |p.Order()| && Track(p, orig, s, n) && Marked(p, s, n)
  }

  ghost predicate AsBefore(p: Payload, orig: Files, s: Files) {
    forall leaf :: leaf != p.marker ==> At(s, leaf) == At(orig, leaf)
  }

  /** Undo has not begun to change anything, or says that it may have. */
  ghost predicate Covered(p: Payload, orig: Files, s: Files) { p.marker in s || AsBefore(p, orig, s) }

  /** Every retained original is in its place or still linked for undo; every leaf is old or new. */
  ghost predicate Recoverable(p: Payload, orig: Files, s: Files, backups: Files) {
    forall leaf :: leaf in p.Order() ==>
      && (leaf in orig ==> At(s, leaf) == Some(orig[leaf]) || At(backups, leaf) == Some(orig[leaf]))
      && (At(s, leaf) == At(orig, leaf) || At(s, leaf) == At(p.content, leaf))
  }

  /** Leaf i has been replaced and leaf j has not. */
  ghost predicate Mixed(p: Payload, orig: Files, s: Files, i: nat, j: nat)
    requires i < |p.Order()| && j < |p.Order()|
  {
    At(s, p.Order()[i]) != At(orig, p.Order()[i]) && At(s, p.Order()[j]) != At(p.content, p.Order()[j])
  }

  /** An interrupted installation that is partly old and partly new says so. */
  lemma MixIsMarked(p: Payload, orig: Files, s: Files, i: nat, j: nat)
    requires p.Valid() && i < |p.Order()| && j < |p.Order()|
    requires (OnTrack(p, orig, s) || Covered(p, orig, s)) && Mixed(p, orig, s, i, j)
    ensures p.marker in s
  {
    assert p.Order()[..|p.Order()|] == p.Order();
    assert p.Order()[i] in p.Order() && p.Order()[j] in p.Order();
    if OnTrack(p, orig, s) {
      var n :| 0 <= n <= |p.Order()| && Track(p, orig, s, n) && Marked(p, s, n);
    }
  }

  /** A VERSION that is visibly the new one was published after everything else. */
  lemma NewVersionIsWhole(p: Payload, orig: Files, s: Files, i: nat)
    requires p.Valid() && Tracked(p, orig, s) && i < |p.Order()|
    requires At(s, p.version) == At(p.content, p.version) && At(orig, p.version) != At(p.content, p.version)
    ensures At(s, p.Order()[i]) == At(p.content, p.Order()[i])
  {
    var order := p.Order();
    assert order[|order| - 1] == p.version && order[..|order|] == order;
    assert forall k :: 0 <= k < |order| ==> p.version !in order[..k];
    var n :| 0 <= n <= |order| && Track(p, orig, s, n);
  }

  // ---- the forward path --------------------------------------------------------------

  /** m leaves were touched; the last of them may or may not have been replaced. */
  ghost predicate Near(p: Payload, orig: Files, s: Files, m: nat)
    requires m <= |p.Order()|
  {
    Track(p, orig, s, m) || (m > 0 && Track(p, orig, s, m - 1))
  }

  /** Every state recorded since is on track. */
  ghost predicate AllOnTrack(p: Payload, orig: Files, w: World, from: nat) {
    from <= |w.trace| && forall k :: from <= k < |w.trace| ==> OnTrack(p, orig, w.trace[k])
  }

  lemma ReplaceTracks(p: Payload, f: Faults, w: World, orig: Files, i: nat, from: nat)
    requires p.Valid() && i < |p.Order()| && p.marker in w.files
    requires Track(p, orig, w.files, i) && AllOnTrack(p, orig, w, from)
    ensures var r := Replace(f, w, p.Order()[i], p.content[p.Order()[i]]);
      && p.marker in r.world.files && AllOnTrack(p, orig, r.world, from)
      && Near(p, orig, r.world.files, i + 1) && (r.ok ==> Track(p, orig, r.world.files, i + 1))
  {
    var order := p.Order();
    var r := Replace(f, w, order[i], p.content[order[i]]);
    assert order[i] !in order[..i];
    assert order[..i + 1] == order[..i] + [order[i]];
    assert Track(p, orig, r.world.files, if f(w.clock).FailedBefore? then i else i + 1);
  }

  lemma {:induction false} PublishTracks(
    p: Payload, f: Faults, w: World, i: nat, n: nat, activated: bool, orig: Files, from: nat)
    requires p.Valid() && i <= n <= |p.Order()| && p.marker in w.files
    requires Track(p, orig, w.files, i) && AllOnTrack(p, orig, w, from)
    ensures var r := PublishFrom(p, f, w, i, n, activated);
      && r.touched <= n && p.marker in r.world.files && AllOnTrack(p, orig, r.world, from)
      && Near(p, orig, r.world.files, r.touched) && r.world.backups == w.backups
      && (r.ok ==> r.touched == n && Track(p, orig, r.world.files, n))
    decreases n - i
  {
    if i < n {
      ReplaceTracks(p, f, w, orig, i, from);
      var r := Replace(f, w, p.Order()[i], p.content[p.Order()[i]]);
      if r.ok {
        PublishTracks(p, f, r.world, i + 1, n, activated, orig, from);
      }
    }
  }

  lemma MarkTracks(p: Payload, f: Faults, w: World, phase: Content, orig: Files, i: nat, from: nat)
    requires i <= |p.Order()| && Track(p, orig, w.files, i) && (p.marker in w.files || i == 0)
    requires AllOnTrack(p, orig, w, from)
    ensures var r := WriteMarker(p, f, w, phase);
      && Track(p, orig, r.world.files, i) && AllOnTrack(p, orig, r.world, from)
      && (p.marker in w.files || r.ok ==> p.marker in r.world.files)
  {
    assert Track(p, orig, WriteMarker(p, f, w, phase).world.files, i);
  }

  /** Every state of the forward path has a prefix of the leaves new and is marked; success is whole. */
  lemma ForwardTracks(p: Payload, f: Faults, w: World)
    requires p.Valid()
    ensures var g := Forward(p, f, w);
      && g.touched <= |p.Order()| && g.world.backups == w.backups
      && AllOnTrack(p, w.files, g.world, |w.trace|) && OnTrack(p, w.files, g.world.files)
      && Near(p, w.files, g.world.files, g.touched)
      && (g.ok ==> g.touched == |p.Order()| && Track(p, w.files, g.world.files, g.touched) && p.marker !in g.world.files)
  {
    var orig, from := w.files, |w.trace|;
    assert p.Order()[..0] == [];
    assert Track(p, orig, w.files, 0);
    MarkTracks(p, f, w, "publish", orig, 0, from);
    var a := WriteMarker(p, f, w, "publish");
    if a.ok {
      PublishTracks(p, f, a.world, 0, |p.others|, false, orig, from);
      var b := PublishFrom(p, f, a.world, 0, |p.others|, false);
      if b.ok {
        MarkTracks(p, f, b.world, "activate", orig, |p.others|, from);
        var c := WriteMarker(p, f, b.world, "activate");
        if c.ok {
          RecordTracks(p, f, c.world, orig, from);
        }
      }
    }
  }

  lemma RecordTracks(p: Payload, f: Faults, w: World, orig: Files, from: nat)
    requires p.Valid() && p.marker in w.files && Track(p, orig, w.files, |p.others|) && AllOnTrack(p, orig, w, from)
    ensures var g := Record(p, f, w);
      && g.touched <= |p.Order()| && g.world.backups == w.backups
      && AllOnTrack(p, orig, g.world, from) && OnTrack(p, orig, g.world.files)
      && Near(p, orig, g.world.files, g.touched)
      && (g.ok ==> g.touched == |p.Order()| && Track(p, orig, g.world.files, g.touched) && p.marker !in g.world.files)
  {
    var n := |p.others|;
    var a := Touchless(f, w);
    TouchlessTracks(p, f, w, orig, n, from);
    if a.ok {
      MarkTracks(p, f, a.world, "record", orig, n, from);
      var b := WriteMarker(p, f, a.world, "record");
      if b.ok {
        PublishTracks(p, f, b.world, n, n + 2, true, orig, from);
        UnmarkTracks(p, f, PublishFrom(p, f, b.world, n, n + 2, true).world, orig, from);
      }
    }
  }

  lemma TouchlessTracks(p: Payload, f: Faults, w: World, orig: Files, n: nat, from: nat)
    requires n <= |p.Order()| && Track(p, orig, w.files, n) && p.marker in w.files && AllOnTrack(p, orig, w, from)
    ensures AllOnTrack(p, orig, Touchless(f, w).world, from) && OnTrack(p, orig, w.files)
  {
    assert OnTrack(p, orig, w.files);
  }

  /** The marker goes when everything is new. */
  lemma UnmarkTracks(p: Payload, f: Faults, w: World, orig: Files, from: nat)
    requires p.marker in w.files && AllOnTrack(p, orig, w, from)
    ensures var d := Unlink(f, w, p.marker);
      Track(p, orig, w.files, |p.Order()|) ==>
      && Track(p, orig, d.world.files, |p.Order()|) && AllOnTrack(p, orig, d.world, from)
      && OnTrack(p, orig, d.world.files) && (d.ok ==> p.marker !in d.world.files)
  {
    var d := Unlink(f, w, p.marker);
    if Track(p, orig, w.files, |p.Order()|) {
      assert Track(p, orig, d.world.files, |p.Order()|);
      assert OnTrack(p, orig, d.world.files);
    }
  }

  // ---- undo: what stays recoverable --------------------------------------------------

  /** What undo keeps while it works its way back from m to k touched leaves. */
  ghost predicate UndoState(p: Payload, orig: Files, s: Files, backups: Files, m: nat, k: nat) {
    && k <= m <= |p.Order()|
    && (forall i :: 0 <= i < k ==> At(backups, p.Order()[i]) == At(orig, p.Order()[i]))
    && At(backups, p.marker) == At(orig, p.marker)
    && Recoverable(p, orig, s, backups)
    && (forall leaf :: leaf != p.marker && leaf !in p.Order()[..m] ==> At(s, leaf) == At(orig, leaf))
  }

  /** Everything from k on is back. */
  ghost predicate Back(p: Payload, orig: Files, s: Files, m: nat, k: nat)
    requires m <= |p.Order()|
  {
    forall i :: k <= i < m ==> At(s, p.Order()[i]) == At(orig, p.Order()[i])
  }

  /** One leaf tried: put back, or left as it was with its original still linked. */
  ghost predicate Tried(leaf: Leaf, s: Files, backups: Files, t: Files, rest: Files) {
    && (At(t, leaf) == At(s, leaf) || At(t, leaf) == At(backups, leaf))
    && (rest == backups || (rest == backups - {leaf} && At(t, leaf) == At(backups, leaf)))
    && forall other :: other != leaf ==> At(t, other) == At(s, other)
  }

  /** One leaf is put back, or left with its original still linked; it is done in one step or fails. */
  lemma RestoreTries(f: Faults, w: World, leaf: Leaf)
    ensures var r := Restore(f, w, leaf);
      && Tried(leaf, w.files, w.backups, r.world.files, r.world.backups)
      && r.world.trace == w.trace + [r.world.files]
      && (!f(w.clock).FailedBefore? ==> At(r.world.files, leaf) == At(w.backups, leaf))
      && (r.ok <==> f(w.clock).Done?) && (r.ok ==> r.world.clock == w.clock + 1)
  {
  }

  lemma UndoStep(p: Payload, orig: Files, s: Files, backups: Files, t: Files, rest: Files, m: nat, k: nat)
    requires p.Valid() && 0 < k && UndoState(p, orig, s, backups, m, k) && Tried(p.Order()[k - 1], s, backups, t, rest)
    ensures UndoState(p, orig, t, rest, m, k - 1)
    ensures Back(p, orig, s, m, k) && At(t, p.Order()[k - 1]) == At(orig, p.Order()[k - 1]) ==> Back(p, orig, t, m, k - 1)
  {
    var leaf := p.Order()[k - 1];
    assert leaf in p.Order()[..m];
    forall other | other != leaf ensures At(rest, other) == At(backups, other) {
    }
    forall i | 0 <= i < |p.Order()| && i != k - 1 ensures p.Order()[i] != leaf {
    }
  }

  ghost predicate Undoing(p: Payload, orig: Files, w: World, m: nat, k: nat) {
    UndoState(p, orig, w.files, w.backups, m, k)
  }

  lemma {:induction false} RestoreFromUndoes(p: Payload, f: Faults, w: World, orig: Files, m: nat, k: nat)
    requires p.Valid() && Undoing(p, orig, w, m, k)
    ensures var r := RestoreFrom(p, f, w, k);
      && Undoing(p, orig, r.world, m, 0) && w.trace <= r.world.trace
      && (Back(p, orig, w.files, m, k) && r.ok ==> Back(p, orig, r.world.files, m, 0))
    decreases k
  {
    if k > 0 {
      var r := Restore(f, w, p.Order()[k - 1]).world;
      RestoreTries(f, w, p.Order()[k - 1]);
      UndoStep(p, orig, w.files, w.backups, r.files, r.backups, m, k);
      RestoreFromUndoes(p, f, r, orig, m, k - 1);
    }
  }

  /** With every touched leaf back, only the marker can differ. */
  lemma AllBack(p: Payload, orig: Files, s: Files, backups: Files, m: nat)
    requires UndoState(p, orig, s, backups, m, 0) && Back(p, orig, s, m, 0)
    ensures AsBefore(p, orig, s)
  {
    forall leaf | leaf != p.marker ensures At(s, leaf) == At(orig, leaf) {
      if leaf in p.Order()[..m] {
        var i :| 0 <= i < m && p.Order()[..m][i] == leaf;
      }
    }
  }

  /** Where the forward path stops, undo can start. */
  lemma NearUndoes(p: Payload, orig: Files, w: World, m: nat)
    requires p.Valid() && m <= |p.Order()| && Near(p, orig, w.files, m) && w.backups == Retained(p, orig)
    ensures Undoing(p, orig, w, m, m)
  {
    if m > 0 {
      assert p.Order()[..m] == p.Order()[..m - 1] + [p.Order()[m - 1]];
    }
  }

  /** A marker changes no leaf. */
  lemma MarkUndoes(p: Payload, f: Faults, w: World, phase: Content, orig: Files, m: nat, k: nat)
    requires p.Valid() && Undoing(p, orig, w, m, k)
    ensures Undoing(p, orig, WriteMarker(p, f, w, phase).world, m, k)
  {
    forall i | 0 <= i < |p.Order()| ensures p.Order()[i] != p.marker {
    }
  }

  lemma SameFiles(s: Files, t: Files)
    requires forall leaf :: At(s, leaf) == At(t, leaf)
    ensures s == t
  {
    assert forall leaf :: leaf in s <==> At(s, leaf).Some?;
    assert forall leaf :: leaf in t <==> At(t, leaf).Some?;
    assert s.Keys == t.Keys;
    forall leaf | leaf in s ensures s[leaf] == t[leaf] {
      assert At(s, leaf) == At(t, leaf);
    }
  }

  /** With the leaves back they stay back, and the marker comes back last. */
  lemma FinishStaysBack(p: Payload, f: Faults, w: World, activated: bool, orig: Files)
    requires AsBefore(p, orig, w.files) && At(w.backups, p.marker) == At(orig, p.marker)
    ensures var r := FinishUndo(p, f, w, activated);
      && AsBefore(p, orig, r.world.files) && (r.ok ==> r.world.files == orig)
      && w.trace <= r.world.trace
      && forall k :: |w.trace| <= k < |r.world.trace| ==> AsBefore(p, orig, r.world.trace[k])
  {
    var a := if activated then Touchless(f, WriteMarker(p, f, w, "rollback-activate").world) else Step(w, true);
    assert AsBefore(p, orig, a.world.files);
    if a.ok {
      RestoreTries(f, a.world, p.marker);
      var b := Restore(f, a.world, p.marker);
      assert AsBefore(p, orig, b.world.files);
      if b.ok {
        SameFiles(b.world.files, orig);
      }
    }
  }

  /** A successful undo is complete, and an incomplete one leaves every original in place or linked. */
  lemma UndoRestores(p: Payload, f: Faults, w: World, m: nat, activated: bool, orig: Files)
    requires p.Valid() && Undoing(p, orig, w, m, m)
    ensures var r := Undo(p, f, w, m, activated);
      if r.ok then r.world.files == orig else Recoverable(p, orig, r.world.files, r.world.backups)
  {
    MarkUndoes(p, f, w, "rollback", orig, m, m);
    var a := WriteMarker(p, f, w, "rollback").world;
    RestoreFromUndoes(p, f, a, orig, m, m);
    var r := RestoreFrom(p, f, a, m);
    if r.ok {
      AllBack(p, orig, r.world.files, r.world.backups, m);
      FinishStaysBack(p, f, r.world, activated, orig);
      BackIsRecoverable(p, orig, FinishUndo(p, f, r.world, activated).world);
    } else {
      MarkUndoes(p, f, r.world, "rollback-failed", orig, m, 0);
    }
  }

  lemma BackIsRecoverable(p: Payload, orig: Files, w: World)
    requires p.Valid() && AsBefore(p, orig, w.files)
    ensures Recoverable(p, orig, w.files, w.backups)
  {
    forall leaf | leaf in p.Order() ensures At(w.files, leaf) == At(orig, leaf) {
      assert leaf != p.marker;
    }
  }

  // ---- undo: which faults it survives ------------------------------------------------

  lemma {:induction false} RestoreFromTicks(p: Payload, f: Faults, w: World, k: nat)
    requires k <= |p.Order()|
    ensures var r := RestoreFrom(p, f, w, k);
      && (r.ok <==> forall i :: w.clock <= i < w.clock + k ==> f(i).Done?)
      && (r.ok ==> r.world.clock == w.clock + k)
    decreases k
  {
    if k > 0 {
      RestoreTries(f, w, p.Order()[k - 1]);
      RestoreFromTicks(p, f, Restore(f, w, p.Order()[k - 1]).world, k - 1);
    }
  }

  /** No step of the undo that counts fails: markers may, restoring and activating may not. */
  ghost predicate UndoWorks(f: Faults, clock: nat, m: nat, activated: bool) {
    && (forall i :: clock < i <= clock + m ==> f(i).Done?)
    && if activated then f(clock + m + 2).Done? && f(clock + m + 3).Done? else f(clock + m + 1).Done?
  }

  /** An undo succeeds if and only if none of those steps fails. */
  lemma UndoSucceedsIff(p: Payload, f: Faults, w: World, m: nat, activated: bool)
    requires m <= |p.Order()|
    ensures Undo(p, f, w, m, activated).ok <==> UndoWorks(f, w.clock, m, activated)
  {
    var a := WriteMarker(p, f, w, "rollback").world;
    RestoreFromTicks(p, f, a, m);
    var r := RestoreFrom(p, f, a, m);
    if r.ok {
      var b := if activated then Touchless(f, WriteMarker(p, f, r.world, "rollback-activate").world) else Step(r.world, true);
      RestoreTries(f, b.world, p.marker);
    }
  }

  // ---- undo: which states are marked -------------------------------------------------

  ghost predicate AllCovered(p: Payload, orig: Files, w: World, from: nat) {
    from <= |w.trace| && forall k :: from <= k < |w.trace| ==> Covered(p, orig, w.trace[k])
  }

  lemma {:induction false} RestoreFromCovers(p: Payload, f: Faults, w: World, orig: Files, m: nat, k: nat, from: nat)
    requires p.Valid() && Undoing(p, orig, w, m, k) && Covered(p, orig, w.files) && AllCovered(p, orig, w, from)
    ensures var r := RestoreFrom(p, f, w, k).world; Covered(p, orig, r.files) && AllCovered(p, orig, r, from)
    decreases k
  {
    if k > 0 {
      var leaf := p.Order()[k - 1];
      var r := Restore(f, w, leaf).world;
      RestoreTries(f, w, leaf);
      UndoStep(p, orig, w.files, w.backups, r.files, r.backups, m, k);
      assert At(r.files, p.marker) == At(w.files, p.marker);
      RestoreFromCovers(p, f, r, orig, m, k - 1, from);
    }
  }

  /** The first marker of an undo takes effect, or is not needed. */
  ghost predicate Announced(p: Payload, f: Faults, w: World, orig: Files) {
    !f(w.clock).FailedBefore? || p.marker in w.files || AsBefore(p, orig, w.files)
  }

  /**
   * Whatever else fails, every state of an undo is marked or as before if and only if the
   * undo was announced.
   */
  lemma UndoCoveredIff(p: Payload, f: Faults, w: World, m: nat, activated: bool, orig: Files)
    requires p.Valid() && Undoing(p, orig, w, m, m)
    ensures w.trace <= Undo(p, f, w, m, activated).world.trace
    ensures AllCovered(p, orig, Undo(p, f, w, m, activated).world, |w.trace|) <==> Announced(p, f, w, orig)
  {
    var a := WriteMarker(p, f, w, "rollback").world;
    MarkUndoes(p, f, w, "rollback", orig, m, m);
    RestoreFromUndoes(p, f, a, orig, m, m);
    var r := RestoreFrom(p, f, a, m);
    var u := Undo(p, f, w, m, activated).world;
    if r.ok {
      AllBack(p, orig, r.world.files, r.world.backups, m);
      FinishStaysBack(p, f, r.world, activated, orig);
    }
    assert a.trace <= u.trace && a.trace[|w.trace|] == a.files;
    assert Covered(p, orig, a.files) <==> Announced(p, f, w, orig);
    if Announced(p, f, w, orig) {
      RestoreFromCovers(p, f, a, orig, m, m, |w.trace|);
      assert AllCovered(p, orig, u, |w.trace|);
    } else {
      assert u.trace[|w.trace|] == a.files;
    }
  }

  lemma BackOneStep(p: Payload, orig: Files, before: Files, after: Files, k: nat)
    requires p.Valid() && 0 < k <= |p.Order()| && Near(p, orig, before, k)
    requires At(after, p.Order()[k - 1]) == At(orig, p.Order()[k - 1])
    requires forall other :: other != p.Order()[k - 1] ==> At(after, other) == At(before, other)
    ensures Track(p, orig, after, k - 1)
  {
    var order := p.Order();
    assert order[..k] == order[..k - 1] + [order[k - 1]];
    assert order[k - 1] !in order[..k - 1];
  }

  lemma {:induction false} RestoreFromKeepsMarker(p: Payload, f: Faults, w: World, k: nat)
    requires p.Valid() && k <= |p.Order()|
    ensures var r := RestoreFrom(p, f, w, k).world;
      && w.trace <= r.trace && At(r.files, p.marker) == At(w.files, p.marker)
      && forall t :: |w.trace| <= t < |r.trace| ==> At(r.trace[t], p.marker) == At(w.files, p.marker)
    decreases k
  {
    if k > 0 {
      RestoreTries(f, w, p.Order()[k - 1]);
      RestoreFromKeepsMarker(p, f, Restore(f, w, p.Order()[k - 1]).world, k - 1);
    }
  }

  /** One prefix after the other, the first of k - 1 leaves, the last of none. */
  ghost predicate Descends(p: Payload, orig: Files, trace: seq<Files>, from: nat, k: nat) {
    && k <= |p.Order()| && |trace| == from + k
    && forall t :: from <= t < from + k ==> Track(p, orig, trace[t], from + k - 1 - t)
  }

  /** The originals of the first k leaves are still linked. */
  ghost predicate Linked(p: Payload, orig: Files, backups: Files, k: nat)
    requires k <= |p.Order()|
  {
    forall i :: 0 <= i < k ==> At(backups, p.Order()[i]) == At(orig, p.Order()[i])
  }

  /** One leaf put back is one prefix less. */
  lemma RestoreDescends(p: Payload, f: Faults, w: World, orig: Files, k: nat)
    requires p.Valid() && 0 < k <= |p.Order()| && Linked(p, orig, w.backups, k) && Near(p, orig, w.files, k)
    requires Restore(f, w, p.Order()[k - 1]).ok
    ensures var s := Restore(f, w, p.Order()[k - 1]).world;
      && Linked(p, orig, s.backups, k - 1) && Track(p, orig, s.files, k - 1) && Near(p, orig, s.files, k - 1)
      && s.trace == w.trace + [s.files]
  {
    RestoreTries(f, w, p.Order()[k - 1]);
    BackOneStep(p, orig, w.files, Restore(f, w, p.Order()[k - 1]).world.files, k);
  }

  /** Without a failure, restoring goes back through the prefixes one by one. */
  lemma {:induction false} RestoreFromTracks(p: Payload, f: Faults, w: World, orig: Files, k: nat)
    requires p.Valid() && k <= |p.Order()| && Linked(p, orig, w.backups, k) && Near(p, orig, w.files, k)
    requires RestoreFrom(p, f, w, k).ok
    ensures Descends(p, orig, RestoreFrom(p, f, w, k).world.trace, |w.trace|, k)
    decreases k
  {
    if k > 0 {
      var s := Restore(f, w, p.Order()[k - 1]).world;
      RestoreDescends(p, f, w, orig, k);
      RestoreFromTracks(p, f, s, orig, k - 1);
      RestoreFromKeepsMarker(p, f, s, k - 1);
      AndDescends(p, orig, w, s, RestoreFrom(p, f, s, k - 1).world, k);
    }
  }

  lemma AndDescends(p: Payload, orig: Files, w: World, s: World, r: World, k: nat)
    requires 0 < k <= |p.Order()| && s.trace == w.trace + [s.files] && Track(p, orig, s.files, k - 1)
    requires s.trace <= r.trace && Descends(p, orig, r.trace, |s.trace|, k - 1)
    ensures Descends(p, orig, r.trace, |w.trace|, k)
  {
    assert r.trace[|w.trace|] == s.files;
  }

  /** A successful undo passes only through prefixes, and through marked ones if it was announced. */
  lemma UndoTracks(p: Payload, f: Faults, w: World, m: nat, activated: bool, orig: Files)
    requires p.Valid() && Undoing(p, orig, w, m, m) && Near(p, orig, w.files, m)
    requires Undo(p, f, w, m, activated).ok
    ensures var r := Undo(p, f, w, m, activated).world;
      && w.trace <= r.trace
      && (forall k :: |w.trace| <= k < |r.trace| ==> Tracked(p, orig, r.trace[k]))
      && (Announced(p, f, w, orig) ==> AllOnTrack(p, orig, r, |w.trace|))
  {
    var a := WriteMarker(p, f, w, "rollback").world;
    MarkUndoes(p, f, w, "rollback", orig, m, m);
    MarkNear(p, orig, w.files, a.files, m);
    RestoreFromTracks(p, f, a, orig, m);
    RestoreFromUndoes(p, f, a, orig, m, m);
    var b := RestoreFrom(p, f, a, m).world;
    AllBack(p, orig, b.files, b.backups, m);
    FinishStaysBack(p, f, b, activated, orig);
    UndoCoveredIff(p, f, w, m, activated, orig);
    var r := Undo(p, f, w, m, activated).world;
    NearIsTracked(p, orig, a.files, m);
    UndoStatesTrack(p, orig, a, b, r.trace, m);
    assert forall k :: |w.trace| <= k < |a.trace| ==> r.trace[k] == a.files;
  }

  /** Through the prefixes down to none, and there to the end. */
  lemma UndoStatesTrack(p: Payload, orig: Files, a: World, b: World, trace: seq<Files>, m: nat)
    requires Descends(p, orig, b.trace, |a.trace|, m) && b.trace <= trace
    requires forall k :: |b.trace| <= k < |trace| ==> AsBefore(p, orig, trace[k])
    ensures forall k :: |a.trace| <= k < |trace| ==>
      Tracked(p, orig, trace[k]) && (Covered(p, orig, trace[k]) ==> OnTrack(p, orig, trace[k]))
  {
    forall k | |a.trace| <= k < |trace|
      ensures Tracked(p, orig, trace[k]) && (Covered(p, orig, trace[k]) ==> OnTrack(p, orig, trace[k]))
    {
      if k < |b.trace| {
        assert trace[k] == b.trace[k];
        TrackedIsCovered(p, orig, trace[k], |b.trace| - 1 - k);
      } else {
        TrackedIsCovered(p, orig, trace[k], 0);
      }
    }
  }

  lemma TrackedIsCovered(p: Payload, orig: Files, s: Files, n: nat)
    requires n <= |p.Order()| && (Track(p, orig, s, n) || (n == 0 && AsBefore(p, orig, s)))
    ensures Tracked(p, orig, s) && (Covered(p, orig, s) ==> OnTrack(p, orig, s))
  {
    assert p.Order()[..0] == [];
    if AsBefore(p, orig, s) {
      assert Track(p, orig, s, 0);
    } else {
      assert Track(p, orig, s, n);
    }
  }

  lemma NearIsTracked(p: Payload, orig: Files, s: Files, m: nat)
    requires m <= |p.Order()| && Near(p, orig, s, m)
    ensures Tracked(p, orig, s) && (Covered(p, orig, s) ==> OnTrack(p, orig, s))
  {
    TrackedIsCovered(p, orig, s, if Track(p, orig, s, m) then m else m - 1);
  }

  lemma MarkNear(p: Payload, orig: Files, s: Files, t: Files, m: nat)
    requires m <= |p.Order()| && Near(p, orig, s, m)
    requires forall leaf :: leaf != p.marker ==> At(t, leaf) == At(s, leaf)
    ensures Near(p, orig, t, m)
  {
    if Track(p, orig, s, m) {
      assert Track(p, orig, t, m);
    } else {
      assert Track(p, orig, t, m - 1);
    }
  }

  // ---- the whole installation --------------------------------------------------------

  ghost predicate AllNew(p: Payload, s: Files) {
    forall leaf :: leaf in p.Order() ==> At(s, leaf) == At(p.content, leaf)
  }

  /** Where the forward path was over. */
  function Caught(p: Payload, f: Faults, w: World): Progress
    requires p.Valid()
  {
    Forward(p, f, Started(p, w))
  }

  /** How an installation ends is decided by the faults: restored unless one more step fails. */
  lemma InstallEnds(p: Payload, f: Faults, w: World)
    requires p.Valid()
    ensures var e := Install(p, f, w); var g := Caught(p, f, w);
      && (e.result.Installed? <==> g.ok) && (g.ok <==> AllWork(f, w.clock, Whole(p, w)))
      && (e.result.Restored? <==> !g.ok && UndoWorks(f, g.world.clock, g.touched, g.activated))
      && (e.result.Installed? ==> p.marker !in e.world.files && AllNew(p, e.world.files))
      && (e.result.Restored? ==> e.world.files == w.files)
      && (e.result.Incomplete? ==> Recoverable(p, w.files, e.world.files, e.world.backups))
  {
    var s := Started(p, w);
    var g := Forward(p, f, s);
    ForwardTicks(p, f, s);
    ForwardTracks(p, f, s);
    if g.ok {
      assert p.Order()[..g.touched] == p.Order();
    } else {
      NearUndoes(p, w.files, g.world, g.touched);
      UndoRestores(p, f, g.world, g.touched, g.activated, w.files);
      UndoSucceedsIff(p, f, g.world, g.touched, g.activated);
    }
  }

  /**
   * What a kill can leave behind: before anything was caught a marked prefix; during undo a
   * marked state or the one before, if and only if the undo was announced; and prefixes
   * again throughout an undo that succeeds.
   */
  lemma InstallIsRestartable(p: Payload, f: Faults, w: World)
    requires p.Valid()
    ensures var e := Install(p, f, w).world; var g := Caught(p, f, w);
      && AllOnTrack(p, w.files, g.world, |w.trace|) && g.world.trace <= e.trace
      && (g.ok ==> e.trace == g.world.trace)
      && (!g.ok ==> (AllCovered(p, w.files, e, |g.world.trace|) <==> Announced(p, f, g.world, w.files)))
      && (Install(p, f, w).result.Restored? ==>
            && (forall k :: |g.world.trace| <= k < |e.trace| ==> Tracked(p, w.files, e.trace[k]))
            && (Announced(p, f, g.world, w.files) ==> AllOnTrack(p, w.files, e, |w.trace|)))
  {
    var s := Started(p, w);
    var g := Forward(p, f, s);
    ForwardTracks(p, f, s);
    if !g.ok {
      NearUndoes(p, w.files, g.world, g.touched);
      UndoCoveredIff(p, f, g.world, g.touched, g.activated, w.files);
      if Undo(p, f, g.world, g.touched, g.activated).ok {
        UndoTracks(p, f, g.world, g.touched, g.activated, w.files);
      }
    }
  }

  /** An undo that was not announced passes, when nothing more fails, through an unmarked mix of any two leaves. */
  lemma UnannouncedUndoMixes(p: Payload, f: Faults, w: World, m: nat, activated: bool, orig: Files, i: nat, j: nat)
    requires p.Valid() && Undoing(p, orig, w, m, m) && Near(p, orig, w.files, m)
    requires Undo(p, f, w, m, activated).ok && p.marker !in w.files && f(w.clock).FailedBefore?
    requires i < j < m
    requires At(orig, p.Order()[i]) != At(p.content, p.Order()[i]) && At(orig, p.Order()[j]) != At(p.content, p.Order()[j])
    ensures var t := Undo(p, f, w, m, activated).world.trace;
      |w.trace| + m - j < |t| && Mixed(p, orig, t[|w.trace| + m - j], i, j) && p.marker !in t[|w.trace| + m - j]
  {
    var a := WriteMarker(p, f, w, "rollback").world;
    MarkUndoes(p, f, w, "rollback", orig, m, m);
    var b := RestoreFrom(p, f, a, m).world;
    RestoreFromTracks(p, f, a, orig, m);
    RestoreFromKeepsMarker(p, f, a, m);
    FinishGrows(p, f, b, activated);
    var k := |w.trace| + m - j;
    TrackMixes(p, orig, b.trace[k], i, j);
  }

  lemma FinishGrows(p: Payload, f: Faults, w: World, activated: bool)
    ensures w.trace <= FinishUndo(p, f, w, activated).world.trace
  {
    RestoreTries(f, Touchless(f, WriteMarker(p, f, w, "rollback-activate").world).world, p.marker);
    RestoreTries(f, w, p.marker);
  }

  lemma TrackMixes(p: Payload, orig: Files, s: Files, i: nat, j: nat)
    requires p.Valid() && i < j < |p.Order()| && Track(p, orig, s, j)
    requires At(orig, p.Order()[i]) != At(p.content, p.Order()[i]) && At(orig, p.Order()[j]) != At(p.content, p.Order()[j])
    ensures Mixed(p, orig, s, i, j)
  {
    var order := p.Order();
    assert order[..j][i] == order[i] && order[j] !in order[..j];
    assert order[i] in order[..j];
  }

  lemma {:induction false} PublishTicks(p: Payload, f: Faults, w: World, i: nat, n: nat, activated: bool)
    requires p.Valid() && i <= n <= |p.Order()|
    ensures var r := PublishFrom(p, f, w, i, n, activated);
      && (r.ok <==> forall k :: w.clock <= k < w.clock + n - i ==> f(k).Done?)
      && (r.ok ==> r.world.clock == w.clock + n - i && r.touched == n && r.activated == activated)
    decreases n - i
  {
    if i < n {
      PublishTicks(p, f, Replace(f, w, p.Order()[i], p.content[p.Order()[i]]).world, i + 1, n, activated);
    }
  }

  /** The clock after a forward path that reaches the end. */
  function Whole(p: Payload, w: World): nat { w.clock + |p.Order()| + 5 }

  ghost predicate AllWork(f: Faults, from: nat, to: nat) { forall k :: from <= k < to ==> f(k).Done? }

  lemma RecordTicks(p: Payload, f: Faults, w: World)
    requires p.Valid()
    ensures var g := Record(p, f, w); var last := w.clock + 4;
      && (g.ok <==> AllWork(f, w.clock, last + 1))
      && (AllWork(f, w.clock, last) ==>
            && g.world.clock == last + 1 && g.touched == |p.Order()| && g.activated
            && (!f(last).FailedBefore? ==> p.marker !in g.world.files))
  {
    var b := WriteMarker(p, f, Touchless(f, w).world, "record").world;
    PublishTicks(p, f, b, |p.others|, |p.others| + 2, true);
  }

  /** The forward path succeeds if and only if none of its |Order| + 5 primitives fails. */
  lemma ForwardTicks(p: Payload, f: Faults, w: World)
    requires p.Valid()
    ensures var g := Forward(p, f, w); var last := Whole(p, w) - 1;
      && (g.ok <==> AllWork(f, w.clock, last + 1))
      && (AllWork(f, w.clock, last) ==>
            && g.world.clock == last + 1 && g.touched == |p.Order()| && g.activated
            && (!f(last).FailedBefore? ==> p.marker !in g.world.files))
  {
    var n := |p.others|;
    var a := WriteMarker(p, f, w, "publish").world;
    PublishTicks(p, f, a, 0, n, false);
    var c := WriteMarker(p, f, PublishFrom(p, f, a, 0, n, false).world, "activate").world;
    RecordTicks(p, f, c);
  }

  /** Only the fsync after the marker's removal fails, and then the marker cannot be written again. */
  ghost predicate LateFailure(p: Payload, f: Faults, w: World) {
    var c := Whole(p, w);
    AllWork(f, w.clock, c - 1) && f(c - 1).FailedAfter? && f(c).FailedBefore?
  }

  ghost predicate Differs(p: Payload, orig: Files, i: nat)
    requires i < |p.Order()|
  {
    At(orig, p.Order()[i]) != At(p.content, p.Order()[i])
  }

  /** The undo that follows a late failure passes through an unmarked mix of any two leaves. */
  lemma LateFailureMixes(p: Payload, f: Faults, w: World, i: nat, j: nat)
    requires p.Valid() && i < j < |p.Order()| && Differs(p, w.files, i) && Differs(p, w.files, j)
    requires LateFailure(p, f, w) && UndoWorks(f, Whole(p, w), |p.Order()|, true)
    ensures HasUnmarkedMix(p, w.files, Install(p, f, w).world.trace, |w.trace|, i, j)
  {
    var g := Caught(p, f, w);
    ForwardTicks(p, f, Started(p, w));
    ForwardTracks(p, f, Started(p, w));
    LateUndoMixes(p, f, g.world, w.files, |w.trace|, i, j);
  }

  ghost predicate HasUnmarkedMix(p: Payload, orig: Files, trace: seq<Files>, from: nat, i: nat, j: nat)
    requires i < |p.Order()| && j < |p.Order()|
  {
    exists k :: from <= k < |trace| && Mixed(p, orig, trace[k], i, j) && p.marker !in trace[k]
  }

  lemma LateUndoMixes(p: Payload, f: Faults, w: World, orig: Files, from: nat, i: nat, j: nat)
    requires p.Valid() && i < j < |p.Order()| && Near(p, orig, w.files, |p.Order()|) && w.backups == Retained(p, orig)
    requires Differs(p, orig, i) && Differs(p, orig, j) && from <= |w.trace|
    requires p.marker !in w.files && f(w.clock).FailedBefore? && UndoWorks(f, w.clock, |p.Order()|, true)
    ensures HasUnmarkedMix(p, orig, Undo(p, f, w, |p.Order()|, true).world.trace, from, i, j)
  {
    var m := |p.Order()|;
    NearUndoes(p, orig, w, m);
    UndoSucceedsIff(p, f, w, m, true);
    UnannouncedUndoMixes(p, f, w, m, true, orig, i, j);
    var k := |w.trace| + m - j;
    assert from <= k;
  }

  /** A forward path that stops without a marker has changed nothing, or failed after removing it. */
  lemma UnmarkedForward(p: Payload, f: Faults, w: World)
    requires p.Valid() && !Forward(p, f, w).ok && p.marker !in Forward(p, f, w).world.files
    ensures AsBefore(p, w.files, Forward(p, f, w).world.files) ||
      (AllWork(f, w.clock, Whole(p, w) - 1) && f(Whole(p, w) - 1).FailedAfter?)
  {
    var n := |p.others|;
    var a := WriteMarker(p, f, w, "publish");
    if a.ok {
      StaysMarked(p, f, a.world, 0, n, false);
      PublishTicks(p, f, a.world, 0, n, false);
      var b := PublishFrom(p, f, a.world, 0, n, false);
      var c := WriteMarker(p, f, b.world, "activate");
      if b.ok && c.ok {
        UnmarkedRecord(p, f, c.world);
      }
    }
  }

  lemma UnmarkedRecord(p: Payload, f: Faults, w: World)
    requires p.Valid() && p.marker in w.files && !Record(p, f, w).ok && p.marker !in Record(p, f, w).world.files
    ensures AllWork(f, w.clock, w.clock + 4) && f(w.clock + 4).FailedAfter?
  {
    var n := |p.others|;
    var b := WriteMarker(p, f, Touchless(f, w).world, "record").world;
    StaysMarked(p, f, b, n, n + 2, true);
    PublishTicks(p, f, b, n, n + 2, true);
  }

  lemma {:induction false} StaysMarked(p: Payload, f: Faults, w: World, i: nat, n: nat, activated: bool)
    requires p.Valid() && i <= n <= |p.Order()| && p.marker in w.files
    ensures p.marker in PublishFrom(p, f, w, i, n, activated).world.files
    decreases n - i
  {
    if i < n {
      StaysMarked(p, f, Replace(f, w, p.Order()[i], p.content[p.Order()[i]]).world, i + 1, n, activated);
    }
  }

  lemma LateOrMarked(p: Payload, f: Faults, w: World, i: nat, j: nat, k: nat)
    requires p.Valid() && i < |p.Order()| && j < |p.Order()|
    requires |w.trace| <= k < |Install(p, f, w).world.trace|
    ensures var s := Install(p, f, w).world.trace[k];
      LateFailure(p, f, w) || (Mixed(p, w.files, s, i, j) ==> p.marker in s)
  {
    var s := Install(p, f, w).world.trace[k];
    var g := Caught(p, f, w);
    InstallIsRestartable(p, f, w);
    ForwardTicks(p, f, Started(p, w));
    if !g.ok && p.marker !in g.world.files {
      UnmarkedForward(p, f, Started(p, w));
    }
    if !LateFailure(p, f, w) && Mixed(p, w.files, s, i, j) {
      assert OnTrack(p, w.files, s) || Covered(p, w.files, s);
      MixIsMarked(p, w.files, s, i, j);
    }
  }

  /** Every unmarked mix is the work of a late failure, whatever else fails. */
  lemma MixNeedsLateFailure(p: Payload, f: Faults, w: World, i: nat, j: nat)
    requires p.Valid() && i < |p.Order()| && j < |p.Order()|
    requires HasUnmarkedMix(p, w.files, Install(p, f, w).world.trace, |w.trace|, i, j)
    ensures LateFailure(p, f, w)
  {
    var t := Install(p, f, w).world.trace;
    var k :| |w.trace| <= k < |t| && Mixed(p, w.files, t[k], i, j) && p.marker !in t[k];
    LateOrMarked(p, f, w, i, j, k);
  }

  /** An installation that is not left incomplete was an unmarked mix if and only if it failed late. */
  lemma UnmarkedMixIffLateFailure(p: Payload, f: Faults, w: World, i: nat, j: nat)
    requires p.Valid() && i < j < |p.Order()| && !Install(p, f, w).result.Incomplete?
    ensures HasUnmarkedMix(p, w.files, Install(p, f, w).world.trace, |w.trace|, i, j) <==>
      LateFailure(p, f, w) && Differs(p, w.files, i) && Differs(p, w.files, j)
  {
    InstallEnds(p, f, w);
    if HasUnmarkedMix(p, w.files, Install(p, f, w).world.trace, |w.trace|, i, j) {
      MixNeedsLateFailure(p, f, w, i, j);
      MixedDiffer(p, f, w, i, j);
    } else if LateFailure(p, f, w) && Differs(p, w.files, i) && Differs(p, w.files, j) {
      ForwardTicks(p, f, Started(p, w));
      LateFailureMixes(p, f, w, i, j);
    }
  }

  lemma MixedDiffer(p: Payload, f: Faults, w: World, i: nat, j: nat)
    requires p.Valid() && i < |p.Order()| && j < |p.Order()| && !Install(p, f, w).result.Incomplete?
    requires HasUnmarkedMix(p, w.files, Install(p, f, w).world.trace, |w.trace|, i, j)
    ensures Differs(p, w.files, i) && Differs(p, w.files, j)
  {
    var t := Install(p, f, w).world.trace;
    var k :| |w.trace| <= k < |t| && Mixed(p, w.files, t[k], i, j) && p.marker !in t[k];
    InstallIsRestartable(p, f, w);
    assert Tracked(p, w.files, t[k]);
    var n :| 0 <= n <= |p.Order()| && Track(p, w.files, t[k], n);
  }
}
