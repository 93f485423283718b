/** When a session is acquired, released and deleted, and what is then left. */
module SessionOutcomes {
  import opened Basics
  import opened SessionModel

  // ---- retirement --------------------------------------------------------------------

  /** What a retirement needs: a healthy device, and every step of it. */
  predicate Retirable(s: Session, resources: bool, env: RetireEnv) {
    && (s.retained ==> env.cleans)
    && (s.hw ==> !env.faulted && env.closes)
    && (s.hw && resources ==> env.stops && env.cancels && env.freesRings)
  }

  /** A context and a registry are retired exactly then, and otherwise a context is kept open. */
  lemma RetireHwIff(s: Session, resources: bool, env: RetireEnv)
    ensures var r := RetireHw(s, resources, env);
      && (r.ok <==> Retirable(s, resources, env))
      && (r.ok ==> r.s == s.(hw := false, retained := false, idle := s.idle || s.hw))
      && (!r.ok && resources ==> r.s == s)
  {
  }

  // ---- acquisition -------------------------------------------------------------------

  /** An idle adapter that nobody holds. */
  predicate Free(s: Session, owner: nat) {
    s.live && owner > 0 && s.idle && s.owner.None? && s.lifetime.None? && !s.pinned
  }

  /** A session is acquired exactly on a free adapter when the module, hardware, pools and link allow it. */
  lemma AcquireSucceedsIff(s: Session, owner: nat, env: AcquireEnv)
    requires Inv(s)
    ensures var o := Acquire(s, owner, env);
      o.status == Success <==>
        Free(s, owner) && env.modulePins && (s.hw || env.opensHw) && env.setsUp && env.linkBegins
    ensures var o := Acquire(s, owner, env);
      && (o.status == Success ==> o.s == s.(pinned := true, refs := 1, hw := true, owner := Some(owner)))
      && (!Free(s, owner) ==> o.s == s)
  {
  }

  /** What an attempt that opened the hardware context, or found it, could not give up again. */
  predicate Stuck(s: Session, env: AcquireEnv) {
    var h := s.(hw := true);
    if !env.setsUp then !s.hw && !Retirable(h, false, env.retire)
    else !env.linkBegins && !(env.linkRestored && Retirable(h, true, env.retire))
  }

  /** A failed attempt leaves no pin and no owner unless its own rollback failed; then it keeps the pin with what is left. */
  lemma FailedAcquireKeepsIff(s: Session, owner: nat, env: AcquireEnv)
    requires Inv(s) && Free(s, owner) && Acquire(s, owner, env).status != Success
    ensures var o := Acquire(s, owner, env);
      && o.s.owner.None? && o.s.lifetime.None? && o.s.log == s.log
      && (o.s.pinned <==> env.modulePins && (s.hw || env.opensHw) && Stuck(s, env))
      && (o.s.pinned ==> (o.s.hw || o.s.retained) && o.s.refs == 1) && (!o.s.pinned ==> o.s.refs == 0)
  {
    var h := s.(pinned := true, refs := s.refs + 1, hw := true);
    RetireHwIff(h, false, env.retire);
    RetireHwIff(h, true, env.retire);
  }

  // ---- release and deletion ----------------------------------------------------------

  /** The owner's release succeeds exactly when everything is retired and the link is restored. */
  lemma ReleaseSucceedsIff(s: Session, owner: nat, linkRestored: bool, env: RetireEnv)
    requires Inv(s) && owner > 0
    ensures var o := Release(s, owner, linkRestored, env);
      o.status == Success <==>
        (s.owner == Some(owner) || (s.owner.None? && s.lifetime == Some(owner))) &&
        linkRestored && Retirable(s, true, env)
    ensures var o := Release(s, owner, linkRestored, env);
      o.status == ErrUsage <==> s.owner != Some(owner) && !(s.owner.None? && s.lifetime == Some(owner))
  {
    RetireHwIff(s, true, env);
  }

  /** A terminal deletion needs only the rings and the registry to go. */
  lemma DeleteSucceedsIff(s: Session, freesRings: bool, cleans: bool)
    requires Inv(s)
    ensures var o := Delete(s, freesRings, cleans);
      && (o.status == Success <==> (s.hw ==> freesRings) && (s.retained ==> cleans))
      && (if o.status == Success then
            !o.s.live && !o.s.hw && !o.s.retained && o.s.owner.None? && o.s.lifetime.None? && !o.s.pinned && o.s.refs == 0
          else o.s == s)
  {
  }

  /** The last close retires an unpublished session or an open context, and leaves a published session alone. */
  lemma CloseLastIff(s: Session, linkRestored: bool, env: RetireEnv)
    requires Inv(s)
    ensures var t := CloseLast(s, linkRestored, env);
      if s.owner.Some? then t == s
      else if s.pinned then
        (!t.pinned <==> linkRestored && Retirable(s, true, env)) && (t.pinned ==> t == s) && (!t.pinned ==> !t.hw && !t.retained)
      else (t.hw || t.retained <==> (s.hw || s.retained) && !Retirable(s, true, env)) && t.log == s.log
  {
    RetireHwIff(s, true, env);
  }

  /** Acquired with a reference and released: one get, retired and put, and the adapter is free again. */
  lemma CycleReturns(s: Session, owner: nat, env: AcquireEnv, release: RetireEnv)
    requires Inv(s) && Free(s, owner) && !s.retained
    requires env.modulePins && env.opensHw && env.setsUp && env.linkBegins && Retirable(s.(hw := true), true, release)
    ensures var a := AcquireRef(s, owner, env);
      var r := Release(a.s, owner, true, release);
      && a.status == Success && a.s.owner == Some(owner) && a.s.lifetime == Some(owner) && a.s.refs == 1
      && r.status == Success && Free(r.s, owner) && r.s.refs == 0 && !r.s.hw
      && r.s.log == s.log + [Get(owner), Retired(owner, true), Put(owner, true)]
  {
    AcquireSucceedsIff(s, owner, env);
    var a := AcquireRef(s, owner, env).s;
    RetireHwIff(a, true, release);
    assert s.log + [Get(owner)] + [Retired(owner, true), Put(owner, true)]
      == s.log + [Get(owner), Retired(owner, true), Put(owner, true)];
  }
}
