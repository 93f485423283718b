/**
 * The decoder session's lifetime (driver/linux/crystalhd_cmds.c): the module pin, the
 * adopted frontend reference, and the order in which hardware, registry and references
 * are given up.
 */
module SessionModel {
  import opened Basics

  datatype Status = Success | InvArg | ErrUsage | Busy | NoAccess | IoError | SetupError

  /** A callback on the owner's reference; `retired` when hardware and registry were gone by then. */
  datatype Call = Get(owner: nat) | Retired(owner: nat, gone: bool) | Put(owner: nat, gone: bool)

  /**
   * `live` is a bound adapter, `idle` link state INVALID, `hw` an open hardware context,
   * `retained` a published RX registry, `refs` the module references held here.
   */
  datatype Session = Session(
    live: bool, idle: bool, hw: bool, retained: bool, pinned: bool,
    owner: Option<nat>, lifetime: Option<nat>, refs: int, log: seq<Call>)

  function Initial(): Session { Session(true, true, false, false, false, None, None, 0, []) }

  /** What the hardware layer answers while a context is retired. */
  datatype RetireEnv = RetireEnv(
    faulted: bool, stops: bool, cancels: bool, closes: bool, freesRings: bool, cleans: bool)

  datatype Retirement = Retirement(s: Session, ok: bool)

  /** crystalhd_retained_cleanup(ctx, true) */
  function CleanRegistry(s: Session, cleans: bool): Retirement {
    if !s.retained then Retirement(s, true)
    else if !cleans then Retirement(s, false)
    else Retirement(s.(retained := false), true)
  }

  /** crystalhd_retire_hw_context */
  function RetireHw(s: Session, resources: bool, env: RetireEnv): Retirement {
    if !s.hw then CleanRegistry(s, env.cleans)
    else if env.faulted then Retirement(s, false)
    else if resources && (!env.stops || !env.cancels) then Retirement(s, false)
    else if !env.closes then Retirement(s, false)
    else if resources && !env.freesRings then Retirement(s, false)
    else if resources && !CleanRegistry(s, env.cleans).ok then Retirement(s, false)
    else
      var t := if resources then CleanRegistry(s, env.cleans).s else s;
      CleanRegistry(t.(idle := true, hw := false), env.cleans)
  }

  /** crystalhd_session_unpin, with the owner retired and put before the module reference drops. */
  function Unpin(s: Session): Session {
    if !s.pinned then s
    else
      var gone := !s.hw && !s.retained;
      var calls := if s.lifetime.Some? then [Retired(s.lifetime.value, gone), Put(s.lifetime.value, gone)] else [];
      s.(lifetime := None, pinned := false, refs := s.refs - 1, log := s.log + calls)
  }

  /** crystalhd_session_retire_unpublished */
  function RetireUnpublished(s: Session, linkRestored: bool, env: RetireEnv): Retirement {
    if s.owner.Some? || !s.pinned || !linkRestored then Retirement(s, false)
    else
      var r := RetireHw(s, true, env);
      if r.ok then Retirement(Unpin(r.s), true) else r
  }

  datatype AcquireEnv = AcquireEnv(
    modulePins: bool, opensHw: bool, setsUp: bool, linkBegins: bool, linkRestored: bool, retire: RetireEnv)

  datatype Outcome = Outcome(s: Session, status: Status)

  /** crystalhd_session_acquire_locked; owner 0 is the null token. */
  function Acquire(s: Session, owner: nat, env: AcquireEnv): Outcome {
    if !s.live || owner == 0 then Outcome(s, InvArg)
    else if s.owner.Some? then Outcome(s, Busy)
    else if !s.idle then Outcome(s, ErrUsage)
    else if s.pinned || s.lifetime.Some? then Outcome(s, Busy)
    else if !env.modulePins then Outcome(s, NoAccess)
    else
      var p := s.(pinned := true, refs := s.refs + 1);
      if !s.hw && !env.opensHw then Outcome(Unpin(p), SetupError)
      else
        var h := p.(hw := true);
        if !env.setsUp then
          if s.hw then Outcome(Unpin(h), SetupError)
          else
            var r := RetireHw(h, false, env.retire);
            if r.ok then Outcome(Unpin(r.s), SetupError) else Outcome(r.s, SetupError)
        else if !env.linkBegins then Outcome(RetireUnpublished(h, env.linkRestored, env.retire).s, IoError)
        else Outcome(h.(owner := Some(owner)), Success)
  }

  /** crystalhd_session_acquire_ref_locked: the pin of this very attempt carries a reference. */
  function AcquireRef(s: Session, owner: nat, env: AcquireEnv): Outcome {
    var o := Acquire(s, owner, env);
    if !s.pinned && o.s.pinned then
      Outcome(o.s.(lifetime := Some(owner), log := o.s.log + [Get(owner)]), o.status)
    else o
  }

  /** crystalhd_session_release_locked */
  function Release(s: Session, owner: nat, linkRestored: bool, env: RetireEnv): Outcome {
    if owner == 0 then Outcome(s, InvArg)
    else if s.owner != Some(owner) then
      if s.owner.None? && s.lifetime == Some(owner) && s.pinned then
        var r := RetireUnpublished(s, linkRestored, env);
        Outcome(r.s, if r.ok then Success else IoError)
      else Outcome(s, ErrUsage)
    else
      var r := RetireHw(s, true, env);
      if !r.ok || !linkRestored then Outcome(r.s, IoError)
      else Outcome(Unpin(r.s.(owner := None)), Success)
  }

  /** The last file closing without a published session (crystalhd_user_close). */
  function CloseLast(s: Session, linkRestored: bool, env: RetireEnv): Session {
    if s.owner.Some? then s
    else if s.pinned then RetireUnpublished(s, linkRestored, env).s
    else RetireHw(s, true, env).s
  }

  /** crystalhd_delete_cmd_context, after terminal quiescence. */
  function Delete(s: Session, freesRings: bool, cleans: bool): Outcome {
    if s.hw && !freesRings then Outcome(s, IoError)
    else
      var c := CleanRegistry(s, cleans);
      if !c.ok then Outcome(s, IoError)
      else Outcome(Unpin(c.s.(hw := false, idle := true, owner := None, live := false)), Success)
  }

  datatype Event =
    | OpenEvent(opensHw: bool)
    | RegisterEvent
    | LinkEvent(linkIdle: bool)
    | AcquireEvent(token: nat, acquire: AcquireEnv)
    | AcquireRefEvent(token: nat, acquire: AcquireEnv)
    | ReleaseEvent(token: nat, linkRestored: bool, retire: RetireEnv)
    | CloseLastEvent(linkRestored: bool, retire: RetireEnv)
    | DeleteEvent(freesRings: bool, cleans: bool)

  /** Opening a file, registering RX buffers and link state changes happen around the session. */
  function Apply(s: Session, e: Event): Outcome {
    match e
    case OpenEvent(opensHw) => Outcome(if s.live && opensHw then s.(hw := true) else s, Success)
    case RegisterEvent => Outcome(if s.hw && s.owner.Some? then s.(retained := true) else s, Success)
    case LinkEvent(linkIdle) => Outcome(if s.live && s.hw then s.(idle := linkIdle) else s, Success)
    case AcquireEvent(token, env) => Acquire(s, token, env)
    case AcquireRefEvent(token, env) => AcquireRef(s, token, env)
    case ReleaseEvent(token, linkRestored, env) => Release(s, token, linkRestored, env)
    case CloseLastEvent(linkRestored, env) => Outcome(CloseLast(s, linkRestored, env), Success)
    case DeleteEvent(freesRings, cleans) => Delete(s, freesRings, cleans)
  }

  // ---- the invariant -----------------------------------------------------------------

  /** Whole cycles get-retired-put, with the last one open when an owner is adopted. */
  ghost predicate Balanced(log: seq<Call>, open: Option<nat>) {
    && |log| % 3 == (if open.Some? then 1 else 0)
    && (open.Some? ==> log[|log| - 1] == Get(open.value))
    && forall k :: 0 <= k && 3 * k + 2 < |log| ==> Cycle(log, k)
  }

  /** Cycle k: one owner, got, notified, then put, with everything retired before. */
  ghost predicate Cycle(log: seq<Call>, k: int)
    requires 0 <= k && 3 * k + 2 < |log|
  {
    && log[3 * k].Get?
    && log[3 * k + 1] == Retired(log[3 * k].owner, true)
    && log[3 * k + 2] == Put(log[3 * k].owner, true)
  }

  ghost predicate Inv(s: Session) {
    && s.refs == (if s.pinned then 1 else 0)
    && (s.owner.Some? ==> s.pinned && s.live)
    && (s.lifetime.Some? ==> s.pinned)
    && (s.owner.Some? && s.lifetime.Some? ==> s.owner == s.lifetime)
    && Balanced(s.log, s.lifetime)
  }

  lemma BalancedGet(log: seq<Call>, owner: nat)
    requires Balanced(log, None)
    ensures Balanced(log + [Get(owner)], Some(owner))
  {
    var t := log + [Get(owner)];
    forall k | 0 <= k && 3 * k + 2 < |t| ensures Cycle(t, k) {
      assert Cycle(log, k);
    }
  }

  lemma BalancedPut(log: seq<Call>, owner: nat)
    requires Balanced(log, Some(owner))
    ensures Balanced(log + [Retired(owner, true), Put(owner, true)], None)
  {
    var t := log + [Retired(owner, true), Put(owner, true)];
    forall k | 0 <= k && 3 * k + 2 < |t| ensures Cycle(t, k) {
      if 3 * k + 2 < |log| {
        assert Cycle(log, k);
      }
    }
  }

  lemma UnpinKeeps(s: Session)
    requires Inv(s) && s.owner.None? && (s.lifetime.Some? ==> !s.hw && !s.retained)
    ensures Inv(Unpin(s)) && !Unpin(s).pinned && Unpin(s).lifetime.None?
  {
    if s.lifetime.Some? {
      BalancedPut(s.log, s.lifetime.value);
    } else {
      assert s.log + [] == s.log;
    }
  }

  lemma RetireHwFacts(s: Session, resources: bool, env: RetireEnv)
    ensures var r := RetireHw(s, resources, env);
      && r.s == s.(idle := r.s.idle, hw := r.s.hw, retained := r.s.retained)
      && (r.ok ==> !r.s.hw && !r.s.retained)
  {
  }

  lemma RetireUnpublishedKeeps(s: Session, linkRestored: bool, env: RetireEnv)
    requires Inv(s)
    ensures Inv(RetireUnpublished(s, linkRestored, env).s)
  {
    if s.owner.None? {
      RetireHwFacts(s, true, env);
      var r := RetireHw(s, true, env);
      if r.ok {
        UnpinKeeps(r.s);
      }
    }
  }

  lemma AcquireKeeps(s: Session, owner: nat, env: AcquireEnv)
    requires Inv(s)
    ensures Inv(Acquire(s, owner, env).s)
    ensures !s.pinned ==> Acquire(s, owner, env).s.lifetime.None?
    ensures var t := Acquire(s, owner, env).s; t.owner == s.owner || t.owner == Some(owner)
  {
    if s.owner.None? && !s.pinned && s.lifetime.None? {
      var p := s.(pinned := true, refs := s.refs + 1);
      UnpinKeeps(p);
      var h := p.(hw := true);
      UnpinKeeps(h);
      RetireHwFacts(h, false, env.retire);
      var r := RetireHw(h, false, env.retire);
      UnpinKeeps(r.s);
      RetireUnpublishedKeeps(h, env.linkRestored, env.retire);
      RetireHwFacts(h, true, env.retire);
    }
  }

  lemma StepKeeps(s: Session, e: Event)
    requires Inv(s)
    ensures Inv(Apply(s, e).s)
  {
    match e
    case AcquireEvent(token, env) => AcquireKeeps(s, token, env);
    case AcquireRefEvent(token, env) =>
      AcquireKeeps(s, token, env);
      if !s.pinned {
        BalancedGet(Acquire(s, token, env).s.log, token);
      }
    case ReleaseEvent(token, linkRestored, env) =>
      RetireUnpublishedKeeps(s, linkRestored, env);
      RetireHwFacts(s, true, env);
      var r := RetireHw(s, true, env);
      if r.ok {
        UnpinKeeps(r.s.(owner := None));
      }
    case CloseLastEvent(linkRestored, env) =>
      RetireUnpublishedKeeps(s, linkRestored, env);
      RetireHwFacts(s, true, env);
    case DeleteEvent(freesRings, cleans) =>
      var c := CleanRegistry(s, cleans);
      if c.ok {
        UnpinKeeps(c.s.(hw := false, idle := true, owner := None, live := false));
      }
    case _ =>
  }

  // ---- whole runs --------------------------------------------------------------------

  function Run(s: Session, events: seq<Event>): Session
    decreases |events|
  {
    if events == [] then s else Run(Apply(s, events[0]).s, events[1..])
  }

  lemma {:induction false} RunKeeps(s: Session, events: seq<Event>)
    requires Inv(s)
    ensures Inv(Run(s, events))
    decreases |events|
  {
    if events != [] {
      StepKeeps(s, events[0]);
      RunKeeps(Apply(s, events[0]).s, events[1..]);
    }
  }

  ghost predicate Returned(log: seq<Call>, open: Option<nat>, i: nat)
    requires i < |log| && log[i].Get?
  {
    if i + 1 == |log| then open == Some(log[i].owner)
    else
      && i + 2 < |log|
      && log[i + 1] == Retired(log[i].owner, true)
      && log[i + 2] == Put(log[i].owner, true)
  }

  ghost predicate Earned(log: seq<Call>, i: nat)
    requires i < |log| && log[i].Put?
  {
    i >= 2 && log[i].gone && log[i - 1] == Retired(log[i].owner, true) && log[i - 2] == Get(log[i].owner)
  }

  lemma BalancedReturns(log: seq<Call>, open: Option<nat>, i: nat)
    requires Balanced(log, open) && i < |log|
    ensures log[i].Get? ==> Returned(log, open, i)
    ensures log[i].Put? ==> Earned(log, i)
  {
    var k := i / 3;
    if 3 * k + 2 < |log| {
      assert Cycle(log, k);
    }
  }

  /** In any run a get is followed by its owner's retired and put, or is the adopted owner's. */
  lemma EveryReferenceIsReturned(s: Session, events: seq<Event>, i: nat)
    requires s == Run(Initial(), events) && i < |s.log| && s.log[i].Get?
    ensures Returned(s.log, s.lifetime, i)
  {
    RunKeeps(Initial(), events);
    BalancedReturns(s.log, s.lifetime, i);
  }

  /** In any run a put comes right after its own get and retired, with everything gone. */
  lemma EveryPutIsEarned(s: Session, events: seq<Event>, i: nat)
    requires s == Run(Initial(), events) && i < |s.log| && s.log[i].Put?
    ensures Earned(s.log, i)
  {
    RunKeeps(Initial(), events);
    BalancedReturns(s.log, s.lifetime, i);
  }

  /** The pin is one module reference, it outlives the published owner, and release drops all of it. */
  lemma PinCoversSession(events: seq<Event>)
    ensures var s := Run(Initial(), events);
      s.refs == (if s.pinned then 1 else 0) && (s.owner.Some? ==> s.pinned) && (s.lifetime.Some? ==> s.pinned)
  {
    RunKeeps(Initial(), events);
  }

  /** Release either gives everything up or keeps the token, the pin and the lease. */
  lemma ReleaseIsAllOrNothing(s: Session, owner: nat, linkRestored: bool, env: RetireEnv)
    requires Inv(s) && s.owner == Some(owner) && owner != 0
    ensures var o := Release(s, owner, linkRestored, env);
      if o.status == Success then
        !o.s.hw && !o.s.retained && o.s.owner.None? && o.s.lifetime.None? && !o.s.pinned && o.s.refs == 0
      else o.s.owner == s.owner && o.s.lifetime == s.lifetime && o.s.pinned && o.s.refs == 1 && o.s.log == s.log
  {
    RetireHwFacts(s, true, env);
    var r := RetireHw(s, true, env);
    if r.ok {
      UnpinKeeps(r.s.(owner := None));
    }
  }

  /** A failed acquisition with a reference keeps a lease exactly when it keeps the pin. */
  lemma FailedAcquireLease(s: Session, owner: nat, env: AcquireEnv)
    requires Inv(s) && !s.pinned
    ensures var o := AcquireRef(s, owner, env);
      (o.s.lifetime == Some(owner) <==> o.s.pinned) && (o.s.lifetime.None? <==> !o.s.pinned) &&
      (o.status != Success ==> o.s.owner == s.owner)
  {
    AcquireKeeps(s, owner, env);
    RetireHwFacts(s.(pinned := true, refs := s.refs + 1, hw := true), true, env.retire);
    RetireHwFacts(s.(pinned := true, refs := s.refs + 1, hw := true), false, env.retire);
  }
}
