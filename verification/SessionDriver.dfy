/**
 * The session operations as the driver runs them, on the command context's own fields;
 * each one refines its function in SessionModel. Hardware answers are parameters.
 */
module SessionDriver {
  import opened Basics
  import opened SessionModel

  class SessionCommand {
    var live: bool
    var idle: bool
    var hw: bool
    var retained: bool
    var pinned: bool
    var owner: Option<nat>
    var lifetime: Option<nat>
    ghost var refs: int
    ghost var log: seq<Call>

    ghost function View(): Session
      reads this
    {
      Session(live, idle, hw, retained, pinned, owner, lifetime, refs, log)
    }

    constructor ()
      ensures View() == Initial()
    {
      live, idle, hw, retained, pinned := true, true, false, false, false;
      owner, lifetime, refs, log := None, None, 0, [];
    }

    // ---- the module count and the owner's callbacks --------------------------------

    ghost method ModuleGet()
      modifies this`refs
      ensures refs == old(refs) + 1
    {
      refs := refs + 1;
    }

    ghost method ModulePut()
      modifies this`refs
      ensures refs == old(refs) - 1
    {
      refs := refs - 1;
    }

    ghost method CallOwner(c: Call)
      modifies this`log
      ensures log == old(log) + [c]
    {
      log := log + [c];
    }

    // ---- retirement ----------------------------------------------------------------

    method RetainedCleanup(cleans: bool) returns (ok: bool)
      modifies this`retained
      ensures var r := CleanRegistry(old(View()), cleans); View() == r.s && ok == r.ok
    {
      if retained {
        if !cleans {
          return false;
        }
        retained := false;
      }
      ok := true;
    }

    method RetireHwContext(resources: bool, env: RetireEnv) returns (ok: bool)
      modifies this`retained, this`idle, this`hw
      ensures var r := RetireHw(old(View()), resources, env); View() == r.s && ok == r.ok
    {
      if hw {
        if env.faulted {
          return false;
        }
        if resources && (!env.stops || !env.cancels) {
          return false;
        }
        if !env.closes {
          return false;
        }
        if resources {
          if !env.freesRings {
            return false;
          }
          var cleaned := RetainedCleanup(env.cleans);
          if !cleaned {
            return false;
          }
        }
        idle := true;
        hw := false;
      }
      ok := RetainedCleanup(env.cleans);
    }

    method RetireOwner()
      modifies this`lifetime, this`log
      ensures lifetime.None?
      ensures log == old(log) +
        (if old(lifetime).None? then []
         else [Retired(old(lifetime).value, !hw && !retained), Put(old(lifetime).value, !hw && !retained)])
    {
      var token := lifetime;
      lifetime := None;
      if token.None? {
        return;
      }
      CallOwner(Retired(token.value, !hw && !retained));
      CallOwner(Put(token.value, !hw && !retained));
    }

    method UnpinSession()
      modifies this`lifetime, this`pinned, this`refs, this`log
      ensures View() == Unpin(old(View()))
    {
      if !pinned {
        return;
      }
      RetireOwner();
      pinned := false;
      ModulePut();
    }

    method RetireUnpublishedSession(linkRestored: bool, env: RetireEnv) returns (ok: bool)
      modifies this
      ensures var r := RetireUnpublished(old(View()), linkRestored, env); View() == r.s && ok == r.ok
    {
      if owner.Some? || !pinned || !linkRestored {
        return false;
      }
      ok := RetireHwContext(true, env);
      if ok {
        UnpinSession();
      }
    }

    // ---- acquisition ---------------------------------------------------------------

    method AcquireLocked(token: nat, env: AcquireEnv) returns (status: Status)
      modifies this
      ensures var o := Acquire(old(View()), token, env); View() == o.s && status == o.status
    {
      if !live || token == 0 {
        return InvArg;
      }
      if owner.Some? {
        return Busy;
      }
      if !idle {
        return ErrUsage;
      }
      if pinned || lifetime.Some? {
        return Busy;
      }
      if !env.modulePins {
        return NoAccess;
      }
      ModuleGet();
      pinned := true;
      var contextOpened := !hw;
      if contextOpened && !env.opensHw {
        UnpinSession();
        return SetupError;
      }
      hw := true;
      if !env.setsUp {
        if contextOpened {
          var closed := RetireHwContext(false, env.retire);
          if !closed {
            return SetupError;
          }
        }
        UnpinSession();
        return SetupError;
      }
      if !env.linkBegins {
        var _ := RetireUnpublishedSession(env.linkRestored, env.retire);
        return IoError;
      }
      owner := Some(token);
      status := Success;
    }

    method AcquireRefLocked(token: nat, env: AcquireEnv) returns (status: Status)
      modifies this
      ensures var o := AcquireRef(old(View()), token, env); View() == o.s && status == o.status
    {
      var already := pinned;
      status := AcquireLocked(token, env);
      if !already && pinned {
        CallOwner(Get(token));
        lifetime := Some(token);
      }
    }

    // ---- release -------------------------------------------------------------------

    method ReleaseLocked(token: nat, linkRestored: bool, env: RetireEnv) returns (status: Status)
      modifies this
      ensures var o := Release(old(View()), token, linkRestored, env); View() == o.s && status == o.status
    {
      if token == 0 {
        return InvArg;
      }
      if owner != Some(token) {
        if owner.None? && lifetime == Some(token) && pinned {
          var ok := RetireUnpublishedSession(linkRestored, env);
          return if ok then Success else IoError;
        }
        return ErrUsage;
      }
      var gone := RetireHwContext(true, env);
      if !gone || !linkRestored {
        return IoError;
      }
      owner := None;
      UnpinSession();
      status := Success;
    }

    /** The last file closing while it does not own the session. */
    method CloseLastUser(linkRestored: bool, env: RetireEnv)
      modifies this
      ensures View() == CloseLast(old(View()), linkRestored, env)
    {
      if owner.None? {
        if pinned {
          var _ := RetireUnpublishedSession(linkRestored, env);
        } else {
          var _ := RetireHwContext(true, env);
        }
      }
    }

    method DeleteContext(freesRings: bool, cleans: bool) returns (status: Status)
      modifies this
      ensures var o := Delete(old(View()), freesRings, cleans); View() == o.s && status == o.status
    {
      if hw {
        if !freesRings {
          return IoError;
        }
        var cleaned := RetainedCleanup(cleans);
        if !cleaned {
          return IoError;
        }
        hw := false;
      }
      var gone := RetainedCleanup(cleans);
      if !gone {
        return IoError;
      }
      idle, owner, live := true, None, false;
      UnpinSession();
      status := Success;
    }
  }
}
