/**
 * resolve and prepare_launch (scripts/crystalhd-config.py) as they fill their dictionaries,
 * one entry at a time and in any order.
 */
module ConfigLauncher {
  import opened Basics
  import opened ConfigUtf8
  import opened ConfigDocument
  import opened ConfigLaunch

  predicate ReadFrom(k: Key, variables: set<Variable>) {
    KeyVariable(k).Some? && KeyVariable(k).value in variables
  }

  class Resolution {
    var values: map<Key, Setting>
    var origins: map<Key, string>

    predicate Complete()
      reads this
    {
      forall k: Key :: k in values && k in origins
    }

    function At(k: Key): Entry
      requires Complete()
      reads this
    {
      Entry(values[k], origins[k])
    }

    ghost function Entries(): (m: map<Key, Entry>)
      requires Complete()
      reads this
      ensures forall k :: k in m && m[k] == At(k)
    {
      map k | k in values.Keys :: At(k)
    }

    /** dict(NATIVE), with every origin compiled. */
    constructor ()
      ensures Complete() && forall k :: At(k) == Entry(Native(k), COMPILED)
    {
      AllKeys();
      values := map k | k in KEYS :: Native(k);
      origins := map k | k in KEYS :: COMPILED;
    }

    method Set(k: Key, value: Setting, origin: string)
      requires Complete()
      modifies this
      ensures Complete() && At(k) == Entry(value, origin)
      ensures forall j :: j != k ==> At(j) == old(At(j))
    {
      values, origins := values[k := value], origins[k := origin];
    }

    /** One entry of a layer. */
    method ApplyRequest(k: Key, request: Request, origin: string) returns (ok: bool)
      requires Complete()
      modifies this
      ensures Complete() && ok == RequestValid(k, request)
      ensures ok ==> At(k) == if request.Unset? then Entry(Native(k), origin + ":unset") else Entry(request.v, origin)
      ensures forall j :: j != k ==> At(j) == old(At(j))
    {
      if request.Unset? {
        Set(k, Native(k), origin + ":unset");
      } else {
        if !Accepted(k, request.v) {
          return false;
        }
        Set(k, request.v, origin);
      }
      ok := true;
    }

    /** apply_layer */
    method ApplyLayer(layer: Requests, origin: string) returns (ok: bool)
      requires Complete()
      modifies this
      ensures Complete() && ok == LayerValid(layer)
      ensures ok ==> forall k :: At(k) == Layered(old(At(k)), k, layer, origin)
    {
      ghost var before := Entries();
      var todo := layer.Keys;
      while todo != {}
        invariant Complete() && todo <= layer.Keys
        invariant forall k :: k in layer && k !in todo ==> RequestValid(k, layer[k])
        invariant forall k :: At(k) == if k in todo then before[k] else Layered(before[k], k, layer, origin)
        decreases |todo|
      {
        var k :| k in todo;
        todo := todo - {k};
        ok := ApplyRequest(k, layer[k], origin);
        if !ok {
          return;
        }
      }
      ok := true;
    }

    /** adapt_raw_environment */
    method AdaptEnvironment(env: Environment) returns (ok: bool)
      requires Complete()
      modifies this
      ensures Complete() && ok == EnvironmentValid(env)
      ensures ok ==> forall k :: At(k) == Overlaid(old(At(k)), env, k)
    {
      ok := CheckEnvironment(env);
      if !ok {
        return;
      }
      var todo := env.Keys;
      while todo != {}
        invariant Complete() && todo <= env.Keys
        invariant forall k ::
          At(k) == (if ReadFrom(k, todo) then old(At(k)) else Overlaid(old(At(k)), env, k))
        decreases |todo|
      {
        var v :| v in todo;
        todo := todo - {v};
        TablesAgree(v, AdapterKey(v));
        Set(AdapterKey(v), Adapt(AdapterKey(v), env[v]), ENVIRONMENT + VariableName(v));
      }
    }

    /** resolve: the requested values and their origins. */
    method Resolve(s: Sources) returns (ok: bool)
      requires Complete() && forall k :: At(k) == Entry(Native(k), COMPILED)
      modifies this
      ensures Complete() && ok == Resolves(s)
      ensures ok ==> forall k :: At(k) == Requested(s, k)
    {
      ok := ApplyDocuments(s);
      if !ok {
        return;
      }
      ok := CheckCanonical(s);
      if !ok {
        return;
      }
      ok := AdaptEnvironment(s.environment);
      if !ok {
        return;
      }
      var applied := ApplyLayer(s.overrides, "application");
    }

    method ApplyDocuments(s: Sources) returns (ok: bool)
      requires Complete() && forall k :: At(k) == Entry(Native(k), COMPILED)
      modifies this
      ensures Complete()
      ensures ok == (LayerValid(s.presetSettings) && LayerValid(s.system) && LayerValid(s.user)
        && (s.profile.Some? ==> LayerValid(s.systemProfile) && LayerValid(s.userProfile)))
      ensures ok ==> forall k :: At(k) == Managed(s, k)
    {
      ok := ApplyLayer(s.presetSettings, "preset:" + s.preset);
      if ok {
        ok := ApplyLayer(s.system, "system");
      }
      if ok {
        ok := ApplyLayer(s.user, "user");
      }
      if ok && s.profile.Some? {
        ok := ApplyLayer(s.systemProfile, "system-profile:" + s.profile.value);
        if ok {
          ok := ApplyLayer(s.userProfile, "user-profile:" + s.profile.value);
        }
      }
    }

    /** The managed values with the overrides, in a copy, must be consistent. */
    method CheckCanonical(s: Sources) returns (ok: bool)
      requires Complete() && forall k :: At(k) == Managed(s, k)
      ensures ok == (LayerValid(s.overrides) && Consistent(s))
    {
      var canonical := new Resolution();
      canonical.values, canonical.origins := values, origins;
      assert forall k :: canonical.At(k) == Managed(s, k);
      ok := canonical.ApplyLayer(s.overrides, "application");
      if !ok {
        return;
      }
      assert forall k :: canonical.At(k).value == Canonical(s, k);
      var v := canonical.values;
      if v[ReadyRemap] == Flag(true) && (v[H264Mode] != Word(Chars("live")) || v[LowLatency] != Flag(true)) {
        return false;
      }
      if v[HwDecode] == Flag(true) && v[DisableGpuSandbox] != Flag(true) {
        return false;
      }
      if v[Key.ScaleWidth] != Number(0) && v[PlayerDecoder] != Word(Chars("hardware")) {
        return false;
      }
      if v[SoftwareOutputSize] != Absent && (v[PlayerDecoder] != Word(Chars("hardware")) || v[Key.ScaleWidth] == Number(0)) {
        return false;
      }
    }

    /** Every adopted key written to the child's environment, or taken out of it. */
    method WriteChild(env: Environment) returns (ok: bool, child: Environment)
      requires Complete()
      ensures ok == forall k: Key :: Adopted(At(k)) ==> Launchable(k, At(k))
      ensures ok ==> forall v: Variable :: Lookup(child, v) == OfChild(At(AdapterKey(v)), env, v)
    {
      child := env;
      var todo := KEYS;
      AllKeys();
      while todo != {}
        invariant forall k: Key :: k !in todo && Adopted(At(k)) ==> Launchable(k, At(k))
        invariant forall v: Variable ::
          Lookup(child, v) == (if AdapterKey(v) in todo then Lookup(env, v) else OfChild(At(AdapterKey(v)), env, v))
        decreases |todo|
      {
        var k :| k in todo;
        todo := todo - {k};
        if Adopted(At(k)) {
          if !Launchable(k, At(k)) {
            return false, map[];
          }
          var v := LaunchVariable(k).value;
          TablesAgree(v, k);
          OneVariable(k);
          var encoded := Encoded(k, At(k));
          child := if encoded.None? then child - {v} else child[v := encoded.value];
        }
      }
      ok := true;
    }
  }

  function Lookup(env: Environment, v: Variable): Option<Text> {
    if v in env then Some(env[v]) else None
  }

  /** A variable of the child, given its key's entry. */
  function OfChild(e: Entry, env: Environment, v: Variable): Option<Text> {
    if Adopted(e) && LaunchVariable(AdapterKey(v)) == Some(v) then Encoded(AdapterKey(v), e) else Lookup(env, v)
  }

  lemma OneVariable(k: Key)
    requires LaunchVariable(k).Some?
    ensures forall v: Variable :: AdapterKey(v) == k <==> v == LaunchVariable(k).value
  {
    forall v: Variable ensures AdapterKey(v) == k <==> v == LaunchVariable(k).value {
      TablesAgree(v, AdapterKey(v));
      TablesAgree(v, k);
    }
  }

  method CheckEnvironment(env: Environment) returns (ok: bool)
    ensures ok == EnvironmentValid(env)
  {
    var todo := env.Keys;
    while todo != {}
      invariant todo <= env.Keys
      invariant forall v :: v in env && v !in todo ==> 0 !in env[v]
      decreases |todo|
    {
      var v :| v in todo;
      if 0 in env[v] {
        return false;
      }
      todo := todo - {v};
    }
    ok := true;
  }

  /** There is only one child a launch can make. */
  lemma OneChild(s: Sources, a: Environment, b: Environment)
    requires IsChild(s, a) && IsChild(s, b)
    ensures a == b
  {
    forall v: Variable ensures Lookup(a, v) == Lookup(b, v) {
      assert ChildValue(s, v) == Lookup(a, v);
    }
    assert a.Keys == b.Keys by {
      forall v: Variable ensures v in a <==> v in b {
        assert Lookup(a, v) == Lookup(b, v);
      }
    }
    forall v | v in a ensures a[v] == b[v] {
      assert Lookup(a, v) == Lookup(b, v);
    }
  }

  /** prepare_launch: the child's environment, or a refusal when no launch is accepted. */
  method PrepareLaunch(s: Sources, acknowledged: bool) returns (child: Option<Environment>)
    ensures child.Some? ==> Launches(s, acknowledged, child.value)
    ensures child.None? ==> forall c :: !Launches(s, acknowledged, c)
  {
    var resolution := new Resolution();
    var resolved := resolution.Resolve(s);
    if !resolved {
      return None;
    }
    var ok, env := resolution.WriteChild(s.environment);
    assert ok == Adoptable(s) by {
      assert forall k :: resolution.At(k) == Requested(s, k);
    }
    if !ok {
      return None;
    }
    assert IsChild(s, env) by {
      forall v: Variable ensures ChildValue(s, v) == Lookup(env, v) {
        assert resolution.At(AdapterKey(v)) == Requested(s, AdapterKey(v));
        assert Lookup(env, v) == OfChild(resolution.At(AdapterKey(v)), s.environment, v);
      }
    }
    child := Admit(s, env, acknowledged);
  }

  /** The last refusals: a READY path the parent did not have, and missing acknowledgements. */
  method Admit(s: Sources, env: Environment, acknowledged: bool) returns (child: Option<Environment>)
    requires Resolves(s) && Adoptable(s) && IsChild(s, env)
    ensures child.Some? ==> Launches(s, acknowledged, child.value)
    ensures child.None? ==> forall c :: !Launches(s, acknowledged, c)
  {
    if (!ReadyEligible(s.environment) && ReadyEligible(env)) || !acknowledged {
      forall c ensures !Launches(s, acknowledged, c) {
        if IsChild(s, c) {
          OneChild(s, c, env);
        }
      }
      return None;
    }
    child := Some(env);
  }
}
