/**
 * Launching a child with resolved settings (scripts/crystalhd-config.py): layers, origins,
 * the environment adapters, and whether the child sees what was resolved.
 */
module ConfigLaunch {
  import opened Basics
  import opened ConfigUtf8
  import opened ConfigDocument
  import ConfigJson

  datatype Key =
    | RxPoolCount | H264Mode | LowLatency | ReadyRemap | ReadyPolicy | ReadyDelay | I915Wc | Debug | Trace
    | ChromiumExecutable | DrmDevice | PasswordStore | ProfileDir | NativeGl | HwDecode | DisableGpuSandbox
    | H264PolicyAck | PlayerPython | ScaleWidth | PlayerDecoder | SoftwareOutputSize

  const KEYS: set<Key> := {
    RxPoolCount, H264Mode, LowLatency, ReadyRemap, ReadyPolicy, ReadyDelay, I915Wc, Debug, Trace,
    ChromiumExecutable, DrmDevice, PasswordStore, ProfileDir, NativeGl, HwDecode, DisableGpuSandbox,
    H264PolicyAck, PlayerPython, Key.ScaleWidth, PlayerDecoder, SoftwareOutputSize
  }

  lemma AllKeys()
    ensures forall k: Key :: k in KEYS
  {
    forall k: Key ensures k in KEYS {
      match k
      case RxPoolCount =>
      case _ =>
    }
  }

  /** ENVIRONMENT_TARGETS, without the common CRYSTALHD_ prefix. */
  datatype Variable =
    | EXPERIMENTAL_RX_POOL_COUNT | VAAPI_LIVE_H264 | VAAPI_LOW_LATENCY_H264 | VAAPI_EXPERIMENTAL_READY_REMAP
    | VAAPI_EXPERIMENTAL_READY_POLICY | VAAPI_EXPERIMENTAL_READY_DELAY_US | VAAPI_EXPERIMENTAL_I915_WC
    | VAAPI_DEBUG | VAAPI_TRACE | CHROMIUM | DRM_DEVICE | CHROMIUM_PASSWORD_STORE | CHROMIUM_PROFILE_DIR
    | CHROMIUM_NATIVE_GL | CHROMIUM_EXPERIMENTAL_HW_DECODE | CHROMIUM_DISABLE_GPU_SANDBOX | CHROMIUM_H264_POLICY
    | PLAYER_PYTHON

  datatype Setting = Flag(b: bool) | Number(n: nat) | Word(s: Text) | Absent | InvalidNative(raw: Text, fallback: Setting)

  datatype Request = Unset | Value(v: Setting)

  type Requests = map<Key, Request>
  type Environment = map<Variable, Text>

  // ---- the tables --------------------------------------------------------------------

  /** NATIVE */
  function Native(k: Key): Setting {
    match k
    case RxPoolCount => Number(16)
    case H264Mode => Word(Chars("bounded"))
    case ReadyPolicy => Word(Chars("previous"))
    case ReadyDelay => Number(0)
    case ChromiumExecutable => Absent
    case DrmDevice => Word(Chars("/dev/dri/renderD128"))
    case PasswordStore => Word([])
    case ProfileDir => Absent
    case PlayerPython => Word(Chars("/usr/bin/python3"))
    case ScaleWidth => Number(0)
    case PlayerDecoder => Word(Chars("hardware"))
    case SoftwareOutputSize => Absent
    case _ => Flag(false)
  }

  /** RULES */
  function RuleOf(k: Key): Rule {
    match k
    case RxPoolCount => IntegerEnum([8, 16])
    case H264Mode => StringEnum([Chars("bounded"), Chars("live"), Chars("strict")])
    case ReadyPolicy => StringEnum([Chars("latest"), Chars("previous")])
    case ReadyDelay => IntegerEnum([0, 16667, 33333, 50000])
    case ChromiumExecutable => NonemptyString
    case DrmDevice => NonemptyString
    case PasswordStore => AnyString
    case ProfileDir => NonemptyString
    case PlayerPython => NonemptyString
    case ScaleWidth => Rule.ScaleWidth
    case PlayerDecoder => StringEnum([Chars("hardware"), Chars("software")])
    case SoftwareOutputSize => OutputSizeRule
    case _ => BooleanRule
  }

  /** The value of a document that a setting comes from. */
  function Written(v: Setting): Option<ConfigJson.Value<Text>> {
    match v
    case Flag(b) => Some(ConfigJson.Bool(b))
    case Number(n) => Some(ConfigJson.Int(n))
    case Word(s) => Some(ConfigJson.Str(s))
    case _ => None
  }

  predicate Accepted(k: Key, v: Setting) {
    Written(v).Some? && Accepts(RuleOf(k), Written(v).value)
  }

  /** LAUNCH_ENVIRONMENT: where a launch writes a key. */
  function LaunchVariable(k: Key): Option<Variable> {
    match k
    case RxPoolCount => Some(EXPERIMENTAL_RX_POOL_COUNT)
    case H264Mode => Some(VAAPI_LIVE_H264)
    case LowLatency => Some(VAAPI_LOW_LATENCY_H264)
    case ReadyRemap => Some(VAAPI_EXPERIMENTAL_READY_REMAP)
    case I915Wc => Some(VAAPI_EXPERIMENTAL_I915_WC)
    case Debug => Some(VAAPI_DEBUG)
    case Trace => Some(VAAPI_TRACE)
    case ChromiumExecutable => Some(CHROMIUM)
    case DrmDevice => Some(DRM_DEVICE)
    case PasswordStore => Some(CHROMIUM_PASSWORD_STORE)
    case ProfileDir => Some(CHROMIUM_PROFILE_DIR)
    case NativeGl => Some(CHROMIUM_NATIVE_GL)
    case PlayerPython => Some(PLAYER_PYTHON)
    case _ => None
  }

  /** The key an adapter reads from a variable. */
  function AdapterKey(v: Variable): Key {
    match v
    case EXPERIMENTAL_RX_POOL_COUNT => RxPoolCount
    case VAAPI_LIVE_H264 => H264Mode
    case VAAPI_LOW_LATENCY_H264 => LowLatency
    case VAAPI_EXPERIMENTAL_READY_REMAP => ReadyRemap
    case VAAPI_EXPERIMENTAL_READY_POLICY => ReadyPolicy
    case VAAPI_EXPERIMENTAL_READY_DELAY_US => ReadyDelay
    case VAAPI_EXPERIMENTAL_I915_WC => I915Wc
    case VAAPI_DEBUG => Debug
    case VAAPI_TRACE => Trace
    case CHROMIUM => ChromiumExecutable
    case DRM_DEVICE => DrmDevice
    case CHROMIUM_PASSWORD_STORE => PasswordStore
    case CHROMIUM_PROFILE_DIR => ProfileDir
    case CHROMIUM_NATIVE_GL => NativeGl
    case CHROMIUM_EXPERIMENTAL_HW_DECODE => HwDecode
    case CHROMIUM_DISABLE_GPU_SANDBOX => DisableGpuSandbox
    case CHROMIUM_H264_POLICY => H264PolicyAck
    case PLAYER_PYTHON => PlayerPython
  }

  /** The variable of a key, for every key an adapter reads. */
  function KeyVariable(k: Key): (v: Option<Variable>)
    ensures v.Some? ==> AdapterKey(v.value) == k
  {
    match k
    case ReadyPolicy => Some(VAAPI_EXPERIMENTAL_READY_POLICY)
    case ReadyDelay => Some(VAAPI_EXPERIMENTAL_READY_DELAY_US)
    case HwDecode => Some(CHROMIUM_EXPERIMENTAL_HW_DECODE)
    case DisableGpuSandbox => Some(CHROMIUM_DISABLE_GPU_SANDBOX)
    case H264PolicyAck => Some(CHROMIUM_H264_POLICY)
    case _ => LaunchVariable(k)
  }

  /** Every variable is read for one key, and written for no other. */
  lemma TablesAgree(v: Variable, k: Key)
    ensures KeyVariable(AdapterKey(v)) == Some(v)
    ensures LaunchVariable(k).Some? ==> KeyVariable(k) == LaunchVariable(k)
  {
  }

  // ---- adapters ----------------------------------------------------------------------

  /** adapt_raw_environment, for the variable of one key. */
  function Adapt(k: Key, raw: Text): Setting {
    match k
    case RxPoolCount =>
      if raw == Chars("8") then Number(8) else if raw == Chars("16") then Number(16) else InvalidNative(raw, Number(16))
    case H264Mode => Word(if raw == Chars("1") then Chars("live") else Chars("strict"))
    case Debug => Flag(true)
    case ReadyPolicy => if raw == Chars("previous") || raw == Chars("latest") then Word(raw) else InvalidNative(raw, Word(Chars("previous")))
    case ReadyDelay =>
      if raw == Chars("0") then Number(0) else if raw == Chars("16667") then Number(16667)
      else if raw == Chars("33333") then Number(33333) else if raw == Chars("50000") then Number(50000)
      else InvalidNative(raw, Number(0))
    case ChromiumExecutable => if raw != [] then Word(raw) else Absent
    case DrmDevice => if raw != [] then Word(raw) else Word(Chars("/dev/dri/renderD128"))
    case ProfileDir => if raw != [] then Word(raw) else Absent
    case PlayerPython => if raw != [] then Word(raw) else Word(Chars("/usr/bin/python3"))
    case PasswordStore => Word(raw)
    case _ => Flag(raw == Chars("1"))
  }

  /** encode_existing_target; None is its ABSENT. */
  function Encoding(k: Key, v: Setting): Option<Text> {
    match k
    case H264Mode => if v == Word(Chars("strict")) then Some(Chars("0")) else if v == Word(Chars("live")) then Some(Chars("1")) else None
    case RxPoolCount => if v == Number(8) then Some(Chars("8")) else if v == Number(16) then Some(Chars("16")) else None
    case PlayerPython => if v.Word? then Some(v.s) else None
    case ChromiumExecutable => if v.Word? then Some(v.s) else None
    case DrmDevice => if v.Word? then Some(v.s) else None
    case ProfileDir => if v.Word? then Some(v.s) else None
    case PasswordStore => if v.Word? then Some(v.s) else None
    case _ => if v == Flag(true) then Some(Chars("1")) else None
  }

  /** What the adapters make of an environment over the native defaults. */
  function Reread(env: Environment, k: Key): Setting {
    var v := KeyVariable(k);
    if v.Some? && v.value in env then Adapt(k, env[v.value]) else Native(k)
  }

  // ---- resolution --------------------------------------------------------------------

  datatype Entry = Entry(value: Setting, origin: string)

  /** apply_layer, for one key. */
  function Layered(e: Entry, k: Key, layer: Requests, origin: string): Entry {
    if k !in layer then e
    else if layer[k].Unset? then Entry(Native(k), origin + ":unset")
    else Entry(layer[k].v, origin)
  }

  predicate RequestValid(k: Key, r: Request) { r.Unset? || Accepted(k, r.v) }

  predicate LayerValid(layer: Requests) {
    forall k :: k in layer ==> RequestValid(k, layer[k])
  }

  /** The selected preset and profile, the documents' layers, and what the caller passes. */
  datatype Sources = Sources(
    preset: string, presetSettings: Requests, system: Requests, user: Requests,
    profile: Option<string>, systemProfile: Requests, userProfile: Requests,
    overrides: Requests, environment: Environment)

  function Documented(s: Sources, k: Key): Entry {
    var e := Layered(Entry(Native(k), "compiled"), k, s.presetSettings, "preset:" + s.preset);
    Layered(Layered(e, k, s.system, "system"), k, s.user, "user")
  }

  function Managed(s: Sources, k: Key): Entry {
    var e := Documented(s, k);
    if s.profile.None? then e
    else
      var f := Layered(e, k, s.systemProfile, "system-profile:" + s.profile.value);
      Layered(f, k, s.userProfile, "user-profile:" + s.profile.value)
  }

  function VariableName(v: Variable): string {
    match v
    case EXPERIMENTAL_RX_POOL_COUNT => "CRYSTALHD_EXPERIMENTAL_RX_POOL_COUNT"
    case VAAPI_LIVE_H264 => "CRYSTALHD_VAAPI_LIVE_H264"
    case VAAPI_LOW_LATENCY_H264 => "CRYSTALHD_VAAPI_LOW_LATENCY_H264"
    case VAAPI_EXPERIMENTAL_READY_REMAP => "CRYSTALHD_VAAPI_EXPERIMENTAL_READY_REMAP"
    case VAAPI_EXPERIMENTAL_READY_POLICY => "CRYSTALHD_VAAPI_EXPERIMENTAL_READY_POLICY"
    case VAAPI_EXPERIMENTAL_READY_DELAY_US => "CRYSTALHD_VAAPI_EXPERIMENTAL_READY_DELAY_US"
    case VAAPI_EXPERIMENTAL_I915_WC => "CRYSTALHD_VAAPI_EXPERIMENTAL_I915_WC"
    case VAAPI_DEBUG => "CRYSTALHD_VAAPI_DEBUG"
    case VAAPI_TRACE => "CRYSTALHD_VAAPI_TRACE"
    case CHROMIUM => "CRYSTALHD_CHROMIUM"
    case DRM_DEVICE => "CRYSTALHD_DRM_DEVICE"
    case CHROMIUM_PASSWORD_STORE => "CRYSTALHD_CHROMIUM_PASSWORD_STORE"
    case CHROMIUM_PROFILE_DIR => "CRYSTALHD_CHROMIUM_PROFILE_DIR"
    case CHROMIUM_NATIVE_GL => "CRYSTALHD_CHROMIUM_NATIVE_GL"
    case CHROMIUM_EXPERIMENTAL_HW_DECODE => "CRYSTALHD_CHROMIUM_EXPERIMENTAL_HW_DECODE"
    case CHROMIUM_DISABLE_GPU_SANDBOX => "CRYSTALHD_CHROMIUM_DISABLE_GPU_SANDBOX"
    case CHROMIUM_H264_POLICY => "CRYSTALHD_CHROMIUM_H264_POLICY"
    case PLAYER_PYTHON => "CRYSTALHD_PLAYER_PYTHON"
  }

  const ENVIRONMENT := "environment:"

  /** The environment overrides every managed layer. */
  function Overlaid(e: Entry, env: Environment, k: Key): Entry {
    var v := KeyVariable(k);
    if v.Some? && v.value in env then Entry(Adapt(k, env[v.value]), ENVIRONMENT + VariableName(v.value)) else e
  }

  function Requested(s: Sources, k: Key): Entry {
    Layered(Overlaid(Managed(s, k), s.environment, k), k, s.overrides, "application")
  }

  function Canonical(s: Sources, k: Key): Setting {
    Layered(Managed(s, k), k, s.overrides, "application").value
  }

  predicate VideoAgrees(remap: Setting, mode: Setting, latency: Setting, decode: Setting, sandbox: Setting) {
    && (remap == Flag(true) ==> mode == Word(Chars("live")) && latency == Flag(true))
    && (decode == Flag(true) ==> sandbox == Flag(true))
  }

  predicate PlayerAgrees(decoder: Setting, scale: Setting, output: Setting) {
    && (scale != Number(0) ==> decoder == Word(Chars("hardware")))
    && (output != Absent ==> decoder == Word(Chars("hardware")) && scale != Number(0))
  }

  predicate VideoDepends(s: Sources) {
    VideoAgrees(Canonical(s, ReadyRemap), Canonical(s, H264Mode), Canonical(s, LowLatency),
                Canonical(s, HwDecode), Canonical(s, DisableGpuSandbox))
  }

  predicate PlayerDepends(s: Sources) {
    PlayerAgrees(Canonical(s, PlayerDecoder), Canonical(s, Key.ScaleWidth), Canonical(s, SoftwareOutputSize))
  }

  /** validate_managed */
  predicate Consistent(s: Sources) { VideoDepends(s) && PlayerDepends(s) }

  predicate EnvironmentValid(env: Environment) {
    forall v :: v in env ==> 0 !in env[v]
  }

  /** resolve accepts. */
  predicate Resolves(s: Sources) {
    && LayerValid(s.presetSettings) && LayerValid(s.system) && LayerValid(s.user)
    && (s.profile.Some? ==> LayerValid(s.systemProfile) && LayerValid(s.userProfile))
    && LayerValid(s.overrides) && Consistent(s) && EnvironmentValid(s.environment)
  }

  // ---- the launch --------------------------------------------------------------------

  predicate StartsWith(s: string, p: string) { p <= s }

  predicate EndsWith(s: string, p: string) { |p| <= |s| && s[|s| - |p|..] == p }

  const COMPILED := "compiled"
  const UNSET_SUFFIX := ":unset"

  /** Neither the native default nor taken from the environment already. */
  predicate Adopted(e: Entry) { e.origin != COMPILED && !StartsWith(e.origin, ENVIRONMENT) }

  predicate Launchable(k: Key, e: Entry) {
    LaunchVariable(k).Some? && !(k in {ReadyRemap, I915Wc, NativeGl} && e.value == Flag(true))
  }

  /** What the launch writes for an adopted key. */
  function Encoded(k: Key, e: Entry): Option<Text> {
    if EndsWith(e.origin, UNSET_SUFFIX) then None else Encoding(k, e.value)
  }

  /** The value of a variable in the child, None when it is not there. */
  function ChildValue(s: Sources, v: Variable): Option<Text> {
    var e := Requested(s, AdapterKey(v));
    if Adopted(e) && LaunchVariable(AdapterKey(v)) == Some(v) then Encoded(AdapterKey(v), e)
    else if v in s.environment then Some(s.environment[v]) else None
  }

  predicate IsChild(s: Sources, child: Environment) {
    forall v: Variable ::
      ChildValue(s, v) == if v in child then Some(child[v]) else None
  }

  /** _native_ready_eligible */
  predicate ReadyEligible(env: Environment) {
    && Reread(env, ReadyRemap) == Flag(true)
    && !Reread(env, ReadyPolicy).InvalidNative? && !Reread(env, ReadyDelay).InvalidNative?
    && Reread(env, H264Mode) == Word(Chars("live")) && Reread(env, LowLatency) == Flag(true)
  }

  /** Every adopted key has a variable, and none switches on what a launch may not. */
  predicate Adoptable(s: Sources) {
    forall k: Key :: Adopted(Requested(s, k)) ==> Launchable(k, Requested(s, k))
  }

  /** prepare_launch accepts, and this is the child's environment. */
  predicate Launches(s: Sources, acknowledged: bool, child: Environment) {
    && Resolves(s)
    && Adoptable(s)
    && IsChild(s, child)
    && (ReadyEligible(child) ==> ReadyEligible(s.environment))
    && acknowledged
  }

  // ---- origins -----------------------------------------------------------------------

  predicate NoColon(s: string) { ':' !in s }

  /** The names profiles and presets may have hold no colon (PROFILE_NAME). */
  predicate NamesPlain(s: Sources) { NoColon(s.preset) && (s.profile.Some? ==> NoColon(s.profile.value)) }

  /** An origin that ends in :unset without any unset request: a preset or profile of that name. */
  const UNSET_NAMES := {"preset:unset", "system-profile:unset", "user-profile:unset"}

  lemma EndsWithUnset(head: string, name: string)
    requires NoColon(head) && NoColon(name)
    ensures EndsWith(head + ":" + name, UNSET_SUFFIX) <==> name == "unset"
  {
    var s := head + ":" + name;
    if name == "unset" {
      assert s[|s| - 6..] == ":unset";
    }
    if EndsWith(s, UNSET_SUFFIX) {
      var i := |s| - 6;
      assert s[i] == s[i..][0] == ':';
      assert i == |head|;
      assert name == s[i + 1..] == s[i..][1..] == "unset";
    }
  }

  lemma UnsetEnds(origin: string)
    ensures EndsWith(origin + ":unset", UNSET_SUFFIX)
  {
    assert (origin + ":unset")[|origin|..] == ":unset";
  }

  /** The origin of a layer's value, or one of a layer's unset request. */
  predicate LayerOrigin(o: string, named: bool) {
    && o != "" && o[0] != 'e' && o[0] != 'c'
    && (EndsWith(o, UNSET_SUFFIX) <==> o in UNSET_NAMES)
    && (o in UNSET_NAMES ==> named)
  }

  /** Some selected name is "unset". */
  predicate UnsetNamed(s: Sources) { s.preset == "unset" || s.profile == Some("unset") }

  lemma NamedOrigins(name: string, named: bool)
    requires NoColon(name) && (name == "unset" ==> named)
    ensures LayerOrigin("preset:" + name, named)
    ensures LayerOrigin("system-profile:" + name, named) && LayerOrigin("user-profile:" + name, named)
  {
    assert "preset" + ":" + name == "preset:" + name;
    assert "system-profile" + ":" + name == "system-profile:" + name;
    assert "user-profile" + ":" + name == "user-profile:" + name;
    EndsWithUnset("preset", name);
    EndsWithUnset("system-profile", name);
    EndsWithUnset("user-profile", name);
    NameSuffix("preset:", name);
    NameSuffix("system-profile:", name);
    NameSuffix("user-profile:", name);
  }

  lemma NameSuffix(head: string, name: string)
    requires head in {"preset:", "system-profile:", "user-profile:"}
    ensures head + name in UNSET_NAMES <==> name == "unset"
  {
    var o := head + name;
    assert o[..|head|] == head && o[|head|..] == name;
    if o == "preset:unset" {
      assert head[0] == 'p' && name == "preset:unset"[7..] == "unset";
    } else if o == "system-profile:unset" {
      assert head[0] == 's' && name == "system-profile:unset"[15..] == "unset";
    } else if o == "user-profile:unset" {
      assert head[0] == 'u' && name == "user-profile:unset"[13..] == "unset";
    }
  }

  // ---- what every entry is -----------------------------------------------------------

  /** Native by default, native by an unset request, or an accepted value of a layer. */
  predicate Known(e: Entry, k: Key, named: bool) {
    || (e.origin == COMPILED && e.value == Native(k))
    || (Adopted(e) && EndsWith(e.origin, UNSET_SUFFIX) && e.value == Native(k))
    || (Adopted(e) && LayerOrigin(e.origin, named) && Accepted(k, e.value))
  }

  lemma LayeredKnown(e: Entry, k: Key, layer: Requests, origin: string, named: bool)
    requires LayerValid(layer) && LayerOrigin(origin, named)
    ensures k in layer ==> Known(Layered(e, k, layer, origin), k, named)
    ensures k !in layer ==> Layered(e, k, layer, origin) == e
  {
    UnsetEnds(origin);
    assert (origin + ":unset")[0] == origin[0];
    assert ENVIRONMENT[0] == 'e' && COMPILED[0] == 'c';
  }

  lemma PlainOrigins()
    ensures LayerOrigin("system", false) && LayerOrigin("user", false) && LayerOrigin("application", false)
  {
    assert "application"[5..] != ":unset";
    assert "system"[0..] != ":unset";
    assert "system" !in UNSET_NAMES && "user" !in UNSET_NAMES && "application" !in UNSET_NAMES;
  }

  lemma KnownStep(e: Entry, k: Key, layer: Requests, origin: string, named: bool)
    requires Known(e, k, named) && LayerValid(layer) && LayerOrigin(origin, named)
    ensures Known(Layered(e, k, layer, origin), k, named)
  {
    LayeredKnown(e, k, layer, origin, named);
  }

  lemma DocumentedKnown(s: Sources, k: Key)
    requires Resolves(s) && NamesPlain(s)
    ensures Known(Documented(s, k), k, UnsetNamed(s))
  {
    var n := UnsetNamed(s);
    PlainOrigins();
    NamedOrigins(s.preset, n);
    var c := Entry(Native(k), "compiled");
    assert Known(c, k, n);
    KnownStep(c, k, s.presetSettings, "preset:" + s.preset, n);
    var e := Layered(c, k, s.presetSettings, "preset:" + s.preset);
    KnownStep(e, k, s.system, "system", n);
    KnownStep(Layered(e, k, s.system, "system"), k, s.user, "user", n);
  }

  lemma ManagedKnown(s: Sources, k: Key)
    requires Resolves(s) && NamesPlain(s)
    ensures Known(Managed(s, k), k, UnsetNamed(s))
  {
    DocumentedKnown(s, k);
    if s.profile.Some? {
      var n, name := UnsetNamed(s), s.profile.value;
      NamedOrigins(name, n);
      KnownStep(Documented(s, k), k, s.systemProfile, "system-profile:" + name, n);
      var h := Layered(Documented(s, k), k, s.systemProfile, "system-profile:" + name);
      KnownStep(h, k, s.userProfile, "user-profile:" + name, n);
    }
  }

  /** An entry is known, and only then not from the environment, or it is what an adapter read. */
  lemma RequestedKnown(s: Sources, k: Key)
    requires Resolves(s) && NamesPlain(s)
    ensures var e, v := Requested(s, k), KeyVariable(k);
      if v.Some? && v.value in s.environment && k !in s.overrides
      then !Adopted(e) && e.value == Adapt(k, s.environment[v.value])
      else Known(e, k, UnsetNamed(s))
  {
    PlainOrigins();
    ManagedKnown(s, k);
    LayeredKnown(Overlaid(Managed(s, k), s.environment, k), k, s.overrides, "application", UnsetNamed(s));
  }

  // ---- who decides -------------------------------------------------------------------

  /** What one request makes of a key. */
  function Told(k: Key, r: Request, origin: string): Entry {
    match r
    case Unset => Entry(Native(k), origin + ":unset")
    case Value(v) => Entry(v, origin)
  }

  /**
   * From the top: the user's profile, the system's, the user's document, the system's, the
   * preset, and at last the native value.
   */
  lemma ManagedPrecedence(s: Sources, k: Key)
    ensures Managed(s, k) ==
      if s.profile.Some? && k in s.userProfile then Told(k, s.userProfile[k], "user-profile:" + s.profile.value)
      else if s.profile.Some? && k in s.systemProfile then Told(k, s.systemProfile[k], "system-profile:" + s.profile.value)
      else if k in s.user then Told(k, s.user[k], "user")
      else if k in s.system then Told(k, s.system[k], "system")
      else if k in s.presetSettings then Told(k, s.presetSettings[k], "preset:" + s.preset)
      else Entry(Native(k), "compiled")
  {
  }

  /** Above them are the caller's override and then the key's variable. */
  lemma LaunchPrecedence(s: Sources, k: Key)
    ensures Requested(s, k) ==
      if k in s.overrides then Told(k, s.overrides[k], "application")
      else match KeyVariable(k)
        case None => Managed(s, k)
        case Some(v) =>
          if v in s.environment then Entry(Adapt(k, s.environment[v]), "environment:" + VariableName(v))
          else Managed(s, k)
  {
  }

  /** The child has this text in a key's variable, and the parent's environment did not decide it. */
  predicate Shows(s: Sources, child: Environment, k: Key, v: Variable, raw: Text) {
    v in child && child[v] == raw && (k in s.overrides || v !in s.environment)
  }

  /** What a launch writes into a variable is what its child shows there. */
  lemma WritesIsShown(s: Sources, child: Environment, k: Key, v: Variable, raw: Text)
    requires Resolves(s) && IsChild(s, child) && NamesPlain(s) && LaunchVariable(k) == Some(v)
    ensures Adopted(Requested(s, k)) && Encoded(k, Requested(s, k)) == Some(raw) <==> Shows(s, child, k, v, raw)
  {
    RequestedKnown(s, k);
    TablesAgree(v, k);
    OverrideAdopted(s, k);
    assert ChildValue(s, v) == if v in child then Some(child[v]) else None;
  }

  // ---- the round trip ----------------------------------------------------------------

  /** Writing an accepted value for a child and adapting it again. */
  lemma EncodeAdapts(k: Key, v: Setting)
    requires Accepted(k, v) && LaunchVariable(k).Some?
    ensures var raw := Encoding(k, v);
      if raw.Some? then Adapt(k, raw.value) == v else Native(k) == v
  {
    assert Chars("0")[0] == 48 && Chars("1")[0] == 49;
    assert |Chars("8")| == 1 && |Chars("16")| == 2;
  }

  /** A key's value, given its variable's. */
  function Decoded(k: Key, raw: Option<Text>): Setting {
    if raw.Some? then Adapt(k, raw.value) else Native(k)
  }

  lemma ChildReads(s: Sources, child: Environment, k: Key)
    requires IsChild(s, child) && KeyVariable(k).Some?
    ensures Reread(child, k) == Decoded(k, ChildValue(s, KeyVariable(k).value))
  {
    var v := KeyVariable(k).value;
    assert ChildValue(s, v) == if v in child then Some(child[v]) else None;
  }

  /** A value that only looks unset: supplied by a preset or profile whose name is "unset". */
  predicate LooksUnset(s: Sources, k: Key) {
    var e := Requested(s, k);
    e.origin in UNSET_NAMES && e.value != Native(k)
  }

  /**
   * A launched child sees the requested value of a key exactly when that value does not
   * come from a preset or profile named "unset" (where it would have to be the native one).
   */
  lemma ChildSeesRequested(s: Sources, acknowledged: bool, child: Environment, k: Key)
    requires Launches(s, acknowledged, child) && NamesPlain(s)
    ensures Reread(child, k) == Requested(s, k).value <==> !LooksUnset(s, k)
  {
    assert Adoptable(s);
    if Adopted(Requested(s, k)) {
      AdoptedSees(s, child, k);
    } else {
      KeptSees(s, child, k);
      EnvironmentOrigins(s, k);
    }
  }

  lemma AdoptedSees(s: Sources, child: Environment, k: Key)
    requires Resolves(s) && Adoptable(s) && IsChild(s, child) && NamesPlain(s) && Adopted(Requested(s, k))
    ensures Reread(child, k) == Requested(s, k).value <==> !LooksUnset(s, k)
  {
    var e := Requested(s, k);
    RequestedKnown(s, k);
    assert Launchable(k, e);
    AdoptedReads(s, k, e);
    ChildReads(s, child, k);
  }

  lemma KeptSees(s: Sources, child: Environment, k: Key)
    requires Resolves(s) && IsChild(s, child) && NamesPlain(s) && !Adopted(Requested(s, k))
    ensures Reread(child, k) == Requested(s, k).value
  {
    KeptIsRead(s, k);
    if KeyVariable(k).Some? {
      KeptDecodes(s, k, Requested(s, k));
      ChildReads(s, child, k);
    }
  }

  lemma KeptDecodes(s: Sources, k: Key, e: Entry)
    requires e == Requested(s, k) && !Adopted(e) && KeyVariable(k).Some?
    ensures Decoded(k, ChildValue(s, KeyVariable(k).value)) == Reread(s.environment, k)
  {
    KeptReads(s, k, e);
  }

  /** A key the launch leaves alone has what its variable says, or the native value. */
  lemma KeptIsRead(s: Sources, k: Key)
    requires Resolves(s) && NamesPlain(s) && !Adopted(Requested(s, k))
    ensures Requested(s, k).value == Reread(s.environment, k)
  {
    RequestedKnown(s, k);
    OverrideAdopted(s, k);
  }

  lemma OverrideAdopted(s: Sources, k: Key)
    ensures k in s.overrides ==> Adopted(Requested(s, k))
  {
    assert "application"[0] == 'a' && ("application" + ":unset")[0] == 'a';
    assert ENVIRONMENT[0] == 'e' && COMPILED[0] == 'c';
  }

  /** The value an adopted key reads back, given how its entry came about. */
  lemma AdoptedReads(s: Sources, k: Key, e: Entry)
    requires e == Requested(s, k) && Adopted(e) && Launchable(k, e) && Known(e, k, UnsetNamed(s))
    ensures KeyVariable(k) == LaunchVariable(k)
    ensures Decoded(k, ChildValue(s, LaunchVariable(k).value)) == e.value <==> !LooksUnset(s, k)
  {
    TablesAgree(LaunchVariable(k).value, k);
    assert ChildValue(s, LaunchVariable(k).value) == Encoded(k, e);
    if Accepted(k, e.value) {
      EncodeAdapts(k, e.value);
    }
  }

  lemma KeptReads(s: Sources, k: Key, e: Entry)
    requires e == Requested(s, k) && !Adopted(e) && KeyVariable(k).Some?
    ensures ChildValue(s, KeyVariable(k).value) ==
      if KeyVariable(k).value in s.environment then Some(s.environment[KeyVariable(k).value]) else None
  {
  }

  lemma EnvironmentOrigins(s: Sources, k: Key)
    ensures !Adopted(Requested(s, k)) ==> Requested(s, k).origin !in UNSET_NAMES
  {
    assert ENVIRONMENT[0] == 'e' && COMPILED[0] == 'c';
  }

  /** With any other names, the child sees exactly what was resolved, for every key. */
  lemma ChildSeesResolution(s: Sources, acknowledged: bool, child: Environment, k: Key)
    requires Launches(s, acknowledged, child) && NamesPlain(s)
    requires !UnsetNamed(s)
    ensures Reread(child, k) == Requested(s, k).value
  {
    RequestedKnown(s, k);
    EnvironmentOrigins(s, k);
    ChildSeesRequested(s, acknowledged, child, k);
  }

  // ---- the profile whose value is lost -----------------------------------------------

  /** A user profile called unset that asks for a trace, and nothing else. */
  function TraceProfile(name: string): Sources {
    Sources("default", map[], map[], map[], Some(name), map[], map[Trace := Value(Flag(true))], map[], map[])
  }

  lemma TraceRequest(k: Key)
    ensures Requested(TraceProfile("unset"), k) ==
      if k == Trace then Entry(Flag(true), "user-profile:unset") else Entry(Native(k), COMPILED)
  {
    assert "user-profile:" + "unset" == "user-profile:unset";
  }

  lemma TraceCanonical(k: Key)
    ensures k != Trace ==> Canonical(TraceProfile("unset"), k) == Native(k)
  {
  }

  lemma TraceResolves()
    ensures Resolves(TraceProfile("unset"))
  {
    TraceCanonical(ReadyRemap);
    TraceCanonical(HwDecode);
    TraceCanonical(Key.ScaleWidth);
    TraceCanonical(SoftwareOutputSize);
  }

  lemma TraceIsDropped(v: Variable)
    ensures ChildValue(TraceProfile("unset"), v).None?
  {
    TraceRequest(AdapterKey(v));
    if AdapterKey(v) == Trace {
      NamedOrigins("unset", true);
    }
  }

  lemma TraceAdoptable()
    ensures Adoptable(TraceProfile("unset"))
  {
    var s := TraceProfile("unset");
    forall k: Key ensures Adopted(Requested(s, k)) ==> Launchable(k, Requested(s, k)) {
      TraceRequest(k);
    }
  }

  lemma TraceChild()
    ensures IsChild(TraceProfile("unset"), map[])
  {
    forall v: Variable ensures ChildValue(TraceProfile("unset"), v).None? {
      TraceIsDropped(v);
    }
  }

  /** The launch is accepted, the trace is requested, and the child does not trace. */
  lemma ProfileNamedUnsetIsLost()
    ensures var s := TraceProfile("unset");
      && Launches(s, true, map[])
      && Requested(s, Trace) == Entry(Flag(true), "user-profile:unset")
      && Reread(map[], Trace) == Flag(false)
  {
    TraceResolves();
    TraceAdoptable();
    TraceChild();
    TraceRequest(Trace);
  }
}
