/**
 * A launch from parsed documents (scripts/crystalhd-config.py): which preset and profile
 * are selected, which acknowledgements a launch needs, and that what it hands on is what the
 * resolver makes of the same documents.
 */
module ConfigSelection {
  import opened Basics
  import opened ConfigUtf8
  import ConfigJson
  import opened ConfigDocument
  import opened ConfigResolve
  import opened ConfigSchema
  import opened ConfigKeys
  import L = ConfigLaunch
  import ConfigLauncher

  // ---- inputs ------------------------------------------------------------------------

  type Token = string

  /** A manifest entry; an unavailable or virtual preset is not selectable. */
  datatype Preset = Preset(settings: Layer<Text>, selectable: bool, tokens: set<Token>)

  type Catalog = map<Text, Preset>

  /** What prepare_launch is called with. */
  datatype Inputs = Inputs(
    system: Document<Text>, user: Document<Text>, catalog: Catalog, preset: Option<Text>, profile: Option<Text>,
    overrides: L.Requests, environment: L.Environment, acknowledgements: seq<Token>)

  // ---- selection ---------------------------------------------------------------------

  /** An explicit choice, or the user's, or the system's, or the default. */
  function PresetName(i: Inputs): Text {
    if i.preset.Some? then i.preset.value
    else if Selected(i.system, i.user, PRESET).Some? then Selected(i.system, i.user, PRESET).value
    else DEFAULT
  }

  function ProfileChoice(i: Inputs): Option<Text> {
    if i.profile.Some? then i.profile else Selected(i.system, i.user, PROFILE)
  }

  /** The refusals of _selected_preset and of resolve's selectors. */
  predicate Selects(i: Inputs) {
    && ProfileName(PresetName(i)) && PresetName(i) in i.catalog && i.catalog[PresetName(i)].selectable
    && (i.profile.Some? ==> ProfileName(i.profile.value))
    && (ProfileChoice(i).Some? ==>
          ProfileChoice(i).value in i.system.profiles || ProfileChoice(i).value in i.user.profiles)
  }

  /** An ASCII name as characters. */
  function Spelled(t: Text): (s: string)
    ensures |s| == |t| && forall k :: 0 <= k < |t| && t[k] < 128 ==> s[k] as int == t[k]
  {
    seq(|t|, k requires 0 <= k < |t| => if t[k] < 128 then t[k] as char else '?')
  }

  function RequestOf(v: ConfigJson.Value<Text>): L.Request {
    match v
    case Unset => L.Request.Unset
    case Bool(b) => L.Value(L.Flag(b))
    case Int(n) => L.Value(L.Number(n))
    case Str(s) => L.Value(L.Word(s))
  }

  function RequestsOf(layer: Layer<Text>): L.Requests {
    map k | k in L.KEYS && KeyText(k) in layer :: RequestOf(layer[KeyText(k)])
  }

  /** The layers and names that a launch goes on with. */
  function Chosen(i: Inputs): L.Sources
    requires Selects(i)
  {
    var profile := ProfileChoice(i);
    L.Sources(
      Spelled(PresetName(i)), RequestsOf(i.catalog[PresetName(i)].settings),
      RequestsOf(i.system.settings), RequestsOf(i.user.settings),
      if profile.None? then None else Some(Spelled(profile.value)),
      if profile.None? then map[] else RequestsOf(ProfileLayer(i.system, profile.value)),
      if profile.None? then map[] else RequestsOf(ProfileLayer(i.user, profile.value)),
      i.overrides, i.environment)
  }

  // ---- acknowledgements --------------------------------------------------------------

  const LOW_MEMORY: Token := "low-memory-8-buffer"
  const LIVE_DRAIN: Token := "bcm70015-live-h264-drain"

  /** What the launch would write for a key it takes over. */
  function Writes(s: L.Sources, k: L.Key, raw: Text): bool {
    L.Adopted(L.Requested(s, k)) && L.Encoded(k, L.Requested(s, k)) == Some(raw)
  }

  function Required(i: Inputs): set<Token>
    requires Selects(i)
  {
    Demanded(Chosen(i), i.catalog[PresetName(i)].tokens)
  }

  function Demanded(s: L.Sources, tokens: set<Token>): set<Token> {
    Adding(tokens, Writes(s, L.RxPoolCount, Chars("8")),
           Writes(s, L.H264Mode, Chars("1")) || Writes(s, L.LowLatency, Chars("1")))
  }

  function Adding(tokens: set<Token>, low: bool, live: bool): set<Token> {
    tokens + (if low then {LOW_MEMORY} else {}) + (if live then {LIVE_DRAIN} else {})
  }

  function Elements(tokens: seq<Token>): set<Token> { set t | t in tokens }

  predicate Known(catalog: Catalog, token: Token) {
    exists name :: name in catalog && token in catalog[name].tokens
  }

  /** _check_acknowledgements and _validated_preset: no token twice, none missing, none too many. */
  predicate Acknowledged(i: Inputs)
    requires Selects(i)
  {
    && |Elements(i.acknowledgements)| == |i.acknowledgements|
    && (forall t :: t in i.acknowledgements ==> Known(i.catalog, t))
    && Elements(i.acknowledgements) == Required(i)
  }

  // ---- the launch --------------------------------------------------------------------

  /** prepare_launch accepts the inputs, and this is the child's environment. */
  predicate Launched(i: Inputs, child: L.Environment) {
    Selects(i) && L.Launches(Chosen(i), Acknowledged(i), child)
  }

  /** prepare_launch, with every refusal but the process identity's. */
  method PrepareLaunch(i: Inputs) returns (child: Option<L.Environment>)
    ensures child.Some? ==> Launched(i, child.value)
    ensures child.None? ==> forall c :: !Launched(i, c)
  {
    if !Selects(i) {
      return None;
    }
    child := ConfigLauncher.PrepareLaunch(Chosen(i), Acknowledged(i));
  }

  // ---- names -------------------------------------------------------------------------

  lemma SpelledPlain(t: Text)
    requires ProfileName(t)
    ensures L.NoColon(Spelled(t)) && (Spelled(t) == "unset" <==> t == Chars("unset"))
  {
    assert forall k :: 0 <= k < |t| ==> t[k] < 128 && t[k] != 58;
    if Spelled(t) == "unset" {
      assert forall k :: 0 <= k < |t| ==> t[k] == Spelled(t)[k] as int;
      assert t == Chars("unset");
    }
  }

  ghost predicate GoodCatalog(catalog: Catalog, rules: Rules) {
    forall name :: name in catalog ==> ProfileName(name) && GoodLayer(Settings, catalog[name].settings, rules)
  }

  /** Parsed documents, and the manifest's entries. */
  ghost predicate GoodInputs(i: Inputs, rules: Rules) {
    GoodDocument(i.system, rules) && GoodDocument(i.user, rules) && GoodCatalog(i.catalog, rules)
  }

  /** Selected names are valid ones, so no origin holds a second colon. */
  lemma ChosenNamesArePlain(i: Inputs, rules: Rules)
    requires GoodInputs(i, rules) && Selects(i)
    ensures L.NamesPlain(Chosen(i))
    ensures L.UnsetNamed(Chosen(i)) <==>
      PresetName(i) == Chars("unset") || ProfileChoice(i) == Some(Chars("unset"))
  {
    SpelledPlain(PresetName(i));
    if ProfileChoice(i).Some? {
      assert ProfileName(ProfileChoice(i).value);
      SpelledPlain(ProfileChoice(i).value);
    }
  }

  // ---- what the child sees -----------------------------------------------------------

  /**
   * Unless a preset or profile is called unset, every launch shows the child the requested
   * value of every key.
   */
  lemma LaunchShowsRequested(i: Inputs, rules: Rules, child: L.Environment, k: L.Key)
    requires GoodInputs(i, rules) && Launched(i, child)
    requires PresetName(i) != Chars("unset") && ProfileChoice(i) != Some(Chars("unset"))
    ensures L.Reread(child, k) == L.Requested(Chosen(i), k).value
  {
    ChosenNamesArePlain(i, rules);
    L.ChildSeesResolution(Chosen(i), Acknowledged(i), child, k);
  }

  predicate LowMemory(s: L.Sources, child: L.Environment) {
    L.Shows(s, child, L.RxPoolCount, L.EXPERIMENTAL_RX_POOL_COUNT, [56])
  }

  predicate LiveDrain(s: L.Sources, child: L.Environment) {
    || L.Shows(s, child, L.H264Mode, L.VAAPI_LIVE_H264, [49])
    || L.Shows(s, child, L.LowLatency, L.VAAPI_LOW_LATENCY_H264, [49])
  }

  /** The preset's risks, and those that the child's environment shows and the parent's did not decide. */
  predicate Risks(s: L.Sources, tokens: set<Token>, child: L.Environment, token: Token) {
    AnyRisk(tokens, LowMemory(s, child), LiveDrain(s, child), token)
  }

  predicate AnyRisk(tokens: set<Token>, low: bool, live: bool, token: Token) {
    || token in tokens
    || (token == "low-memory-8-buffer" && low)
    || (token == "bcm70015-live-h264-drain" && live)
  }

  ghost predicate TakesRisks(s: L.Sources, tokens: set<Token>, child: L.Environment, given: seq<Token>) {
    forall t :: t in given <==> Risks(s, tokens, child, t)
  }

  predicate Distinct(tokens: seq<Token>) {
    forall a, b :: 0 <= a < b < |tokens| ==> tokens[a] != tokens[b]
  }

  /** Each known, none given twice, and exactly the risks the child will take. */
  ghost predicate AcknowledgesRisks(i: Inputs, s: L.Sources, child: L.Environment)
    requires Selects(i)
  {
    && Distinct(i.acknowledgements) && (forall t :: t in i.acknowledgements ==> Known(i.catalog, t))
    && TakesRisks(s, i.catalog[PresetName(i)].tokens, child, i.acknowledgements)
  }

  /** Everything else granted, a launch goes ahead exactly when the risks are acknowledged. */
  lemma LaunchedIffAcknowledged(i: Inputs, s: L.Sources, child: L.Environment)
    requires Selects(i) && s == Chosen(i) && L.NamesPlain(s) && L.Launches(s, true, child)
    ensures Launched(i, child) <==> AcknowledgesRisks(i, s, child)
  {
    var tokens := i.catalog[PresetName(i)].tokens;
    DemandedIs(s, tokens, child);
    TakesIff(tokens, s, child, i.acknowledgements, LowMemory(s, child), LiveDrain(s, child));
    AcknowledgedIff(i, s, child, Demanded(s, tokens));
  }

  lemma AcknowledgedIff(i: Inputs, s: L.Sources, child: L.Environment, demanded: set<Token>)
    requires Selects(i) && Required(i) == demanded
    requires Elements(i.acknowledgements) == demanded <==>
      TakesRisks(s, i.catalog[PresetName(i)].tokens, child, i.acknowledgements)
    ensures Acknowledged(i) <==> AcknowledgesRisks(i, s, child)
  {
    DistinctIff(i.acknowledgements);
  }

  lemma TakesIff(tokens: set<Token>, s: L.Sources, child: L.Environment, given: seq<Token>, low: bool, live: bool)
    requires low == LowMemory(s, child) && live == LiveDrain(s, child)
    ensures Elements(given) == Adding(tokens, low, live) <==> TakesRisks(s, tokens, child, given)
  {
    assert forall t :: Risks(s, tokens, child, t) <==> AnyRisk(tokens, low, live, t);
    AddingIff(tokens, low, live, given);
  }

  lemma DemandedIs(s: L.Sources, tokens: set<Token>, child: L.Environment)
    requires L.Resolves(s) && L.IsChild(s, child) && L.NamesPlain(s)
    ensures Demanded(s, tokens) == Adding(tokens, LowMemory(s, child), LiveDrain(s, child))
  {
    ShownPool(s, child);
    ShownDrain(s, child);
  }

  lemma AddingIff(tokens: set<Token>, low: bool, live: bool, given: seq<Token>)
    ensures Elements(given) == Adding(tokens, low, live) <==> forall t :: t in given <==> AnyRisk(tokens, low, live, t)
  {
    var added := Adding(tokens, low, live);
    assert forall t :: t in added <==> AnyRisk(tokens, low, live, t);
    assert forall t :: t in Elements(given) <==> t in given;
    assert Elements(given) == added <==> forall t :: t in given <==> t in added;
  }

  lemma ShownPool(s: L.Sources, child: L.Environment)
    requires L.Resolves(s) && L.IsChild(s, child) && L.NamesPlain(s)
    ensures Writes(s, L.RxPoolCount, Chars("8")) <==> LowMemory(s, child)
  {
    assert Chars("8") == [56];
    L.WritesIsShown(s, child, L.RxPoolCount, L.EXPERIMENTAL_RX_POOL_COUNT, [56]);
  }

  lemma ShownDrain(s: L.Sources, child: L.Environment)
    requires L.Resolves(s) && L.IsChild(s, child) && L.NamesPlain(s)
    ensures Writes(s, L.H264Mode, Chars("1")) || Writes(s, L.LowLatency, Chars("1")) <==> LiveDrain(s, child)
  {
    assert Chars("1") == [49];
    L.WritesIsShown(s, child, L.H264Mode, L.VAAPI_LIVE_H264, [49]);
    L.WritesIsShown(s, child, L.LowLatency, L.VAAPI_LOW_LATENCY_H264, [49]);
  }

  lemma {:induction false} DistinctIff(tokens: seq<Token>)
    ensures |Elements(tokens)| <= |tokens|
    ensures |Elements(tokens)| == |tokens| <==> Distinct(tokens)
  {
    if tokens != [] {
      var last, front := tokens[|tokens| - 1], tokens[..|tokens| - 1];
      DistinctIff(front);
      assert Elements(tokens) == Elements(front) + {last};
      assert last in Elements(front) <==> exists a :: 0 <= a < |front| && tokens[a] == last;
    }
  }

  // ---- the launcher's layers are the resolver's --------------------------------------

  function SettingOf(v: Maybe): L.Setting {
    if v.None? then L.Absent
    else match v.value
      case Unset => L.Absent
      case Bool(b) => L.Flag(b)
      case Int(n) => L.Number(n)
      case Str(s) => L.Word(s)
  }

  /** An entry of the launcher, as the resolver has it under the key's name. */
  ghost predicate Same(e: L.Entry, key: Text, values: Values<Text>) {
    && key in values && e.value == SettingOf(values[key])
    && (values[key].Some? ==> !values[key].value.Unset?)
  }

  lemma RequestAt(layer: Layer<Text>, k: L.Key)
    ensures k in RequestsOf(layer) <==> KeyText(k) in layer
    ensures KeyText(k) in layer ==> RequestsOf(layer)[k] == RequestOf(layer[KeyText(k)])
  {
    L.AllKeys();
  }

  lemma LayeredAt(
    e: L.Entry, k: L.Key, key: Text, requests: L.Requests, origin: string,
    values: Values<Text>, layer: Layer<Text>, native: Values<Text>)
    requires Same(e, key, values) && Same(L.Entry(L.Native(k), ""), key, native) && layer.Keys <= native.Keys
    requires k in requests <==> key in layer
    requires key in layer ==> requests[k] == RequestOf(layer[key])
    ensures Same(L.Layered(e, k, requests, origin), key, Overlay(values, layer, native))
  {
    if key in layer {
      assert Overlay(values, layer, native)[key] == if layer[key].Unset? then native[key] else Some(layer[key]);
    }
  }

  lemma NativeSame(k: L.Key, key: Text, native: Values<Text>, origin: string)
    requires key in native && native[key] == L.Written(L.Native(k))
    ensures Same(L.Entry(L.Native(k), origin), key, native)
  {
  }

  lemma LayeredSame(e: L.Entry, k: L.Key, values: Values<Text>, layer: Layer<Text>, t: Table, origin: string)
    requires SameEntry(k, t) && Same(e, KeyText(k), values) && layer.Keys <= t.native.Keys
    ensures Same(L.Layered(e, k, RequestsOf(layer), origin), KeyText(k), Overlay(values, layer, t.native))
  {
    RequestAt(layer, k);
    NativeSame(k, KeyText(k), t.native, "");
    LayeredAt(e, k, KeyText(k), RequestsOf(layer), origin, values, layer, t.native);
  }

  /** The catalog's selectable presets. */
  function Selectable(catalog: Catalog): map<Text, Layer<Text>> {
    map name | name in catalog && catalog[name].selectable :: catalog[name].settings
  }

  /** A table that both sides use, with the catalog's presets. */
  ghost predicate Shared(i: Inputs, t: Table) {
    && GoodTable(t) && (forall k :: SameEntry(k, t)) && t.presets == Selectable(i.catalog)
    && GoodInputs(i, t.rules)
  }

  lemma SelectableAreGood(catalog: Catalog, rules: Rules)
    requires GoodCatalog(catalog, rules)
    ensures forall name :: name in Selectable(catalog) ==>
      Ascii(name) && GoodLayer(Settings, Selectable(catalog)[name], rules)
  {
  }

  lemma EntriesStay(t: Table, presets: map<Text, Layer<Text>>)
    requires forall k :: SameEntry(k, t)
    ensures forall k :: SameEntry(k, t.(presets := presets))
  {
    forall k ensures SameEntry(k, t.(presets := presets)) {
      assert SameEntry(k, t);
    }
  }

  /** The schema is such a table. */
  lemma SchemaIsShared(i: Inputs)
    requires GoodInputs(i, MakeTable().rules)
    ensures Shared(i, MakeTable().(presets := Selectable(i.catalog)))
  {
    SchemaIsGood();
    SchemaEntries();
    SelectableAreGood(i.catalog, MakeTable().rules);
    WithPresets(MakeTable(), Selectable(i.catalog));
    EntriesStay(MakeTable(), Selectable(i.catalog));
  }

  /** The chosen layers, lowest first. */
  function Stack(i: Inputs): seq<Layer<Text>>
    requires Selects(i)
  {
    [i.catalog[PresetName(i)].settings, i.system.settings, i.user.settings] + ProfileStack(i)
  }

  function ProfileStack(i: Inputs): seq<Layer<Text>> {
    var profile := ProfileChoice(i);
    if profile.None? then [] else [ProfileLayer(i.system, profile.value), ProfileLayer(i.user, profile.value)]
  }

  /** Without explicit choices these are the resolver's. */
  lemma StackIsLayers(i: Inputs, t: Table)
    requires Selects(i) && i.preset.None? && i.profile.None? && t.presets == Selectable(i.catalog)
    ensures Layers(i.system, i.user, t) == Some(Stack(i))
  {
    var base := [i.catalog[PresetName(i)].settings, i.system.settings, i.user.settings];
    assert base + [] == base;
  }

  ghost predicate GoodStack(layers: seq<Layer<Text>>, t: Table) {
    forall n :: 0 <= n < |layers| ==> GoodSettings(layers[n], t)
  }

  lemma StackIsGood(i: Inputs, t: Table)
    requires Shared(i, t) && Selects(i)
    ensures GoodStack(Stack(i), t)
  {
    SettingsAreGood(Settings, i.catalog[PresetName(i)].settings, t);
    SettingsAreGood(Settings, i.system.settings, t);
    SettingsAreGood(Settings, i.user.settings, t);
    if ProfileChoice(i).Some? {
      ProfileIsGood(i.system, ProfileChoice(i).value, t);
      ProfileIsGood(i.user, ProfileChoice(i).value, t);
    }
  }

  /** Three layers over the native values. */
  lemma DocumentedSame(s: L.Sources, k: L.Key, a: Layer<Text>, b: Layer<Text>, c: Layer<Text>, t: Table)
    requires SameEntry(k, t) && a.Keys <= t.native.Keys && b.Keys <= t.native.Keys && c.Keys <= t.native.Keys
    requires s.presetSettings == RequestsOf(a) && s.system == RequestsOf(b) && s.user == RequestsOf(c)
    ensures Same(L.Documented(s, k), KeyText(k),
                 Overlay(Overlay(Overlay(t.native, a, t.native), b, t.native), c, t.native))
  {
    var e0 := L.Entry(L.Native(k), "compiled");
    NativeSame(k, KeyText(k), t.native, "compiled");
    LayeredSame(e0, k, t.native, a, t, "preset:" + s.preset);
    var e1, v1 := L.Layered(e0, k, s.presetSettings, "preset:" + s.preset), Overlay(t.native, a, t.native);
    LayeredSame(e1, k, v1, b, t, "system");
    LayeredSame(L.Layered(e1, k, s.system, "system"), k, Overlay(v1, b, t.native), c, t, "user");
  }

  /** Two more, when a profile is selected. */
  lemma ProfiledSame(s: L.Sources, k: L.Key, values: Values<Text>, d: Layer<Text>, e: Layer<Text>, t: Table)
    requires SameEntry(k, t) && d.Keys <= t.native.Keys && e.Keys <= t.native.Keys
    requires s.profile.Some? && s.systemProfile == RequestsOf(d) && s.userProfile == RequestsOf(e)
    requires Same(L.Documented(s, k), KeyText(k), values)
    ensures Same(L.Managed(s, k), KeyText(k), Overlay(Overlay(values, d, t.native), e, t.native))
  {
    var h := L.Documented(s, k);
    LayeredSame(h, k, values, d, t, "system-profile:" + s.profile.value);
    var g := L.Layered(h, k, s.systemProfile, "system-profile:" + s.profile.value);
    LayeredSame(g, k, Overlay(values, d, t.native), e, t, "user-profile:" + s.profile.value);
  }

  lemma OverlayFirst(values: Values<Text>, l: Layer<Text>, more: seq<Layer<Text>>, native: Values<Text>)
    requires l.Keys <= native.Keys && forall n :: 0 <= n < |more| ==> more[n].Keys <= native.Keys
    ensures OverlayAll(values, [l] + more, native) == OverlayAll(Overlay(values, l, native), more, native)
  {
    assert ([l] + more)[1..] == more;
  }

  lemma OverlayTwo(values: Values<Text>, d: Layer<Text>, e: Layer<Text>, native: Values<Text>)
    requires d.Keys <= native.Keys && e.Keys <= native.Keys
    ensures OverlayAll(values, [d, e], native) == Overlay(Overlay(values, d, native), e, native)
  {
    OverlayFirst(values, d, [e], native);
    OverlayFirst(Overlay(values, d, native), e, [], native);
    assert [d] + [e] == [d, e] && [e] + [] == [e];
  }

  lemma OverlayThree(
    values: Values<Text>, a: Layer<Text>, b: Layer<Text>, c: Layer<Text>, more: seq<Layer<Text>>, native: Values<Text>)
    requires a.Keys <= native.Keys && b.Keys <= native.Keys && c.Keys <= native.Keys
    requires forall n :: 0 <= n < |more| ==> more[n].Keys <= native.Keys
    ensures OverlayAll(values, [a, b, c] + more, native) ==
      OverlayAll(Overlay(Overlay(Overlay(values, a, native), b, native), c, native), more, native)
  {
    var v := Overlay(values, a, native);
    OverlayFirst(values, a, [b, c] + more, native);
    OverlayFirst(v, b, [c] + more, native);
    OverlayFirst(Overlay(v, b, native), c, more, native);
    assert [a] + ([b, c] + more) == [a, b, c] + more && [b] + ([c] + more) == [b, c] + more;
  }

  ghost predicate Within(layers: seq<Layer<Text>>, native: Values<Text>) {
    forall n :: 0 <= n < |layers| ==> layers[n].Keys <= native.Keys
  }

  /** For every key the launcher's managed value is the resolver's. */
  lemma ManagedSame(i: Inputs, k: L.Key, t: Table)
    requires Selects(i) && SameEntry(k, t) && Within(Stack(i), t.native)
    ensures Same(L.Managed(Chosen(i), k), KeyText(k), OverlayAll(t.native, Stack(i), t.native))
  {
    var l, more := Stack(i), ProfileStack(i);
    assert forall n :: 0 <= n < |more| ==> more[n] == l[n + 3];
    assert l[0].Keys <= t.native.Keys && l[1].Keys <= t.native.Keys && l[2].Keys <= t.native.Keys;
    OverlayThree(t.native, l[0], l[1], l[2], more, t.native);
    DocumentedSame(Chosen(i), k, l[0], l[1], l[2], t);
    var values := Overlay(Overlay(Overlay(t.native, l[0], t.native), l[1], t.native), l[2], t.native);
    StackedSame(i, k, values, t);
  }

  lemma StackedSame(i: Inputs, k: L.Key, values: Values<Text>, t: Table)
    requires Selects(i) && SameEntry(k, t) && Within(ProfileStack(i), t.native)
    requires Same(L.Documented(Chosen(i), k), KeyText(k), values)
    ensures Same(L.Managed(Chosen(i), k), KeyText(k), OverlayAll(values, ProfileStack(i), t.native))
  {
    var more := ProfileStack(i);
    if more != [] {
      OverlayTwo(values, more[0], more[1], t.native);
      ProfiledSame(Chosen(i), k, values, more[0], more[1], t);
    }
  }

  /** The managed entries that depend on one another. */
  ghost predicate SameManaged(s: L.Sources, v: Values<Text>) {
    && Same(L.Managed(s, L.ReadyRemap), READY_REMAP, v) && Same(L.Managed(s, L.H264Mode), MODE, v)
    && Same(L.Managed(s, L.LowLatency), LOW_LATENCY, v)
    && Same(L.Managed(s, L.HwDecode), HW_DECODE, v) && Same(L.Managed(s, L.DisableGpuSandbox), SANDBOX, v)
    && Same(L.Managed(s, L.PlayerDecoder), DECODER, v) && Same(L.Managed(s, L.ScaleWidth), SCALE, v)
    && Same(L.Managed(s, L.SoftwareOutputSize), OUTPUT, v)
  }

  lemma KeyNames()
    ensures KeyText(L.ReadyRemap) == READY_REMAP && KeyText(L.H264Mode) == MODE && KeyText(L.LowLatency) == LOW_LATENCY
    ensures KeyText(L.HwDecode) == HW_DECODE && KeyText(L.DisableGpuSandbox) == SANDBOX
    ensures KeyText(L.PlayerDecoder) == DECODER && KeyText(L.ScaleWidth) == SCALE && KeyText(L.SoftwareOutputSize) == OUTPUT
  {
  }

  lemma VideoSame(remap: Maybe, mode: Maybe, latency: Maybe, decode: Maybe, sandbox: Maybe)
    ensures VideoConsistent(remap, mode, latency, decode, sandbox) <==>
      L.VideoAgrees(SettingOf(remap), SettingOf(mode), SettingOf(latency), SettingOf(decode), SettingOf(sandbox))
  {
  }

  lemma PlayerSame(decoder: Maybe, scale: Maybe, output: Maybe)
    requires output.Some? ==> !output.value.Unset?
    ensures PlayerConsistent(decoder, scale, output) <==>
      L.PlayerAgrees(SettingOf(decoder), SettingOf(scale), SettingOf(output))
  {
  }

  lemma NothingOverridden(s: L.Sources, k: L.Key, key: Text, v: Values<Text>)
    requires s.overrides == map[] && Same(L.Managed(s, k), key, v)
    ensures L.Canonical(s, k) == SettingOf(v[key]) && (v[key].Some? ==> !v[key].value.Unset?)
  {
  }

  lemma VideoDependsSame(s: L.Sources, v: Values<Text>)
    requires s.overrides == map[] && SameManaged(s, v)
    ensures L.VideoDepends(s) <==>
      VideoConsistent(v[READY_REMAP], v[MODE], v[LOW_LATENCY], v[HW_DECODE], v[SANDBOX])
  {
    NothingOverridden(s, L.ReadyRemap, READY_REMAP, v);
    NothingOverridden(s, L.H264Mode, MODE, v);
    NothingOverridden(s, L.LowLatency, LOW_LATENCY, v);
    NothingOverridden(s, L.HwDecode, HW_DECODE, v);
    NothingOverridden(s, L.DisableGpuSandbox, SANDBOX, v);
    VideoSame(v[READY_REMAP], v[MODE], v[LOW_LATENCY], v[HW_DECODE], v[SANDBOX]);
  }

  lemma PlayerDependsSame(s: L.Sources, v: Values<Text>)
    requires s.overrides == map[] && SameManaged(s, v)
    ensures L.PlayerDepends(s) <==>
      PlayerConsistent(v[DECODER], v[SCALE], v[OUTPUT])
  {
    NothingOverridden(s, L.PlayerDecoder, DECODER, v);
    NothingOverridden(s, L.ScaleWidth, SCALE, v);
    NothingOverridden(s, L.SoftwareOutputSize, OUTPUT, v);
    PlayerSame(v[DECODER], v[SCALE], v[OUTPUT]);
  }

  lemma RequestIsValid(layer: Layer<Text>, k: L.Key, key: Text, t: Table)
    requires GoodSettings(layer, t) && key in layer && key in t.rules && t.rules[key] == L.RuleOf(k)
    ensures L.RequestValid(k, RequestOf(layer[key]))
  {
  }

  lemma RequestsValid(layer: Layer<Text>, t: Table)
    requires GoodSettings(layer, t) && forall k :: SameEntry(k, t)
    ensures L.LayerValid(RequestsOf(layer))
  {
    forall k | k in RequestsOf(layer) ensures L.RequestValid(k, RequestsOf(layer)[k]) {
      RequestAt(layer, k);
      assert SameEntry(k, t);
      RequestIsValid(layer, k, KeyText(k), t);
    }
  }

  lemma ChosenValid(i: Inputs, t: Table)
    requires Selects(i) && GoodStack(Stack(i), t) && forall k :: SameEntry(k, t)
    ensures var s := Chosen(i);
      && L.LayerValid(s.presetSettings) && L.LayerValid(s.system) && L.LayerValid(s.user)
      && L.LayerValid(s.systemProfile) && L.LayerValid(s.userProfile)
  {
    var l := Stack(i);
    RequestsValid(l[0], t);
    RequestsValid(l[1], t);
    RequestsValid(l[2], t);
    if ProfileChoice(i).Some? {
      RequestsValid(l[3], t);
      RequestsValid(l[4], t);
    }
  }

  /** No explicit choice and no override; variables may be set. */
  predicate Plainly(i: Inputs) {
    i.preset.None? && i.profile.None? && i.overrides == map[] && L.EnvironmentValid(i.environment)
  }

  ghost function Stacked(i: Inputs, t: Table): Values<Text>
    requires Selects(i) && Within(Stack(i), t.native)
  {
    OverlayAll(t.native, Stack(i), t.native)
  }

  lemma StackResolves(i: Inputs, t: Table)
    requires Selects(i) && i.overrides == map[] && Within(Stack(i), t.native) && forall k :: SameEntry(k, t)
    ensures SameManaged(Chosen(i), Stacked(i, t))
    ensures forall k :: Same(L.Managed(Chosen(i), k), KeyText(k), Stacked(i, t))
  {
    forall k ensures Same(L.Managed(Chosen(i), k), KeyText(k), Stacked(i, t)) {
      assert SameEntry(k, t);
      ManagedSame(i, k, t);
    }
    KeyNames();
  }

  lemma StackAccepted(i: Inputs, t: Table)
    requires Selects(i) && Plainly(i) && GoodTable(t) && GoodStack(Stack(i), t) && forall k :: SameEntry(k, t)
    ensures Within(Stack(i), t.native) && Total(Stacked(i, t), t)
    ensures L.Resolves(Chosen(i)) <==> Consistent(Stacked(i, t))
  {
    KeysStay(t.native, Stack(i), t);
    ChosenValid(i, t);
    StackResolves(i, t);
    VideoDependsSame(Chosen(i), Stacked(i, t));
    PlayerDependsSame(Chosen(i), Stacked(i, t));
  }

  lemma ResolvedIsStacked(i: Inputs, t: Table)
    requires Shared(i, t) && Selects(i) && Plainly(i) && Within(Stack(i), t.native) && Total(Stacked(i, t), t)
    ensures Resolved(i.system, i.user, t) == if Consistent(Stacked(i, t)) then Some(Stacked(i, t)) else None
  {
    StackIsLayers(i, t);
  }

  /** The launcher's resolution accepts the documents that the resolver accepts, with the same values. */
  lemma ResolvesSame(i: Inputs, t: Table)
    requires Shared(i, t) && Selects(i) && Plainly(i)
    ensures L.Resolves(Chosen(i)) <==> Resolved(i.system, i.user, t).Some?
    ensures Resolved(i.system, i.user, t).Some? ==>
      forall k :: Same(L.Managed(Chosen(i), k), KeyText(k), Resolved(i.system, i.user, t).value)
  {
    StackIsGood(i, t);
    StackAccepted(i, t);
    ResolvedIsStacked(i, t);
    StackResolves(i, t);
  }

  /** What the child reads back for a key no variable sets is what the documents resolve to. */
  lemma ChildSeesDocuments(i: Inputs, t: Table, child: L.Environment, k: L.Key)
    requires Shared(i, t) && Plainly(i) && Launched(i, child)
    requires PresetName(i) != Chars("unset") && ProfileChoice(i) != Some(Chars("unset"))
    requires L.KeyVariable(k).None? || L.KeyVariable(k).value !in i.environment
    ensures Resolved(i.system, i.user, t).Some? && KeyText(k) in Resolved(i.system, i.user, t).value
    ensures L.Reread(child, k) == SettingOf(Resolved(i.system, i.user, t).value[KeyText(k)])
  {
    ResolvesSame(i, t);
    LaunchShowsRequested(i, t.rules, child, k);
    assert Same(L.Managed(Chosen(i), k), KeyText(k), Resolved(i.system, i.user, t).value);
    assert L.Requested(Chosen(i), k).value == L.Managed(Chosen(i), k).value;
  }

  /** The same from the bytes of both files. */
  lemma ChildSeesFiles(system: Bytes, user: Bytes, i: Inputs, t: Table, child: L.Environment, k: L.Key)
    requires Shared(i, t) && Plainly(i) && Launched(i, child)
    requires ParseDocument(system, t.rules) == Some(i.system) && ParseDocument(user, t.rules) == Some(i.user)
    requires PresetName(i) != Chars("unset") && ProfileChoice(i) != Some(Chars("unset"))
    requires L.KeyVariable(k).None? || L.KeyVariable(k).value !in i.environment
    ensures ResolvedBytes(system, user, t).Some? && KeyText(k) in ResolvedBytes(system, user, t).value
    ensures L.Reread(child, k) == SettingOf(ResolvedBytes(system, user, t).value[KeyText(k)])
  {
    ChildSeesDocuments(i, t, child, k);
    ResolvedParsed(system, user, t);
  }
}
