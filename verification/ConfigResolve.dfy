/**
 * Layers resolved twice: resolve in scripts/crystalhd-config.py without overrides, and the
 * native Apply and Resolve (include/crystalhd-config.h) over the same documents.
 */
module ConfigResolve {
  import opened Basics
  import opened ConfigUtf8
  import opened ConfigText
  import opened ConfigJson
  import opened ConfigJsonReader
  import opened ConfigDocument
  import opened ConfigReader

  /** A setting's value; None is ABSENT. */
  type Values<S> = map<Text, Option<Value<S>>>

  /** The rules, the native defaults, and the settings of each selectable preset. */
  datatype Table = Table(rules: Rules, native: Values<Text>, presets: map<Text, Layer<Text>>)

  const DEFAULT := Chars("default")
  const LIVE := Chars("live")
  const HARDWARE := Chars("hardware")
  const READY_REMAP := Chars("vaapi.h264.ready_remap")
  const MODE := Chars("vaapi.h264.mode")
  const LOW_LATENCY := Chars("vaapi.h264.low_latency")
  const HW_DECODE := Chars("chromium.experimental_hw_decode")
  const SANDBOX := Chars("chromium.disable_gpu_sandbox")
  const DECODER := Chars("player.decoder")
  const SCALE := Chars("gstreamer.crystalhddec.scale_width")
  const OUTPUT := Chars("player.software_output_size")

  ghost predicate GoodTable(t: Table) {
    && t.native.Keys == t.rules.Keys
    && {READY_REMAP, MODE, LOW_LATENCY, HW_DECODE, SANDBOX, DECODER, SCALE, OUTPUT} <= t.rules.Keys
    && t.rules[SCALE] == ScaleWidth && t.native[SCALE] == Some(Int(0))
    && forall name :: name in t.presets ==> Ascii(name) && GoodLayer(Settings, t.presets[name], t.rules)
  }

  /** Other good presets make another good table. */
  lemma WithPresets(t: Table, presets: map<Text, Layer<Text>>)
    requires GoodTable(t)
    requires forall name :: name in presets ==> Ascii(name) && GoodLayer(Settings, presets[name], t.rules)
    ensures GoodTable(t.(presets := presets))
  {
  }

  // ---- Python ------------------------------------------------------------------------

  /** apply_layer */
  function Overlay(values: Values<Text>, layer: Layer<Text>, native: Values<Text>): Values<Text>
    requires layer.Keys <= native.Keys
  {
    values + map key | key in layer :: if layer[key].Unset? then native[key] else Some(layer[key])
  }

  function Selector(d: Document<Text>, key: Text): Option<Text> {
    if key in d.metadata && d.metadata[key].Str? then Some(d.metadata[key].s) else None
  }

  function Selected(system: Document<Text>, user: Document<Text>, key: Text): Option<Text> {
    if Selector(user, key).Some? then Selector(user, key) else Selector(system, key)
  }

  function ProfileLayer(d: Document<Text>, name: Text): Layer<Text> {
    if name in d.profiles then d.profiles[name] else map[]
  }

  /** The layers above the native defaults, lowest first; None for an unknown selection. */
  function Layers(system: Document<Text>, user: Document<Text>, t: Table): Option<seq<Layer<Text>>> {
    var preset := if Selected(system, user, PRESET).Some? then Selected(system, user, PRESET).value else DEFAULT;
    if preset !in t.presets then None
    else WithProfile([t.presets[preset], system.settings, user.settings], system, user, Selected(system, user, PROFILE))
  }

  /** The selected profile's layers on top; some document must have it. */
  function WithProfile(
    base: seq<Layer<Text>>, system: Document<Text>, user: Document<Text>, profile: Option<Text>): Option<seq<Layer<Text>>>
  {
    if profile.None? then Some(base)
    else if profile.value !in system.profiles && profile.value !in user.profiles then None
    else Some(base + [ProfileLayer(system, profile.value), ProfileLayer(user, profile.value)])
  }

  function OverlayAll(values: Values<Text>, layers: seq<Layer<Text>>, native: Values<Text>): Values<Text>
    requires forall k :: 0 <= k < |layers| ==> layers[k].Keys <= native.Keys
    decreases |layers|
  {
    if layers == [] then values else OverlayAll(Overlay(values, layers[0], native), layers[1..], native)
  }

  ghost predicate Total(values: Values<Text>, t: Table) {
    values.Keys == t.rules.Keys && SCALE in values && values[SCALE].Some? && values[SCALE].value.Int?
  }

  type Maybe = Option<Value<Text>>

  predicate On(v: Maybe) { v == Some(Bool(true)) }

  predicate VideoConsistent(remap: Maybe, mode: Maybe, latency: Maybe, decode: Maybe, sandbox: Maybe) {
    (On(remap) ==> mode == Some(Str(LIVE)) && On(latency)) && (On(decode) ==> On(sandbox))
  }

  predicate PlayerConsistent(decoder: Maybe, scale: Maybe, output: Maybe) {
    && (scale != Some(Int(0)) ==> decoder == Some(Str(HARDWARE)))
    && (output.Some? ==> decoder == Some(Str(HARDWARE)) && scale != Some(Int(0)))
  }

  /** validate_managed */
  predicate Consistent(v: Values<Text>)
    requires {READY_REMAP, MODE, LOW_LATENCY, HW_DECODE, SANDBOX, DECODER, SCALE, OUTPUT} <= v.Keys
  {
    && VideoConsistent(v[READY_REMAP], v[MODE], v[LOW_LATENCY], v[HW_DECODE], v[SANDBOX])
    && PlayerConsistent(v[DECODER], v[SCALE], v[OUTPUT])
  }

  ghost predicate Good(d: Document<Text>, t: Table) { GoodDocument(d, t.rules) }

  /** The entries of a layer of settings, whatever section they came from. */
  ghost predicate GoodSettings(l: Layer<Text>, t: Table) {
    && l.Keys <= t.rules.Keys
    && forall key :: key in l ==> (l[key].Unset? || Accepts(t.rules[key], l[key])) && Writable(l[key])
  }

  lemma SettingsAreGood(s: Section, l: Layer<Text>, t: Table)
    requires !s.Meta? && GoodLayer(s, l, t.rules)
    ensures GoodSettings(l, t)
  {
  }

  lemma ProfileIsGood(d: Document<Text>, name: Text, t: Table)
    requires Good(d, t)
    ensures GoodSettings(ProfileLayer(d, name), t)
  {
    if name in d.profiles {
      SettingsAreGood(Profile(name), d.profiles[name], t);
    }
  }

  lemma LayersAreGood(system: Document<Text>, user: Document<Text>, t: Table)
    requires GoodTable(t) && Good(system, t) && Good(user, t) && Layers(system, user, t).Some?
    ensures forall k :: 0 <= k < |Layers(system, user, t).value| ==> GoodSettings(Layers(system, user, t).value[k], t)
  {
    var preset := if Selected(system, user, PRESET).Some? then Selected(system, user, PRESET).value else DEFAULT;
    assert preset in t.presets;
    SettingsAreGood(Settings, t.presets[preset], t);
    SettingsAreGood(Settings, system.settings, t);
    SettingsAreGood(Settings, user.settings, t);
    WithProfileIsGood([t.presets[preset], system.settings, user.settings], system, user, Selected(system, user, PROFILE), t);
  }

  lemma WithProfileIsGood(
    base: seq<Layer<Text>>, system: Document<Text>, user: Document<Text>, profile: Option<Text>, t: Table)
    requires Good(system, t) && Good(user, t) && forall k :: 0 <= k < |base| ==> GoodSettings(base[k], t)
    ensures var layers := WithProfile(base, system, user, profile);
      layers.Some? ==> forall k :: 0 <= k < |layers.value| ==> GoodSettings(layers.value[k], t)
  {
    if profile.Some? {
      ProfileIsGood(system, profile.value, t);
      ProfileIsGood(user, profile.value, t);
    }
  }

  /** resolve, as far as the managed values. */
  ghost function Resolved(system: Document<Text>, user: Document<Text>, t: Table): Option<Values<Text>>
    requires GoodTable(t) && Good(system, t) && Good(user, t)
  {
    var layers := Layers(system, user, t);
    if layers.None? then None
    else
      LayersAreGood(system, user, t);
      KeysStay(t.native, layers.value, t);
      var v := OverlayAll(t.native, layers.value, t.native);
      if Consistent(v) then Some(v) else None
  }

  lemma {:induction false} KeysStay(v: Values<Text>, layers: seq<Layer<Text>>, t: Table)
    requires GoodTable(t) && Total(v, t) && forall k :: 0 <= k < |layers| ==> GoodSettings(layers[k], t)
    ensures forall k :: 0 <= k < |layers| ==> layers[k].Keys <= t.native.Keys
    ensures Total(OverlayAll(v, layers, t.native), t)
    decreases |layers|
  {
    if layers != [] {
      assert Total(Overlay(v, layers[0], t.native), t);
      KeysStay(Overlay(v, layers[0], t.native), layers[1..], t);
    }
  }

  /** Layer i is the topmost one that mentions the key. */
  ghost predicate Topmost(layers: seq<Layer<Text>>, i: nat, key: Text) {
    && i < |layers| && key in layers[i]
    && forall k :: i < k < |layers| ==> key !in layers[k]
  }

  /** A key takes the request of the topmost layer that mentions it, and keeps its value if none does. */
  lemma {:induction false} TopmostWins(values: Values<Text>, layers: seq<Layer<Text>>, native: Values<Text>, key: Text)
    requires key in values && forall k :: 0 <= k < |layers| ==> layers[k].Keys <= native.Keys
    ensures key in OverlayAll(values, layers, native)
    ensures forall i: nat :: Topmost(layers, i, key) ==>
      OverlayAll(values, layers, native)[key] == if layers[i][key].Unset? then native[key] else Some(layers[i][key])
    ensures (forall k :: 0 <= k < |layers| ==> key !in layers[k]) ==>
      OverlayAll(values, layers, native)[key] == values[key]
    decreases |layers|
  {
    if layers != [] {
      var below, rest := Overlay(values, layers[0], native), layers[1..];
      TopmostWins(below, rest, native, key);
      forall i: nat | Topmost(layers, i, key)
        ensures OverlayAll(values, layers, native)[key] ==
          if layers[i][key].Unset? then native[key] else Some(layers[i][key])
      {
        if i > 0 {
          assert Topmost(rest, i - 1, key);
        } else {
          assert forall k :: 0 <= k < |rest| ==> rest[k] == layers[k + 1];
        }
      }
    }
  }

  /** Every key resolves, to its native default or to a value its own rule accepts. */
  lemma ResolvedIsAccepted(system: Document<Text>, user: Document<Text>, t: Table, key: Text)
    requires GoodTable(t) && Good(system, t) && Good(user, t) && Resolved(system, user, t).Some? && key in t.rules
    ensures key in Resolved(system, user, t).value
    ensures var v := Resolved(system, user, t).value[key];
      v == t.native[key] || (v.Some? && Accepts(t.rules[key], v.value))
  {
    var layers := Layers(system, user, t).value;
    LayersAreGood(system, user, t);
    KeysStay(t.native, layers, t);
    TopmostWins(t.native, layers, t.native, key);
    if i :| 0 <= i < |layers| && key in layers[i] {
      var top := LastMention(layers, key, i);
      assert GoodSettings(layers[top], t);
    }
  }

  lemma {:induction false} LastMention(layers: seq<Layer<Text>>, key: Text, i: nat) returns (top: nat)
    requires i < |layers| && key in layers[i]
    ensures Topmost(layers, top, key)
    decreases |layers| - i
  {
    top := i;
    if k :| i < k < |layers| && key in layers[k] {
      top := LastMention(layers, key, k);
    }
  }

  /** A user's selector goes before the system's. */
  lemma UserSelects(system: Document<Text>, user: Document<Text>, key: Text, name: Text)
    ensures key in user.metadata && user.metadata[key] == Str(name) ==> Selected(system, user, key) == Some(name)
    ensures key !in user.metadata && key in system.metadata && system.metadata[key] == Str(name) ==>
      Selected(system, user, key) == Some(name)
    ensures key !in user.metadata && key !in system.metadata ==> Selected(system, user, key) == None
  {
  }

  /** The value that a request stands for. */
  function Granted(request: Value<Text>, native: Option<Value<Text>>): Option<Value<Text>> {
    if request == Unset then native else Some(request)
  }

  ghost predicate InProfile(d: Document<Text>, profile: Option<Text>, key: Text) {
    profile.Some? && profile.value in d.profiles && key in d.profiles[profile.value]
  }

  /** The preset that is selected, and otherwise the one called default. */
  function ChosenPreset(system: Document<Text>, user: Document<Text>): Text {
    var selected := Selected(system, user, PRESET);
    if selected == None then Chars("default") else selected.value
  }

  /** The topmost layer of a key, by where it is mentioned. */
  lemma DecidingLayer(system: Document<Text>, user: Document<Text>, t: Table, profile: Option<Text>, key: Text)
    requires Layers(system, user, t).Some? && profile == Selected(system, user, PROFILE)
    ensures ChosenPreset(system, user) in t.presets
    ensures var layers, preset := Layers(system, user, t).value, t.presets[ChosenPreset(system, user)];
      if InProfile(user, profile, key) then
        Topmost(layers, 4, key) && layers[4][key] == user.profiles[profile.value][key]
      else if InProfile(system, profile, key) then
        Topmost(layers, 3, key) && layers[3][key] == system.profiles[profile.value][key]
      else if key in user.settings then Topmost(layers, 2, key) && layers[2][key] == user.settings[key]
      else if key in system.settings then Topmost(layers, 1, key) && layers[1][key] == system.settings[key]
      else if key in preset then Topmost(layers, 0, key) && layers[0][key] == preset[key]
      else forall k :: 0 <= k < |layers| ==> key !in layers[k]
  {
    var layers := Layers(system, user, t).value;
    if !InProfile(user, profile, key) && !InProfile(system, profile, key) {
      BelowProfiles(layers, key);
    }
  }

  /**
   * Who decides a key: the user's profile, the system's, the user, the system, the preset,
   * and at last the native default.
   */
  lemma Precedence(system: Document<Text>, user: Document<Text>, t: Table, profile: Option<Text>, key: Text)
    requires GoodTable(t) && Good(system, t) && Good(user, t) && Resolved(system, user, t).Some? && key in t.rules
    requires profile == Selected(system, user, PROFILE)
    ensures ChosenPreset(system, user) in t.presets && key in Resolved(system, user, t).value
    ensures Resolved(system, user, t).value[key] ==
      if InProfile(user, profile, key) then Granted(user.profiles[profile.value][key], t.native[key])
      else if InProfile(system, profile, key) then Granted(system.profiles[profile.value][key], t.native[key])
      else if key in user.settings then Granted(user.settings[key], t.native[key])
      else if key in system.settings then Granted(system.settings[key], t.native[key])
      else if key in t.presets[ChosenPreset(system, user)] then
        Granted(t.presets[ChosenPreset(system, user)][key], t.native[key])
      else t.native[key]
  {
    var layers := Layers(system, user, t).value;
    LayersAreGood(system, user, t);
    KeysStay(t.native, layers, t);
    TopmostWins(t.native, layers, t.native, key);
    DecidingLayer(system, user, t, profile, key);
  }

  /** Among the first three layers the last that mentions a key is topmost, if no profile does. */
  lemma BelowProfiles(layers: seq<Layer<Text>>, key: Text)
    requires |layers| >= 3 && forall k :: 3 <= k < |layers| ==> key !in layers[k]
    ensures key in layers[2] ==> Topmost(layers, 2, key)
    ensures key !in layers[2] && key in layers[1] ==> Topmost(layers, 1, key)
    ensures key !in layers[2] && key !in layers[1] && key in layers[0] ==> Topmost(layers, 0, key)
    ensures key !in layers[2] && key !in layers[1] && key !in layers[0] ==> forall k :: 0 <= k < |layers| ==> key !in layers[k]
  {
  }

  // ---- native ------------------------------------------------------------------------

  function EncodeValues(v: Values<Text>): Values<Bytes> {
    map key | key in v :: EncodeOption(v[key])
  }

  /** What a layer's first entries make of the values. */
  function NativeOverlay(values: Values<Bytes>, layer: Layer<Bytes>, native: Values<Bytes>, keys: set<Text>): Values<Bytes>
    requires keys <= layer.Keys
  {
    values + map key | key in keys :: Applied(layer[key], native, key)
  }

  lemma OverlayEncoded(v: Values<Text>, l: Layer<Text>, n: Values<Text>)
    requires l.Keys <= n.Keys
    ensures NativeOverlay(EncodeValues(v), EncodeLayer(l), EncodeValues(n), EncodeLayer(l).Keys) == EncodeValues(Overlay(v, l, n))
  {
    var a := NativeOverlay(EncodeValues(v), EncodeLayer(l), EncodeValues(n), EncodeLayer(l).Keys);
    var b := EncodeValues(Overlay(v, l, n));
    assert a.Keys == b.Keys;
    forall key | key in a ensures a[key] == b[key] {
      if key in l {
        OverlayAt(l, n, key);
        assert b[key] == EncodeOption(if l[key].Unset? then n[key] else Some(l[key]));
      }
    }
  }

  function EncodeOption(v: Option<Value<Text>>): Option<Value<Bytes>> {
    if v.None? then None else Some(EncodeValue(v.value))
  }

  lemma OverlayAt(l: Layer<Text>, n: Values<Text>, key: Text)
    requires l.Keys <= n.Keys && key in l
    ensures Applied(EncodeLayer(l)[key], EncodeValues(n), key) == EncodeOption(if l[key].Unset? then n[key] else Some(l[key]))
  {
  }

  lemma NativeOverlayStep(values: Values<Bytes>, layer: Layer<Bytes>, native: Values<Bytes>, keys: set<Text>, key: Text)
    requires keys <= layer.Keys && key in layer
    ensures NativeOverlay(values, layer, native, keys)[key := Applied(layer[key], native, key)]
      == NativeOverlay(values, layer, native, keys + {key})
  {
  }

  /** Apply: one layer's entries, in any order. */
  method Apply(values: Values<Bytes>, layer: Layer<Bytes>, native: Values<Bytes>) returns (result: Values<Bytes>)
    ensures result == NativeOverlay(values, layer, native, layer.Keys)
  {
    result := values;
    var todo := layer.Keys;
    ghost var applied: set<Text> := {};
    while todo != {}
      invariant todo !! applied && todo + applied == layer.Keys
      invariant result == NativeOverlay(values, layer, native, applied)
      decreases |todo|
    {
      var key :| key in todo;
      NativeOverlayStep(values, layer, native, applied, key);
      todo, applied := todo - {key}, applied + {key};
      result := result[key := Applied(layer[key], native, key)];
    }
    assert applied == layer.Keys;
  }

  function Applied(v: Value<Bytes>, native: Values<Bytes>, key: Text): Option<Value<Bytes>> {
    if v.Unset? then if key in native then native[key] else None else Some(v)
  }

  function BooleanOf(v: Option<Value<Bytes>>): bool { v.Some? && v.value.Bool? && v.value.b }
  function StringOf(v: Option<Value<Bytes>>): Bytes { if v.Some? && v.value.Str? then v.value.s else [] }
  function IntegerOf(v: Option<Value<Bytes>>): nat { if v.Some? && v.value.Int? then v.value.n else 0 }

  lemma WordEncoded(v: Option<Value<Text>>, word: Text)
    requires Ascii(word) && word != []
    ensures StringOf(EncodeOption(v)) == word <==> v == Some(Str(word))
  {
    EncodeAscii(word);
    if v.Some? && v.value.Str? && Encode(v.value.s) == word {
      EncodeInjective(v.value.s, word);
    }
  }

  type Held = Option<Value<Bytes>>

  method VideoDepends(remap: Held, mode: Held, latency: Held, decode: Held, sandbox: Held,
    ghost r: Maybe, ghost m: Maybe, ghost l: Maybe, ghost d: Maybe, ghost b: Maybe) returns (ok: bool)
    requires remap == EncodeOption(r) && mode == EncodeOption(m) && latency == EncodeOption(l)
    requires decode == EncodeOption(d) && sandbox == EncodeOption(b)
    ensures ok == VideoConsistent(r, m, l, d, b)
  {
    WordEncoded(m, LIVE);
    if BooleanOf(remap) && !(StringOf(mode) == LIVE && BooleanOf(latency)) {
      return false;
    }
    ok := !(BooleanOf(decode) && !BooleanOf(sandbox));
  }

  method PlayerDepends(decoder: Held, scaled: Held, output: Held, ghost d: Maybe, ghost s: Maybe, ghost o: Maybe)
    returns (ok: bool)
    requires decoder == EncodeOption(d) && scaled == EncodeOption(s) && output == EncodeOption(o)
    requires s.Some? && s.value.Int?
    ensures ok == PlayerConsistent(d, s, o)
  {
    WordEncoded(d, HARDWARE);
    var hardware, scale := StringOf(decoder) == HARDWARE, IntegerOf(scaled);
    if scale != 0 && !hardware {
      return false;
    }
    ok := output.None? || (hardware && scale != 0);
  }

  /** The reader's four dependency checks. */
  method Depends(v: Values<Bytes>, ghost w: Values<Text>, ghost t: Table) returns (ok: bool)
    requires GoodTable(t) && Total(w, t) && v == EncodeValues(w)
    ensures ok == Consistent(w)
  {
    ok := VideoDepends(v[READY_REMAP], v[MODE], v[LOW_LATENCY], v[HW_DECODE], v[SANDBOX],
      w[READY_REMAP], w[MODE], w[LOW_LATENCY], w[HW_DECODE], w[SANDBOX]);
    if ok {
      ok := PlayerDepends(v[DECODER], v[SCALE], v[OUTPUT], w[DECODER], w[SCALE], w[OUTPUT]);
    }
  }

  /** Every layer applied over the native defaults, in order. */
  method ApplyAll(layers: seq<Layer<Bytes>>, native: Values<Bytes>, ghost l: seq<Layer<Text>>, ghost n: Values<Text>)
    returns (values: Values<Bytes>)
    requires |layers| == |l| && forall k :: 0 <= k < |l| ==> layers[k] == EncodeLayer(l[k]) && l[k].Keys <= n.Keys
    requires native == EncodeValues(n)
    ensures values == EncodeValues(OverlayAll(n, l, n))
  {
    values := native;
    ghost var v := n;
    var i := 0;
    assert l[0..] == l;
    while i < |layers|
      invariant 0 <= i <= |layers|
      invariant values == EncodeValues(v)
      invariant OverlayAll(n, l, n) == OverlayAll(v, l[i..], n)
    {
      values := Apply(values, layers[i], native);
      OverlayEncoded(v, l[i], n);
      assert l[i..][1..] == l[i + 1..];
      v := Overlay(v, l[i], n);
      i := i + 1;
    }
    assert l[i..] == [];
  }

  // ---- the native resolver -----------------------------------------------------------

  /** The selectors are names, so their bytes are their characters. */
  ghost predicate GoodSelectors(d: Document<Text>) {
    forall key :: key in d.metadata && key != SCHEMA ==>
      d.metadata[key].Str? && Encode(d.metadata[key].s) == d.metadata[key].s
  }

  lemma SelectorsAreGood(d: Document<Text>, t: Table)
    requires Good(d, t)
    ensures GoodSelectors(d)
  {
    forall key | key in d.metadata && key != SCHEMA
      ensures d.metadata[key].Str? && Encode(d.metadata[key].s) == d.metadata[key].s
    {
      assert Admits(Meta, key, d.metadata[key], t.rules);
      NamesEncoded(d.metadata[key].s);
    }
  }

  lemma KeysDiffer()
    ensures PRESET != SCHEMA && PROFILE != SCHEMA
  {
    assert |PROFILE| == 7 && |SCHEMA| == 6 && PRESET[0] == 112 && SCHEMA[0] == 115;
  }

  /** A selector, the user's before the system's. */
  method Select(system: Layer<Bytes>, user: Layer<Bytes>, key: Text, ghost s: Document<Text>, ghost u: Document<Text>)
    returns (name: Option<Bytes>)
    requires system == EncodeLayer(s.metadata) && user == EncodeLayer(u.metadata) && key != SCHEMA
    requires GoodSelectors(s) && GoodSelectors(u)
    ensures name.None? <==> Selected(s, u, key).None?
    ensures name.Some? ==> Selected(s, u, key).Some? && name.value == Selected(s, u, key).value
  {
    if key in user {
      return Some(user[key].s);
    }
    if key in system {
      return Some(system[key].s);
    }
    name := None;
  }

  /** Layer by layer, the native reader's bytes for Python's layers. */
  ghost predicate SameLayers(layers: Option<seq<Layer<Bytes>>>, l: Option<seq<Layer<Text>>>) {
    && layers.Some? == l.Some?
    && (layers.Some? ==>
      && |layers.value| == |l.value|
      && forall k :: 0 <= k < |l.value| ==> layers.value[k] == EncodeLayer(l.value[k]))
  }

  /** The selected profile's layers, from whichever documents have it. */
  method AddProfile(
    base: seq<Layer<Bytes>>, system: map<Text, Layer<Bytes>>, user: map<Text, Layer<Bytes>>, profile: Option<Text>,
    ghost b: seq<Layer<Text>>, ghost s: Document<Text>, ghost u: Document<Text>)
    returns (layers: Option<seq<Layer<Bytes>>>)
    requires SameLayers(Some(base), Some(b))
    requires system == EncodeDocument(s).profiles && user == EncodeDocument(u).profiles
    ensures SameLayers(layers, WithProfile(b, s, u, profile))
  {
    if profile.None? {
      return Some(base);
    }
    var name := profile.value;
    if name !in system && name !in user {
      return None;
    }
    var above := if name in system then system[name] else map[];
    var top := if name in user then user[name] else map[];
    ProfileEncoded(s, name);
    ProfileEncoded(u, name);
    layers := Some(base + [above, top]);
  }

  lemma ProfileEncoded(d: Document<Text>, name: Text)
    ensures EncodeLayer(ProfileLayer(d, name)) ==
      if name in EncodeDocument(d).profiles then EncodeDocument(d).profiles[name] else map[]
  {
  }

  /** The layers the native reader collects, as pointers into the documents. */
  method Collect(
    system: Document<Bytes>, user: Document<Bytes>, presets: map<Text, Layer<Bytes>>,
    ghost s: Document<Text>, ghost u: Document<Text>, ghost t: Table)
    returns (layers: Option<seq<Layer<Bytes>>>)
    requires system == EncodeDocument(s) && user == EncodeDocument(u)
    requires presets == map name | name in t.presets :: EncodeLayer(t.presets[name])
    requires GoodSelectors(s) && GoodSelectors(u)
    ensures SameLayers(layers, Layers(s, u, t))
  {
    KeysDiffer();
    var chosen := Select(system.metadata, user.metadata, PRESET, s, u);
    var preset: Text := if chosen.Some? then chosen.value else DEFAULT;
    if preset !in presets {
      return None;
    }
    var base := [presets[preset], system.settings, user.settings];
    ghost var b := [t.presets[preset], s.settings, u.settings];
    var picked := Select(system.metadata, user.metadata, PROFILE, s, u);
    var profile: Option<Text> := if picked.Some? then Some(picked.value) else None;
    layers := AddProfile(base, system.profiles, user.profiles, profile, b, s, u);
  }

  /** Resolve: the same values as Python's, or the same refusal. */
  method Resolve(
    system: Document<Bytes>, user: Document<Bytes>, native: Values<Bytes>, presets: map<Text, Layer<Bytes>>,
    ghost s: Document<Text>, ghost u: Document<Text>, ghost t: Table)
    returns (values: Option<Values<Bytes>>)
    requires GoodTable(t) && Good(s, t) && Good(u, t)
    requires system == EncodeDocument(s) && user == EncodeDocument(u) && native == EncodeValues(t.native)
    requires presets == map name | name in t.presets :: EncodeLayer(t.presets[name])
    ensures values.None? <==> Resolved(s, u, t).None?
    ensures values.Some? ==> values.value == EncodeValues(Resolved(s, u, t).value)
  {
    SelectorsAreGood(s, t);
    SelectorsAreGood(u, t);
    var layers := Collect(system, user, presets, s, u, t);
    if layers.None? {
      return None;
    }
    LayersAreGood(s, u, t);
    KeysStay(t.native, Layers(s, u, t).value, t);
    var v := ApplyAll(layers.value, native, Layers(s, u, t).value, t.native);
    var ok := Depends(v, OverlayAll(t.native, Layers(s, u, t).value, t.native), t);
    values := if ok then Some(v) else None;
  }

  // ---- from bytes to values ----------------------------------------------------------

  /** parse_document twice, then resolve. */
  ghost function ResolvedBytes(system: Bytes, user: Bytes, t: Table): Option<Values<Text>>
    requires GoodTable(t)
  {
    var s, u := ParseDocument(system, t.rules), ParseDocument(user, t.rules);
    if s.None? || u.None? then None
    else
      ParsedIsGood(system, t.rules);
      ParsedIsGood(user, t.rules);
      Resolved(s.value, u.value, t)
  }

  lemma ResolvedParsed(system: Bytes, user: Bytes, t: Table)
    requires GoodTable(t) && ParseDocument(system, t.rules).Some? && ParseDocument(user, t.rules).Some?
    ensures var s, u := ParseDocument(system, t.rules).value, ParseDocument(user, t.rules).value;
      Good(s, t) && Good(u, t) && ResolvedBytes(system, user, t) == Resolved(s, u, t)
  {
    ParsedIsGood(system, t.rules);
    ParsedIsGood(user, t.rules);
  }

  /** The native side reads and resolves two files as Python does. */
  method ResolveBytes(
    system: Bytes, user: Bytes, rules: Rules, native: Values<Bytes>, presets: map<Text, Layer<Bytes>>, ghost t: Table)
    returns (values: Option<Values<Bytes>>)
    requires GoodTable(t) && AsciiRules(rules) && rules == t.rules && native == EncodeValues(t.native)
    requires presets == map name | name in t.presets :: EncodeLayer(t.presets[name])
    ensures values.None? <==> ResolvedBytes(system, user, t).None?
    ensures values.Some? ==> values.value == EncodeValues(ResolvedBytes(system, user, t).value)
  {
    var s, p := ParseGood(system, rules);
    var u, q := ParseGood(user, rules);
    if s.None? || u.None? {
      return None;
    }
    values := Resolve(s.value, u.value, native, presets, p, q, t);
  }

  /** One file, and the document Python makes of it. */
  method ParseGood(bytes: Bytes, rules: Rules) returns (doc: Option<Document<Bytes>>, ghost d: Document<Text>)
    requires AsciiRules(rules)
    ensures ParseDocument(bytes, rules) == if doc.None? then None else Some(d)
    ensures doc.Some? ==> GoodDocument(d, rules) && doc.value == EncodeDocument(d)
  {
    doc := Parse(bytes, rules);
    d := Document(map[], map[], map[]);
    if doc.Some? {
      ParsedIsGood(bytes, rules);
      d := ParseDocument(bytes, rules).value;
    }
  }
}
