/** The rules, native values and presets (include/crystalhd-config-schema.h), as both sides are given them. */
module ConfigSchema {
  import opened Basics
  import opened ConfigUtf8
  import opened ConfigJson
  import opened ConfigDocument
  import ConfigReader
  import opened ConfigResolve

  const MODES: seq<Text> := [Chars("bounded"), Chars("live"), Chars("strict")]
  const DECODERS: seq<Text> := [Chars("hardware"), Chars("software")]
  const POLICIES: seq<Text> := [Chars("latest"), Chars("previous")]

  function MakeRules(): Rules {
    map[
      Chars("chromium.disable_gpu_sandbox") := BooleanRule,
      Chars("chromium.drm_device") := NonemptyString,
      Chars("chromium.executable") := NonemptyString,
      Chars("chromium.experimental_hw_decode") := BooleanRule,
      Chars("chromium.h264_policy_ack") := BooleanRule,
      Chars("chromium.native_gl") := BooleanRule,
      Chars("chromium.password_store") := AnyString,
      Chars("chromium.profile_dir") := NonemptyString,
      Chars("gstreamer.crystalhddec.scale_width") := ScaleWidth,
      Chars("libcrystalhd.rx_pool_count") := IntegerEnum([8, 16]),
      Chars("player.decoder") := StringEnum(DECODERS),
      Chars("player.python") := NonemptyString,
      Chars("player.software_output_size") := OutputSizeRule,
      Chars("vaapi.debug") := BooleanRule,
      Chars("vaapi.h264.low_latency") := BooleanRule,
      Chars("vaapi.h264.mode") := StringEnum(MODES),
      Chars("vaapi.h264.ready_delay_us") := IntegerEnum([0, 16667, 33333, 50000]),
      Chars("vaapi.h264.ready_policy") := StringEnum(POLICIES),
      Chars("vaapi.h264.ready_remap") := BooleanRule,
      Chars("vaapi.i915_wc") := BooleanRule,
      Chars("vaapi.trace") := BooleanRule
    ]
  }

  lemma WordsAreAscii(s: string)
    requires forall k :: 0 <= k < |s| ==> s[k] as int < 128
    ensures Ascii(Chars(s))
  {
  }

  lemma RulesAreAscii()
    ensures AsciiRules(MakeRules())
  {
    WordsAreAscii("bounded");
    WordsAreAscii("live");
    WordsAreAscii("strict");
    WordsAreAscii("hardware");
    WordsAreAscii("software");
    WordsAreAscii("latest");
    WordsAreAscii("previous");
  }

  /** Over the real table, both readers agree on every byte string. */
  method ReadConfiguration(bytes: Bytes) returns (doc: Option<Document<Bytes>>)
    ensures ConfigReader.SameOutcome(doc, ParseDocument(bytes, MakeRules()))
  {
    RulesAreAscii();
    doc := ConfigReader.Parse(bytes, MakeRules());
  }

  // ---- native values and presets -----------------------------------------------------

  function Word(s: string): Option<Value<Text>> { Some(Str(Chars(s))) }

  function MakeNative(): Values<Text> {
    map[
      Chars("chromium.disable_gpu_sandbox") := Some(Bool(false)),
      Chars("chromium.drm_device") := Word("/dev/dri/renderD128"),
      Chars("chromium.executable") := None,
      Chars("chromium.experimental_hw_decode") := Some(Bool(false)),
      Chars("chromium.h264_policy_ack") := Some(Bool(false)),
      Chars("chromium.native_gl") := Some(Bool(false)),
      Chars("chromium.password_store") := Word(""),
      Chars("chromium.profile_dir") := None,
      Chars("gstreamer.crystalhddec.scale_width") := Some(Int(0)),
      Chars("libcrystalhd.rx_pool_count") := Some(Int(16)),
      Chars("player.decoder") := Word("hardware"),
      Chars("player.python") := Word("/usr/bin/python3"),
      Chars("player.software_output_size") := None,
      Chars("vaapi.debug") := Some(Bool(false)),
      Chars("vaapi.h264.low_latency") := Some(Bool(false)),
      Chars("vaapi.h264.mode") := Word("bounded"),
      Chars("vaapi.h264.ready_delay_us") := Some(Int(0)),
      Chars("vaapi.h264.ready_policy") := Word("previous"),
      Chars("vaapi.h264.ready_remap") := Some(Bool(false)),
      Chars("vaapi.i915_wc") := Some(Bool(false)),
      Chars("vaapi.trace") := Some(Bool(false))
    ]
  }

  const RX_POOL_COUNT := Chars("libcrystalhd.rx_pool_count")

  const STREAMING: Layer<Text> :=
    map[LOW_LATENCY := Bool(true), MODE := Str(Chars("live")), READY_REMAP := Bool(false)]

  function MakePresets(): map<Text, Layer<Text>> {
    map[
      Chars("default") := map[],
      Chars("quality") := map[SCALE := Int(0)],
      Chars("low-memory") := map[RX_POOL_COUNT := Int(8)],
      Chars("streaming") := STREAMING
    ]
  }

  function MakeTable(): Table { Table(MakeRules(), MakeNative(), MakePresets()) }

  /** The schema's tables are ones the resolvers agree over. */
  lemma SchemaIsGood()
    ensures GoodTable(MakeTable())
  {
    KeysMatch();
    PresetNames();
    PresetLayers();
  }

  lemma KeysMatch()
    ensures MakeNative().Keys == MakeRules().Keys
    ensures MakeRules()[SCALE] == ScaleWidth && MakeNative()[SCALE] == Some(Int(0))
  {
  }

  lemma PresetNames()
    ensures forall name :: name in MakePresets() ==> Ascii(name)
  {
    WordsAreAscii("default");
    WordsAreAscii("quality");
    WordsAreAscii("low-memory");
    WordsAreAscii("streaming");
  }

  lemma KeyIsName(s: string)
    requires s != "" && 'a' <= s[0] <= 'z'
    requires forall k :: 1 <= k < |s| ==> 'a' <= s[k] <= 'z' || '0' <= s[k] <= '9' || s[k] == '.' || s[k] == '_'
    ensures KeyName(Chars(s))
  {
  }

  lemma PresetRules()
    ensures RX_POOL_COUNT in MakeRules() && MakeRules()[RX_POOL_COUNT] == IntegerEnum([8, 16])
    ensures LOW_LATENCY in MakeRules() && MakeRules()[LOW_LATENCY] == BooleanRule
    ensures MODE in MakeRules() && MakeRules()[MODE] == StringEnum(MODES)
    ensures READY_REMAP in MakeRules() && MakeRules()[READY_REMAP] == BooleanRule
  {
    assert LOW_LATENCY[11] == 108 && READY_REMAP[11] == 114;
  }

  lemma StreamingIsGood(rules: Rules)
    requires LOW_LATENCY in rules && rules[LOW_LATENCY] == BooleanRule
    requires MODE in rules && rules[MODE] == StringEnum(MODES)
    requires READY_REMAP in rules && rules[READY_REMAP] == BooleanRule
    ensures GoodLayer(Settings, STREAMING, rules)
  {
    KeyIsName("vaapi.h264.low_latency");
    KeyIsName("vaapi.h264.mode");
    KeyIsName("vaapi.h264.ready_remap");
    assert MODES[1] == Chars("live");
  }

  lemma OneNumberIsGood(rules: Rules, key: Text, n: nat)
    requires KeyName(key) && key in rules && Accepts(rules[key], Int(n)) && n < 10
    ensures GoodLayer(Settings, map[key := Int(n)], rules)
  {
    assert PowerOfTen(1) == 10;
    PowersGrow(1, MAXIMUM_DIGITS);
  }

  lemma PresetLayers()
    ensures forall name :: name in MakePresets() ==> GoodLayer(Settings, MakePresets()[name], MakeRules())
  {
    KeysMatch();
    PresetRules();
    LayersAreGoodUnder(MakeRules(), MakePresets());
  }

  lemma LayersAreGoodUnder(rules: Rules, presets: map<Text, Layer<Text>>)
    requires SCALE in rules && rules[SCALE] == ScaleWidth
    requires RX_POOL_COUNT in rules && rules[RX_POOL_COUNT] == IntegerEnum([8, 16])
    requires LOW_LATENCY in rules && rules[LOW_LATENCY] == BooleanRule
    requires MODE in rules && rules[MODE] == StringEnum(MODES)
    requires READY_REMAP in rules && rules[READY_REMAP] == BooleanRule
    requires presets.Values <= {map[], map[SCALE := Int(0)], map[RX_POOL_COUNT := Int(8)], STREAMING}
    ensures forall name :: name in presets ==> GoodLayer(Settings, presets[name], rules)
  {
    KeyIsName("gstreamer.crystalhddec.scale_width");
    KeyIsName("libcrystalhd.rx_pool_count");
    OneNumberIsGood(rules, SCALE, 0);
    OneNumberIsGood(rules, RX_POOL_COUNT, 8);
    StreamingIsGood(rules);
    AnyOfIsGood(rules, presets, {map[], map[SCALE := Int(0)], map[RX_POOL_COUNT := Int(8)], STREAMING});
  }

  lemma AnyOfIsGood(rules: Rules, presets: map<Text, Layer<Text>>, layers: set<Layer<Text>>)
    requires presets.Values <= layers && forall l :: l in layers ==> GoodLayer(Settings, l, rules)
    ensures forall name :: name in presets ==> GoodLayer(Settings, presets[name], rules)
  {
    forall name | name in presets ensures GoodLayer(Settings, presets[name], rules) {
      assert presets[name] in presets.Values;
    }
  }

  // ---- from bytes to values ----------------------------------------------------------

  /** Over the schema, the native side makes of two files what Python makes of them, refusals included. */
  method ResolveConfiguration(system: Bytes, user: Bytes) returns (values: Option<Values<Bytes>>)
    ensures GoodTable(MakeTable())
    ensures values.None? <==> ResolvedBytes(system, user, MakeTable()).None?
    ensures values.Some? ==> values.value == EncodeValues(ResolvedBytes(system, user, MakeTable()).value)
  {
    var t := MakeTable();
    SchemaIsGood();
    RulesAreAscii();
    var native := EncodeValues(t.native);
    var presets := map name | name in t.presets :: ConfigReader.EncodeLayer(t.presets[name]);
    values := ResolveBytes(system, user, t.rules, native, presets, t);
  }
}
