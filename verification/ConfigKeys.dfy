/** The canonical keys: the launcher's rules and native values are those of the schema. */
module ConfigKeys {
  import opened Basics
  import opened ConfigUtf8
  import opened ConfigJsonWriter
  import opened ConfigDocument
  import opened ConfigResolve
  import opened ConfigSchema
  import L = ConfigLaunch

  function KeyText(k: L.Key): Text {
    match k
    case RxPoolCount => Chars("libcrystalhd.rx_pool_count")
    case H264Mode => Chars("vaapi.h264.mode")
    case LowLatency => Chars("vaapi.h264.low_latency")
    case ReadyRemap => Chars("vaapi.h264.ready_remap")
    case ReadyPolicy => Chars("vaapi.h264.ready_policy")
    case ReadyDelay => Chars("vaapi.h264.ready_delay_us")
    case I915Wc => Chars("vaapi.i915_wc")
    case Debug => Chars("vaapi.debug")
    case Trace => Chars("vaapi.trace")
    case ChromiumExecutable => Chars("chromium.executable")
    case DrmDevice => Chars("chromium.drm_device")
    case PasswordStore => Chars("chromium.password_store")
    case ProfileDir => Chars("chromium.profile_dir")
    case NativeGl => Chars("chromium.native_gl")
    case HwDecode => Chars("chromium.experimental_hw_decode")
    case DisableGpuSandbox => Chars("chromium.disable_gpu_sandbox")
    case H264PolicyAck => Chars("chromium.h264_policy_ack")
    case PlayerPython => Chars("player.python")
    case ScaleWidth => Chars("gstreamer.crystalhddec.scale_width")
    case PlayerDecoder => Chars("player.decoder")
    case SoftwareOutputSize => Chars("player.software_output_size")
  }

  /** A schema's entry for a key is the launcher's. */
  ghost predicate SameEntry(k: L.Key, t: Table) {
    && KeyText(k) in t.rules && t.rules[KeyText(k)] == L.RuleOf(k)
    && KeyText(k) in t.native && t.native[KeyText(k)] == L.Written(L.Native(k))
  }

  lemma ExecutableEntry()
    ensures SameEntry(L.ChromiumExecutable, MakeTable())
  {
  }

  lemma DrmEntry()
    ensures SameEntry(L.DrmDevice, MakeTable())
  {
    assert Chars("chromium.drm_device")[9] == 100 && Chars("chromium.executable")[9] == 101;
  }

  lemma ProfileDirEntry()
    ensures SameEntry(L.ProfileDir, MakeTable())
  {
  }

  lemma NativeGlEntry()
    ensures SameEntry(L.NativeGl, MakeTable())
  {
  }

  lemma HwDecodeEntry()
    ensures SameEntry(L.HwDecode, MakeTable())
  {
  }

  lemma SandboxEntry()
    ensures SameEntry(L.DisableGpuSandbox, MakeTable())
  {
  }

  lemma PolicyEntry()
    ensures SameEntry(L.H264PolicyAck, MakeTable())
  {
  }

  lemma RxPoolEntry()
    ensures SameEntry(L.RxPoolCount, MakeTable())
  {
  }

  lemma ScaleEntry()
    ensures SameEntry(L.ScaleWidth, MakeTable())
  {
  }

  lemma DecoderEntry()
    ensures SameEntry(L.PlayerDecoder, MakeTable())
  {
  }

  lemma OutputEntry()
    ensures SameEntry(L.SoftwareOutputSize, MakeTable())
  {
  }

  lemma PythonEntry()
    ensures SameEntry(L.PlayerPython, MakeTable())
  {
    assert Chars("player.python")[0] == 112 && Chars("vaapi.i915_wc")[0] == 118;
  }

  lemma PasswordEntry()
    ensures SameEntry(L.PasswordStore, MakeTable())
  {
    assert Chars("chromium.password_store")[0] == 99 && Chars("vaapi.h264.ready_policy")[0] == 118;
  }

  lemma VideoEntry()
    ensures SameEntry(L.H264Mode, MakeTable())
    ensures SameEntry(L.LowLatency, MakeTable())
    ensures SameEntry(L.ReadyRemap, MakeTable())
  {
    assert Chars("vaapi.h264.low_latency")[11] == 108 && Chars("vaapi.h264.ready_remap")[11] == 114;
  }

  lemma ReadyEntry()
    ensures SameEntry(L.ReadyPolicy, MakeTable())
    ensures SameEntry(L.ReadyDelay, MakeTable())
  {
    assert Chars("chromium.password_store")[0] == 99 && Chars("vaapi.h264.ready_policy")[0] == 118;
  }

  lemma WcEntry()
    ensures SameEntry(L.I915Wc, MakeTable())
  {
    assert Chars("player.python")[0] == 112 && Chars("vaapi.i915_wc")[0] == 118;
  }

  lemma TraceEntry()
    ensures SameEntry(L.Debug, MakeTable())
    ensures SameEntry(L.Trace, MakeTable())
  {
    assert Chars("vaapi.debug")[6] == 100 && Chars("vaapi.trace")[6] == 116;
  }

  lemma EveryEntry(t: Table)
    requires SameEntry(L.ChromiumExecutable, t) && SameEntry(L.DrmDevice, t) && SameEntry(L.ProfileDir, t)
    requires SameEntry(L.NativeGl, t) && SameEntry(L.HwDecode, t) && SameEntry(L.DisableGpuSandbox, t)
    requires SameEntry(L.H264PolicyAck, t) && SameEntry(L.RxPoolCount, t) && SameEntry(L.ScaleWidth, t)
    requires SameEntry(L.PlayerDecoder, t) && SameEntry(L.SoftwareOutputSize, t) && SameEntry(L.PlayerPython, t)
    requires SameEntry(L.PasswordStore, t) && SameEntry(L.H264Mode, t) && SameEntry(L.LowLatency, t)
    requires SameEntry(L.ReadyRemap, t) && SameEntry(L.ReadyPolicy, t) && SameEntry(L.ReadyDelay, t)
    requires SameEntry(L.I915Wc, t) && SameEntry(L.Debug, t) && SameEntry(L.Trace, t)
    ensures forall k :: SameEntry(k, t)
  {
    forall k ensures SameEntry(k, t) {
      match k
      case RxPoolCount =>
      case _ =>
    }
  }

  /** The launcher's rules and native values are the schema's. */
  lemma SchemaEntries()
    ensures forall k :: SameEntry(k, MakeTable())
  {
    ExecutableEntry();
    DrmEntry();
    ProfileDirEntry();
    NativeGlEntry();
    HwDecodeEntry();
    SandboxEntry();
    PolicyEntry();
    RxPoolEntry();
    ScaleEntry();
    DecoderEntry();
    OutputEntry();
    PythonEntry();
    PasswordEntry();
    VideoEntry();
    ReadyEntry();
    WcEntry();
    TraceEntry();
    EveryEntry(MakeTable());
  }

  // ---- what the texts of variables mean ----------------------------------------------

  /** A value's own text: a word as it is, a number in decimal, true as 1. */
  function TextOf(v: L.Setting): Option<Text> {
    match v
    case Word(s) => Some(s)
    case Number(n) => Some(Decimal(n))
    case Flag(b) => if b then Some(Chars("1")) else None
    case _ => None
  }

  /** The text is read as the value that it is the text of, and is invalid if there is none. */
  ghost predicate ReadByText(k: L.Key, raw: Text) {
    && (forall v :: L.Accepted(k, v) && TextOf(v) == Some(raw) ==> L.Adapt(k, raw) == v)
    && ((forall v :: L.Accepted(k, v) ==> TextOf(v) != Some(raw)) ==>
          L.Adapt(k, raw) == L.InvalidNative(raw, L.Native(k)))
  }

  /** Words and numbers of a closed list are read from their own text only. */
  lemma ListedTextsAreRead(k: L.Key, raw: Text)
    requires k in {L.RxPoolCount, L.ReadyPolicy, L.ReadyDelay}
    ensures ReadByText(k, raw)
  {
    match k
    case RxPoolCount => PoolTexts(raw);
    case ReadyPolicy => PolicyTexts(raw);
    case ReadyDelay => DelayTexts(raw);
  }

  lemma PoolTexts(raw: Text)
    ensures ReadByText(L.RxPoolCount, raw)
  {
    assert Chars("8") == Decimal(8) && Chars("16") == Decimal(16);
    assert L.Accepted(L.RxPoolCount, L.Number(8)) && L.Accepted(L.RxPoolCount, L.Number(16));
    forall v | L.Accepted(L.RxPoolCount, v) ensures v in {L.Number(8), L.Number(16)} {
    }
  }

  lemma PolicyTexts(raw: Text)
    ensures ReadByText(L.ReadyPolicy, raw)
  {
    assert L.Accepted(L.ReadyPolicy, L.Word(Chars("previous"))) && L.Accepted(L.ReadyPolicy, L.Word(Chars("latest")));
    forall v | L.Accepted(L.ReadyPolicy, v) ensures v in {L.Word(Chars("previous")), L.Word(Chars("latest"))} {
    }
  }

  lemma OneMoreDigit(n: nat, d: nat)
    requires 0 < n && d < 10
    ensures Decimal(n * 10 + d) == Decimal(n) + [48 + d]
  {
    assert (n * 10 + d) / 10 == n && (n * 10 + d) % 10 == d;
  }

  lemma FiveDigits(n: nat, a: nat, b: nat, c: nat, d: nat, e: nat)
    requires 0 < a < 10 && b < 10 && c < 10 && d < 10 && e < 10 && n == (((a * 10 + b) * 10 + c) * 10 + d) * 10 + e
    ensures Decimal(n) == [48 + a, 48 + b, 48 + c, 48 + d, 48 + e]
  {
    OneMoreDigit(a, b);
    OneMoreDigit(a * 10 + b, c);
    OneMoreDigit((a * 10 + b) * 10 + c, d);
    OneMoreDigit(((a * 10 + b) * 10 + c) * 10 + d, e);
  }

  lemma DelaysAccepted(v: L.Setting)
    ensures L.Accepted(L.ReadyDelay, v) <==> v in {L.Number(0), L.Number(16667), L.Number(33333), L.Number(50000)}
  {
  }

  lemma DelaysInDecimal()
    ensures Chars("0") == Decimal(0) && Chars("16667") == Decimal(16667)
    ensures Chars("33333") == Decimal(33333) && Chars("50000") == Decimal(50000)
    ensures |Decimal(0)| == 1 && Decimal(16667)[0] == 49 && Decimal(33333)[0] == 51 && Decimal(50000)[0] == 53
  {
    FiveDigits(16667, 1, 6, 6, 6, 7);
    FiveDigits(33333, 3, 3, 3, 3, 3);
    FiveDigits(50000, 5, 0, 0, 0, 0);
  }

  lemma DelayTexts(raw: Text)
    ensures ReadByText(L.ReadyDelay, raw)
  {
    DelaysInDecimal();
    DelayIsRead(raw);
    forall v | L.Accepted(L.ReadyDelay, v) && TextOf(v) == Some(raw) ensures L.Adapt(L.ReadyDelay, raw) == v {
      DelaysAccepted(v);
    }
    DelaysAccepted(L.Number(0));
    DelaysAccepted(L.Number(16667));
    DelaysAccepted(L.Number(33333));
    DelaysAccepted(L.Number(50000));
  }

  lemma DelayIsRead(raw: Text)
    ensures L.Adapt(L.ReadyDelay, raw) ==
      if raw == Chars("0") then L.Number(0) else if raw == Chars("16667") then L.Number(16667)
      else if raw == Chars("33333") then L.Number(33333) else if raw == Chars("50000") then L.Number(50000)
      else L.InvalidNative(raw, L.Native(L.ReadyDelay))
  {
  }

  /** A switch is on exactly for the text 1; the debug variable switches on by being there. */
  lemma SwitchesAreRead(k: L.Key, raw: Text)
    requires L.RuleOf(k) == BooleanRule
    ensures L.Adapt(k, raw) == L.Flag(raw == ['1' as int] || k == L.Debug)
  {
    assert Chars("1") == [49];
  }

  /** The mode variable says live for 1 and strict for anything else. */
  lemma ModeIsRead(raw: Text)
    ensures L.Adapt(L.H264Mode, raw) == L.Word(if raw == ['1' as int] then Chars("live") else Chars("strict"))
  {
    assert Chars("1") == [49];
  }

  /** Any other text is the value itself, except that an empty path is none. */
  lemma FreeTextsAreRead(k: L.Key, raw: Text)
    requires L.RuleOf(k) in {AnyString, NonemptyString}
    ensures L.Adapt(k, raw) == if raw == [] && k != L.PasswordStore then L.Native(k) else L.Word(raw)
  {
  }
}
