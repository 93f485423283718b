/**
 * The SPS reader against a complete NAL unit writer: syntax tree to bits, padding to
 * bytes (section 7.3.2.11), emulation prevention (section 7.3.1), and back.
 */
module SpsNal {
  import opened Basics
  import opened BitSyntax
  import opened BitCursor
  import opened Emulation
  import opened SpsSyntax
  import opened SpsReader

  // ---- appending bits to what was written ------------------------------------------

  lemma {:induction false} PutUAppend(n: nat, v: nat, t: Bits, more: Bits)
    requires v < Pow2(n)
    ensures PutU(n, v, t) + more == PutU(n, v, t + more)
  {
    if n > 0 {
      var low := if v >= Pow2(n - 1) then v - Pow2(n - 1) else v;
      PutUAppend(n - 1, low, t, more);
    }
  }

  lemma {:induction false} PutZerosAppend(n: nat, t: Bits, more: Bits)
    ensures PutZeros(n, t) + more == PutZeros(n, t + more)
  {
    if n > 0 {
      PutZerosAppend(n - 1, t, more);
    }
  }

  lemma PutUEAppend(v: nat, t: Bits, more: Bits)
    ensures PutUE(v, t) + more == PutUE(v, t + more)
  {
    var k := Log2(v + 1);
    var u := PutU(k, v + 1 - Pow2(k), t);
    PutUAppend(k, v + 1 - Pow2(k), t, more);
    PutZerosAppend(k, [true] + u, more);
    assert ([true] + u) + more == [true] + (u + more);
  }

  lemma PutSEAppend(v: int, t: Bits, more: Bits)
    ensures PutSE(v, t) + more == PutSE(v, t + more)
  {
    PutUEAppend(if v > 0 then 2 * v - 1 else -2 * v, t, more);
  }

  lemma PutFlagAppend(b: bool, t: Bits, more: Bits)
    ensures PutFlag(b, t) + more == PutFlag(b, t + more)
  {
  }

  lemma {:induction false} PutScalingAppend(last: int, values: seq<int>, stopped: bool, t: Bits, more: Bits)
    ensures PutScaling(last, values, stopped, t) + more == PutScaling(last, values, stopped, t + more)
    decreases |values|
  {
    if values != [] {
      PutSEAppend(Delta(last, values[0]), PutScaling(values[0], values[1..], stopped, t), more);
      PutScalingAppend(values[0], values[1..], stopped, t, more);
    } else if stopped {
      PutSEAppend(Delta(last, 0), t, more);
    }
  }

  lemma {:induction false} PutListsAppend(lists: seq<Option<ScalingList>>, t: Bits, more: Bits)
    ensures PutLists(lists, t) + more == PutLists(lists, t + more)
    decreases |lists|
  {
    if lists != [] {
      PutListsAppend(lists[1..], t, more);
      var rest := PutLists(lists[1..], t);
      if lists[0].Some? {
        var l := lists[0].value;
        PutScalingAppend(8, l.values, l.stopped, rest, more);
        PutFlagAppend(true, PutScaling(8, l.values, l.stopped, rest), more);
      } else {
        PutFlagAppend(false, rest, more);
      }
    }
  }

  lemma PutHighAppend(high: High, t: Bits, more: Bits)
    ensures PutHigh(high, t) + more == PutHigh(high, t + more)
  {
    var t4 := if high.lists.Some? then PutFlag(true, PutLists(high.lists.value, t)) else PutFlag(false, t);
    if high.lists.Some? {
      PutListsAppend(high.lists.value, t, more);
      PutFlagAppend(true, PutLists(high.lists.value, t), more);
    } else {
      PutFlagAppend(false, t, more);
    }
    var t3 := PutFlag(high.bypass, t4);
    PutFlagAppend(high.bypass, t4, more);
    PutUEAppend(0, t3, more);
    PutUEAppend(0, PutUE(0, t3), more);
    PutUEAppend(1, PutUE(0, PutUE(0, t3)), more);
  }

  lemma {:induction false} PutCycleAppend(cycle: seq<int>, t: Bits, more: Bits)
    ensures PutCycle(cycle, t) + more == PutCycle(cycle, t + more)
    decreases |cycle|
  {
    if cycle != [] {
      PutCycleAppend(cycle[1..], t, more);
      PutSEAppend(cycle[0], PutCycle(cycle[1..], t), more);
    }
  }

  lemma PutPocAppend(poc: Poc, t: Bits, more: Bits)
    ensures PutPoc(poc, t) + more == PutPoc(poc, t + more)
  {
    match poc
    case Poc0(lsb) =>
      PutUEAppend(lsb, t, more);
      PutUEAppend(0, PutUE(lsb, t), more);
    case Poc1(alwaysZero, nonRef, topToBottom, cycle) =>
      var t4 := PutCycle(cycle, t);
      var t3 := PutUE(|cycle|, t4);
      var t2 := PutSE(topToBottom, t3);
      var t1 := PutSE(nonRef, t2);
      PutCycleAppend(cycle, t, more);
      PutUEAppend(|cycle|, t4, more);
      PutSEAppend(topToBottom, t3, more);
      PutSEAppend(nonRef, t2, more);
      PutFlagAppend(alwaysZero, t1, more);
      PutUEAppend(1, PutFlag(alwaysZero, t1), more);
    case Poc2 =>
      PutUEAppend(2, t, more);
  }

  lemma PutCropAppend(crop: Option<Crop>, t: Bits, more: Bits)
    ensures PutCrop(crop, t) + more == PutCrop(crop, t + more)
  {
    match crop
    case None => PutFlagAppend(false, t, more);
    case Some(c) =>
      var t3 := PutUE(c.bottom, t);
      var t2 := PutUE(c.top, t3);
      var t1 := PutUE(c.right, t2);
      PutUEAppend(c.bottom, t, more);
      PutUEAppend(c.top, t3, more);
      PutUEAppend(c.right, t2, more);
      PutUEAppend(c.left, t1, more);
      PutFlagAppend(true, PutUE(c.left, t1), more);
  }

  lemma PutModeAppend(mode: FrameMode, t: Bits, more: Bits)
    ensures PutMode(mode, t) + more == PutMode(mode, t + more)
  {
    if mode.FieldsAllowed? {
      PutFlagAppend(mode.adaptive, t, more);
      PutFlagAppend(false, PutFlag(mode.adaptive, t), more);
    } else {
      PutFlagAppend(true, t, more);
    }
  }

  lemma PutGeometryAppend(g: Geometry, t: Bits, more: Bits)
    ensures PutGeometry(g, t) + more == PutGeometry(g, t + more)
  {
    var t6 := PutCrop(g.crop, t);
    var t5 := PutFlag(g.direct8x8, t6);
    var t4 := PutMode(g.mode, t5);
    var t3 := PutUE(g.heightMinus1, t4);
    var t2 := PutUE(g.widthMinus1, t3);
    PutCropAppend(g.crop, t, more);
    PutFlagAppend(g.direct8x8, t6, more);
    PutModeAppend(g.mode, t5, more);
    PutUEAppend(g.heightMinus1, t4, more);
    PutUEAppend(g.widthMinus1, t3, more);
    PutFlagAppend(g.gapsAllowed, t2, more);
    PutUEAppend(g.refFrames, PutFlag(g.gapsAllowed, t2), more);
  }

  lemma PutAspectAppend(aspect: Option<Aspect>, t: Bits, more: Bits)
    requires ValidAspect(aspect)
    ensures PutAspect(aspect, t) + more == PutAspect(aspect, t + more)
  {
    Pow2Values();
    match aspect
    case None => PutFlagAppend(false, t, more);
    case Some(Ratio(idc)) =>
      PutUAppend(8, idc, t, more);
      PutFlagAppend(true, PutU(8, idc, t), more);
    case Some(ExtendedRatio(width, height)) =>
      var t2 := PutU(16, height, t);
      var t1 := PutU(16, width, t2);
      PutUAppend(16, height, t, more);
      PutUAppend(16, width, t2, more);
      PutUAppend(8, 255, t1, more);
      PutFlagAppend(true, PutU(8, 255, t1), more);
  }

  lemma PutSignalAppend(signal: Option<VideoSignal>, t: Bits, more: Bits)
    requires ValidSignal(signal)
    ensures PutSignal(signal, t) + more == PutSignal(signal, t + more)
  {
    Pow2Values();
    match signal
    case None => PutFlagAppend(false, t, more);
    case Some(s) =>
      var t2 := PutColour(s.colour, t);
      if s.colour.Some? {
        PutUAppend(24, s.colour.value, t, more);
        PutFlagAppend(true, PutU(24, s.colour.value, t), more);
      } else {
        PutFlagAppend(false, t, more);
      }
      var t1 := PutFlag(s.fullRange, t2);
      PutFlagAppend(s.fullRange, t2, more);
      PutUAppend(3, s.format, t1, more);
      PutFlagAppend(true, PutU(3, s.format, t1), more);
  }

  lemma PutVuiAppend(vui: Option<Vui>, t: Bits, more: Bits)
    requires ValidVui(vui)
    ensures PutVui(vui, t) + more == PutVui(vui, t + more)
  {
    match vui
    case None => PutFlagAppend(false, t, more);
    case Some(v) =>
      var t2 := PutSignal(v.signal, t);
      var t1 := PutOverscan(v.overscan, t2);
      PutSignalAppend(v.signal, t, more);
      assert t1 + more == PutOverscan(v.overscan, t2 + more);
      PutAspectAppend(v.aspect, t1, more);
      PutFlagAppend(true, PutAspect(v.aspect, t1), more);
  }

  lemma PutSpsAppend(s: Sps, t: Bits, more: Bits)
    requires InScope(s)
    ensures PutSps(s, t) + more == PutSps(s, t + more)
  {
    Pow2Values();
    var t3 := PutVui(s.vui, t);
    var t2 := PutGeometry(s.geometry, t3);
    var t1 := PutPoc(s.poc, t2);
    PutVuiAppend(s.vui, t, more);
    PutGeometryAppend(s.geometry, t3, more);
    PutPocAppend(s.poc, t2, more);
    PutUEAppend(s.frameNumMinus4, t1, more);
    var p := PutProfile(s, t);
    if s.high.Some? {
      PutHighAppend(s.high.value, PutBody(s, t), more);
    }
    assert p + more == PutProfile(s, t + more);
    var h := s.head;
    PutUEAppend(h.id, p, more);
    PutUAppend(8, h.level, PutUE(h.id, p), more);
    PutUAppend(8, h.constraints, PutU(8, h.level, PutUE(h.id, p)), more);
    PutUAppend(8, h.profile, PutU(8, h.constraints, PutU(8, h.level, PutUE(h.id, p))), more);
  }

  // ---- bits to bytes ---------------------------------------------------------------

  /** The number a bit string writes, most significant bit first. */
  function ValueOf(bits: Bits): (v: nat)
    ensures v < Pow2(|bits|)
  {
    if bits == [] then 0 else 2 * ValueOf(bits[..|bits| - 1]) + BitValue(bits[|bits| - 1])
  }

  lemma {:induction false} LastBit(v: Byte, n: nat)
    requires n > 0
    ensures LowBits(v, n) == LowBits(v / 2, n - 1) + [v % 2 == 1]
  {
    if n > 1 {
      LastBit(v, n - 1);
    }
  }

  lemma {:induction false} BitsOfValue(bits: Bits)
    requires ValueOf(bits) < 256
    ensures LowBits(ValueOf(bits), |bits|) == bits
  {
    if bits != [] {
      var front, last := bits[..|bits| - 1], bits[|bits| - 1];
      BitsOfValue(front);
      LastBit(ValueOf(bits), |bits|);
      assert bits == front + [last];
    }
  }

  function ByteOf(bits: Bits): Byte
    requires |bits| == 8
  {
    assert Pow2(8) == 256;
    ValueOf(bits)
  }

  function Pack(bits: Bits): seq<Byte>
    requires |bits| % 8 == 0
  {
    if bits == [] then [] else [ByteOf(bits[..8])] + Pack(bits[8..])
  }

  lemma {:induction false} BitsOfPacked(bits: Bits)
    requires |bits| % 8 == 0
    ensures BytesBits(Pack(bits)) == bits
  {
    if bits != [] {
      BitsOfValue(bits[..8]);
      BitsOfPacked(bits[8..]);
      assert Pack(bits)[1..] == Pack(bits[8..]);
      assert bits == bits[..8] + bits[8..];
    }
  }

  /** rbsp_trailing_bits(): a one, then zeros up to the byte boundary. */
  function TrailingBits(length: nat): (t: Bits)
    ensures (length + |t|) % 8 == 0
  {
    var zeros: nat := (7 - length % 8) % 8;
    [true] + seq(zeros, _ => false)
  }

  function RbspOf(bits: Bits): seq<Byte> {
    Pack(bits + TrailingBits(|bits|))
  }

  // ---- the NAL unit ----------------------------------------------------------------

  /** forbidden_zero_bit 0, a nonzero nal_ref_idc and nal_unit_type 7. */
  ghost predicate SpsHeader(header: Byte) {
    header < 128 && header / 32 % 4 != 0 && header % 32 == 7
  }

  /** An SPS NAL unit: `rest` is whatever the syntax has after the video signal flags. */
  ghost function WriteSpsNal(header: Byte, s: Sps, rest: Bits): seq<Byte>
    requires InScope(s)
  {
    [header] + Escape(RbspOf(PutSps(s, rest)), 0)
  }

  /** An accepted NAL unit is an escaped in-scope SPS, and the facts are those of that SPS. */
  ghost predicate CarriesSps(nal: seq<Byte>, s: Sps, rbsp: seq<Byte>, tail: Bits)
    requires nal != [] && InScope(s)
  {
    nal[1..] == Escape(rbsp, 0) && BytesBits(rbsp) == PutSps(s, tail)
  }

  lemma AcceptedIsWritten(nal: seq<Byte>) returns (s: Sps, rbsp: seq<Byte>, tail: Bits)
    requires SpsOutcome(nal, |nal|).status.RangeOk?
    ensures SpsHeader(nal[0]) && 4 <= |nal| <= SPS_MAX_BYTES
    ensures InScope(s) && CarriesSps(nal, s, rbsp, tail)
    ensures SpsOutcome(nal, |nal|).facts == Facts(s) && Tells(Facts(s), s)
  {
    assert nal[1..|nal|] == nal[1..];
    rbsp := Strip(nal[1..], 0);
    EscapeUndoesStrip(nal[1..], 0);
    var p := GetSps(BytesBits(rbsp));
    s, tail := p.value, p.rest;
    PutGetSps(BytesBits(rbsp));
    FactsTell(s);
  }

  lemma WrittenIsAccepted(nal: seq<Byte>, s: Sps, rbsp: seq<Byte>, tail: Bits)
    requires nal != [] && SpsHeader(nal[0]) && 4 <= |nal| <= SPS_MAX_BYTES
    requires InScope(s) && CarriesSps(nal, s, rbsp, tail)
    ensures SpsOutcome(nal, |nal|) == SpsResult(RangeOk, Facts(s))
  {
    assert nal[1..|nal|] == nal[1..];
    StripUndoesEscape(rbsp, 0);
    GetPutSps(s, tail);
  }

  /** Encode, pad, escape, read: exactly the encoded facts come back. */
  lemma ReadWrittenSpsNal(header: Byte, s: Sps, rest: Bits)
    requires InScope(s) && SpsHeader(header)
    requires 4 <= |WriteSpsNal(header, s, rest)| <= SPS_MAX_BYTES
    ensures var nal := WriteSpsNal(header, s, rest);
      SpsOutcome(nal, |nal|) == SpsResult(RangeOk, Facts(s)) && Tells(SpsOutcome(nal, |nal|).facts, s)
  {
    FactsTell(s);
    var bits := PutSps(s, rest);
    var trailing := TrailingBits(|bits|);
    PutSpsAppend(s, rest, trailing);
    BitsOfPacked(bits + trailing);
    var nal := WriteSpsNal(header, s, rest);
    assert nal[1..] == Escape(RbspOf(bits), 0);
    WrittenIsAccepted(nal, s, RbspOf(bits), rest + trailing);
  }

  /** The reader accepts exactly the escaped in-scope SPS NAL units of 4 to 4096 bytes. */
  lemma AcceptsExactlyWritten(nal: seq<Byte>)
    requires nal != []
    ensures SpsOutcome(nal, |nal|).status.RangeOk? <==>
      (SpsHeader(nal[0]) && 4 <= |nal| <= 4096 &&
       exists s: Sps, rbsp: seq<Byte>, tail: Bits :: InScope(s) && CarriesSps(nal, s, rbsp, tail))
  {
    if SpsOutcome(nal, |nal|).status.RangeOk? {
      var s, rbsp, tail := AcceptedIsWritten(nal);
    }
    if SpsHeader(nal[0]) && 4 <= |nal| <= SPS_MAX_BYTES {
      forall s: Sps, rbsp: seq<Byte>, tail: Bits | InScope(s) && CarriesSps(nal, s, rbsp, tail)
        ensures SpsOutcome(nal, |nal|).status.RangeOk?
      {
        WrittenIsAccepted(nal, s, rbsp, tail);
      }
    }
  }

  // ---- what is left unsupported ------------------------------------------------------

  /** A chroma format other than 4:2:0, or a bit depth other than 8. */
  ghost predicate HighOutOfScope(bits: Bits) {
    || (exists chroma: nat, t: Bits :: chroma != 1 && chroma <= UE_LIMIT && bits == PutUE(chroma, t))
    || (exists luma: nat, t: Bits :: luma != 0 && luma <= UE_LIMIT && bits == PutUE(1, PutUE(luma, t)))
    || (exists chroma: nat, t: Bits :: chroma != 0 && chroma <= UE_LIMIT && bits == PutUE(1, PutUE(0, PutUE(chroma, t))))
  }

  lemma UnsupportedHigh(bits: Bits)
    requires GetHigh(bits).Unsupported?
    ensures HighOutOfScope(bits)
  {
    PutGetUE(bits);
    var b1 := GetUE(bits).rest;
    if GetUE(bits).value == 1 {
      PutGetUE(b1);
      if GetUE(b1).value == 0 {
        PutGetUE(GetUE(b1).rest);
      }
    }
  }

  lemma HighUnsupported(bits: Bits)
    requires HighOutOfScope(bits)
    ensures GetHigh(bits).Unsupported?
  {
    if chroma: nat, t: Bits :| chroma != 1 && chroma <= UE_LIMIT && bits == PutUE(chroma, t) {
      GetPutUE(chroma, t);
    } else if luma: nat, t: Bits :| luma != 0 && luma <= UE_LIMIT && bits == PutUE(1, PutUE(luma, t)) {
      GetPutUE(1, PutUE(luma, t));
      GetPutUE(luma, t);
    } else {
      var v: nat, t: Bits :| v != 0 && v <= UE_LIMIT && bits == PutUE(1, PutUE(0, PutUE(v, t)));
      GetPutUE(1, PutUE(0, PutUE(v, t)));
      GetPutUE(0, PutUE(v, t));
      GetPutUE(v, t);
    }
  }

  /** Whatever its profile, the bits of an SPS start with these. */
  ghost predicate HeadOutOfScope(bits: Bits, h: Head, rest: Bits) {
    && ValidHead(h) && bits == PutHead(h, rest)
    && (h.profile !in {66, 77, 100} || (h.profile == 100 && HighOutOfScope(rest)))
  }

  lemma GetSpsUnsupportedIff(bits: Bits)
    ensures GetSps(bits).Unsupported? <==> exists h, rest :: HeadOutOfScope(bits, h, rest)
  {
    if GetSps(bits).Unsupported? {
      PutGetHead(bits);
      var h, rest := GetHead(bits).value, GetHead(bits).rest;
      if h.profile == 100 {
        UnsupportedHigh(rest);
      }
      assert HeadOutOfScope(bits, h, rest);
    }
    forall h, rest | HeadOutOfScope(bits, h, rest) ensures GetSps(bits).Unsupported? {
      GetPutHead(h, rest);
      if h.profile == 100 {
        HighUnsupported(rest);
      }
    }
  }

  /** The reader says unsupported exactly of well-framed SPS units of another profile, format or depth. */
  lemma UnsupportedIffOutOfScope(nal: seq<Byte>)
    requires nal != []
    ensures SpsOutcome(nal, |nal|).status.RangeUnsupported? <==>
      (SpsHeader(nal[0]) && 4 <= |nal| <= 4096 && WellEscaped(nal[1..], 0) &&
       exists h, rest :: HeadOutOfScope(PayloadBits(nal, 1, |nal|, 0), h, rest))
  {
    assert nal[1..|nal|] == nal[1..];
    GetSpsUnsupportedIff(PayloadBits(nal, 1, |nal|, 0));
  }
}
