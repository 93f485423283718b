/**
 * The sequence parameter set prefix (ITU-T H.264, sections 7.3.2.1.1, 7.3.2.1.1.1 and
 * E.1.1) as a syntax tree with a reader and a writer. The tree holds exactly what the
 * range reader accepts; Facts is what it reports.
 */
module SpsSyntax {
  import opened Basics
  import opened BitSyntax

  /** A coded scaling list: the values up to its end, or up to an explicit early stop. */
  datatype ScalingList = ScalingList(values: seq<int>, stopped: bool)

  datatype High = High(bypass: bool, lists: Option<seq<Option<ScalingList>>>)

  datatype Poc =
    | Poc0(lsbMinus4: nat)
    | Poc1(alwaysZero: bool, nonRef: int, topToBottom: int, cycle: seq<int>)
    | Poc2

  datatype FrameMode = FramesOnly | FieldsAllowed(adaptive: bool)

  datatype Crop = Crop(left: nat, right: nat, top: nat, bottom: nat)

  datatype Geometry = Geometry(
    refFrames: nat, gapsAllowed: bool, widthMinus1: nat, heightMinus1: nat,
    mode: FrameMode, direct8x8: bool, crop: Option<Crop>)

  datatype Aspect = Ratio(idc: nat) | ExtendedRatio(width: nat, height: nat)

  datatype VideoSignal = VideoSignal(format: nat, fullRange: bool, colour: Option<nat>)

  datatype Vui = Vui(aspect: Option<Aspect>, overscan: Option<bool>, signal: Option<VideoSignal>)

  datatype Head = Head(profile: nat, constraints: nat, level: nat, id: nat)

  datatype Sps = Sps(
    head: Head, high: Option<High>, frameNumMinus4: nat, poc: Poc, geometry: Geometry, vui: Option<Vui>)

  /** struct chd_h264_sps_range */
  datatype SpsRange = SpsRange(
    spsId: nat, vuiPresent: bool, videoSignalPresent: bool, rangePresent: bool, fullRange: bool,
    frameNumBits: nat, pocType: nat, pocLsbBits: nat, picSizeInMapUnits: nat,
    frameMbsOnly: bool, deltaPicOrderAlwaysZero: bool)

  const NO_RANGE := SpsRange(0, false, false, false, false, 0, 0, 0, 0, false, false)

  /** Picture size, kept at zero when it does not fit 32 bits. */
  function MapUnits(widthMinus1: nat, heightMinus1: nat): nat {
    var units := (widthMinus1 + 1) * (heightMinus1 + 1);
    if units <= U32_MAX then units else 0
  }

  function SignalOf(vui: Option<Vui>): Option<VideoSignal> {
    if vui.Some? then vui.value.signal else None
  }

  function Facts(s: Sps): SpsRange {
    var signal := SignalOf(s.vui);
    SpsRange(
      s.head.id, s.vui.Some?, signal.Some?, signal.Some?, signal.Some? && signal.value.fullRange,
      s.frameNumMinus4 + 4,
      match s.poc case Poc0(_) => 0 case Poc1(_, _, _, _) => 1 case Poc2 => 2,
      if s.poc.Poc0? then s.poc.lsbMinus4 + 4 else 0,
      MapUnits(s.geometry.widthMinus1, s.geometry.heightMinus1),
      s.geometry.mode.FramesOnly?,
      s.poc.Poc1? && s.poc.alwaysZero)
  }

  // ---- what the facts say of the syntax ----------------------------------------------

  /** The map unit in column x and row y, counted in raster order. */
  ghost predicate MapUnitAt(g: Geometry, m: nat, x: nat, y: nat) {
    x <= g.widthMinus1 && y <= g.heightMinus1 && m == y * (g.widthMinus1 + 1) + x
  }

  ghost predicate IsMapUnit(g: Geometry, m: nat) { exists x, y :: MapUnitAt(g, m, x, y) }

  /** The map units are those below `size`; a frame with more than 32 bits can count has size 0. */
  ghost predicate CountsMapUnits(size: nat, g: Geometry) {
    && (size == 0 <==> (g.widthMinus1 + 1) * (g.heightMinus1 + 1) > 0xFFFF_FFFF)
    && (size != 0 ==> forall m: nat :: IsMapUnit(g, m) <==> m < size)
  }

  /** A report, read field by field against the syntax elements of sections 7.4.2.1.1 and E.2.1. */
  ghost predicate Tells(r: SpsRange, s: Sps) {
    && r.spsId == s.head.id && r.frameNumBits == s.frameNumMinus4 + 4
    && TellsVui(r, s.vui) && TellsPoc(r, s.poc)
    && CountsMapUnits(r.picSizeInMapUnits, s.geometry)
    && (r.frameMbsOnly <==> s.geometry.mode == FramesOnly)
  }

  ghost predicate TellsVui(r: SpsRange, vui: Option<Vui>) {
    match vui
    case None => !r.vuiPresent && !r.videoSignalPresent && !r.rangePresent && !r.fullRange
    case Some(Vui(_, _, None)) => r.vuiPresent && !r.videoSignalPresent && !r.rangePresent && !r.fullRange
    case Some(Vui(_, _, Some(VideoSignal(_, full, _)))) =>
      r.vuiPresent && r.videoSignalPresent && r.rangePresent && r.fullRange == full
  }

  ghost predicate TellsPoc(r: SpsRange, poc: Poc) {
    match poc
    case Poc0(lsbMinus4) => r.pocType == 0 && r.pocLsbBits == lsbMinus4 + 4 && !r.deltaPicOrderAlwaysZero
    case Poc1(alwaysZero, _, _, _) => r.pocType == 1 && r.deltaPicOrderAlwaysZero == alwaysZero
    case Poc2 => r.pocType == 2 && !r.deltaPicOrderAlwaysZero
  }

  lemma RasterBound(x: nat, y: nat, width: nat, height: nat)
    requires x < width && y < height
    ensures y * width + x < width * height
  {
    var below := height - 1 - y;
    calc {
      width * height;
      == width * (y + 1 + below);
      == width * y + width + width * below;
      >= width * y + width;
    }
  }

  lemma RasterSplit(m: nat, width: nat, height: nat)
    requires width > 0 && m < width * height
    ensures m == m / width * width + m % width && m / width < height
  {
    assert (height - m / width) * width > 0;
  }

  lemma MapUnitsCount(g: Geometry)
    ensures CountsMapUnits(MapUnits(g.widthMinus1, g.heightMinus1), g)
  {
    var width, height := g.widthMinus1 + 1, g.heightMinus1 + 1;
    assert width * height > 0;
    if width * height <= U32_MAX {
      forall m: nat ensures IsMapUnit(g, m) <==> m < width * height {
        InRaster(g, m, width, height);
      }
    }
  }

  lemma InRaster(g: Geometry, m: nat, width: nat, height: nat)
    requires width == g.widthMinus1 + 1 && height == g.heightMinus1 + 1
    ensures IsMapUnit(g, m) <==> m < width * height
  {
    if m < width * height {
      RasterSplit(m, width, height);
      assert MapUnitAt(g, m, m % width, m / width);
    }
    forall x: nat, y: nat | MapUnitAt(g, m, x, y) ensures m < width * height {
      RasterBound(x, y, width, height);
    }
  }

  /** What is reported of an SPS is what its syntax elements say. */
  lemma FactsTell(s: Sps)
    ensures Tells(Facts(s), s)
  {
    MapUnitsCount(s.geometry);
  }

  // ---- scaling lists ---------------------------------------------------------------

  ghost predicate ValidScaling(n: nat, list: ScalingList) {
    && (if list.stopped then |list.values| < n else |list.values| == n)
    && forall i :: 0 <= i < |list.values| ==> 0 < list.values[i] < 256
  }

  function NextScale(last: int, delta: int): int { (last + delta + 256) % 256 }

  ghost function Delta(last: int, next: int): int { (next - last + 128) % 256 - 128 }

  lemma DeltaCodesNext(last: int, next: int)
    requires 0 <= next < 256
    ensures -128 <= Delta(last, next) <= 127 && NextScale(last, Delta(last, next)) == next
  {
  }

  lemma NextDecodesDelta(last: int, delta: int)
    requires -128 <= delta <= 127
    ensures 0 <= NextScale(last, delta) < 256 && Delta(last, NextScale(last, delta)) == delta
  {
  }

  function GetScaling(n: nat, last: int, bits: Bits): (p: Parsed<ScalingList>)
    ensures !p.Unsupported?
  {
    if n == 0 then Got(ScalingList([], false), bits)
    else
      var (delta, rest) :- GetSE(bits);
      if delta < -128 || delta > 127 then Invalid
      else if NextScale(last, delta) == 0 then Got(ScalingList([], true), rest)
      else
        var (list, rest) :- GetScaling(n - 1, NextScale(last, delta), rest);
        Got(list.(values := [NextScale(last, delta)] + list.values), rest)
  }

  ghost function PutScaling(last: int, values: seq<int>, stopped: bool, tail: Bits): Bits
    decreases |values|
  {
    if values == [] then if stopped then PutSE(Delta(last, 0), tail) else tail
    else PutSE(Delta(last, values[0]), PutScaling(values[0], values[1..], stopped, tail))
  }

  lemma ScalingStep(n: nat, last: int, v: int, more: ScalingList, t: Bits, tail: Bits)
    requires n > 0 && 0 < v < 256 && GetScaling(n - 1, v, t) == Got(more, tail)
    ensures GetScaling(n, last, PutSE(Delta(last, v), t)) ==
      Got(ScalingList([v] + more.values, more.stopped), tail)
  {
    DeltaCodesNext(last, v);
    GetPutSE(Delta(last, v), t);
  }

  lemma {:induction false} GetPutScaling(n: nat, last: int, list: ScalingList, tail: Bits)
    requires ValidScaling(n, list)
    ensures GetScaling(n, last, PutScaling(last, list.values, list.stopped, tail)) == Got(list, tail)
    decreases n
  {
    if list.values != [] {
      var v := list.values[0];
      var more := ScalingList(list.values[1..], list.stopped);
      assert ValidScaling(n - 1, more);
      GetPutScaling(n - 1, v, more, tail);
      ScalingStep(n, last, v, more, PutScaling(v, more.values, more.stopped, tail), tail);
      assert list.values == [v] + more.values;
    } else if list.stopped {
      DeltaCodesNext(last, 0);
      GetPutSE(Delta(last, 0), tail);
    }
  }

  lemma {:induction false} PutGetScaling(n: nat, last: int, bits: Bits)
    requires GetScaling(n, last, bits).Got?
    ensures var p := GetScaling(n, last, bits);
      ValidScaling(n, p.value) && PutScaling(last, p.value.values, p.value.stopped, p.rest) == bits
  {
    if n > 0 {
      var delta, rest := GetSE(bits).value, GetSE(bits).rest;
      var next := NextScale(last, delta);
      PutGetSE(bits);
      NextDecodesDelta(last, delta);
      if next != 0 {
        PutGetScaling(n - 1, next, rest);
        var more := GetScaling(n - 1, next, rest);
        var p := GetScaling(n, last, bits);
        assert p == Got(more.value.(values := [next] + more.value.values), more.rest);
        assert p.value.values[1..] == more.value.values;
      }
    }
  }

  function ListSize(i: nat): nat { if i < 6 then 16 else 64 }

  ghost predicate ValidLists(i: nat, lists: seq<Option<ScalingList>>) {
    && i + |lists| == 8
    && forall k :: 0 <= k < |lists| && lists[k].Some? ==>
      ValidScaling(if i + k <= 5 then 16 else 64, lists[k].value)
  }

  /** Scaling lists i to 7. */
  function GetLists(i: nat, bits: Bits): (p: Parsed<seq<Option<ScalingList>>>)
    ensures !p.Unsupported?
    requires i <= 8
    decreases 8 - i
  {
    if i == 8 then Got([], bits)
    else
      var (present, rest) :- GetFlag(bits);
      if present then
        var (list, rest) :- GetScaling(ListSize(i), 8, rest);
        var (more, rest) :- GetLists(i + 1, rest);
        Got([Some(list)] + more, rest)
      else
        var (more, rest) :- GetLists(i + 1, rest);
        Got([None] + more, rest)
  }

  ghost function PutLists(lists: seq<Option<ScalingList>>, tail: Bits): Bits {
    if lists == [] then tail
    else
      var more := PutLists(lists[1..], tail);
      if lists[0].Some? then PutFlag(true, PutScaling(8, lists[0].value.values, lists[0].value.stopped, more))
      else PutFlag(false, more)
  }

  lemma {:induction false} GetPutLists(i: nat, lists: seq<Option<ScalingList>>, tail: Bits)
    requires ValidLists(i, lists)
    ensures GetLists(i, PutLists(lists, tail)) == Got(lists, tail)
    decreases |lists|
  {
    if lists == [] {
    } else {
      var more := PutLists(lists[1..], tail);
      assert ValidLists(i + 1, lists[1..]) by {
        assert forall k :: 0 <= k < |lists[1..]| ==> lists[1..][k] == lists[k + 1];
      }
      GetPutLists(i + 1, lists[1..], tail);
      assert lists == [lists[0]] + lists[1..];
      if lists[0].Some? {
        GetPutScaling(ListSize(i), 8, lists[0].value, more);
      }
    }
  }

  lemma {:induction false} PutGetLists(i: nat, bits: Bits)
    requires i <= 8 && GetLists(i, bits).Got?
    ensures ValidLists(i, GetLists(i, bits).value)
    ensures PutLists(GetLists(i, bits).value, GetLists(i, bits).rest) == bits
    decreases 8 - i
  {
    if i < 8 {
      var lists := GetLists(i, bits).value;
      var rest := bits[1..];
      assert bits == [bits[0]] + rest;
      if bits[0] {
        PutGetScaling(ListSize(i), 8, rest);
        rest := GetScaling(ListSize(i), 8, rest).rest;
      }
      PutGetLists(i + 1, rest);
      var more := GetLists(i + 1, rest).value;
      assert lists[1..] == more;
      forall k | 0 <= k < |lists| && lists[k].Some? ensures ValidScaling(ListSize(i + k), lists[k].value) {
        if k > 0 {
          assert lists[k] == more[k - 1] && i + k == (i + 1) + (k - 1);
        }
      }
    }
  }

  // ---- the High profile extension --------------------------------------------------

  ghost predicate ValidHigh(high: High) {
    high.lists.Some? ==> ValidLists(0, high.lists.value)
  }

  /** Only 8-bit 4:2:0 is in scope; anything else stops the reader there and then. */
  function GetHigh(bits: Bits): Parsed<High> {
    var (chroma, bits) :- GetUE(bits);
    if chroma != 1 then Unsupported else
    var (luma, bits) :- GetUE(bits);
    if luma != 0 then Unsupported else
    var (depth, bits) :- GetUE(bits);
    if depth != 0 then Unsupported else
    var (bypass, bits) :- GetFlag(bits);
    var (matrix, bits) :- GetFlag(bits);
    if !matrix then Got(High(bypass, None), bits) else
    var (lists, bits) :- GetLists(0, bits);
    Got(High(bypass, Some(lists)), bits)
  }

  ghost function PutHigh(high: High, tail: Bits): Bits {
    var t := if high.lists.Some? then PutFlag(true, PutLists(high.lists.value, tail)) else PutFlag(false, tail);
    PutUE(1, PutUE(0, PutUE(0, PutFlag(high.bypass, t))))
  }

  lemma GetPutHigh(high: High, tail: Bits)
    requires ValidHigh(high)
    ensures GetHigh(PutHigh(high, tail)) == Got(high, tail)
  {
    var t := if high.lists.Some? then PutFlag(true, PutLists(high.lists.value, tail)) else PutFlag(false, tail);
    GetPutUE(1, PutUE(0, PutUE(0, PutFlag(high.bypass, t))));
    GetPutUE(0, PutUE(0, PutFlag(high.bypass, t)));
    GetPutUE(0, PutFlag(high.bypass, t));
    if high.lists.Some? {
      GetPutLists(0, high.lists.value, tail);
    }
  }

  lemma PutGetHigh(bits: Bits)
    requires GetHigh(bits).Got?
    ensures ValidHigh(GetHigh(bits).value)
    ensures PutHigh(GetHigh(bits).value, GetHigh(bits).rest) == bits
  {
    PutGetUE(bits);
    var b1 := GetUE(bits).rest;
    PutGetUE(b1);
    var b2 := GetUE(b1).rest;
    PutGetUE(b2);
    var b3 := GetUE(b2).rest;
    PutGetFlag(b3);
    var b4 := GetFlag(b3).rest;
    PutGetFlag(b4);
    if GetFlag(b4).value {
      PutGetLists(0, GetFlag(b4).rest);
    }
  }

  // ---- picture order count ---------------------------------------------------------

  ghost predicate SeRange(v: int) { -SE_LIMIT <= v <= SE_LIMIT }

  ghost predicate ValidPoc(poc: Poc) {
    match poc
    case Poc0(lsb) => lsb <= 12
    case Poc1(_, nonRef, topToBottom, cycle) =>
      SeRange(nonRef) && SeRange(topToBottom) && |cycle| <= 255 &&
      forall i :: 0 <= i < |cycle| ==> SeRange(cycle[i])
    case Poc2 => true
  }

  function GetCycle(n: nat, bits: Bits): (p: Parsed<seq<int>>)
    ensures !p.Unsupported?
  {
    if n == 0 then Got([], bits)
    else
      var (offset, bits) :- GetSE(bits);
      var (more, bits) :- GetCycle(n - 1, bits);
      Got([offset] + more, bits)
  }

  ghost function PutCycle(cycle: seq<int>, tail: Bits): Bits {
    if cycle == [] then tail else PutSE(cycle[0], PutCycle(cycle[1..], tail))
  }

  lemma {:induction false} GetPutCycle(cycle: seq<int>, tail: Bits)
    requires forall i :: 0 <= i < |cycle| ==> SeRange(cycle[i])
    ensures GetCycle(|cycle|, PutCycle(cycle, tail)) == Got(cycle, tail)
  {
    if cycle == [] {
    } else {
      GetPutCycle(cycle[1..], tail);
      GetPutSE(cycle[0], PutCycle(cycle[1..], tail));
      assert cycle == [cycle[0]] + cycle[1..];
    }
  }

  lemma {:induction false} PutGetCycle(n: nat, bits: Bits)
    requires GetCycle(n, bits).Got?
    ensures var p := GetCycle(n, bits);
      |p.value| == n && PutCycle(p.value, p.rest) == bits &&
      forall i :: 0 <= i < n ==> SeRange(p.value[i])
  {
    if n > 0 {
      PutGetSE(bits);
      PutGetCycle(n - 1, GetSE(bits).rest);
      assert GetCycle(n, bits).value[1..] == GetCycle(n - 1, GetSE(bits).rest).value;
    }
  }

  function GetPoc1(bits: Bits): (p: Parsed<Poc>)
    ensures !p.Unsupported?
  {
    var (alwaysZero, bits) :- GetFlag(bits);
    var (nonRef, bits) :- GetSE(bits);
    var (topToBottom, bits) :- GetSE(bits);
    var (n, bits) :- GetUE(bits);
    if n > 255 then Invalid else
    var (cycle, bits) :- GetCycle(n, bits);
    Got(Poc1(alwaysZero, nonRef, topToBottom, cycle), bits)
  }

  function GetPoc0(bits: Bits): (p: Parsed<Poc>)
    ensures !p.Unsupported?
  {
    var (lsb, bits) :- GetUE(bits);
    if lsb > 12 then Invalid else Got(Poc0(lsb), bits)
  }

  function GetPoc(bits: Bits): (p: Parsed<Poc>)
    ensures !p.Unsupported?
  {
    var (kind, bits) :- GetUE(bits);
    GetPocOf(kind, bits)
  }

  function GetPocOf(kind: nat, bits: Bits): (p: Parsed<Poc>)
    ensures !p.Unsupported?
  {
    if kind > 2 then Invalid
    else if kind == 2 then Got(Poc2, bits)
    else if kind == 1 then GetPoc1(bits)
    else GetPoc0(bits)
  }

  ghost function PutPoc(poc: Poc, tail: Bits): Bits {
    match poc
    case Poc0(lsb) => PutUE(0, PutUE(lsb, tail))
    case Poc1(alwaysZero, nonRef, topToBottom, cycle) =>
      PutUE(1, PutFlag(alwaysZero, PutSE(nonRef, PutSE(topToBottom, PutUE(|cycle|, PutCycle(cycle, tail))))))
    case Poc2 => PutUE(2, tail)
  }

  lemma GetPutPoc(poc: Poc, tail: Bits)
    requires ValidPoc(poc)
    ensures GetPoc(PutPoc(poc, tail)) == Got(poc, tail)
  {
    match poc
    case Poc0(lsb) =>
      GetPutUE(0, PutUE(lsb, tail));
      GetPutUE(lsb, tail);
    case Poc1(alwaysZero, nonRef, topToBottom, cycle) =>
      var t4 := PutCycle(cycle, tail);
      var t3 := PutUE(|cycle|, t4);
      var t2 := PutSE(topToBottom, t3);
      var t1 := PutSE(nonRef, t2);
      GetPutUE(1, PutFlag(alwaysZero, t1));
      GetPutSE(nonRef, t2);
      GetPutSE(topToBottom, t3);
      GetPutUE(|cycle|, t4);
      GetPutCycle(cycle, tail);
      assert GetPoc1(PutFlag(alwaysZero, t1)) == Got(poc, tail);
    case Poc2 =>
      GetPutUE(2, tail);
  }

  lemma PutGetPoc(bits: Bits)
    requires GetPoc(bits).Got?
    ensures ValidPoc(GetPoc(bits).value)
    ensures PutPoc(GetPoc(bits).value, GetPoc(bits).rest) == bits
  {
    PutGetUE(bits);
    var b1 := GetUE(bits).rest;
    if GetUE(bits).value == 0 {
      PutGetUE(b1);
    } else if GetUE(bits).value == 1 {
      PutGetFlag(b1);
      var b2 := GetFlag(b1).rest;
      PutGetSE(b2);
      var b3 := GetSE(b2).rest;
      PutGetSE(b3);
      var b4 := GetSE(b3).rest;
      PutGetUE(b4);
      PutGetCycle(GetUE(b4).value, GetUE(b4).rest);
    }
  }

  // ---- frame geometry --------------------------------------------------------------

  ghost predicate ValidGeometry(g: Geometry) {
    && g.refFrames <= 16 && g.widthMinus1 <= UE_LIMIT && g.heightMinus1 <= UE_LIMIT
    && (g.crop.Some? ==>
      g.crop.value.left <= UE_LIMIT && g.crop.value.right <= UE_LIMIT &&
      g.crop.value.top <= UE_LIMIT && g.crop.value.bottom <= UE_LIMIT)
  }

  function GetMode(bits: Bits): (p: Parsed<FrameMode>)
    ensures !p.Unsupported?
  {
    var (only, bits) :- GetFlag(bits);
    if only then Got(FramesOnly, bits) else
    var (adaptive, bits) :- GetFlag(bits);
    Got(FieldsAllowed(adaptive), bits)
  }

  ghost function PutMode(mode: FrameMode, tail: Bits): Bits {
    match mode
    case FramesOnly => PutFlag(true, tail)
    case FieldsAllowed(adaptive) => PutFlag(false, PutFlag(adaptive, tail))
  }

  function GetCrop(bits: Bits): (p: Parsed<Option<Crop>>)
    ensures !p.Unsupported?
  {
    var (present, bits) :- GetFlag(bits);
    if !present then Got(None, bits) else
    var (left, bits) :- GetUE(bits);
    var (right, bits) :- GetUE(bits);
    var (top, bits) :- GetUE(bits);
    var (bottom, bits) :- GetUE(bits);
    Got(Some(Crop(left, right, top, bottom)), bits)
  }

  ghost function PutCrop(crop: Option<Crop>, tail: Bits): Bits {
    match crop
    case None => PutFlag(false, tail)
    case Some(c) => PutFlag(true, PutUE(c.left, PutUE(c.right, PutUE(c.top, PutUE(c.bottom, tail)))))
  }

  function GetGeometry(bits: Bits): (p: Parsed<Geometry>)
    ensures !p.Unsupported?
  {
    var (refFrames, bits) :- GetUE(bits);
    if refFrames > 16 then Invalid else
    var (gaps, bits) :- GetFlag(bits);
    var (width, bits) :- GetUE(bits);
    var (height, bits) :- GetUE(bits);
    var (mode, bits) :- GetMode(bits);
    var (direct, bits) :- GetFlag(bits);
    var (crop, bits) :- GetCrop(bits);
    Got(Geometry(refFrames, gaps, width, height, mode, direct, crop), bits)
  }

  ghost function PutGeometry(g: Geometry, tail: Bits): Bits {
    PutUE(g.refFrames, PutFlag(g.gapsAllowed, PutUE(g.widthMinus1, PutUE(g.heightMinus1,
      PutMode(g.mode, PutFlag(g.direct8x8, PutCrop(g.crop, tail)))))))
  }

  lemma GetPutCrop(crop: Option<Crop>, tail: Bits)
    requires crop.Some? ==>
      crop.value.left <= UE_LIMIT && crop.value.right <= UE_LIMIT &&
      crop.value.top <= UE_LIMIT && crop.value.bottom <= UE_LIMIT
    ensures GetCrop(PutCrop(crop, tail)) == Got(crop, tail)
  {
    if crop.Some? {
      var c := crop.value;
      var t3 := PutUE(c.bottom, tail);
      var t2 := PutUE(c.top, t3);
      var t1 := PutUE(c.right, t2);
      GetPutUE(c.left, t1);
      GetPutUE(c.right, t2);
      GetPutUE(c.top, t3);
      GetPutUE(c.bottom, tail);
      assert PutCrop(crop, tail)[1..] == PutUE(c.left, t1);
    }
  }

  lemma GetPutMode(mode: FrameMode, tail: Bits)
    ensures GetMode(PutMode(mode, tail)) == Got(mode, tail)
  {
    if mode.FieldsAllowed? {
      GetPutFlag(false, PutFlag(mode.adaptive, tail));
    }
  }

  lemma GetPutGeometry(g: Geometry, tail: Bits)
    requires ValidGeometry(g)
    ensures GetGeometry(PutGeometry(g, tail)) == Got(g, tail)
  {
    var t6 := PutCrop(g.crop, tail);
    var t5 := PutFlag(g.direct8x8, t6);
    var t4 := PutMode(g.mode, t5);
    var t3 := PutUE(g.heightMinus1, t4);
    var t2 := PutUE(g.widthMinus1, t3);
    var t1 := PutFlag(g.gapsAllowed, t2);
    GetPutUE(g.refFrames, t1);
    GetPutUE(g.widthMinus1, t3);
    GetPutUE(g.heightMinus1, t4);
    GetPutCrop(g.crop, tail);
    GetPutFlag(g.gapsAllowed, t2);
    GetPutFlag(g.direct8x8, t6);
    GetPutMode(g.mode, t5);
  }

  lemma PutGetCrop(bits: Bits)
    requires GetCrop(bits).Got?
    ensures PutCrop(GetCrop(bits).value, GetCrop(bits).rest) == bits
    ensures GetCrop(bits).value.Some? ==> var c := GetCrop(bits).value.value;
      c.left <= UE_LIMIT && c.right <= UE_LIMIT && c.top <= UE_LIMIT && c.bottom <= UE_LIMIT
  {
    PutGetFlag(bits);
    if GetFlag(bits).value {
      var b1 := GetFlag(bits).rest;
      PutGetUE(b1);
      var b2 := GetUE(b1).rest;
      PutGetUE(b2);
      var b3 := GetUE(b2).rest;
      PutGetUE(b3);
      PutGetUE(GetUE(b3).rest);
    }
  }

  lemma PutGetMode(bits: Bits)
    requires GetMode(bits).Got?
    ensures PutMode(GetMode(bits).value, GetMode(bits).rest) == bits
  {
    PutGetFlag(bits);
    if !GetFlag(bits).value {
      PutGetFlag(GetFlag(bits).rest);
    }
  }

  lemma PutGetGeometry(bits: Bits)
    requires GetGeometry(bits).Got?
    ensures ValidGeometry(GetGeometry(bits).value)
    ensures PutGeometry(GetGeometry(bits).value, GetGeometry(bits).rest) == bits
  {
    PutGetUE(bits);
    var b1 := GetUE(bits).rest;
    PutGetFlag(b1);
    var b2 := GetFlag(b1).rest;
    PutGetUE(b2);
    var b3 := GetUE(b2).rest;
    PutGetUE(b3);
    var b4 := GetUE(b3).rest;
    PutGetMode(b4);
    var b5 := GetMode(b4).rest;
    PutGetFlag(b5);
    PutGetCrop(GetFlag(b5).rest);
  }

  // ---- video usability information, up to the range flag ---------------------------

  ghost predicate ValidAspect(aspect: Option<Aspect>) {
    match aspect
    case None => true
    case Some(Ratio(idc)) => idc <= 16
    case Some(ExtendedRatio(width, height)) => 0 < width < 0x1_0000 && 0 < height < 0x1_0000
  }

  ghost predicate ValidSignal(signal: Option<VideoSignal>) {
    signal.Some? ==>
      signal.value.format <= 5 && (signal.value.colour.Some? ==> signal.value.colour.value < 0x100_0000)
  }

  ghost predicate ValidVui(vui: Option<Vui>) {
    vui.Some? ==> ValidAspect(vui.value.aspect) && ValidSignal(vui.value.signal)
  }

  function GetAspect(bits: Bits): (p: Parsed<Option<Aspect>>)
    ensures !p.Unsupported?
  {
    var (present, bits) :- GetFlag(bits);
    if !present then Got(None, bits) else
    var (idc, bits) :- GetU(8, bits);
    if idc == 255 then
      var (width, bits) :- GetU(16, bits);
      var (height, bits) :- GetU(16, bits);
      if width == 0 || height == 0 then Invalid else Got(Some(ExtendedRatio(width, height)), bits)
    else if idc > 16 then Invalid
    else Got(Some(Ratio(idc)), bits)
  }

  ghost function PutAspect(aspect: Option<Aspect>, tail: Bits): Bits
    requires ValidAspect(aspect)
  {
    Pow2Values();
    match aspect
    case None => PutFlag(false, tail)
    case Some(Ratio(idc)) => PutFlag(true, PutU(8, idc, tail))
    case Some(ExtendedRatio(width, height)) => PutFlag(true, PutU(8, 255, PutU(16, width, PutU(16, height, tail))))
  }

  function GetOverscan(bits: Bits): (p: Parsed<Option<bool>>)
    ensures !p.Unsupported?
  {
    var (present, bits) :- GetFlag(bits);
    if !present then Got(None, bits) else
    var (appropriate, bits) :- GetFlag(bits);
    Got(Some(appropriate), bits)
  }

  ghost function PutOverscan(overscan: Option<bool>, tail: Bits): Bits {
    match overscan
    case None => PutFlag(false, tail)
    case Some(appropriate) => PutFlag(true, PutFlag(appropriate, tail))
  }

  function GetColour(bits: Bits): (p: Parsed<Option<nat>>)
    ensures !p.Unsupported?
  {
    var (present, bits) :- GetFlag(bits);
    if !present then Got(None, bits) else
    var (colour, bits) :- GetU(24, bits);
    Got(Some(colour), bits)
  }

  ghost function PutColour(colour: Option<nat>, tail: Bits): Bits
    requires colour.Some? ==> colour.value < 0x100_0000
  {
    Pow2Values();
    match colour
    case None => PutFlag(false, tail)
    case Some(c) => PutFlag(true, PutU(24, c, tail))
  }

  function GetSignal(bits: Bits): (p: Parsed<Option<VideoSignal>>)
    ensures !p.Unsupported?
  {
    var (present, bits) :- GetFlag(bits);
    if !present then Got(None, bits) else
    var (format, bits) :- GetU(3, bits);
    if format > 5 then Invalid else
    var (fullRange, bits) :- GetFlag(bits);
    var (colour, bits) :- GetColour(bits);
    Got(Some(VideoSignal(format, fullRange, colour)), bits)
  }

  ghost function PutSignal(signal: Option<VideoSignal>, tail: Bits): Bits
    requires ValidSignal(signal)
  {
    Pow2Values();
    match signal
    case None => PutFlag(false, tail)
    case Some(s) => PutFlag(true, PutU(3, s.format, PutFlag(s.fullRange, PutColour(s.colour, tail))))
  }

  function GetVui(bits: Bits): (p: Parsed<Option<Vui>>)
    ensures !p.Unsupported?
  {
    var (present, bits) :- GetFlag(bits);
    if !present then Got(None, bits) else
    var (aspect, bits) :- GetAspect(bits);
    var (overscan, bits) :- GetOverscan(bits);
    var (signal, bits) :- GetSignal(bits);
    Got(Some(Vui(aspect, overscan, signal)), bits)
  }

  ghost function PutVui(vui: Option<Vui>, tail: Bits): Bits
    requires ValidVui(vui)
  {
    match vui
    case None => PutFlag(false, tail)
    case Some(v) => PutFlag(true, PutAspect(v.aspect, PutOverscan(v.overscan, PutSignal(v.signal, tail))))
  }

  lemma GetPutAspect(aspect: Option<Aspect>, tail: Bits)
    requires ValidAspect(aspect)
    ensures GetAspect(PutAspect(aspect, tail)) == Got(aspect, tail)
  {
    Pow2Values();
    match aspect
    case None =>
    case Some(Ratio(idc)) => GetPutU(8, idc, tail);
    case Some(ExtendedRatio(width, height)) =>
      GetPutU(8, 255, PutU(16, width, PutU(16, height, tail)));
      GetPutU(16, width, PutU(16, height, tail));
      GetPutU(16, height, tail);
  }

  lemma GetPutSignal(signal: Option<VideoSignal>, tail: Bits)
    requires ValidSignal(signal)
    ensures GetSignal(PutSignal(signal, tail)) == Got(signal, tail)
  {
    if signal.Some? {
      var s := signal.value;
      Pow2Values();
      var t := PutColour(s.colour, tail);
      if s.colour.Some? {
        GetPutU(24, s.colour.value, tail);
      }
      assert GetColour(t) == Got(s.colour, tail);
      GetPutU(3, s.format, PutFlag(s.fullRange, t));
    }
  }

  lemma GetPutVui(vui: Option<Vui>, tail: Bits)
    requires ValidVui(vui)
    ensures GetVui(PutVui(vui, tail)) == Got(vui, tail)
  {
    if vui.Some? {
      var t2 := PutSignal(vui.value.signal, tail);
      var t1 := PutOverscan(vui.value.overscan, t2);
      GetPutSignal(vui.value.signal, tail);
      assert GetOverscan(t1) == Got(vui.value.overscan, t2);
      GetPutAspect(vui.value.aspect, t1);
    }
  }

  lemma PutGetAspect(bits: Bits)
    requires GetAspect(bits).Got?
    ensures ValidAspect(GetAspect(bits).value)
    ensures PutAspect(GetAspect(bits).value, GetAspect(bits).rest) == bits
  {
    Pow2Values();
    PutGetFlag(bits);
    if GetFlag(bits).value {
      var b1 := GetFlag(bits).rest;
      PutGetU(8, b1);
      if GetU(8, b1).value == 255 {
        var b2 := GetU(8, b1).rest;
        PutGetU(16, b2);
        PutGetU(16, GetU(16, b2).rest);
      }
    }
  }

  lemma PutGetSignal(bits: Bits)
    requires GetSignal(bits).Got?
    ensures ValidSignal(GetSignal(bits).value)
    ensures PutSignal(GetSignal(bits).value, GetSignal(bits).rest) == bits
  {
    PutGetFlag(bits);
    if GetFlag(bits).value {
      var b1 := GetFlag(bits).rest;
      PutGetU(3, b1);
      var b2 := GetU(3, b1).rest;
      PutGetFlag(b2);
      var b3 := GetFlag(b2).rest;
      PutGetFlag(b3);
      if GetFlag(b3).value {
        PutGetU(24, GetFlag(b3).rest);
        Pow2Values();
      }
    }
  }

  lemma PutGetVui(bits: Bits)
    requires GetVui(bits).Got?
    ensures ValidVui(GetVui(bits).value)
    ensures PutVui(GetVui(bits).value, GetVui(bits).rest) == bits
  {
    PutGetFlag(bits);
    if GetFlag(bits).value {
      var b1 := GetFlag(bits).rest;
      PutGetAspect(b1);
      var b2 := GetAspect(b1).rest;
      PutGetFlag(b2);
      if GetFlag(b2).value {
        PutGetFlag(GetFlag(b2).rest);
      }
      PutGetSignal(GetOverscan(b2).rest);
    }
  }

  // ---- the whole prefix ------------------------------------------------------------

  ghost predicate ValidHead(h: Head) {
    h.profile < 256 && h.constraints < 256 && h.constraints % 4 == 0 && h.level < 256 && h.id <= 31
  }

  ghost predicate InScope(s: Sps) {
    && ValidHead(s.head) && s.head.profile in {66, 77, 100}
    && (s.high.Some? <==> s.head.profile == 100) && (s.high.Some? ==> ValidHigh(s.high.value))
    && s.frameNumMinus4 <= 12 && ValidPoc(s.poc) && ValidGeometry(s.geometry) && ValidVui(s.vui)
  }

  function GetHead(bits: Bits): (p: Parsed<Head>)
    ensures !p.Unsupported?
  {
    var (profile, bits) :- GetU(8, bits);
    var (constraints, bits) :- GetU(8, bits);
    if constraints % 4 != 0 then Invalid else
    var (level, bits) :- GetU(8, bits);
    var (id, bits) :- GetUE(bits);
    if id > 31 then Invalid else Got(Head(profile, constraints, level, id), bits)
  }

  ghost function PutHead(h: Head, tail: Bits): Bits
    requires ValidHead(h)
  {
    Pow2Values();
    PutU(8, h.profile, PutU(8, h.constraints, PutU(8, h.level, PutUE(h.id, tail))))
  }

  function GetBody(head: Head, high: Option<High>, bits: Bits): (p: Parsed<Sps>)
    ensures !p.Unsupported?
  {
    var (frameNum, bits) :- GetUE(bits);
    if frameNum > 12 then Invalid else
    var (poc, bits) :- GetPoc(bits);
    var (geometry, bits) :- GetGeometry(bits);
    var (vui, bits) :- GetVui(bits);
    Got(Sps(head, high, frameNum, poc, geometry, vui), bits)
  }

  ghost function PutBody(s: Sps, tail: Bits): Bits
    requires ValidVui(s.vui)
  {
    PutUE(s.frameNumMinus4, PutPoc(s.poc, PutGeometry(s.geometry, PutVui(s.vui, tail))))
  }

  /** What follows the head depends on the profile; only three of them are in scope. */
  function GetProfile(head: Head, bits: Bits): Parsed<Sps> {
    if head.profile != 66 && head.profile != 77 && head.profile != 100 then Unsupported
    else if head.profile != 100 then GetBody(head, None, bits)
    else
      var (high, bits) :- GetHigh(bits);
      GetBody(head, Some(high), bits)
  }

  ghost function PutProfile(s: Sps, tail: Bits): Bits
    requires ValidVui(s.vui)
  {
    if s.high.Some? then PutHigh(s.high.value, PutBody(s, tail)) else PutBody(s, tail)
  }

  function GetSps(bits: Bits): Parsed<Sps> {
    var (head, bits) :- GetHead(bits);
    GetProfile(head, bits)
  }

  ghost function PutSps(s: Sps, tail: Bits): Bits
    requires InScope(s)
  {
    PutHead(s.head, PutProfile(s, tail))
  }

  lemma GetPutHead(h: Head, tail: Bits)
    requires ValidHead(h)
    ensures GetHead(PutHead(h, tail)) == Got(h, tail)
  {
    Pow2Values();
    var t3 := PutUE(h.id, tail);
    var t2 := PutU(8, h.level, t3);
    var t1 := PutU(8, h.constraints, t2);
    GetPutU(8, h.profile, t1);
    GetPutU(8, h.constraints, t2);
    GetPutU(8, h.level, t3);
    GetPutUE(h.id, tail);
  }

  lemma GetPutBody(s: Sps, tail: Bits)
    requires InScope(s)
    ensures GetBody(s.head, s.high, PutBody(s, tail)) == Got(s, tail)
  {
    var t3 := PutVui(s.vui, tail);
    var t2 := PutGeometry(s.geometry, t3);
    var t1 := PutPoc(s.poc, t2);
    GetPutUE(s.frameNumMinus4, t1);
    GetPutPoc(s.poc, t2);
    GetPutGeometry(s.geometry, t3);
    GetPutVui(s.vui, tail);
  }

  /** Reading what was written gives the syntax tree back, whatever bits follow. */
  lemma GetPutSps(s: Sps, tail: Bits)
    requires InScope(s)
    ensures GetSps(PutSps(s, tail)) == Got(s, tail)
  {
    GetPutHead(s.head, PutProfile(s, tail));
    GetPutBody(s, tail);
    if s.high.Some? {
      GetPutHigh(s.high.value, PutBody(s, tail));
    }
  }

  lemma PutGetHead(bits: Bits)
    requires GetHead(bits).Got?
    ensures ValidHead(GetHead(bits).value)
    ensures PutHead(GetHead(bits).value, GetHead(bits).rest) == bits
  {
    Pow2Values();
    PutGetU(8, bits);
    var b1 := GetU(8, bits).rest;
    PutGetU(8, b1);
    var b2 := GetU(8, b1).rest;
    PutGetU(8, b2);
    PutGetUE(GetU(8, b2).rest);
  }

  lemma PutGetBody(head: Head, high: Option<High>, bits: Bits)
    requires GetBody(head, high, bits).Got?
    ensures var p := GetBody(head, high, bits);
      p.value.frameNumMinus4 <= 12 && ValidPoc(p.value.poc) && ValidGeometry(p.value.geometry) &&
      ValidVui(p.value.vui) && PutBody(p.value, p.rest) == bits
  {
    PutGetUE(bits);
    var b1 := GetUE(bits).rest;
    PutGetPoc(b1);
    var b2 := GetPoc(b1).rest;
    PutGetGeometry(b2);
    PutGetVui(GetGeometry(b2).rest);
  }

  lemma PutGetProfile(head: Head, bits: Bits)
    requires GetProfile(head, bits).Got? && ValidHead(head)
    ensures var p := GetProfile(head, bits);
      InScope(p.value) && p.value.head == head && PutProfile(p.value, p.rest) == bits
  {
    if head.profile == 100 {
      PutGetHigh(bits);
      PutGetBody(head, Some(GetHigh(bits).value), GetHigh(bits).rest);
    } else {
      PutGetBody(head, None, bits);
    }
  }

  /** Writing what was read gives the bits back: nothing outside the scope is accepted. */
  lemma PutGetSps(bits: Bits)
    requires GetSps(bits).Got?
    ensures InScope(GetSps(bits).value)
    ensures PutSps(GetSps(bits).value, GetSps(bits).rest) == bits
  {
    PutGetHead(bits);
    PutGetProfile(GetHead(bits).value, GetHead(bits).rest);
  }

  /** The readable bit strings are exactly the in-scope prefixes followed by anything. */
  lemma ReadableIsWritten(bits: Bits)
    ensures GetSps(bits).Got? <==> exists s: Sps, tail: Bits :: InScope(s) && PutSps(s, tail) == bits
  {
    if GetSps(bits).Got? {
      PutGetSps(bits);
    }
    forall s: Sps, tail: Bits | InScope(s) && PutSps(s, tail) == bits ensures GetSps(bits).Got? {
      GetPutSps(s, tail);
    }
  }
}
