/**
 * What one access unit does to the range observer's tables, as a function of the NAL
 * units it is made of (crystalhd_h264_range_binding.h).
 */
module RangeModel {
  import opened Basics
  import opened BitSyntax
  import opened BitCursor
  import opened Emulation
  import opened SpsSyntax
  import opened SpsReader
  import opened SliceSyntax
  import opened AnnexB

  const MAX_AU := 8 * 1024 * 1024
  const MAX_NALS := 128
  const SLICE_WINDOW := 128

  datatype SpsSlot = SpsSlot(value: SpsRange, generation: nat, valid: bool)

  datatype PpsSlot = PpsSlot(spsId: nat, valid: bool, qualified: bool, bottom: bool)

  datatype Tables = Tables(sps: seq<SpsSlot>, pps: seq<PpsSlot>, generation: nat, exhausted: bool)

  datatype Snapshot = Snapshot(
    generation: nat, spsId: nat, ppsId: nat, associated: bool, rangePresent: bool, fullRange: bool)

  const EMPTY := Snapshot(0, 0, 0, false, false, false)

  ghost predicate Sized(t: Tables) {
    && |t.sps| == 32 && |t.pps| == 256 && t.generation <= U64_MAX
    && forall p :: 0 <= p < 256 ==> t.pps[p].spsId < 32
  }

  /** A zero-initialised struct chd_h264_range_state. */
  ghost function ZeroTables(): (t: Tables)
    ensures Sized(t)
  {
    Tables(seq(32, _ => SpsSlot(NO_RANGE, 0, false)), seq(256, _ => PpsSlot(0, false, false, false)), 0, false)
  }

  ghost function ForgetSps(sps: seq<SpsSlot>): (r: seq<SpsSlot>)
    ensures |r| == |sps| && forall i :: 0 <= i < |r| ==> r[i] == sps[i].(valid := false)
  {
    seq(|sps|, i requires 0 <= i < |sps| => sps[i].(valid := false))
  }

  ghost function ForgetPps(pps: seq<PpsSlot>): (r: seq<PpsSlot>)
    ensures |r| == |pps| && forall i :: 0 <= i < |r| ==> r[i] == pps[i].(valid := false)
  {
    seq(|pps|, i requires 0 <= i < |pps| => pps[i].(valid := false))
  }

  /** chd_h264_range_forget */
  ghost function Forget(t: Tables): Tables {
    t.(sps := ForgetSps(t.sps), pps := ForgetPps(t.pps))
  }

  ghost predicate AllInvalid(t: Tables) {
    (forall i :: 0 <= i < |t.sps| ==> !t.sps[i].valid) && (forall i :: 0 <= i < |t.pps| ==> !t.pps[i].valid)
  }

  // ---- one NAL unit ----------------------------------------------------------------

  function NalType(nal: Bytes): nat
    requires nal != []
  {
    nal[0] % 32
  }

  ghost function PpsOutcome(nal: Bytes): Option<PpsIds>
    requires nal != []
  {
    if |nal| < 2 || |nal| > SPS_MAX_BYTES || !HeaderOk(nal, |nal|, 8) || !WellEscaped(nal[1..], 0) then None
    else match GetPpsIds(PayloadBits(nal, 1, |nal|, 0))
      case Got(ids, _) => Some(ids)
      case _ => None
  }

  /** The POC flag of a PPS whose pictures are in scope. */
  ghost function PpsPictureOutcome(nal: Bytes): Option<bool>
    requires nal != [] && PpsOutcome(nal).Some?
  {
    match GetPpsPicture(GetPpsIds(PayloadBits(nal, 1, |nal|, 0)).rest)
    case Got(p, _) => Some(p.bottomFieldPoc)
    case _ => None
  }

  predicate SliceHeaderByte(nal: Bytes) {
    |nal| >= 2 && nal[0] < 128 &&
    (nal[0] % 32 == 1 || (nal[0] % 32 == 5 && (nal[0] / 32) % 4 != 0))
  }

  function Window(bytes: nat): nat { if bytes < SLICE_WINDOW then bytes else SLICE_WINDOW }

  ghost function WindowBits(nal: Bytes): Bits
    requires nal != []
  {
    PayloadBits(nal, 1, Window(|nal|), 0)
  }

  /** The PPS identifier of a first slice. */
  ghost function SliceOutcome(nal: Bytes): Option<nat> {
    if !SliceHeaderByte(nal) then None
    else match GetSliceStart(WindowBits(nal))
      case Got(s, _) => if s.firstMb != 0 || s.sliceType > 9 || s.pps > 255 then None else Some(s.pps)
      case _ => None
  }

  /** Whether the SPS a slice refers to allows the multi-slice check. */
  ghost predicate PictureScope(sps: SpsRange, firstMb: nat) {
    && sps.frameMbsOnly && sps.pocType <= 2 && 4 <= sps.frameNumBits <= 16
    && sps.picSizeInMapUnits != 0 && firstMb < sps.picSizeInMapUnits
  }

  ghost function PictureFrom(t: Tables, header: Byte, bits: Bits): Option<Picture>
    requires Sized(t)
  {
    match GetSliceStart(bits)
    case Got(s, rest) =>
      if s.pps > 255 || s.sliceType > 9 || s.sliceType % 5 > 2 then None else
      var pps := t.pps[s.pps];
      var sps := t.sps[pps.spsId];
      if !pps.valid || !pps.qualified || !sps.valid || !PictureScope(sps.value, s.firstMb) then None else
      (match GetPicture(sps.value, pps.bottom, s, header % 32 == 5, (header / 32) % 4 != 0, rest)
       case Got(p, _) => Some(p)
       case _ => None)
    case _ => None
  }

  ghost function PictureOutcome(t: Tables, nal: Bytes): Option<Picture>
    requires Sized(t)
  {
    if !SliceHeaderByte(nal) then None else PictureFrom(t, nal[0], WindowBits(nal))
  }

  // ---- walking the units -----------------------------------------------------------

  /** The local variables of chd_h264_observe_range, and the tables. */
  datatype Walk = Walk(
    t: Tables, observed: Snapshot, picture: Picture, qualified: bool,
    slices: nat, auds: nat, ambiguous: bool)

  function StartWalk(t: Tables): Walk { Walk(t, EMPTY, NO_PICTURE, false, 0, 0, false) }

  lemma NalSpsId(nal: Bytes)
    ensures SpsOutcome(nal, |nal|).status.RangeOk? ==> SpsOutcome(nal, |nal|).facts.spsId < 32
  {
    if SpsOutcome(nal, |nal|).status.RangeOk? {
      PutGetSps(PayloadBits(nal, 1, |nal|, 0));
    }
  }

  /** `outcome` is what the SPS reader said. */
  ghost function StepSps(w: Walk, outcome: SpsResult): (r: Walk)
    requires Sized(w.t) && w.t.generation < U64_MAX
    requires outcome.status.RangeOk? ==> outcome.facts.spsId < 32
    ensures Sized(r.t) && r.t.exhausted == w.t.exhausted && w.t.generation <= r.t.generation
  {
    var w := w.(ambiguous := w.ambiguous || w.slices > 0);
    if !outcome.status.RangeOk? then w.(t := Forget(w.t), ambiguous := true)
    else
      var value, g := outcome.facts, w.t.generation + 1;
      w.(t := w.t.(sps := w.t.sps[value.spsId := SpsSlot(value, g, true)], generation := g))
  }

  ghost function StepPps(w: Walk, nal: Bytes): (r: Walk)
    requires Sized(w.t) && nal != []
    ensures Sized(r.t) && r.t == w.t.(pps := r.t.pps)
  {
    var w := w.(ambiguous := w.ambiguous || w.slices > 0);
    match PpsOutcome(nal)
    case None => w.(t := w.t.(pps := ForgetPps(w.t.pps)), ambiguous := true)
    case Some(ids) =>
      var picture := PpsPictureOutcome(nal);
      w.(t := w.t.(pps := w.t.pps[ids.pps :=
        PpsSlot(ids.sps, true, picture.Some?, picture.Some? && picture.value)]))
  }

  ghost function FirstSlice(w: Walk, nal: Bytes): (r: Walk)
    requires Sized(w.t)
    ensures r.t == w.t
  {
    match SliceOutcome(nal)
    case None => w.(ambiguous := true)
    case Some(p) =>
      var q := w.t.pps[p].spsId;
      if !w.t.pps[p].valid || !w.t.sps[q].valid then w
      else
        var slot := w.t.sps[q];
        var picture := PictureOutcome(w.t, nal);
        w.(observed := Snapshot(slot.generation, q, p, true, slot.value.rangePresent, slot.value.fullRange),
           qualified := picture.Some?, picture := if picture.Some? then picture.value else w.picture)
  }

  ghost function LaterSlice(w: Walk, nal: Bytes): (r: Walk)
    requires Sized(w.t)
    ensures r.t == w.t
  {
    var next := PictureOutcome(w.t, nal);
    if !w.qualified || next.None? || next.value.firstMb <= w.picture.firstMb ||
       !SamePicture(w.picture, next.value)
    then w.(ambiguous := true)
    else w.(picture := next.value)
  }

  ghost function StepSlice(w: Walk, nal: Bytes): (r: Walk)
    requires Sized(w.t)
    ensures r.t == w.t
  {
    var w := w.(slices := w.slices + 1);
    if w.slices > 1 then LaterSlice(w, nal) else FirstSlice(w, nal)
  }

  /** An SPS when no generation is left: the state is exhausted for good. */
  ghost predicate Exhausts(t: Tables, nal: Bytes)
    requires nal != []
  {
    NalType(nal) == 7 && SpsOutcome(nal, |nal|).status.RangeOk? && t.generation == U64_MAX
  }

  ghost function StepNal(w: Walk, nal: Bytes): (r: Walk)
    requires Sized(w.t) && nal != [] && !Exhausts(w.t, nal)
    ensures Sized(r.t) && r.t.exhausted == w.t.exhausted
    ensures w.t.generation <= r.t.generation
  {
    match NalType(nal)
    case 7 =>
      if w.t.generation == U64_MAX then w.(t := Forget(w.t), ambiguous := true)
      else NalSpsId(nal); StepSps(w, SpsOutcome(nal, |nal|))
    case 8 => StepPps(w, nal)
    case 1 => StepSlice(w, nal)
    case 5 => StepSlice(w, nal)
    case 9 => w.(auds := w.auds + 1, ambiguous := w.ambiguous || w.auds > 0 || w.slices > 0)
    case 6 => w.(ambiguous := w.ambiguous || w.slices > 0)
    case 10 => w.(t := Forget(w.t))
    case 11 => w.(t := Forget(w.t))
    case 12 => w
    case _ => w.(t := Forget(w.t), ambiguous := true)
  }

  datatype Observation = Observation(t: Tables, snapshot: Snapshot)

  ghost function Abandon(t: Tables): Observation { Observation(Forget(t), EMPTY) }

  ghost function Conclude(w: Walk): Observation {
    Observation(w.t, if !w.ambiguous && w.slices > 0 then w.observed else EMPTY)
  }

  ghost predicate BadUnit(nal: Bytes) { nal == [] || nal[0] >= 128 }

  ghost function WalkUnits(w: Walk, nals: seq<Bytes>, count: nat, dangling: bool): (o: Observation)
    requires Sized(w.t) && nals != []
    ensures Sized(o.t)
    decreases |nals|, 1
  {
    var nal := nals[0];
    if count + 1 > MAX_NALS || BadUnit(nal) then Abandon(w.t)
    else if Exhausts(w.t, nal) then Abandon(w.t.(exhausted := true))
    else WalkOn(StepNal(w, nal), nals, count, dangling)
  }

  /** What follows the step for the first unit. */
  ghost function WalkOn(w: Walk, nals: seq<Bytes>, count: nat, dangling: bool): (o: Observation)
    requires Sized(w.t) && nals != []
    ensures Sized(o.t)
    decreases |nals|, 0
  {
    if |nals| > 1 then WalkUnits(w, nals[1..], count + 1, dangling)
    else if dangling then Abandon(w.t)
    else Conclude(w)
  }

  /** chd_h264_observe_range on one access unit. */
  ghost function Observe(t: Tables, data: Bytes): (o: Observation)
    requires Sized(t)
    ensures Sized(o.t)
  {
    if data == [] || |data| > MAX_AU || t.exhausted || Units(data).None? then Abandon(t)
    else WalkUnits(StartWalk(t), Units(data).value.nals, 0, Units(data).value.dangling)
  }
}
