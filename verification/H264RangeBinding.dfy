/**
 * The access-unit observer as it runs: prefix readers over the bit cursor, the parameter
 * set tables of struct chd_h264_range_state, and the sequential scan, proved to do what
 * RangeModel says.
 */
module RangeBinding {
  import opened Basics
  import opened BitSyntax
  import opened BitCursor
  import opened Emulation
  import opened SpsSyntax
  import opened SpsReader
  import opened SliceSyntax
  import opened AnnexB
  import opened RangeModel

  method PpsPrefix(nal: Bytes) returns (ids: Option<PpsIds>)
    requires nal != []
    ensures ids == PpsOutcome(nal)
  {
    if |nal| < 2 || |nal| > SPS_MAX_BYTES || nal[0] >= 128 || (nal[0] / 32) % 4 == 0 || nal[0] % 32 != 8 {
      return None;
    }
    assert nal[1..|nal|] == nal[1..];
    var escaped := Ebsp(nal, |nal|);
    if !escaped {
      return None;
    }
    var b := new Cursor(nal, |nal|);
    var p := b.Ue();
    var q := b.Ue();
    ids := if b.failed || p > 255 || q > 31 then None else Some(PpsIds(p, q));
  }

  method ReadReferences(b: Cursor) returns (ok: bool)
    requires b.Valid()
    modifies b
    ensures b.Valid()
    ensures !old(b.failed) ==> Section(GetReferences(old(b.Remaining())), false, if ok then RangeOk else RangeInvalid, b.failed, b.Remaining())
    ensures old(b.failed) ==> b.failed
  {
    var groups := b.Ue();
    if groups != 0 {
      return false;
    }
    var refs0 := b.Ue();
    if refs0 > 31 {
      return false;
    }
    var refs1 := b.Ue();
    if refs1 > 31 {
      return false;
    }
    var _ := b.GetBool();
    var bipred := b.Get(2);
    ok := bipred <= 2;
  }

  method ReadQuantisers(b: Cursor) returns (ok: bool)
    requires b.Valid()
    modifies b
    ensures b.Valid()
    ensures !old(b.failed) ==> Section(GetQuantisers(old(b.Remaining())), false, if ok then RangeOk else RangeInvalid, b.failed, b.Remaining())
    ensures old(b.failed) ==> b.failed
  {
    var value := b.Se();
    if value < -26 || value > 25 {
      return false;
    }
    value := b.Se();
    if value < -26 || value > 25 {
      return false;
    }
    value := b.Se();
    ok := -12 <= value <= 12;
  }

  method ReadPpsFlags(b: Cursor) returns (ok: bool)
    requires b.Valid()
    modifies b
    ensures b.Valid()
    ensures ok <==> !old(b.failed) && GetPpsFlags(old(b.Remaining())).Got?
  {
    var _ := b.GetBool();
    var _ := b.GetBool();
    var redundant := b.GetBool();
    ok := !redundant && !b.failed;
  }

  method ReadPpsPicture(b: Cursor) returns (qualified: bool, bottom: bool)
    requires b.Valid()
    modifies b
    ensures b.Valid()
    ensures qualified <==> !old(b.failed) && GetPpsPicture(old(b.Remaining())).Got?
    ensures bottom == (qualified && GetPpsPicture(old(b.Remaining())).value.bottomFieldPoc)
  {
    var _ := b.GetBool();
    bottom := b.GetBool();
    qualified := ReadReferences(b);
    if !qualified {
      return false, false;
    }
    qualified := ReadQuantisers(b);
    if !qualified {
      return false, false;
    }
    qualified := ReadPpsFlags(b);
    bottom := bottom && qualified;
  }

  /** The caller has already checked the PPS header and its escaping. */
  method PpsPicturePrefix(nal: Bytes) returns (qualified: bool, bottom: bool)
    requires nal != [] && PpsOutcome(nal).Some?
    ensures qualified == PpsPictureOutcome(nal).Some?
    ensures bottom == (qualified && PpsPictureOutcome(nal).value)
  {
    var b := new Cursor(nal, |nal|);
    var _ := b.Ue();
    var _ := b.Ue();
    qualified, bottom := ReadPpsPicture(b);
  }

  method ReadSliceStart(b: Cursor) returns (s: SliceStart)
    requires b.Valid() && !b.failed
    modifies b
    ensures b.Valid()
    ensures Reads(GetSliceStart(old(b.Remaining())), false, b.failed, s, b.Remaining())
  {
    var first := b.Ue();
    var kind := b.Ue();
    var p := b.Ue();
    s := SliceStart(first, kind, p);
  }

  method SlicePrefix(nal: Bytes) returns (pps: Option<nat>)
    ensures pps == SliceOutcome(nal)
  {
    if !SliceHeaderByte(nal) {
      return None;
    }
    var b := new Cursor(nal, Window(|nal|));
    var s := ReadSliceStart(b);
    pps := if b.failed || s.firstMb != 0 || s.sliceType > 9 || s.pps > 255 then None else Some(s.pps);
  }

  method ReadOrder(b: Cursor, sps: SpsRange, bottom: bool) returns (ok: bool, order: Order)
    requires b.Valid()
    modifies b
    ensures b.Valid()
    ensures !old(b.failed) ==> Section(GetOrder(sps, bottom, old(b.Remaining())), false, if ok then RangeOk else RangeInvalid, b.failed, b.Remaining())
    ensures old(b.failed) ==> b.failed
    ensures !old(b.failed) && GetOrder(sps, bottom, old(b.Remaining())).Got? ==>
      order == GetOrder(sps, bottom, old(b.Remaining())).value
  {
    order := Order(0, 0, 0, 0);
    if sps.pocType == 0 {
      if sps.pocLsbBits < 4 || sps.pocLsbBits > 16 {
        return false, order;
      }
      var lsb := b.Get(sps.pocLsbBits);
      order := order.(lsb := lsb);
      if bottom {
        var delta := b.Se();
        order := order.(deltaBottom := delta);
      }
    } else if sps.pocType == 1 && !sps.deltaPicOrderAlwaysZero {
      var delta0 := b.Se();
      order := order.(delta0 := delta0);
      if bottom {
        var delta1 := b.Se();
        order := order.(delta1 := delta1);
      }
    }
    ok := true;
  }

  method ReadPicture(b: Cursor, sps: SpsRange, bottom: bool, s: SliceStart, idr: bool, reference: bool)
    returns (picture: Option<Picture>)
    requires b.Valid() && !b.failed && sps.frameNumBits <= 16
    modifies b
    ensures b.Valid()
    ensures var p := GetPicture(sps, bottom, s, idr, reference, old(b.Remaining()));
      picture == if p.Got? then Some(p.value) else None
  {
    var frameNum := b.Get(sps.frameNumBits);
    var idrPicId := 0;
    if idr {
      idrPicId := b.Ue();
      if frameNum != 0 || s.sliceType % 5 != 2 || idrPicId > 65535 {
        return None;
      }
    }
    var ok, order := ReadOrder(b, sps, bottom);
    if !ok || b.failed {
      return None;
    }
    picture := Some(Picture(s.firstMb, s.pps, frameNum, idrPicId, order, idr, reference));
  }

  /** The observer's local variables between two NAL units. */
  datatype Local = Local(
    observed: Snapshot, picture: Picture, qualified: bool, slices: nat, auds: nat, ambiguous: bool)

  ghost function AsWalk(t: Tables, l: Local): Walk {
    Walk(t, l.observed, l.picture, l.qualified, l.slices, l.auds, l.ambiguous)
  }

  class RangeState {
    const sps: array<SpsSlot>
    const pps: array<PpsSlot>
    var generation: nat
    var exhausted: bool

    ghost function View(): Tables
      reads this, sps, pps
    {
      Tables(sps[..], pps[..], generation, exhausted)
    }

    ghost predicate Valid()
      reads this, sps, pps
    {
      Sized(View())
    }

    constructor ()
      ensures Valid() && View() == ZeroTables() && fresh(sps) && fresh(pps)
    {
      sps := new SpsSlot[32](_ => SpsSlot(NO_RANGE, 0, false));
      pps := new PpsSlot[256](_ => PpsSlot(0, false, false, false));
      generation, exhausted := 0, false;
      new;
      assert sps[..] == ZeroTables().sps && pps[..] == ZeroTables().pps;
    }

    method InvalidatePps()
      requires Valid()
      modifies pps
      ensures Valid() && View() == old(View()).(pps := ForgetPps(old(pps[..])))
    {
      var i := 0;
      while i < 256
        invariant 0 <= i <= 256
        invariant forall k :: 0 <= k < i ==> pps[k] == old(pps[k]).(valid := false)
        invariant forall k :: i <= k < 256 ==> pps[k] == old(pps[k])
      {
        pps[i] := pps[i].(valid := false);
        i := i + 1;
      }
      assert pps[..] == ForgetPps(old(pps[..]));
    }

    method ForgetAll()
      requires Valid()
      modifies sps, pps
      ensures Valid() && View() == Forget(old(View()))
    {
      var i := 0;
      while i < 32
        invariant 0 <= i <= 32
        invariant forall k :: 0 <= k < i ==> sps[k] == old(sps[k]).(valid := false)
        invariant forall k :: i <= k < 32 ==> sps[k] == old(sps[k])
        modifies sps
      {
        sps[i] := sps[i].(valid := false);
        i := i + 1;
      }
      assert sps[..] == ForgetSps(old(sps[..]));
      InvalidatePps();
    }

    method PicturePrefix(nal: Bytes) returns (picture: Option<Picture>)
      requires Valid()
      ensures picture == PictureOutcome(View(), nal)
    {
      if !SliceHeaderByte(nal) {
        return None;
      }
      var b := new Cursor(nal, Window(|nal|));
      var s := ReadSliceStart(b);
      if b.failed || s.pps > 255 || s.sliceType > 9 || s.sliceType % 5 > 2 {
        return None;
      }
      var p := pps[s.pps];
      assert p == View().pps[s.pps];
      var q := sps[p.spsId];
      if !p.valid || !p.qualified || !q.valid {
        return None;
      }
      var v := q.value;
      if !v.frameMbsOnly || v.pocType > 2 || v.frameNumBits < 4 || v.frameNumBits > 16 ||
         v.picSizeInMapUnits == 0 || s.firstMb >= v.picSizeInMapUnits {
        return None;
      }
      picture := ReadPicture(b, v, p.bottom, s, nal[0] % 32 == 5, (nal[0] / 32) % 4 != 0);
    }

    /** A usable SPS takes the next generation, if there is one. */
    method StoreSps(value: SpsRange)
      requires Valid() && value.spsId < 32 && generation < U64_MAX
      modifies this, sps
      ensures Valid() && generation == old(generation) + 1
      ensures View() == old(View()).(generation := generation,
        sps := old(sps[..])[value.spsId := SpsSlot(value, generation, true)])
    {
      var q := value.spsId;
      generation := generation + 1;
      sps[q] := SpsSlot(value, generation, true);
      assert sps[..] == old(sps[..])[q := SpsSlot(value, generation, true)];
    }

    /** What the SPS reader found, bound to the tables; `stop` when no generation is left for it. */
    method BindSps(status: Status, value: SpsRange, l: Local) returns (l': Local, stop: bool)
      requires Valid() && (status.RangeOk? ==> value.spsId < 32)
      modifies this, sps, pps
      ensures Valid()
      ensures stop <==> status.RangeOk? && old(generation) == U64_MAX
      ensures stop ==> View() == Forget(old(View()).(exhausted := true))
      ensures !stop && old(generation) < U64_MAX ==>
        AsWalk(View(), l') == StepSps(AsWalk(old(View()), l), SpsResult(status, value))
      ensures !stop && old(generation) == U64_MAX ==>
        View() == Forget(old(View())) && l' == l.(ambiguous := true)
    {
      stop := false;
      l' := l;
      if l.slices > 0 {
        l' := l'.(ambiguous := true);
      }
      if status != RangeOk {
        ForgetAll();
        l' := l'.(ambiguous := true);
      } else if generation == U64_MAX {
        exhausted := true;
        ForgetAll();
        stop := true;
      } else {
        StoreSps(value);
      }
    }

    method OnSps(nal: Bytes, l: Local) returns (l': Local, stop: bool)
      requires Valid() && nal != [] && NalType(nal) == 7
      modifies this, sps, pps
      ensures Valid()
      ensures stop <==> Exhausts(old(View()), nal)
      ensures stop ==> View() == Forget(old(View()).(exhausted := true))
      ensures !stop ==> AsWalk(View(), l') == StepNal(AsWalk(old(View()), l), nal)
    {
      var status, value := ReadSpsRange(nal, |nal|, NO_RANGE);
      ghost var o := SpsOutcome(nal, |nal|);
      NalSpsId(nal);
      assert !status.RangeOk? ==> o.facts == NO_RANGE;
      assert SpsResult(status, value) == o;
      l', stop := BindSps(status, value, l);
    }

    method OnPps(nal: Bytes, l: Local) returns (l': Local)
      requires Valid() && nal != [] && NalType(nal) == 8
      modifies pps
      ensures Valid()
      ensures AsWalk(View(), l') == StepPps(AsWalk(old(View()), l), nal)
    {
      l' := l;
      if l.slices > 0 {
        l' := l'.(ambiguous := true);
      }
      var ids := PpsPrefix(nal);
      if ids.None? {
        InvalidatePps();
        l' := l'.(ambiguous := true);
      } else {
        var p := ids.value.pps;
        var qualified, bottom := PpsPicturePrefix(nal);
        NalPpsId(nal);
        pps[p] := PpsSlot(ids.value.sps, true, qualified, bottom);
        assert pps[..] == old(pps[..])[p := PpsSlot(ids.value.sps, true, qualified, bottom)];
      }
    }

    method OnSlice(nal: Bytes, l: Local) returns (l': Local)
      requires Valid()
      ensures AsWalk(View(), l') == StepSlice(AsWalk(View(), l), nal)
    {
      l' := l.(slices := l.slices + 1);
      if l'.slices > 1 {
        var next := PicturePrefix(nal);
        if !l'.qualified || next.None? || next.value.firstMb <= l'.picture.firstMb ||
           !SamePicture(l'.picture, next.value) {
          l' := l'.(ambiguous := true);
        } else {
          l' := l'.(picture := next.value);
        }
      } else {
        var p := SlicePrefix(nal);
        if p.None? {
          l' := l'.(ambiguous := true);
        } else {
          assert pps[p.value] == View().pps[p.value];
          var q := pps[p.value].spsId;
          if pps[p.value].valid && sps[q].valid {
            var slot := sps[q];
            var picture := PicturePrefix(nal);
            l' := l'.(
              observed := Snapshot(slot.generation, q, p.value, true, slot.value.rangePresent, slot.value.fullRange),
              qualified := picture.Some?,
              picture := if picture.Some? then picture.value else l'.picture);
          }
        }
      }
    }

    method OnNal(nal: Bytes, l: Local) returns (l': Local, stop: bool)
      requires Valid() && nal != []
      modifies this, sps, pps
      ensures Valid()
      ensures stop <==> Exhausts(old(View()), nal)
      ensures stop ==> View() == Forget(old(View()).(exhausted := true))
      ensures !stop ==> AsWalk(View(), l') == StepNal(AsWalk(old(View()), l), nal)
    {
      var kind := nal[0] % 32;
      stop := false;
      l' := l;
      if kind == 7 {
        l', stop := OnSps(nal, l);
      } else if kind == 8 {
        l' := OnPps(nal, l);
      } else if kind == 1 || kind == 5 {
        l' := OnSlice(nal, l);
      } else if kind == 9 {
        l' := l.(auds := l.auds + 1);
        if l'.auds > 1 || l.slices > 0 {
          l' := l'.(ambiguous := true);
        }
      } else if kind == 6 {
        if l.slices > 0 {
          l' := l.(ambiguous := true);
        }
      } else if kind == 10 || kind == 11 {
        ForgetAll();
      } else if kind != 12 {
        ForgetAll();
        l' := l.(ambiguous := true);
      }
    }

    /** One NAL unit of the scan, the first of `f`; `stop` when the access unit is abandoned. */
    method ObserveUnit(nal: Bytes, count: nat, l: Local, ghost f: Framing) returns (l': Local, stop: bool)
      requires Valid() && f.nals != [] && f.nals[0] == nal
      modifies this, sps, pps
      ensures Valid()
      ensures var before := WalkUnits(AsWalk(old(View()), l), f.nals, count, f.dangling);
        before == if stop then Observation(View(), EMPTY)
          else if |f.nals| > 1 then WalkUnits(AsWalk(View(), l'), f.nals[1..], count + 1, f.dangling)
          else if f.dangling then Abandon(View())
          else Conclude(AsWalk(View(), l'))
    {
      l' := l;
      if count + 1 > MAX_NALS || nal == [] || nal[0] >= 128 {
        ForgetAll();
        return l, true;
      }
      l', stop := OnNal(nal, l);
    }

    /** The NAL units from `first`, where a start code has just ended. */
    method ObserveUnits(data: Bytes, first: nat) returns (out: Snapshot)
      requires Valid() && first < |data|
      modifies this, sps, pps
      ensures Valid()
      ensures var f := Split(data[first..]);
        Observation(View(), out) == WalkUnits(StartWalk(old(View())), f.nals, 0, f.dangling)
    {
      ghost var spec := WalkUnits(StartWalk(View()), Split(data[first..]).nals, 0, Split(data[first..]).dangling);
      out := EMPTY;
      var l := Local(EMPTY, NO_PICTURE, false, 0, 0, false);
      var pos, nals := first, 0;
      while true
        invariant Valid() && pos < |data|
        invariant spec == WalkUnits(AsWalk(View(), l), Split(data[pos..]).nals, nals, Split(data[pos..]).dangling)
        decreases |data| - pos
      {
        var next, end := FindStart(data, pos);
        var boundary := end < |data|;
        var size := TrimmedSize(data, pos, end);
        var nal := data[pos..pos + size];
        SplitShape(data, pos, next, end, nal);
        ghost var f := Split(data[pos..]);
        assert next < |data| ==> f.nals[1..] == Split(data[next..]).nals;
        var l', stop := ObserveUnit(nal, nals, l, f);
        if stop {
          return;
        }
        l, nals := l', nals + 1;
        if next == |data| {
          if boundary {
            ForgetAll();
            return;
          }
          break;
        }
        pos := next;
      }
      if !l.ambiguous && l.slices > 0 {
        out := l.observed;
      }
    }

    /** chd_h264_observe_range */
    method ObserveRange(data: Bytes) returns (out: Snapshot)
      requires Valid()
      modifies this, sps, pps
      ensures Valid() && Observation(View(), out) == Observe(old(View()), data)
    {
      out := EMPTY;
      if data == [] || |data| > MAX_AU || exhausted {
        ForgetAll();
        return;
      }
      var pos, start := FindStart(data, 0);
      assert data[0..] == data;
      var clean := LeadingZeros(data, start);
      if pos == |data| || !clean {
        ForgetAll();
        return;
      }
      out := ObserveUnits(data, pos);
    }
  }

  lemma NalPpsId(nal: Bytes)
    requires nal != []
    ensures PpsOutcome(nal).Some? ==> PpsOutcome(nal).value.pps < 256 && PpsOutcome(nal).value.sps < 32
  {
  }

  method LeadingZeros(data: Bytes, start: nat) returns (clean: bool)
    requires start <= |data|
    ensures clean == AllZero(data[..start])
  {
    clean := true;
    for i := 0 to start
      invariant clean == AllZero(data[..i])
    {
      assert data[..i + 1] == data[..i] + [data[i]];
      if data[i] != 0 {
        clean := false;
      }
    }
  }

  /** Zero padding after a NAL unit is framing. */
  method TrimmedSize(data: Bytes, pos: nat, end: nat) returns (size: nat)
    requires pos <= end <= |data|
    ensures size <= end - pos && data[pos..pos + size] == TrimZeros(data[pos..end])
  {
    size := end - pos;
    while size > 0 && data[pos + size - 1] == 0
      invariant size <= end - pos
      invariant TrimZeros(data[pos..pos + size]) == TrimZeros(data[pos..end])
    {
      assert data[pos..pos + size][..size - 1] == data[pos..pos + size - 1];
      size := size - 1;
    }
  }

  lemma {:induction false} SplitShape(data: Bytes, pos: nat, next: nat, end: nat, nal: Bytes)
    requires pos <= end <= next <= |data|
    requires StartCode(end, next) == Shift(Scan(data[pos..], 0), pos)
    requires nal == TrimZeros(data[pos..end])
    ensures var f := Split(data[pos..]);
      if next == |data| then f == Framing([nal], end < |data|)
      else next > pos && f == Framing([nal] + Split(data[next..]).nals, Split(data[next..]).dangling)
  {
    var s := data[pos..];
    var c := Scan(s, 0);
    assert c == StartCode(end - pos, next - pos);
    assert s[..c.start] == data[pos..end] && s[c.next..] == data[next..];
  }
}
