/**
 * What the range observer promises over whole runs: a generation names one SPS for
 * ever, abandoned access units leave nothing behind, an associated multi-slice unit is
 * one picture, and neither framing nor the 128-byte slice window matters.
 */
module RangeTheorems {
  import opened Basics
  import opened BitSyntax
  import opened BitCursor
  import opened Emulation
  import opened SpsSyntax
  import opened SpsReader
  import opened SpsNal
  import opened SliceSyntax
  import opened AnnexB
  import opened RangeModel
  import opened SliceWindow

  // ---- generations -----------------------------------------------------------------

  /** Which SPS each generation so far was given to. */
  type History = map<nat, SpsRange>

  ghost predicate Recorded(t: Tables, h: History) {
    && Sized(t)
    && (forall g :: g in h ==> 1 <= g <= t.generation)
    && (forall q :: 0 <= q < 32 && t.sps[q].valid ==>
          t.sps[q].generation in h && h[t.sps[q].generation] == t.sps[q].value && t.sps[q].value.spsId == q)
  }

  /** The snapshot tells what history says about its generation. */
  ghost predicate TrueTo(s: Snapshot, h: History) {
    s.associated ==>
      s.generation in h && s.spsId == h[s.generation].spsId &&
      s.rangePresent == h[s.generation].rangePresent && s.fullRange == h[s.generation].fullRange
  }

  ghost predicate Extends(h: History, h': History) {
    forall g :: g in h ==> g in h' && h'[g] == h[g]
  }

  ghost function RecordSps(w: Walk, outcome: SpsResult, h: History): History {
    if outcome.status.RangeOk? then h[w.t.generation + 1 := outcome.facts] else h
  }

  ghost function RecordNal(w: Walk, nal: Bytes, h: History): History
    requires nal != []
  {
    if NalType(nal) == 7 then RecordSps(w, SpsOutcome(nal, |nal|), h) else h
  }

  lemma StepSpsRecords(w: Walk, outcome: SpsResult, h: History)
    requires Recorded(w.t, h) && w.t.generation < U64_MAX
    requires outcome.status.RangeOk? ==> outcome.facts.spsId < 32
    ensures Recorded(StepSps(w, outcome).t, RecordSps(w, outcome, h))
    ensures Extends(h, RecordSps(w, outcome, h))
  {
    assert w.t.generation + 1 !in h;
  }

  lemma StepRecords(w: Walk, nal: Bytes, h: History)
    requires Recorded(w.t, h) && TrueTo(w.observed, h)
    requires nal != [] && !Exhausts(w.t, nal)
    ensures Extends(h, RecordNal(w, nal, h))
    ensures Recorded(StepNal(w, nal).t, RecordNal(w, nal, h))
    ensures TrueTo(StepNal(w, nal).observed, RecordNal(w, nal, h))
  {
    if NalType(nal) == 7 && w.t.generation < U64_MAX {
      NalSpsId(nal);
      StepSpsRecords(w, SpsOutcome(nal, |nal|), h);
    }
  }

  lemma {:induction false} WalkRecords(w: Walk, nals: seq<Bytes>, count: nat, dangling: bool, h: History)
    returns (h': History)
    requires Recorded(w.t, h) && TrueTo(w.observed, h) && nals != []
    ensures Extends(h, h')
    ensures Recorded(WalkUnits(w, nals, count, dangling).t, h')
    ensures TrueTo(WalkUnits(w, nals, count, dangling).snapshot, h')
    decreases |nals|, 1
  {
    h' := h;
    if count + 1 <= MAX_NALS && !BadUnit(nals[0]) && !Exhausts(w.t, nals[0]) {
      StepRecords(w, nals[0], h);
      h' := WalkOnRecords(StepNal(w, nals[0]), nals, count, dangling, RecordNal(w, nals[0], h));
    }
  }

  lemma {:induction false} WalkOnRecords(w: Walk, nals: seq<Bytes>, count: nat, dangling: bool, h: History)
    returns (h': History)
    requires Recorded(w.t, h) && TrueTo(w.observed, h) && nals != []
    ensures Extends(h, h')
    ensures Recorded(WalkOn(w, nals, count, dangling).t, h')
    ensures TrueTo(WalkOn(w, nals, count, dangling).snapshot, h')
    decreases |nals|, 0
  {
    h' := h;
    if |nals| > 1 {
      h' := WalkRecords(w, nals[1..], count + 1, dangling, h);
    }
  }

  /** The snapshots of consecutive access units. */
  ghost function Run(t: Tables, units: seq<Bytes>): seq<Snapshot>
    requires Sized(t)
    decreases |units|
  {
    if units == [] then []
    else [Observe(t, units[0]).snapshot] + Run(Observe(t, units[0]).t, units[1..])
  }

  lemma ObserveRecords(t: Tables, data: Bytes, h: History) returns (h': History)
    requires Recorded(t, h)
    ensures Extends(h, h') && Recorded(Observe(t, data).t, h') && TrueTo(Observe(t, data).snapshot, h')
  {
    var f := Units(data);
    if data == [] || |data| > MAX_AU || t.exhausted || f.None? {
      h' := h;
    } else {
      h' := WalkRecords(StartWalk(t), f.value.nals, 0, f.value.dangling, h);
    }
  }

  ghost predicate AllTrueTo(snapshots: seq<Snapshot>, h: History) {
    forall i :: 0 <= i < |snapshots| ==> TrueTo(snapshots[i], h)
  }

  lemma {:induction false} RunRecords(t: Tables, units: seq<Bytes>, h: History) returns (h': History)
    requires Recorded(t, h)
    ensures Extends(h, h') && |Run(t, units)| == |units| && AllTrueTo(Run(t, units), h')
    decreases |units|
  {
    if units == [] {
      h' := h;
    } else {
      var h1 := ObserveRecords(t, units[0], h);
      var o := Observe(t, units[0]);
      h' := RunRecords(o.t, units[1..], h1);
      ConsTrueTo(o.snapshot, Run(o.t, units[1..]), h1, h');
    }
  }

  lemma ConsTrueTo(s: Snapshot, more: seq<Snapshot>, h1: History, h: History)
    requires TrueTo(s, h1) && Extends(h1, h) && AllTrueTo(more, h)
    ensures AllTrueTo([s] + more, h)
  {
  }

  /** In any run from a zeroed state, equal generations mean the same SPS facts. */
  lemma GenerationNamesOneSps(units: seq<Bytes>, i: nat, j: nat)
    requires i < |units| && j < |units|
    ensures |Run(ZeroTables(), units)| == |units|
    ensures var a, b := Run(ZeroTables(), units)[i], Run(ZeroTables(), units)[j];
      a.associated && b.associated && a.generation == b.generation ==>
        a.spsId == b.spsId && a.rangePresent == b.rangePresent && a.fullRange == b.fullRange
  {
    var h := RunRecords(ZeroTables(), units, map[]);
    assert TrueTo(Run(ZeroTables(), units)[i], h) && TrueTo(Run(ZeroTables(), units)[j], h);
  }

  // ---- exhaustion and abandoned units ----------------------------------------------

  /** Access units that the scan gives up on, whatever the tables say. */
  ghost predicate Malformed(data: Bytes) {
    || data == [] || |data| > MAX_AU || Units(data).None?
    || Units(data).value.dangling || |Units(data).value.nals| > MAX_NALS
    || exists i :: 0 <= i < |Units(data).value.nals| && BadUnit(Units(data).value.nals[i])
  }

  lemma {:induction false} WalkAbandons(w: Walk, nals: seq<Bytes>, count: nat, dangling: bool)
    requires Sized(w.t) && nals != []
    requires dangling || count + |nals| > MAX_NALS || exists i :: 0 <= i < |nals| && BadUnit(nals[i])
    ensures WalkUnits(w, nals, count, dangling).snapshot == EMPTY
    ensures AllInvalid(WalkUnits(w, nals, count, dangling).t)
    decreases |nals|, 1
  {
    if count + 1 <= MAX_NALS && !BadUnit(nals[0]) && !Exhausts(w.t, nals[0]) {
      WalkOnAbandons(StepNal(w, nals[0]), nals, count, dangling);
    }
  }

  lemma {:induction false} WalkOnAbandons(w: Walk, nals: seq<Bytes>, count: nat, dangling: bool)
    requires Sized(w.t) && nals != [] && count + 1 <= MAX_NALS && !BadUnit(nals[0])
    requires dangling || count + |nals| > MAX_NALS || exists i :: 0 <= i < |nals| && BadUnit(nals[i])
    ensures WalkOn(w, nals, count, dangling).snapshot == EMPTY
    ensures AllInvalid(WalkOn(w, nals, count, dangling).t)
    decreases |nals|, 0
  {
    if |nals| > 1 {
      if exists i :: 0 <= i < |nals| && BadUnit(nals[i]) {
        var i :| 0 <= i < |nals| && BadUnit(nals[i]);
        assert nals[1..][i - 1] == nals[i];
      }
      WalkAbandons(w, nals[1..], count + 1, dangling);
    }
  }

  ghost predicate HoldsSps(nals: seq<Bytes>) {
    exists i :: 0 <= i < |nals| && nals[i] != [] && NalType(nals[i]) == 7 && SpsOutcome(nals[i], |nals[i]|).status.RangeOk?
  }

  /** A walk ends exhausted only at an SPS that finds no generation left, and forgets everything there. */
  lemma {:induction false} WalkExhausts(w: Walk, nals: seq<Bytes>, count: nat, dangling: bool)
    requires Sized(w.t) && !w.t.exhausted && nals != [] && WalkUnits(w, nals, count, dangling).t.exhausted
    ensures var o := WalkUnits(w, nals, count, dangling);
      o.snapshot == EMPTY && AllInvalid(o.t) && o.t.generation == U64_MAX && HoldsSps(nals)
    decreases |nals|
  {
    if !Exhausts(w.t, nals[0]) {
      WalkExhausts(StepNal(w, nals[0]), nals[1..], count + 1, dangling);
      var i :| 0 <= i < |nals[1..]| && nals[1..][i] != [] && NalType(nals[1..][i]) == 7 &&
        SpsOutcome(nals[1..][i], |nals[1..][i]|).status.RangeOk?;
      assert nals[i + 1] == nals[1..][i];
    }
  }

  /** The last generation is given away, and the access unit has an SPS that would need another. */
  lemma ExhaustedAtTheLimit(t: Tables, data: Bytes)
    requires Sized(t) && !t.exhausted && Observe(t, data).t.exhausted
    ensures Units(data).Some? && HoldsSps(Units(data).value.nals)
    ensures Observe(t, data).t.generation == U64_MAX && Observe(t, data).snapshot == EMPTY
    ensures AllInvalid(Observe(t, data).t)
  {
    WalkExhausts(StartWalk(t), Units(data).value.nals, 0, Units(data).value.dangling);
  }

  /** Every early exit, the one that exhausts the counter included, leaves nothing behind. */
  lemma MalformedForgetsAll(t: Tables, data: Bytes)
    requires Sized(t) && (t.exhausted || Malformed(data) || Observe(t, data).t.exhausted)
    ensures Observe(t, data).snapshot == EMPTY && AllInvalid(Observe(t, data).t)
  {
    if t.exhausted || data == [] || |data| > MAX_AU || Units(data).None? {
      assert Observe(t, data) == Abandon(t);
    } else if Malformed(data) {
      WalkAbandons(StartWalk(t), Units(data).value.nals, 0, Units(data).value.dangling);
    } else {
      ExhaustedAtTheLimit(t, data);
    }
  }

  /** The tables after some access units. */
  ghost function After(t: Tables, units: seq<Bytes>): (r: Tables)
    requires Sized(t)
    ensures Sized(r)
    decreases |units|
  {
    if units == [] then t else After(Observe(t, units[0]).t, units[1..])
  }

  /** From the unit that exhausts the counter on, nothing is associated and no table entry is valid. */
  lemma {:induction false} ExhaustedForGood(t: Tables, units: seq<Bytes>, k: nat, i: nat)
    requires Sized(t) && k <= i + 1 && i < |units| && After(t, units[..k]).exhausted
    ensures |Run(t, units)| == |units| && Run(t, units)[i] == EMPTY
    ensures After(t, units[..i + 1]).exhausted && AllInvalid(After(t, units[..i + 1]))
    decreases |units|
  {
    var o := Observe(t, units[0]);
    RunLength(o.t, units[1..]);
    assert units[..i + 1][1..] == units[1..][..i];
    if k > 0 {
      assert units[..k][1..] == units[1..][..k - 1];
    }
    if i > 0 {
      ExhaustedForGood(o.t, units[1..], if k > 0 then k - 1 else 0, i - 1);
      assert units[1..][..i - 1 + 1] == units[1..][..i];
    } else {
      MalformedForgetsAll(t, units[0]);
    }
  }

  lemma {:induction false} RunLength(t: Tables, units: seq<Bytes>)
    requires Sized(t)
    ensures |Run(t, units)| == |units|
    decreases |units|
  {
    if units != [] {
      RunLength(Observe(t, units[0]).t, units[1..]);
    }
  }

  // ---- framing ---------------------------------------------------------------------

  /** An access unit is observed as the units it frames. */
  lemma FramedUnitsAreWalked(t: Tables, nals: seq<Bytes>, gaps: seq<nat>, trailing: nat)
    requires Sized(t) && !t.exhausted && |nals| == |gaps| > 0
    requires forall i :: 0 <= i < |nals| ==> Framable(nals[i]) && gaps[i] >= 2
    requires |Frame(nals, gaps, trailing)| <= MAX_AU
    ensures Observe(t, Frame(nals, gaps, trailing)) == WalkUnits(StartWalk(t), nals, 0, false)
  {
    SplitUndoesFrame(nals, gaps, trailing);
  }

  /** Two framings of the same units are the same observation. */
  lemma FramingDoesNotMatter(t: Tables, nals: seq<Bytes>, gaps1: seq<nat>, trailing1: nat, gaps2: seq<nat>, trailing2: nat)
    requires Sized(t) && |nals| == |gaps1| == |gaps2| > 0
    requires forall i :: 0 <= i < |nals| ==> Framable(nals[i])
    requires forall i :: 0 <= i < |nals| ==> gaps1[i] >= 2 && gaps2[i] >= 2
    requires |Frame(nals, gaps1, trailing1)| <= MAX_AU && |Frame(nals, gaps2, trailing2)| <= MAX_AU
    ensures Observe(t, Frame(nals, gaps1, trailing1)) == Observe(t, Frame(nals, gaps2, trailing2))
  {
    SplitUndoesFrame(nals, gaps1, trailing1);
    SplitUndoesFrame(nals, gaps2, trailing2);
  }

  // ---- one picture -----------------------------------------------------------------

  predicate IsSlice(nal: Bytes) { nal != [] && (NalType(nal) == 1 || NalType(nal) == 5) }

  ghost function SlicesOf(nals: seq<Bytes>): seq<Bytes>
    decreases |nals|
  {
    if nals == [] then []
    else if IsSlice(nals[0]) then [nals[0]] + SlicesOf(nals[1..])
    else SlicesOf(nals[1..])
  }

  /** Headers of one picture in macroblock order. */
  ghost predicate Ascending(pics: seq<Picture>) {
    && (forall i, j :: 0 <= i < j < |pics| ==> pics[i].firstMb < pics[j].firstMb)
    && (forall i, j :: 0 <= i < |pics| && 0 <= j < |pics| ==> SamePicture(pics[i], pics[j]))
  }

  ghost predicate ReadAs(t: Tables, slices: seq<Bytes>, pics: seq<Picture>)
    requires Sized(t)
  {
    |pics| == |slices| && forall i :: 0 <= i < |pics| ==> PictureOutcome(t, slices[i]) == Some(pics[i])
  }

  /** The slices read under tables t as headers of one picture, in macroblock order. */
  ghost predicate OnePicture(t: Tables, slices: seq<Bytes>, pics: seq<Picture>)
    requires Sized(t)
  {
    ReadAs(t, slices, pics) && Ascending(pics)
  }

  /** The snapshot is the observation a first slice makes under tables t. */
  ghost predicate ObservedAt(t: Tables, slice: Bytes, s: Snapshot)
    requires Sized(t)
  {
    && SliceOutcome(slice) == Some(s.ppsId) && s.associated
    && t.pps[s.ppsId].valid && s.spsId == t.pps[s.ppsId].spsId && t.sps[s.spsId].valid
    && s.generation == t.sps[s.spsId].generation
    && s.rangePresent == t.sps[s.spsId].value.rangePresent && s.fullRange == t.sps[s.spsId].value.fullRange
  }

  /** Where an unambiguous walk stands after the slices seen so far; t holds at the first. */
  ghost predicate Trail(w: Walk, seen: seq<Bytes>, t: Tables, pics: seq<Picture>)
    requires Sized(w.t) && Sized(t)
  {
    && w.slices == |seen|
    && (w.slices == 0 ==> !w.observed.associated && !w.qualified)
    && (!w.observed.associated ==> !w.qualified)
    && (!w.ambiguous && w.observed.associated ==>
      && |seen| > 0 && ObservedAt(t, seen[0], w.observed) && (w.t == t || w.t == Forget(t))
      && (w.qualified ==> OnePicture(t, seen, pics) && pics[|pics| - 1] == w.picture)
      && (!w.qualified ==> |seen| == 1))
  }

  lemma NoPictureWhenForgotten(t: Tables, nal: Bytes)
    requires Sized(t)
    ensures PictureOutcome(Forget(t), nal) == None
  {
  }

  lemma AddPicture(pics: seq<Picture>, next: Picture)
    requires Ascending(pics) && pics != []
    requires SamePicture(pics[|pics| - 1], next) && pics[|pics| - 1].firstMb < next.firstMb
    ensures Ascending(pics + [next])
  {
    var all, last := pics + [next], pics[|pics| - 1];
    forall i, j | 0 <= i < |all| && 0 <= j < |all|
      ensures SamePicture(all[i], all[j]) && (i < j ==> all[i].firstMb < all[j].firstMb)
    {
      assert i < |pics| ==> SamePicture(pics[i], last) && pics[i].firstMb <= last.firstMb;
      assert j < |pics| ==> SamePicture(pics[j], last);
    }
  }

  lemma LaterSliceKeepsTrail(w: Walk, nal: Bytes, seen: seq<Bytes>, t: Tables, pics: seq<Picture>)
    returns (pics': seq<Picture>)
    requires Sized(w.t) && Sized(t) && Trail(w, seen, t, pics) && |seen| > 0
    ensures Trail(StepSlice(w, nal), seen + [nal], t, pics')
  {
    var next := PictureOutcome(w.t, nal);
    var w' := StepSlice(w, nal);
    pics' := pics;
    if w'.ambiguous || !w'.observed.associated {
    } else {
      assert w' == w.(slices := w.slices + 1, picture := next.value);
      NoPictureWhenForgotten(t, nal);
      assert w.t == t;
      pics' := pics + [next.value];
      AddPicture(pics, next.value);
    }
  }

  lemma FirstSliceStartsTrail(w: Walk, nal: Bytes, t: Tables, pics: seq<Picture>) returns (pics': seq<Picture>)
    requires Sized(w.t) && Sized(t) && Trail(w, [], t, pics)
    ensures Trail(StepSlice(w, nal), [nal], w.t, pics')
  {
    var picture := PictureOutcome(w.t, nal);
    pics' := if picture.Some? then [picture.value] else [];
    assert picture.Some? ==> OnePicture(w.t, [nal], pics');
  }

  /** What a unit that is no slice can change once slices have been seen. */
  ghost predicate Bystander(w: Walk, w': Walk) {
    && (w'.observed, w'.qualified, w'.slices, w'.picture) == (w.observed, w.qualified, w.slices, w.picture)
    && (w.ambiguous ==> w'.ambiguous)
    && (w.slices > 0 && !w'.ambiguous ==> w'.t == w.t || w'.t == Forget(w.t))
  }

  lemma OthersAreBystanders(w: Walk, nal: Bytes)
    requires Sized(w.t) && nal != [] && !Exhausts(w.t, nal) && !IsSlice(nal)
    ensures Bystander(w, StepNal(w, nal))
  {
  }

  lemma BystanderKeepsTrail(w: Walk, w': Walk, seen: seq<Bytes>, t: Tables, pics: seq<Picture>)
    requires Sized(w.t) && Sized(w'.t) && Sized(t) && Trail(w, seen, t, pics) && Bystander(w, w')
    ensures Trail(w', seen, t, pics)
  {
    assert Forget(Forget(t)) == Forget(t);
  }

  lemma StepKeepsTrail(w: Walk, nal: Bytes, seen: seq<Bytes>, t: Tables, pics: seq<Picture>)
    returns (t': Tables, pics': seq<Picture>)
    requires Sized(w.t) && Sized(t) && Trail(w, seen, t, pics) && nal != [] && !Exhausts(w.t, nal)
    ensures Sized(t') && Trail(StepNal(w, nal), if IsSlice(nal) then seen + [nal] else seen, t', pics')
  {
    t', pics' := t, pics;
    if !IsSlice(nal) {
      OthersAreBystanders(w, nal);
      BystanderKeepsTrail(w, StepNal(w, nal), seen, t, pics);
    } else {
      assert StepNal(w, nal) == StepSlice(w, nal);
      if seen != [] {
        pics' := LaterSliceKeepsTrail(w, nal, seen, t, pics);
      } else {
        t' := w.t;
        pics' := FirstSliceStartsTrail(w, nal, t, pics);
        assert seen + [nal] == [nal];
      }
    }
  }

  lemma {:induction false} WalkLeavesTrail(w: Walk, nals: seq<Bytes>, count: nat, dangling: bool,
                                           seen: seq<Bytes>, t: Tables, pics: seq<Picture>)
    returns (t': Tables, pics': seq<Picture>)
    requires Sized(w.t) && Sized(t) && Trail(w, seen, t, pics) && nals != []
    requires WalkUnits(w, nals, count, dangling).snapshot.associated
    ensures Sized(t') && seen + SlicesOf(nals) != []
    ensures var slices, s := seen + SlicesOf(nals), WalkUnits(w, nals, count, dangling).snapshot;
      ObservedAt(t', slices[0], s) && (|slices| > 1 ==> OnePicture(t', slices, pics'))
    decreases |nals|, 1
  {
    var nal := nals[0];
    t', pics' := StepKeepsTrail(w, nal, seen, t, pics);
    var seen' := if IsSlice(nal) then seen + [nal] else seen;
    assert seen + SlicesOf(nals) == seen' + SlicesOf(nals[1..]);
    t', pics' := WalkOnLeavesTrail(StepNal(w, nal), nals, count, dangling, seen', t', pics');
  }

  lemma {:induction false} WalkOnLeavesTrail(w: Walk, nals: seq<Bytes>, count: nat, dangling: bool,
                                             seen: seq<Bytes>, t: Tables, pics: seq<Picture>)
    returns (t': Tables, pics': seq<Picture>)
    requires Sized(w.t) && Sized(t) && Trail(w, seen, t, pics) && nals != []
    requires WalkOn(w, nals, count, dangling).snapshot.associated
    ensures Sized(t') && seen + SlicesOf(nals[1..]) != []
    ensures var slices, s := seen + SlicesOf(nals[1..]), WalkOn(w, nals, count, dangling).snapshot;
      ObservedAt(t', slices[0], s) && (|slices| > 1 ==> OnePicture(t', slices, pics'))
    decreases |nals|, 0
  {
    t', pics' := t, pics;
    if |nals| > 1 {
      t', pics' := WalkLeavesTrail(w, nals[1..], count + 1, dangling, seen, t, pics);
    } else {
      assert seen + SlicesOf(nals[1..]) == seen;
    }
  }

  /**
   * An associated snapshot describes the SPS that its first slice refers to, and when the
   * access unit has several slices they are the headers of one picture: they start at
   * macroblock 0, rise strictly, stay inside the picture and share one picture key.
   */
  lemma AssociatedUnitIsOnePicture(t: Tables, data: Bytes) returns (at: Tables, pics: seq<Picture>)
    requires Sized(t) && Observe(t, data).snapshot.associated
    ensures Units(data).Some? && Sized(at)
    ensures var slices, s := SlicesOf(Units(data).value.nals), Observe(t, data).snapshot;
      && slices != [] && ObservedAt(at, slices[0], s)
      && (|slices| > 1 ==>
        && OnePicture(at, slices, pics) && pics[0].firstMb == 0
        && forall i :: 0 <= i < |pics| ==>
          pics[i].ppsId == s.ppsId && pics[i].firstMb < at.sps[s.spsId].value.picSizeInMapUnits)
  {
    var f := Units(data).value;
    at, pics := WalkLeavesTrail(StartWalk(t), f.nals, 0, f.dangling, [], t, []);
    var slices, s := SlicesOf(f.nals), Observe(t, data).snapshot;
    assert [] + slices == slices;
    if |slices| > 1 {
      FirstSliceAtZero(at, slices[0], s.ppsId, pics[0]);
      forall i | 0 <= i < |pics|
        ensures pics[i].ppsId == s.ppsId && pics[i].firstMb < at.sps[s.spsId].value.picSizeInMapUnits
      {
        assert SamePicture(pics[i], pics[0]);
        InsidePicture(at, slices[i], pics[i]);
      }
    }
  }

  lemma FirstSliceAtZero(t: Tables, nal: Bytes, pps: nat, p: Picture)
    requires Sized(t) && SliceOutcome(nal) == Some(pps) && PictureOutcome(t, nal) == Some(p)
    ensures p.firstMb == 0 && p.ppsId == pps
  {
  }

  lemma InsidePicture(t: Tables, nal: Bytes, p: Picture)
    requires Sized(t) && PictureOutcome(t, nal) == Some(p)
    ensures p.ppsId < 256 && p.firstMb < t.sps[t.pps[p.ppsId].spsId].value.picSizeInMapUnits
  {
  }

  // ---- from encoder to snapshot ----------------------------------------------------

  /** A PPS NAL unit; `rest` is whatever follows its two identifiers. */
  ghost predicate CarriesPps(nal: Bytes, ids: PpsIds, rbsp: Bytes, rest: Bits) {
    && 2 <= |nal| <= SPS_MAX_BYTES && HeaderOk(nal, |nal|, 8)
    && nal[1..] == Escape(rbsp, 0) && BytesBits(rbsp) == PutPpsIds(ids, rest)
  }

  lemma CarriedPpsIsRead(nal: Bytes, ids: PpsIds, rbsp: Bytes, rest: Bits)
    requires CarriesPps(nal, ids, rbsp, rest) && ids.pps <= 255 && ids.sps <= 31
    ensures PpsOutcome(nal) == Some(ids)
  {
    assert nal[1..|nal|] == nal[1..];
    StripUndoesEscape(rbsp, 0);
    GetPutPpsIds(ids, rest);
  }

  /** An encoded slice at macroblock 0 naming a PPS; `rest` is everything after its first three codes. */
  ghost predicate CarriesFirstSlice(nal: Bytes, sliceType: nat, pps: nat, rbsp: Bytes, rest: Bits) {
    && SliceHeaderByte(nal) && sliceType <= 9 && pps <= 255
    && nal[1..] == Escape(rbsp, 0) && BytesBits(rbsp) == PutSliceStart(SliceStart(0, sliceType, pps), rest)
  }

  lemma CarriedSliceIsRead(nal: Bytes, sliceType: nat, pps: nat, rbsp: Bytes, rest: Bits)
    requires CarriesFirstSlice(nal, sliceType, pps, rbsp, rest)
    ensures SliceOutcome(nal) == Some(pps)
  {
    assert nal[1..|nal|] == nal[1..];
    StripUndoesEscape(rbsp, 0);
    GetPutUE(0, PutUE(sliceType, PutUE(pps, rest)));
    GetPutUE(sliceType, PutUE(pps, rest));
    GetPutUE(pps, rest);
    SliceStartFitsWindow(nal);
  }

  /**
   * Encode an SPS, a PPS that names it and a slice that names the PPS; frame the three
   * anyhow. The snapshot carries a fresh generation and exactly the encoded range facts.
   */
  lemma EncodedUnitIsObserved(
    t: Tables, sps: Bytes, s: Sps, spsRbsp: Bytes, spsRest: Bits,
    pps: Bytes, ids: PpsIds, ppsRbsp: Bytes, ppsRest: Bits,
    slice: Bytes, sliceType: nat, sliceRbsp: Bytes, sliceRest: Bits, gaps: seq<nat>, trailing: nat)
    requires Sized(t) && !t.exhausted && t.generation < U64_MAX
    requires sps != [] && SpsHeader(sps[0]) && 4 <= |sps| <= SPS_MAX_BYTES
    requires InScope(s) && CarriesSps(sps, s, spsRbsp, spsRest)
    requires ids.pps <= 255 && ids.sps == s.head.id && CarriesPps(pps, ids, ppsRbsp, ppsRest)
    requires CarriesFirstSlice(slice, sliceType, ids.pps, sliceRbsp, sliceRest)
    requires Framable(sps) && Framable(pps) && Framable(slice)
    requires |gaps| == 3 && gaps[0] >= 2 && gaps[1] >= 2 && gaps[2] >= 2
    requires |Frame([sps, pps, slice], gaps, trailing)| <= MAX_AU
    ensures Observe(t, Frame([sps, pps, slice], gaps, trailing)).snapshot ==
      Snapshot(t.generation + 1, s.head.id, ids.pps, true, s.vui.Some? && s.vui.value.signal.Some?,
        s.vui.Some? && s.vui.value.signal.Some? && s.vui.value.signal.value.fullRange)
  {
    FactsTell(s);
    FramedUnitsAreWalked(t, [sps, pps, slice], gaps, trailing);
    var w0 := StartWalk(t);
    WrittenSpsStep(w0, sps, s, spsRbsp, spsRest);
    var w1 := StepNal(w0, sps);
    CarriedPpsStep(w1, pps, ids, ppsRbsp, ppsRest);
    var w2 := StepNal(w1, pps);
    FirstSliceIsObserved(w2, slice, sliceType, ids.pps, sliceRbsp, sliceRest);
    ThreeUnits(w0, sps, pps, slice);
  }

  lemma WrittenSpsStep(w: Walk, sps: Bytes, s: Sps, rbsp: Bytes, rest: Bits)
    requires Sized(w.t) && w.t.generation < U64_MAX && !w.ambiguous && w.slices == 0
    requires sps != [] && SpsHeader(sps[0]) && 4 <= |sps| <= SPS_MAX_BYTES
    requires InScope(s) && CarriesSps(sps, s, rbsp, rest)
    ensures !BadUnit(sps) && !Exhausts(w.t, sps)
    ensures var w' := StepNal(w, sps);
      !w'.ambiguous && w'.slices == 0 && w'.t.pps == w.t.pps &&
      w'.t.sps[s.head.id] == SpsSlot(Facts(s), w.t.generation + 1, true)
  {
    WrittenIsAccepted(sps, s, rbsp, rest);
    NalSpsId(sps);
    assert StepNal(w, sps) == StepSps(w, SpsResult(RangeOk, Facts(s)));
  }

  lemma CarriedPpsStep(w: Walk, pps: Bytes, ids: PpsIds, rbsp: Bytes, rest: Bits)
    requires Sized(w.t) && !w.ambiguous && w.slices == 0
    requires CarriesPps(pps, ids, rbsp, rest) && ids.pps <= 255 && ids.sps <= 31
    ensures !BadUnit(pps) && !Exhausts(w.t, pps)
    ensures var w' := StepNal(w, pps);
      !w'.ambiguous && w'.slices == 0 && w'.t.sps == w.t.sps &&
      w'.t.pps[ids.pps].valid && w'.t.pps[ids.pps].spsId == ids.sps
  {
    CarriedPpsIsRead(pps, ids, rbsp, rest);
    assert StepNal(w, pps) == StepPps(w, pps);
  }

  lemma FirstSliceIsObserved(w: Walk, slice: Bytes, sliceType: nat, p: nat, rbsp: Bytes, rest: Bits)
    requires Sized(w.t) && CarriesFirstSlice(slice, sliceType, p, rbsp, rest)
    requires !w.ambiguous && w.slices == 0 && w.t.pps[p].valid && w.t.sps[w.t.pps[p].spsId].valid
    ensures !BadUnit(slice) && !Exhausts(w.t, slice)
    ensures var q := w.t.pps[p].spsId;
      var slot := w.t.sps[q];
      Conclude(StepNal(w, slice)).snapshot ==
        Snapshot(slot.generation, q, p, true, slot.value.rangePresent, slot.value.fullRange)
  {
    CarriedSliceIsRead(slice, sliceType, p, rbsp, rest);
    assert StepNal(w, slice) == StepSlice(w, slice);
  }

  lemma ThreeUnits(w: Walk, a: Bytes, b: Bytes, c: Bytes)
    requires Sized(w.t) && !BadUnit(a) && !BadUnit(b) && !BadUnit(c)
    requires !Exhausts(w.t, a) && !Exhausts(StepNal(w, a).t, b) && !Exhausts(StepNal(StepNal(w, a), b).t, c)
    ensures WalkUnits(w, [a, b, c], 0, false) == Conclude(StepNal(StepNal(StepNal(w, a), b), c))
  {
    var w1 := StepNal(w, a);
    var w2 := StepNal(w1, b);
    assert [a, b, c][1..] == [b, c] && [b, c][1..] == [c];
    assert WalkUnits(w2, [c], 2, false) == Conclude(StepNal(w2, c));
    assert WalkUnits(w1, [b, c], 1, false) == WalkUnits(w2, [c], 2, false);
  }
}
