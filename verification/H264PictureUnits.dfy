/**
 * Which encoded access units the range observer associates with their SPS: pictures coded
 * in one or several slices, with delimiters and messages before them and ends after them.
 */
module PictureUnits {
  import opened Basics
  import opened BitSyntax
  import opened BitCursor
  import opened Emulation
  import opened SpsSyntax
  import opened SpsReader
  import opened SpsNal
  import opened SliceSyntax
  import opened AnnexB
  import opened RangeModel
  import opened SliceWindow
  import opened RangeTheorems

  // ---- encoded slices ----------------------------------------------------------------

  /** A slice NAL unit: its header fields, and `rest`, everything after them. */
  datatype CodedSlice = CodedSlice(nal: Bytes, sliceType: nat, picture: Picture, rbsp: Bytes, rest: Bits)

  /** An ordinary I, P or B slice whose header was written under these parameter sets. */
  ghost predicate Coded(c: CodedSlice, sps: SpsRange, bottom: bool) {
    && |c.nal| >= 2 && c.nal[0] < 128
    && (c.nal[0] % 32 == 1 || (c.nal[0] % 32 == 5 && c.nal[0] / 32 % 4 != 0))
    && c.picture.idr == (c.nal[0] % 32 == 5) && c.picture.reference == (c.nal[0] / 32 % 4 != 0)
    && c.sliceType <= 9 && c.sliceType % 5 <= 2 && c.picture.firstMb <= UE_LIMIT && c.picture.ppsId <= 255
    && ValidPicture(sps, bottom, c.sliceType, c.picture)
    && c.nal[1..] == Escape(c.rbsp, 0)
    && BytesBits(c.rbsp) == PutSliceStart(SliceStart(c.picture.firstMb, c.sliceType, c.picture.ppsId),
                                          PutPicture(sps, bottom, c.sliceType, c.picture, c.rest))
  }

  lemma CodedStart(c: CodedSlice, sps: SpsRange, bottom: bool)
    requires Coded(c, sps, bottom)
    ensures SliceHeaderByte(c.nal) && IsSlice(c.nal) && !BadUnit(c.nal)
    ensures GetSliceStart(PayloadBits(c.nal, 1, |c.nal|, 0)) ==
      Got(SliceStart(c.picture.firstMb, c.sliceType, c.picture.ppsId),
          PutPicture(sps, bottom, c.sliceType, c.picture, c.rest))
  {
    var p, tail := c.picture, PutPicture(sps, bottom, c.sliceType, c.picture, c.rest);
    assert c.nal[1..|c.nal|] == c.nal[1..];
    StripUndoesEscape(c.rbsp, 0);
    GetPutUE(p.firstMb, PutUE(c.sliceType, PutUE(p.ppsId, tail)));
    GetPutUE(c.sliceType, PutUE(p.ppsId, tail));
    GetPutUE(p.ppsId, tail);
  }

  /** Read as the first slice of a picture, it names its PPS if it is at macroblock 0. */
  lemma CodedNamesPps(c: CodedSlice, sps: SpsRange, bottom: bool)
    requires Coded(c, sps, bottom)
    ensures SliceOutcome(c.nal) == if c.picture.firstMb == 0 then Some(c.picture.ppsId) else None
  {
    CodedStart(c, sps, bottom);
    SliceStartFitsWindow(c.nal);
  }

  /** Read under its own parameter sets, the header comes back if it is in scope. */
  lemma CodedIsRead(t: Tables, c: CodedSlice, sps: SpsRange, bottom: bool)
    requires Sized(t) && Coded(c, sps, bottom)
    requires t.pps[c.picture.ppsId] == PpsSlot(t.pps[c.picture.ppsId].spsId, true, true, bottom)
    requires t.sps[t.pps[c.picture.ppsId].spsId].valid && t.sps[t.pps[c.picture.ppsId].spsId].value == sps
    ensures PictureOutcome(t, c.nal) == if PictureScope(sps, c.picture.firstMb) then Some(c.picture) else None
  {
    CodedStart(c, sps, bottom);
    WindowIsHarmless(t, c.nal);
    GetPutPicture(sps, bottom, c.sliceType, c.picture, c.rest);
  }

  /** Under any tables, whatever is read has the slice's own PPS. */
  lemma CodedKeepsPps(t: Tables, c: CodedSlice, sps: SpsRange, bottom: bool)
    requires Sized(t) && Coded(c, sps, bottom) && PictureOutcome(t, c.nal).Some?
    ensures PictureOutcome(t, c.nal).value.ppsId == c.picture.ppsId
  {
    CodedStart(c, sps, bottom);
    WindowIsHarmless(t, c.nal);
  }

  // ---- one picture, in order ---------------------------------------------------------

  /** The number of map units of a frame. */
  function FrameSize(g: Geometry): nat { (g.widthMinus1 + 1) * (g.heightMinus1 + 1) }

  /** One slice at macroblock 0, or progressive slices of one picture that rise strictly inside it. */
  ghost predicate OneOrderedPicture(s: Sps, pics: seq<Picture>) {
    && pics != [] && pics[0].firstMb == 0
    && (|pics| > 1 ==>
      && s.geometry.mode == FramesOnly && FrameSize(s.geometry) <= 0xFFFF_FFFF
      && (forall i :: 0 <= i < |pics| ==> pics[i].firstMb < FrameSize(s.geometry))
      && (forall i, j :: 0 <= i < j < |pics| ==> pics[i].firstMb < pics[j].firstMb)
      && (forall i, j :: 0 <= i < j < |pics| ==> !StartsNewPicture(Facts(s), pics[i], pics[j])))
  }

  ghost predicate Follows(sps: SpsRange, a: Picture, b: Picture) {
    PictureScope(sps, b.firstMb) && a.firstMb < b.firstMb && SamePicture(a, b)
  }

  /** Each header follows the one before it. */
  ghost predicate Chain(sps: SpsRange, last: Picture, pics: seq<Picture>)
    decreases |pics|
  {
    pics == [] || (Follows(sps, last, pics[0]) && Chain(sps, pics[0], pics[1..]))
  }

  ghost predicate AllFollow(sps: SpsRange, pics: seq<Picture>) {
    && (forall i :: 0 < i < |pics| ==> PictureScope(sps, pics[i].firstMb))
    && (forall i, j :: 0 <= i < j < |pics| ==> pics[i].firstMb < pics[j].firstMb && SamePicture(pics[i], pics[j]))
  }

  lemma {:induction false} ChainIffAllFollow(sps: SpsRange, last: Picture, pics: seq<Picture>)
    ensures Chain(sps, last, pics) <==> AllFollow(sps, [last] + pics)
    decreases |pics|
  {
    var all := [last] + pics;
    if pics != [] {
      ChainIffAllFollow(sps, pics[0], pics[1..]);
      assert [pics[0]] + pics[1..] == pics;
      if Chain(sps, last, pics) {
        forall i, j | 0 <= i < j < |all| ensures all[i].firstMb < all[j].firstMb && SamePicture(all[i], all[j]) {
          FollowsOn(sps, last, pics, i, j);
        }
        assert forall i :: 0 < i < |all| ==> all[i] == pics[i - 1];
      } else if AllFollow(sps, all) {
        assert all[0] == last && all[1] == pics[0];
        AllFollowRest(sps, last, pics);
      }
    }
  }

  lemma FollowsOn(sps: SpsRange, last: Picture, pics: seq<Picture>, i: nat, j: nat)
    requires pics != [] && Follows(sps, last, pics[0]) && AllFollow(sps, pics) && i < j <= |pics|
    ensures var all := [last] + pics; all[i].firstMb < all[j].firstMb && SamePicture(all[i], all[j])
  {
    if i == 0 && j > 1 {
      assert SamePicture(pics[0], pics[j - 1]);
    }
  }

  lemma AllFollowRest(sps: SpsRange, last: Picture, pics: seq<Picture>)
    requires AllFollow(sps, [last] + pics)
    ensures AllFollow(sps, pics)
  {
    var all := [last] + pics;
    assert forall i :: 0 <= i < |pics| ==> pics[i] == all[i + 1];
  }

  /** Written headers share their picture key exactly when no boundary rule of the standard holds. */
  lemma KeyIsStandard(sps: SpsRange, bottom: bool, c: CodedSlice, d: CodedSlice)
    requires Coded(c, sps, bottom) && Coded(d, sps, bottom)
    ensures SamePicture(c.picture, d.picture) <==> !StartsNewPicture(sps, c.picture, d.picture)
  {
  }

  function Pictures(slices: seq<CodedSlice>): seq<Picture> {
    seq(|slices|, i requires 0 <= i < |slices| => slices[i].picture)
  }

  lemma KeysAreStandard(sps: SpsRange, bottom: bool, slices: seq<CodedSlice>)
    requires AllCoded(slices, sps, bottom)
    ensures forall i, j :: 0 <= i < j < |slices| ==>
      (SamePicture(slices[i].picture, slices[j].picture) <==> !StartsNewPicture(sps, slices[i].picture, slices[j].picture))
  {
    forall i, j | 0 <= i < j < |slices|
      ensures SamePicture(slices[i].picture, slices[j].picture) <==>
        !StartsNewPicture(sps, slices[i].picture, slices[j].picture)
    {
      KeyIsStandard(sps, bottom, slices[i], slices[j]);
    }
  }

  /** The standard's condition is the one a chain of headers meets. */
  lemma OrderedIffChain(s: Sps, bottom: bool, slices: seq<CodedSlice>)
    requires InScope(s) && slices != [] && slices[0].picture.firstMb == 0 && AllCoded(slices, Facts(s), bottom)
    ensures OneOrderedPicture(s, Pictures(slices)) <==>
      |slices| == 1 || (PictureScope(Facts(s), 0) && Chain(Facts(s), slices[0].picture, Pictures(slices)[1..]))
  {
    var pics := Pictures(slices);
    KeysAreStandard(Facts(s), bottom, slices);
    ChainIffAllFollow(Facts(s), pics[0], pics[1..]);
    assert [pics[0]] + pics[1..] == pics;
    OrderedIffAllFollow(s, pics);
  }

  lemma OrderedIffAllFollow(s: Sps, pics: seq<Picture>)
    requires InScope(s) && pics != [] && pics[0].firstMb == 0
    requires forall i, j :: 0 <= i < j < |pics| ==>
      (SamePicture(pics[i], pics[j]) <==> !StartsNewPicture(Facts(s), pics[i], pics[j]))
    ensures OneOrderedPicture(s, pics) <==> |pics| == 1 || (PictureScope(Facts(s), 0) && AllFollow(Facts(s), pics))
  {
    ScopeIsInside(s);
  }

  lemma ScopeIsInside(s: Sps)
    requires InScope(s)
    ensures forall m: nat :: PictureScope(Facts(s), m) <==>
      s.geometry.mode == FramesOnly && FrameSize(s.geometry) <= 0xFFFF_FFFF && m < FrameSize(s.geometry)
  {
    SizeIs(s.geometry.widthMinus1, s.geometry.heightMinus1, FrameSize(s.geometry));
    SizedScope(s, FrameSize(s.geometry));
  }

  lemma SizeIs(widthMinus1: nat, heightMinus1: nat, size: nat)
    requires size == (widthMinus1 + 1) * (heightMinus1 + 1)
    ensures size > 0 && MapUnits(widthMinus1, heightMinus1) == if size <= 0xFFFF_FFFF then size else 0
  {
  }

  lemma SizedScope(s: Sps, size: nat)
    requires InScope(s) && size > 0
    requires MapUnits(s.geometry.widthMinus1, s.geometry.heightMinus1) == if size <= 0xFFFF_FFFF then size else 0
    ensures forall m: nat :: PictureScope(Facts(s), m) <==>
      s.geometry.mode == FramesOnly && size <= 0xFFFF_FFFF && m < size
  {
  }

  // ---- walking a list of units -------------------------------------------------------

  ghost predicate Runs(w: Walk, nals: seq<Bytes>)
    decreases |nals|
  {
    && Sized(w.t)
    && (nals == [] ||
        (!BadUnit(nals[0]) && !Exhausts(w.t, nals[0]) && Runs(StepNal(w, nals[0]), nals[1..])))
  }

  ghost function Steps(w: Walk, nals: seq<Bytes>): (r: Walk)
    requires Runs(w, nals)
    ensures Sized(r.t)
    decreases |nals|
  {
    if nals == [] then w else Steps(StepNal(w, nals[0]), nals[1..])
  }

  lemma {:induction false} StepsAppend(w: Walk, a: seq<Bytes>, b: seq<Bytes>)
    requires Runs(w, a) && Runs(Steps(w, a), b)
    ensures Runs(w, a + b) && Steps(w, a + b) == Steps(Steps(w, a), b)
    decreases |a|
  {
    if a == [] {
      assert a + b == b;
    } else {
      assert a + b == [a[0]] + (a[1..] + b);
      StepsAppend(StepNal(w, a[0]), a[1..], b);
      AppendFirst(w, StepNal(w, a[0]), a, b, a + b);
    }
  }

  lemma AppendFirst(w: Walk, v: Walk, a: seq<Bytes>, b: seq<Bytes>, all: seq<Bytes>)
    requires Sized(w.t) && a != [] && !BadUnit(a[0]) && !Exhausts(w.t, a[0]) && v == StepNal(w, a[0])
    requires Runs(w, a) && all == [a[0]] + (a[1..] + b) && Runs(v, a[1..] + b)
    ensures Runs(w, all) && Steps(w, all) == Steps(v, a[1..] + b)
  {
    assert all[1..] == a[1..] + b;
    FirstUnit(w, all, v);
  }

  lemma FirstUnit(w: Walk, nals: seq<Bytes>, v: Walk)
    requires Sized(w.t) && nals != [] && !BadUnit(nals[0]) && !Exhausts(w.t, nals[0]) && v == StepNal(w, nals[0])
    ensures Runs(w, nals) <==> Runs(v, nals[1..])
    ensures Runs(w, nals) ==> Steps(w, nals) == Steps(v, nals[1..])
  {
  }

  lemma SingleStep(w: Walk, nal: Bytes, v: Walk)
    requires Sized(w.t) && !BadUnit(nal) && !Exhausts(w.t, nal) && v == StepNal(w, nal)
    ensures Runs(w, [nal]) && Steps(w, [nal]) == v
  {
    assert [nal][1..] == [];
    assert Steps(v, []) == v;
  }

  lemma {:induction false} WalkIsSteps(w: Walk, nals: seq<Bytes>, count: nat)
    requires nals != [] && Runs(w, nals) && count + |nals| <= MAX_NALS
    ensures WalkUnits(w, nals, count, false) == Conclude(Steps(w, nals))
    decreases |nals|
  {
    var v := StepNal(w, nals[0]);
    if |nals| > 1 {
      WalkIsSteps(v, nals[1..], count + 1);
    } else {
      assert nals[1..] == [];
    }
  }

  // ---- before and after the slices ---------------------------------------------------

  /** SEI messages (6), access unit delimiters (9) and filler data (12). */
  ghost predicate Quiet(nals: seq<Bytes>) {
    forall i :: 0 <= i < |nals| ==> nals[i] != [] && nals[i][0] < 128 && nals[i][0] % 32 in {6, 9, 12}
  }

  ghost function Delimiters(nals: seq<Bytes>): nat
    decreases |nals|
  {
    if nals == [] then 0
    else (if nals[0] != [] && nals[0][0] % 32 == 9 then 1 else 0) + Delimiters(nals[1..])
  }

  lemma {:induction false} QuietSteps(w: Walk, nals: seq<Bytes>)
    requires Sized(w.t) && w.slices == 0 && Quiet(nals) && w.auds + Delimiters(nals) <= 1
    ensures Runs(w, nals) && Steps(w, nals) == w.(auds := w.auds + Delimiters(nals))
    decreases |nals|
  {
    if nals != [] {
      var v := StepNal(w, nals[0]);
      assert v == w.(auds := v.auds);
      QuietSteps(v, nals[1..]);
    }
  }

  /** Ends of sequence (10) and of stream (11), and filler data (12). */
  ghost predicate Ending(nals: seq<Bytes>) {
    forall i :: 0 <= i < |nals| ==> nals[i] != [] && nals[i][0] < 128 && nals[i][0] % 32 in {10, 11, 12}
  }

  ghost predicate EndsSequence(nals: seq<Bytes>) {
    exists i :: 0 <= i < |nals| && nals[i] != [] && nals[i][0] % 32 in {10, 11}
  }

  lemma ForgottenTwice(t: Tables)
    ensures Forget(Forget(t)) == Forget(t)
  {
    assert ForgetSps(ForgetSps(t.sps)) == ForgetSps(t.sps) && ForgetPps(ForgetPps(t.pps)) == ForgetPps(t.pps);
  }

  lemma {:induction false} EndingSteps(w: Walk, nals: seq<Bytes>)
    requires Sized(w.t) && Ending(nals)
    ensures Runs(w, nals) && Steps(w, nals) == w.(t := if EndsSequence(nals) then Forget(w.t) else w.t)
    decreases |nals|
  {
    if nals != [] {
      var v := StepNal(w, nals[0]);
      EndingSteps(v, nals[1..]);
      ForgottenTwice(w.t);
      assert nals == [nals[0]] + nals[1..];
      assert EndsSequence(nals) <==> nals[0][0] % 32 in {10, 11} || EndsSequence(nals[1..]);
    }
  }

  // ---- the slices --------------------------------------------------------------------

  /** The tables hold an SPS and a PPS that refers to it. */
  ghost predicate Holds(t: Tables, sps: SpsRange, generation: nat, spsId: nat, pps: nat, bottom: bool) {
    && Sized(t) && spsId < 32 && pps < 256
    && t.sps[spsId] == SpsSlot(sps, generation, true) && t.pps[pps] == PpsSlot(spsId, true, true, bottom)
  }

  lemma FirstStep(w: Walk, c: CodedSlice, sps: SpsRange, g: nat, spsId: nat, bottom: bool)
    requires Holds(w.t, sps, g, spsId, c.picture.ppsId, bottom) && Coded(c, sps, bottom)
    requires w.slices == 0 && !w.ambiguous
    ensures !BadUnit(c.nal) && !Exhausts(w.t, c.nal)
    ensures var v := StepNal(w, c.nal);
      && v.t == w.t && v.slices == 1 && v.ambiguous == (c.picture.firstMb != 0)
      && (c.picture.firstMb == 0 ==>
        && v.observed == Snapshot(g, spsId, c.picture.ppsId, true, sps.rangePresent, sps.fullRange)
        && v.qualified == PictureScope(sps, 0) && (v.qualified ==> v.picture == c.picture))
  {
    CodedStart(c, sps, bottom);
    CodedNamesPps(c, sps, bottom);
    CodedIsRead(w.t, c, sps, bottom);
    assert StepNal(w, c.nal) == StepSlice(w, c.nal);
  }

  lemma LaterStep(w: Walk, c: CodedSlice, last: Picture, sps: SpsRange, g: nat, spsId: nat, bottom: bool)
    requires Holds(w.t, sps, g, spsId, last.ppsId, bottom) && Coded(c, sps, bottom)
    requires w.slices > 0 && (w.qualified ==> w.picture == last)
    ensures !BadUnit(c.nal) && !Exhausts(w.t, c.nal)
    ensures var v := StepNal(w, c.nal);
      && v.t == w.t && v.slices == w.slices + 1 && v.observed == w.observed && v.qualified == w.qualified
      && v.ambiguous == (w.ambiguous || !w.qualified || !Follows(sps, last, c.picture))
      && (w.qualified && Follows(sps, last, c.picture) ==> v.picture == c.picture)
  {
    CodedStart(c, sps, bottom);
    assert StepNal(w, c.nal) == StepSlice(w, c.nal) == LaterSlice(w.(slices := w.slices + 1), c.nal);
    if c.picture.ppsId == last.ppsId {
      CodedIsRead(w.t, c, sps, bottom);
    } else if PictureOutcome(w.t, c.nal).Some? {
      CodedKeepsPps(w.t, c, sps, bottom);
    }
  }

  function Nals(slices: seq<CodedSlice>): seq<Bytes> {
    seq(|slices|, i requires 0 <= i < |slices| => slices[i].nal)
  }

  ghost predicate AllCoded(slices: seq<CodedSlice>, sps: SpsRange, bottom: bool) {
    forall i :: 0 <= i < |slices| ==> Coded(slices[i], sps, bottom)
  }

  lemma AmbiguousStep(w: Walk, c: CodedSlice, sps: SpsRange, bottom: bool)
    requires Sized(w.t) && w.ambiguous && w.slices > 0 && Coded(c, sps, bottom)
    ensures !BadUnit(c.nal) && !Exhausts(w.t, c.nal)
    ensures var v := StepNal(w, c.nal); v.ambiguous && v.t == w.t && v.slices > 0
  {
    CodedStart(c, sps, bottom);
    assert StepNal(w, c.nal) == StepSlice(w, c.nal) == LaterSlice(w.(slices := w.slices + 1), c.nal);
  }

  /** Where a walk stands after slices that should have followed `last`. */
  ghost predicate Followed(w: Walk, r: Walk, last: Picture, slices: seq<CodedSlice>, sps: SpsRange) {
    && r.t == w.t && r.slices > 0 && (!r.ambiguous ==> r.observed == w.observed)
    && (r.ambiguous <==> slices != [] && !(w.qualified && Chain(sps, last, Pictures(slices))))
  }

  /** One slice more in front. */
  lemma FollowedToo(w: Walk, v: Walk, r: Walk, last: Picture, slices: seq<CodedSlice>, sps: SpsRange)
    requires slices != [] && v.t == w.t && v.observed == w.observed && v.qualified == w.qualified
    requires v.ambiguous == (!w.qualified || !Follows(sps, last, slices[0].picture))
    requires if v.ambiguous then r.ambiguous && r.t == v.t && r.slices > 0
      else Followed(v, r, slices[0].picture, slices[1..], sps)
    ensures Followed(w, r, last, slices, sps)
  {
    assert Pictures(slices)[1..] == Pictures(slices[1..]);
  }

  /** The same walk, a slice at a time. */
  lemma SliceFirst(w: Walk, slices: seq<CodedSlice>, v: Walk)
    requires Sized(w.t) && slices != [] && !BadUnit(slices[0].nal) && !Exhausts(w.t, slices[0].nal)
    requires v == StepNal(w, slices[0].nal)
    ensures Runs(w, Nals(slices)) <==> Runs(v, Nals(slices[1..]))
    ensures Runs(w, Nals(slices)) ==> Steps(w, Nals(slices)) == Steps(v, Nals(slices[1..]))
  {
    assert Nals(slices)[1..] == Nals(slices[1..]);
    FirstUnit(w, Nals(slices), v);
  }

  lemma {:induction false} AmbiguousSteps(w: Walk, slices: seq<CodedSlice>, sps: SpsRange, bottom: bool)
    requires Sized(w.t) && w.ambiguous && w.slices > 0 && AllCoded(slices, sps, bottom)
    ensures Runs(w, Nals(slices))
    ensures var v := Steps(w, Nals(slices)); v.ambiguous && v.t == w.t && v.slices > 0
    decreases |slices|
  {
    if slices != [] {
      AmbiguousStep(w, slices[0], sps, bottom);
      AmbiguousSteps(StepNal(w, slices[0].nal), slices[1..], sps, bottom);
      SliceFirst(w, slices, StepNal(w, slices[0].nal));
    }
  }

  lemma {:induction false} LaterSteps(
    w: Walk, slices: seq<CodedSlice>, last: Picture, sps: SpsRange, g: nat, spsId: nat, bottom: bool)
    requires Holds(w.t, sps, g, spsId, last.ppsId, bottom) && AllCoded(slices, sps, bottom)
    requires w.slices > 0 && !w.ambiguous && (w.qualified ==> w.picture == last)
    ensures Runs(w, Nals(slices)) && Followed(w, Steps(w, Nals(slices)), last, slices, sps)
    decreases |slices|
  {
    if slices != [] {
      LaterStep(w, slices[0], last, sps, g, spsId, bottom);
      var v := StepNal(w, slices[0].nal);
      if v.ambiguous {
        AmbiguousSteps(v, slices[1..], sps, bottom);
      } else {
        LaterSteps(v, slices[1..], slices[0].picture, sps, g, spsId, bottom);
      }
      SliceFirst(w, slices, v);
      FollowedToo(w, v, Steps(v, Nals(slices[1..])), last, slices, sps);
    }
  }

  ghost predicate Range(s: Sps, present: bool, full: bool) {
    && (present <==> s.vui.Some? && s.vui.value.signal.Some?)
    && (full <==> s.vui.Some? && s.vui.value.signal.Some? && s.vui.value.signal.value.fullRange)
  }

  /** The snapshot says that the picture was coded under this SPS. */
  ghost predicate Says(o: Snapshot, s: Sps, generation: nat, pps: nat) {
    && o.associated && o.generation == generation && o.spsId == s.head.id && o.ppsId == pps
    && Range(s, o.rangePresent, o.fullRange)
  }

  /** What a walk says after the slices of an access unit. */
  ghost predicate Concludes(v: Walk, t: Tables, slices: seq<CodedSlice>, s: Sps, g: nat)
    requires slices != []
  {
    && v.t == t && v.slices > 0 && (v.ambiguous <==> !OneOrderedPicture(s, Pictures(slices)))
    && (!v.ambiguous ==> Says(v.observed, s, g, slices[0].picture.ppsId))
  }

  /** The first slice is read; the others follow it or not. */
  lemma AfterFirst(v: Walk, slices: seq<CodedSlice>, s: Sps, g: nat, bottom: bool)
    requires InScope(s) && slices != [] && AllCoded(slices, Facts(s), bottom)
    requires Holds(v.t, Facts(s), g, s.head.id, slices[0].picture.ppsId, bottom)
    requires v.slices == 1 && v.ambiguous == (slices[0].picture.firstMb != 0)
    requires !v.ambiguous ==>
      && Says(v.observed, s, g, slices[0].picture.ppsId)
      && v.qualified == PictureScope(Facts(s), 0) && (v.qualified ==> v.picture == slices[0].picture)
    ensures Runs(v, Nals(slices[1..])) && Concludes(Steps(v, Nals(slices[1..])), v.t, slices, s, g)
  {
    if v.ambiguous {
      AmbiguousSteps(v, slices[1..], Facts(s), bottom);
    } else {
      LaterSteps(v, slices[1..], slices[0].picture, Facts(s), g, s.head.id, bottom);
      OrderedIffChain(s, bottom, slices);
      FollowedConcludes(v, Steps(v, Nals(slices[1..])), slices, s, g);
    }
  }

  lemma FollowedConcludes(v: Walk, r: Walk, slices: seq<CodedSlice>, s: Sps, g: nat)
    requires slices != [] && Says(v.observed, s, g, slices[0].picture.ppsId) && v.qualified == PictureScope(Facts(s), 0)
    requires Followed(v, r, slices[0].picture, slices[1..], Facts(s))
    requires OneOrderedPicture(s, Pictures(slices)) <==>
      |slices| == 1 || (PictureScope(Facts(s), 0) && Chain(Facts(s), slices[0].picture, Pictures(slices)[1..]))
    ensures Concludes(r, v.t, slices, s, g)
  {
    assert Pictures(slices)[1..] == Pictures(slices[1..]);
  }

  /** Slices walked under tables that hold their parameter sets. */
  lemma SlicesSteps(w: Walk, slices: seq<CodedSlice>, s: Sps, g: nat, bottom: bool)
    requires InScope(s) && slices != [] && AllCoded(slices, Facts(s), bottom)
    requires Holds(w.t, Facts(s), g, s.head.id, slices[0].picture.ppsId, bottom) && w.slices == 0 && !w.ambiguous
    ensures Runs(w, Nals(slices)) && Concludes(Steps(w, Nals(slices)), w.t, slices, s, g)
  {
    var c := slices[0];
    FactsTell(s);
    FirstStep(w, c, Facts(s), g, s.head.id, bottom);
    var v := StepNal(w, c.nal);
    AfterFirst(v, slices, s, g, bottom);
    SliceFirst(w, slices, v);
  }

  // ---- access units ------------------------------------------------------------------

  /** What an access unit leaves: a snapshot exactly of one ordered picture, and its tables. */
  ghost predicate Observed(o: Observation, t: Tables, s: Sps, g: nat, slices: seq<CodedSlice>, ends: seq<Bytes>)
    requires slices != []
  {
    && (if OneOrderedPicture(s, Pictures(slices)) then Says(o.snapshot, s, g, slices[0].picture.ppsId)
        else o.snapshot == EMPTY)
    && o.t == if EndsSequence(ends) then Forget(t) else t
  }

  lemma PictureSteps(w: Walk, slices: seq<CodedSlice>, ends: seq<Bytes>, s: Sps, g: nat, bottom: bool)
    requires InScope(s) && slices != [] && AllCoded(slices, Facts(s), bottom) && Ending(ends)
    requires Holds(w.t, Facts(s), g, s.head.id, slices[0].picture.ppsId, bottom) && w.slices == 0 && !w.ambiguous
    ensures Runs(w, Nals(slices) + ends)
    ensures Observed(Conclude(Steps(w, Nals(slices) + ends)), w.t, s, g, slices, ends)
  {
    SlicesSteps(w, slices, s, g, bottom);
    EndingSteps(Steps(w, Nals(slices)), ends);
    StepsAppend(w, Nals(slices), ends);
  }

  /** A picture whose parameter sets came with an earlier access unit. */
  lemma HeldPictureIsObservedIff(
    t: Tables, before: seq<Bytes>, slices: seq<CodedSlice>, ends: seq<Bytes>, s: Sps, g: nat, bottom: bool,
    gaps: seq<nat>, trailing: nat)
    requires InScope(s) && slices != [] && AllCoded(slices, Facts(s), bottom)
    requires Holds(t, Facts(s), g, s.head.id, slices[0].picture.ppsId, bottom) && !t.exhausted
    requires Quiet(before) && Delimiters(before) <= 1 && Ending(ends)
    requires var nals := before + (Nals(slices) + ends);
      && |nals| <= 128 && |gaps| == |nals| && (forall i :: 0 <= i < |nals| ==> Framable(nals[i]) && gaps[i] >= 2)
      && |Frame(nals, gaps, trailing)| <= 8 * 1024 * 1024
    ensures Observed(Observe(t, Frame(before + (Nals(slices) + ends), gaps, trailing)), t, s, g, slices, ends)
  {
    var nals := before + (Nals(slices) + ends);
    var w := StartWalk(t);
    QuietSteps(w, before);
    PictureSteps(Steps(w, before), slices, ends, s, g, bottom);
    FramedSteps(t, before, Nals(slices) + ends, gaps, trailing);
  }

  // ---- with their parameter sets -----------------------------------------------------

  /** An encoded PPS NAL unit in scope: identifiers, picture fields, and whatever follows. */
  datatype CodedPps = CodedPps(nal: Bytes, ids: PpsIds, fields: PpsPicture, rbsp: Bytes, rest: Bits)

  ghost predicate CarriedPps(p: CodedPps) {
    && 2 <= |p.nal| <= 4096 && p.nal[0] < 128 && p.nal[0] / 32 % 4 != 0 && p.nal[0] % 32 == 8
    && p.ids.pps <= 255 && p.ids.sps <= 31 && ValidPpsPicture(p.fields)
    && p.nal[1..] == Escape(p.rbsp, 0) && BytesBits(p.rbsp) == PutPpsIds(p.ids, PutPpsPicture(p.fields, p.rest))
  }

  datatype CodedSps = CodedSps(nal: Bytes, s: Sps, rbsp: Bytes, rest: Bits)

  ghost predicate CarriedSps(c: CodedSps) {
    && 4 <= |c.nal| <= 4096 && c.nal[0] < 128 && c.nal[0] / 32 % 4 != 0 && c.nal[0] % 32 == 7
    && InScope(c.s) && CarriesSps(c.nal, c.s, c.rbsp, c.rest)
  }

  /** The tables with the encoded SPS under a new generation. */
  ghost function WithSps(t: Tables, c: CodedSps): (r: Tables)
    requires Sized(t) && t.generation < U64_MAX && CarriedSps(c)
    ensures Sized(r)
  {
    t.(generation := t.generation + 1, sps := t.sps[c.s.head.id := SpsSlot(Facts(c.s), t.generation + 1, true)])
  }

  lemma SpsAccepted(c: CodedSps)
    requires CarriedSps(c)
    ensures SpsOutcome(c.nal, |c.nal|) == SpsResult(RangeOk, Facts(c.s)) && !BadUnit(c.nal)
  {
    WrittenIsAccepted(c.nal, c.s, c.rbsp, c.rest);
  }

  lemma SpsUnit(w: Walk, nal: Bytes, facts: SpsRange)
    requires Sized(w.t) && w.t.generation < U64_MAX && w.slices == 0 && nal != [] && nal[0] % 32 == 7
    requires SpsOutcome(nal, |nal|) == SpsResult(RangeOk, facts) && facts.spsId < 32
    ensures !Exhausts(w.t, nal)
    ensures StepNal(w, nal) == w.(t := w.t.(generation := w.t.generation + 1,
      sps := w.t.sps[facts.spsId := SpsSlot(facts, w.t.generation + 1, true)]))
  {
    assert NalType(nal) == 7;
    var next := StepSps(w, SpsResult(RangeOk, facts));
    assert StepNal(w, nal) == next;
    SpsStored(w, facts, next);
  }

  lemma SpsStored(w: Walk, facts: SpsRange, next: Walk)
    requires Sized(w.t) && w.t.generation < U64_MAX && w.slices == 0 && facts.spsId < 32
    requires next == StepSps(w, SpsResult(RangeOk, facts))
    ensures next == w.(t := w.t.(generation := w.t.generation + 1,
      sps := w.t.sps[facts.spsId := SpsSlot(facts, w.t.generation + 1, true)]))
  {
  }

  lemma SpsStep(w: Walk, c: CodedSps)
    requires Sized(w.t) && w.t.generation < U64_MAX && w.slices == 0 && CarriedSps(c)
    ensures Runs(w, [c.nal]) && Steps(w, [c.nal]) == w.(t := WithSps(w.t, c))
  {
    SpsAccepted(c);
    SpsUnit(w, c.nal, Facts(c.s));
    SingleStep(w, c.nal, w.(t := WithSps(w.t, c)));
  }

  ghost function WithPps(t: Tables, p: CodedPps): (r: Tables)
    requires Sized(t) && CarriedPps(p)
    ensures Sized(r)
  {
    t.(pps := t.pps[p.ids.pps := PpsSlot(p.ids.sps, true, true, p.fields.bottomFieldPoc)])
  }

  lemma PpsUnit(w: Walk, p: CodedPps)
    requires Sized(w.t) && w.slices == 0 && CarriedPps(p)
    ensures !Exhausts(w.t, p.nal) && StepNal(w, p.nal) == w.(t := WithPps(w.t, p))
  {
    assert p.nal[1..|p.nal|] == p.nal[1..];
    StripUndoesEscape(p.rbsp, 0);
    GetPutPpsIds(p.ids, PutPpsPicture(p.fields, p.rest));
    GetPutPpsPicture(p.fields, p.rest);
    assert StepNal(w, p.nal) == StepPps(w, p.nal);
  }

  lemma PpsStep(w: Walk, p: CodedPps)
    requires Sized(w.t) && w.slices == 0 && CarriedPps(p)
    ensures Runs(w, [p.nal]) && Steps(w, [p.nal]) == w.(t := WithPps(w.t, p))
  {
    PpsUnit(w, p);
    SingleStep(w, p.nal, w.(t := WithPps(w.t, p)));
  }

  /** An SPS, a PPS that refers to it, and quiet units around them. */
  datatype ParameterSets = ParameterSets(before: seq<Bytes>, sps: CodedSps, between: seq<Bytes>, pps: CodedPps, after: seq<Bytes>) {
    function Units(): seq<Bytes> { before + ([sps.nal] + (between + ([pps.nal] + after))) }

    ghost predicate Valid() {
      && CarriedSps(sps) && CarriedPps(pps) && pps.ids.sps == sps.s.head.id
      && Quiet(before) && Quiet(between) && Quiet(after)
      && Delimiters(before) + Delimiters(between) + Delimiters(after) <= 1
    }
  }

  lemma ParameterSetsSteps(w: Walk, p: ParameterSets)
    requires Sized(w.t) && w.t.generation < U64_MAX && w.slices == 0 && !w.ambiguous && w.auds == 0 && p.Valid()
    ensures Runs(w, p.Units())
    ensures var v := Steps(w, p.Units());
      && v.slices == 0 && !v.ambiguous
      && Holds(v.t, Facts(p.sps.s), w.t.generation + 1, p.sps.s.head.id, p.pps.ids.pps, p.pps.fields.bottomFieldPoc)
  {
    QuietSteps(w, p.before);
    var w1 := Steps(w, p.before);
    SpsStep(w1, p.sps);
    var w2 := Steps(w1, [p.sps.nal]);
    QuietSteps(w2, p.between);
    var w3 := Steps(w2, p.between);
    PpsStep(w3, p.pps);
    var w4 := Steps(w3, [p.pps.nal]);
    QuietSteps(w4, p.after);
    StepsAppend(w3, [p.pps.nal], p.after);
    StepsAppend(w2, p.between, [p.pps.nal] + p.after);
    StepsAppend(w1, [p.sps.nal], p.between + ([p.pps.nal] + p.after));
    StepsAppend(w, p.before, [p.sps.nal] + (p.between + ([p.pps.nal] + p.after)));
  }

  /**
   * Encode an SPS, a PPS that names it and any slices under both; frame them anyhow, with at
   * most one delimiter and any messages before the slices and ends after them. The snapshot
   * is associated, with a fresh generation and the encoded range flags, if and only if the
   * slices are one ordered picture.
   */
  lemma EncodedPictureIsObservedIff(
    t: Tables, p: ParameterSets, slices: seq<CodedSlice>, ends: seq<Bytes>, gaps: seq<nat>, trailing: nat)
    returns (held: Tables)
    requires Sized(t) && !t.exhausted && t.generation < U64_MAX && p.Valid()
    requires slices != [] && AllCoded(slices, Facts(p.sps.s), p.pps.fields.bottomFieldPoc)
    requires slices[0].picture.ppsId == p.pps.ids.pps && Ending(ends)
    requires var nals := p.Units() + (Nals(slices) + ends);
      && |nals| <= 128 && |gaps| == |nals| && (forall i :: 0 <= i < |nals| ==> Framable(nals[i]) && gaps[i] >= 2)
      && |Frame(nals, gaps, trailing)| <= 8 * 1024 * 1024
    ensures Holds(held, Facts(p.sps.s), t.generation + 1, p.sps.s.head.id, p.pps.ids.pps, p.pps.fields.bottomFieldPoc)
    ensures Observed(Observe(t, Frame(p.Units() + (Nals(slices) + ends), gaps, trailing)),
                     held, p.sps.s, t.generation + 1, slices, ends)
  {
    var w := StartWalk(t);
    ParameterSetsSteps(w, p);
    held := Steps(w, p.Units()).t;
    PictureSteps(Steps(w, p.Units()), slices, ends, p.sps.s, t.generation + 1, p.pps.fields.bottomFieldPoc);
    FramedSteps(t, p.Units(), Nals(slices) + ends, gaps, trailing);
  }

  /** An access unit whose units are walked in two parts. */
  lemma FramedSteps(t: Tables, a: seq<Bytes>, b: seq<Bytes>, gaps: seq<nat>, trailing: nat)
    requires Sized(t) && !t.exhausted && Runs(StartWalk(t), a) && Runs(Steps(StartWalk(t), a), b)
    requires 0 < |a + b| <= MAX_NALS && |gaps| == |a + b| && |Frame(a + b, gaps, trailing)| <= MAX_AU
    requires forall i :: 0 <= i < |a + b| ==> Framable((a + b)[i]) && gaps[i] >= 2
    ensures Observe(t, Frame(a + b, gaps, trailing)) == Conclude(Steps(Steps(StartWalk(t), a), b))
  {
    StepsAppend(StartWalk(t), a, b);
    WalkIsSteps(StartWalk(t), a + b, 0);
    FramedUnitsAreWalked(t, a + b, gaps, trailing);
  }

  // ---- what an associated access unit cannot hold ------------------------------------

  ghost predicate Type(nal: Bytes, kinds: set<int>) { nal != [] && nal[0] % 32 in kinds }

  /** A unit that may stand in an access unit, given whether a delimiter and a slice came before it. */
  ghost predicate Admissible(nal: Bytes, delimited: bool, sliced: bool) {
    && Type(nal, {1, 5, 6, 7, 8, 9, 10, 11, 12})
    && (Type(nal, {7}) ==> SpsOutcome(nal, |nal|).status.RangeOk?) && (Type(nal, {8}) ==> PpsOutcome(nal).Some?)
    && (sliced ==> !Type(nal, {6, 7, 8, 9})) && (delimited ==> !Type(nal, {9}))
  }

  ghost predicate Clean(nals: seq<Bytes>, delimited: bool, sliced: bool) {
    && (forall i :: 0 <= i < |nals| ==> Admissible(nals[i], delimited, sliced))
    && forall i, j :: 0 <= i < j < |nals| ==>
      Admissible(nals[j], delimited || Type(nals[i], {9}), sliced || Type(nals[i], {1, 5}))
  }

  lemma UnambiguousUnit(w: Walk, nal: Bytes)
    requires Sized(w.t) && !BadUnit(nal) && !Exhausts(w.t, nal) && !StepNal(w, nal).ambiguous
    ensures !w.ambiguous && Admissible(nal, w.auds > 0, w.slices > 0)
    ensures (StepNal(w, nal).auds > 0 <==> w.auds > 0 || Type(nal, {9}))
    ensures (StepNal(w, nal).slices > 0 <==> w.slices > 0 || Type(nal, {1, 5}))
  {
  }

  lemma CleanToo(nal: Bytes, rest: seq<Bytes>, delimited: bool, sliced: bool)
    requires Admissible(nal, delimited, sliced)
    requires Clean(rest, delimited || Type(nal, {9}), sliced || Type(nal, {1, 5}))
    ensures Clean([nal] + rest, delimited, sliced)
  {
    var nals := [nal] + rest;
    forall i, j | 0 <= i < j < |nals|
      ensures Admissible(nals[j], delimited || Type(nals[i], {9}), sliced || Type(nals[i], {1, 5}))
    {
      assert nals[j] == rest[j - 1];
      if i > 0 {
        assert nals[i] == rest[i - 1];
      }
    }
  }

  lemma {:induction false} UnambiguousIsClean(w: Walk, nals: seq<Bytes>, count: nat, dangling: bool)
    requires Sized(w.t) && nals != [] && WalkUnits(w, nals, count, dangling).snapshot.associated
    ensures !w.ambiguous && !dangling && count + |nals| <= 128 && Clean(nals, w.auds > 0, w.slices > 0)
    decreases |nals|
  {
    var v := StepNal(w, nals[0]);
    if |nals| > 1 {
      UnambiguousIsClean(v, nals[1..], count + 1, dangling);
    } else {
      assert nals[1..] == [];
    }
    UnambiguousUnit(w, nals[0]);
    CleanToo(nals[0], nals[1..], w.auds > 0, w.slices > 0);
    assert nals == [nals[0]] + nals[1..];
  }

  /**
   * An associated access unit holds only slices, messages, readable parameter sets, one
   * delimiter, ends and filler; and after its first slice only slices, ends and filler.
   */
  lemma AssociatedUnitIsClean(t: Tables, data: Bytes)
    requires Sized(t) && Observe(t, data).snapshot.associated
    ensures |data| <= 8 * 1024 * 1024 && Units(data).Some?
    ensures !Units(data).value.dangling && |Units(data).value.nals| <= 128
    ensures Clean(Units(data).value.nals, false, false)
  {
    var f := Units(data).value;
    UnambiguousIsClean(StartWalk(t), f.nals, 0, f.dangling);
  }
}
