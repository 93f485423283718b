/**
 * chd_h264_read_sps_range: the one-pass SPS prefix reader, proved to return what the
 * syntax tree of the RBSP says. A failed cursor keeps running on zeros until the next
 * check, as in the original; Section says why that never shows.
 */
module SpsReader {
  import opened Basics
  import opened BitSyntax
  import opened BitCursor
  import opened Emulation
  import opened SpsSyntax

  const SPS_MAX_BYTES := 4096

  datatype Status = RangeOk | RangeInvalid | RangeUnsupported

  /** Whether a part of the parse came out as its syntax says. */
  ghost predicate Section<T(!new)>(p: Parsed<T>, failedBefore: bool, status: Status, failed: bool, rest: Bits) {
    if failedBefore then failed && !status.RangeUnsupported?
    else match p
      case Got(_, r) => status.RangeOk? && !failed && rest == r
      case Unsupported => status.RangeUnsupported?
      case Invalid => status.RangeInvalid? || (status.RangeOk? && failed)
  }

  /** Only the remaining bits of a parse. */
  ghost function Tail<T>(p: Parsed<T>): Parsed<()> {
    match p
    case Got(_, rest) => Got((), rest)
    case Invalid => Invalid
    case Unsupported => Unsupported
  }

  method SkipScalingList(b: Cursor, size: nat)
    requires b.Valid()
    modifies b
    ensures b.Valid()
    ensures Section(GetScaling(size, 8, old(b.Remaining())), old(b.failed), RangeOk, b.failed, b.Remaining())
  {
    ghost var spec := Tail(GetScaling(size, 8, b.Remaining()));
    var j, last, next := 0, 8, 8;
    while j < size && !b.failed
      invariant b.Valid() && j <= size
      invariant old(b.failed) ==> b.failed
      invariant !old(b.failed) && b.failed ==> spec.Invalid?
      invariant !b.failed && next == 0 ==> spec == Got((), b.Remaining())
      invariant !b.failed && next != 0 ==>
        last == next && spec == Tail(GetScaling(size - j, last, b.Remaining()))
    {
      if next != 0 {
        var delta := b.Se();
        if delta < -128 || delta > 127 {
          b.failed := true;
        }
        next := NextScale(last, delta);
      }
      if next != 0 {
        last := next;
      }
      j := j + 1;
    }
  }

  method SkipScalingLists(b: Cursor)
    requires b.Valid()
    modifies b
    ensures b.Valid()
    ensures Section(GetLists(0, old(b.Remaining())), old(b.failed), RangeOk, b.failed, b.Remaining())
  {
    ghost var spec := Tail(GetLists(0, b.Remaining()));
    var i := 0;
    while i < 8 && !b.failed
      invariant b.Valid() && i <= 8
      invariant old(b.failed) ==> b.failed
      invariant !old(b.failed) && b.failed ==> spec.Invalid?
      invariant !b.failed ==> spec == Tail(GetLists(i, b.Remaining()))
    {
      var present := b.GetBool();
      if present {
        SkipScalingList(b, ListSize(i));
      }
      i := i + 1;
    }
  }

  method ReadHigh(b: Cursor) returns (status: Status)
    requires b.Valid()
    modifies b
    ensures b.Valid()
    ensures Section(GetHigh(old(b.Remaining())), old(b.failed), status, b.failed, b.Remaining())
  {
    var value := b.Ue();
    if value == 1 {
      value := b.Ue();
      if value == 0 {
        value := b.Ue();
        if value == 0 {
          var _ := b.GetBool();
          var matrix := b.GetBool();
          if matrix {
            SkipScalingLists(b);
          }
          return RangeOk;
        }
      }
    }
    status := if b.failed then RangeInvalid else RangeUnsupported;
  }

  ghost function WithPoc(out: SpsRange, poc: Poc): SpsRange {
    match poc
    case Poc0(lsb) => out.(pocType := 0, pocLsbBits := lsb + 4)
    case Poc1(alwaysZero, _, _, _) => out.(pocType := 1, deltaPicOrderAlwaysZero := alwaysZero)
    case Poc2 => out.(pocType := 2)
  }

  method SkipCycle(b: Cursor, n: nat)
    requires b.Valid()
    modifies b
    ensures b.Valid()
    ensures Section(GetCycle(n, old(b.Remaining())), old(b.failed), RangeOk, b.failed, b.Remaining())
  {
    ghost var spec := Tail(GetCycle(n, b.Remaining()));
    var i := 0;
    while i < n && !b.failed
      invariant b.Valid() && i <= n
      invariant old(b.failed) ==> b.failed
      invariant !old(b.failed) && b.failed ==> spec.Invalid?
      invariant !b.failed ==> spec == Tail(GetCycle(n - i, b.Remaining()))
    {
      var _ := b.Se();
      i := i + 1;
    }
  }

  method ReadPoc1(b: Cursor, before: SpsRange, ghost spec: Parsed<Poc>) returns (status: Status, out: SpsRange)
    requires b.Valid() && before.pocType == 1 && spec == GetPoc1(b.Remaining())
    modifies b
    ensures b.Valid()
    ensures Section(spec, old(b.failed), status, b.failed, b.Remaining())
    ensures !old(b.failed) && spec.Got? ==> out == WithPoc(before, spec.value)
    ensures out.videoSignalPresent == before.videoSignalPresent
  {
    var alwaysZero := b.GetBool();
    out := before.(deltaPicOrderAlwaysZero := alwaysZero);
    var _ := b.Se();
    var _ := b.Se();
    var value := b.Ue();
    if value > 255 {
      return RangeInvalid, out;
    }
    SkipCycle(b, value);
    status := RangeOk;
  }

  method ReadPoc0(b: Cursor, before: SpsRange, ghost spec: Parsed<Poc>) returns (status: Status, out: SpsRange)
    requires b.Valid() && before.pocType == 0 && spec == GetPoc0(b.Remaining())
    modifies b
    ensures b.Valid()
    ensures Section(spec, old(b.failed), status, b.failed, b.Remaining())
    ensures !old(b.failed) && spec.Got? ==> out == WithPoc(before, spec.value)
    ensures out.videoSignalPresent == before.videoSignalPresent
  {
    out := before;
    var value := b.Ue();
    if value > 12 {
      return RangeInvalid, out;
    }
    out := out.(pocLsbBits := value + 4);
    status := RangeOk;
  }

  method ReadPoc(b: Cursor, before: SpsRange) returns (status: Status, out: SpsRange)
    requires b.Valid()
    modifies b
    ensures b.Valid()
    ensures Section(GetPoc(old(b.Remaining())), old(b.failed), status, b.failed, b.Remaining())
    ensures !old(b.failed) && GetPoc(old(b.Remaining())).Got? ==>
      out == WithPoc(before, GetPoc(old(b.Remaining())).value)
    ensures out.videoSignalPresent == before.videoSignalPresent
  {
    var value := b.Ue();
    status, out := ReadPocOf(b, value, before, GetPocOf(value, b.Remaining()));
  }

  /** The part that depends on the type. */
  method ReadPocOf(b: Cursor, value: nat, before: SpsRange, ghost spec: Parsed<Poc>)
    returns (status: Status, out: SpsRange)
    requires b.Valid() && spec == GetPocOf(value, b.Remaining())
    modifies b
    ensures b.Valid()
    ensures Section(spec, old(b.failed), status, b.failed, b.Remaining())
    ensures !old(b.failed) && spec.Got? ==> out == WithPoc(before, spec.value)
    ensures out.videoSignalPresent == before.videoSignalPresent
  {
    out := before;
    if value > 2 {
      return RangeInvalid, out;
    }
    out := out.(pocType := value);
    if value == 0 {
      status, out := ReadPoc0(b, out, spec);
    } else if value == 1 {
      status, out := ReadPoc1(b, out, spec);
    } else {
      status := RangeOk;
    }
  }

  ghost function WithGeometry(out: SpsRange, g: Geometry): SpsRange {
    out.(picSizeInMapUnits := MapUnits(g.widthMinus1, g.heightMinus1), frameMbsOnly := g.mode.FramesOnly?)
  }

  method ReadMode(b: Cursor) returns (framesOnly: bool)
    requires b.Valid()
    modifies b
    ensures b.Valid()
    ensures Section(GetMode(old(b.Remaining())), old(b.failed), RangeOk, b.failed, b.Remaining())
    ensures !b.failed ==> framesOnly == GetMode(old(b.Remaining())).value.FramesOnly?
  {
    framesOnly := b.GetBool();
    if !framesOnly {
      var _ := b.GetBool();
    }
  }

  method ReadGeometry(b: Cursor, before: SpsRange) returns (status: Status, out: SpsRange)
    requires b.Valid()
    modifies b
    ensures b.Valid()
    ensures Section(GetGeometry(old(b.Remaining())), old(b.failed), status, b.failed, b.Remaining())
    ensures !old(b.failed) && GetGeometry(old(b.Remaining())).Got? ==>
      out == WithGeometry(before, GetGeometry(old(b.Remaining())).value)
    ensures out.videoSignalPresent == before.videoSignalPresent
  {
    out := before;
    var refFrames := b.Ue();
    if refFrames > 16 {
      return RangeInvalid, out;
    }
    var _ := b.GetBool();
    var width := b.Ue();
    var height := b.Ue();
    out := out.(picSizeInMapUnits := MapUnits(width, height));
    var framesOnly := ReadMode(b);
    out := out.(frameMbsOnly := framesOnly);
    var _ := b.GetBool();
    SkipCrop(b);
    status := RangeOk;
  }

  method SkipCrop(b: Cursor)
    requires b.Valid()
    modifies b
    ensures b.Valid()
    ensures Section(GetCrop(old(b.Remaining())), old(b.failed), RangeOk, b.failed, b.Remaining())
  {
    var cropped := b.GetBool();
    if cropped {
      var _ := b.Ue();
      var _ := b.Ue();
      var _ := b.Ue();
      var _ := b.Ue();
    }
  }

  method ReadAspect(b: Cursor) returns (status: Status)
    requires b.Valid()
    modifies b
    ensures b.Valid()
    ensures Section(GetAspect(old(b.Remaining())), old(b.failed), status, b.failed, b.Remaining())
  {
    var present := b.GetBool();
    if present {
      var value := b.Get(8);
      if value == 255 {
        var width := b.Get(16);
        var height := b.Get(16);
        if width == 0 || height == 0 {
          return RangeInvalid;
        }
      } else if value > 16 {
        return RangeInvalid;
      }
    }
    status := RangeOk;
  }

  ghost function WithSignal(out: SpsRange, signal: Option<VideoSignal>): SpsRange {
    match signal
    case None => out
    case Some(s) => out.(videoSignalPresent := true, rangePresent := true, fullRange := s.fullRange)
  }

  method ReadSignal(b: Cursor, before: SpsRange) returns (status: Status, out: SpsRange)
    requires b.Valid()
    modifies b
    ensures b.Valid()
    ensures Section(GetSignal(old(b.Remaining())), old(b.failed), status, b.failed, b.Remaining())
    ensures !old(b.failed) && GetSignal(old(b.Remaining())).Got? && !before.videoSignalPresent ==>
      out == WithSignal(before, GetSignal(old(b.Remaining())).value)
  {
    var signal := b.GetBool();
    out := before.(videoSignalPresent := signal);
    if signal {
      var format := b.Get(3);
      if format > 5 {
        return RangeInvalid, out;
      }
      out := out.(rangePresent := true);
      var fullRange := b.GetBool();
      out := out.(fullRange := fullRange);
      var colour := b.GetBool();
      if colour {
        var _ := b.Get(24);
      }
    }
    status := RangeOk;
  }

  ghost function WithVui(out: SpsRange, vui: Option<Vui>): SpsRange {
    WithSignal(out.(vuiPresent := vui.Some?), SignalOf(vui))
  }

  method ReadVui(b: Cursor, before: SpsRange) returns (status: Status, out: SpsRange)
    requires b.Valid() && !before.videoSignalPresent
    modifies b
    ensures b.Valid()
    ensures Section(GetVui(old(b.Remaining())), old(b.failed), status, b.failed, b.Remaining())
    ensures !old(b.failed) && GetVui(old(b.Remaining())).Got? ==>
      out == WithVui(before, GetVui(old(b.Remaining())).value)
  {
    var present := b.GetBool();
    out := before.(vuiPresent := present);
    if out.vuiPresent && !b.failed {
      status := ReadAspect(b);
      if status != RangeOk {
        return status, out;
      }
      var overscan := b.GetBool();
      if overscan {
        var _ := b.GetBool();
      }
      status, out := ReadSignal(b, out);
      return status, out;
    }
    status := RangeOk;
  }

  /** The outcome the RBSP calls for. */
  ghost predicate HeaderOk(nal: seq<Byte>, bytes: nat, kind: int) {
    1 <= bytes <= |nal| && nal[0] < 128 && (nal[0] / 32) % 4 != 0 && nal[0] % 32 == kind
  }

  datatype SpsResult = SpsResult(status: Status, facts: SpsRange)

  ghost function SpsOutcome(nal: seq<Byte>, bytes: nat): SpsResult
    requires bytes <= |nal|
  {
    if bytes < 4 || bytes > SPS_MAX_BYTES || !HeaderOk(nal, bytes, 7) || !WellEscaped(nal[1..bytes], 0)
    then SpsResult(RangeInvalid, NO_RANGE)
    else match GetSps(PayloadBits(nal, 1, bytes, 0))
      case Got(s, _) => SpsResult(RangeOk, Facts(s))
      case Invalid => SpsResult(RangeInvalid, NO_RANGE)
      case Unsupported => SpsResult(RangeUnsupported, NO_RANGE)
  }

  method ReadHead(b: Cursor) returns (status: Status, head: Head)
    requires b.Valid()
    modifies b
    ensures b.Valid()
    ensures Section(GetHead(old(b.Remaining())), old(b.failed), status, b.failed, b.Remaining())
    ensures status.RangeOk? ==> !b.failed && head == GetHead(old(b.Remaining())).value
  {
    var profile := b.Get(8);
    var constraints := b.Get(8);
    head := Head(profile, constraints, 0, 0);
    if constraints % 4 != 0 {
      return RangeInvalid, head;
    }
    var level := b.Get(8);
    var id := b.Ue();
    head := Head(profile, constraints, level, id);
    status := if b.failed || id > 31 then RangeInvalid else RangeOk;
  }

  /** The reader fills its record section by section. */
  lemma FactsBySection(s: Sps)
    ensures Facts(s) ==
      WithVui(WithGeometry(WithPoc(NO_RANGE.(spsId := s.head.id, frameNumBits := s.frameNumMinus4 + 4),
        s.poc), s.geometry), s.vui)
  {
  }

  /** Everything after the SPS identifier and the High profile fields. */
  method ReadBody(b: Cursor, before: SpsRange, ghost head: Head, ghost high: Option<High>)
    returns (status: Status, out: SpsRange)
    requires b.Valid() && before == NO_RANGE.(spsId := head.id)
    modifies b
    ensures b.Valid()
    ensures Section(GetBody(head, high, old(b.Remaining())), old(b.failed), status, b.failed, b.Remaining())
    ensures !old(b.failed) && GetBody(head, high, old(b.Remaining())).Got? ==>
      out == Facts(GetBody(head, high, old(b.Remaining())).value)
  {
    out := before;
    ghost var was, spec := b.failed, GetBody(head, high, b.Remaining());
    var value := b.Ue();
    if value > 12 {
      return RangeInvalid, out;
    }
    out := out.(frameNumBits := value + 4);
    status, out := ReadPoc(b, out);
    if status != RangeOk {
      return;
    }
    assert b.failed ==> was || spec.Invalid?;
    if !b.failed && spec.Got? {
      assert out == WithPoc(before.(frameNumBits := spec.value.frameNumMinus4 + 4), spec.value.poc);
      FactsBySection(spec.value);
    }
    status, out := ReadGeometry(b, out);
    if status != RangeOk {
      return;
    }
    status, out := ReadVui(b, out);
  }

  method ReadProfile(b: Cursor, head: Head) returns (status: Status, out: SpsRange)
    requires b.Valid() && !b.failed
    modifies b
    ensures b.Valid()
    ensures Section(GetProfile(head, old(b.Remaining())), false, status, b.failed, b.Remaining())
    ensures GetProfile(head, old(b.Remaining())).Got? ==> out == Facts(GetProfile(head, old(b.Remaining())).value)
  {
    out := NO_RANGE.(spsId := head.id);
    if head.profile != 66 && head.profile != 77 && head.profile != 100 {
      return RangeUnsupported, out;
    }
    ghost var high := None;
    if head.profile == 100 {
      ghost var spec := GetHigh(b.Remaining());
      status := ReadHigh(b);
      if status != RangeOk {
        return;
      }
      high := if spec.Got? then Some(spec.value) else None;
    }
    status, out := ReadBody(b, out, head, high);
  }

  /** Reads one SPS NAL unit; `result` is the caller's previous value on every failure. */
  method ReadSpsRange(nal: seq<Byte>, bytes: nat, previous: SpsRange) returns (status: Status, result: SpsRange)
    requires bytes <= |nal|
    ensures status == SpsOutcome(nal, bytes).status
    ensures result == if status.RangeOk? then SpsOutcome(nal, bytes).facts else previous
  {
    result := previous;
    if bytes < 4 || bytes > SPS_MAX_BYTES || nal[0] >= 128 || (nal[0] / 32) % 4 == 0 || nal[0] % 32 != 7 {
      return RangeInvalid, result;
    }
    var escaped := Ebsp(nal, bytes);
    if !escaped {
      return RangeInvalid, result;
    }
    var b := new Cursor(nal, bytes);
    var head, out;
    status, head := ReadHead(b);
    if status != RangeOk {
      return;
    }
    status, out := ReadProfile(b, head);
    if status != RangeOk {
      return;
    }
    if b.failed {
      return RangeInvalid, result;
    }
    result := out;
  }
}
