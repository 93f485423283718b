/**
 * Slice headers are read from the first 128 bytes of their NAL unit. That changes nothing:
 * no header the reader takes is longer, so it finds there what the whole unit holds.
 */
module SliceWindow {
  import opened Basics
  import opened BitSyntax
  import opened BitCursor
  import opened Emulation
  import opened SpsSyntax
  import opened SliceSyntax
  import opened AnnexB
  import opened RangeModel

  // ---- how many bits a window holds --------------------------------------------------

  lemma {:induction false} BytesBitsAppend(a: Bytes, b: Bytes)
    ensures BytesBits(a + b) == BytesBits(a) + BytesBits(b)
  {
    if a == [] {
      assert a + b == b;
    } else {
      BytesBitsAppend(a[1..], b);
      assert (a + b)[1..] == a[1..] + b;
    }
  }

  lemma {:induction false} BytesBitsLength(bytes: Bytes)
    ensures |BytesBits(bytes)| == 8 * |bytes|
  {
    if bytes != [] {
      LowBitsLength(bytes[0], 8);
      BytesBitsLength(bytes[1..]);
    }
  }

  lemma {:induction false} LowBitsLength(v: Byte, n: nat)
    ensures |LowBits(v, n)| == n
  {
    if n > 0 {
      LowBitsLength(v, n - 1);
    }
  }

  /** At most one byte in three is an emulation prevention byte. */
  lemma {:induction false} StripKeepsTwoThirds(s: Bytes, n: nat, zeros: nat)
    requires zeros <= 2 && n <= |s|
    ensures Strip(s[..n], zeros) == Strip(s, zeros) || 3 * |Strip(s[..n], zeros)| + zeros >= 2 * n
    decreases |s|
  {
    if n > 0 && !(zeros == 2 && s[0] < 3) {
      assert s[..n][1..] == s[1..][..n - 1];
      if !(zeros == 2 && s[0] == 3) {
        StripKeepsTwoThirds(s[1..], n - 1, NextZeros(zeros, s[0]));
      } else if n > 1 && s[1] <= 3 {
        StripKeepsTwoThirds(s[1..], n - 1, 0);
      }
    }
  }

  const LONGEST := 394

  /** A window that is not the whole unit holds more bits than the longest header. */
  lemma WindowBitsArePrefix(nal: Bytes) returns (more: Bits)
    requires nal != []
    ensures PayloadBits(nal, 1, |nal|, 0) == WindowBits(nal) + more
    ensures more == [] || |WindowBits(nal)| >= LONGEST
  {
    var n := Window(|nal|);
    var s := nal[1..|nal|];
    assert nal[1..n] == s[..n - 1];
    StripPrefix(s, n - 1, 0);
    var whole, part := Strip(s, 0), Strip(s[..n - 1], 0);
    assert whole == part + whole[|part|..];
    BytesBitsAppend(part, whole[|part|..]);
    more := BytesBits(whole[|part|..]);
    StripKeepsTwoThirds(s, n - 1, 0);
    BytesBitsLength(part);
    if n == |nal| {
      assert s[..n - 1] == s;
    }
  }

  // ---- how many bits a header takes --------------------------------------------------
  // A read that succeeds on all bits succeeds on a prefix that is long enough.

  lemma {:induction false} GetUEFits(a: Bits, more: Bits, zeros: nat)
    requires zeros <= 31 && |a| + zeros >= 63 && GetUEFrom(a + more, zeros).Got?
    ensures GetUEFrom(a, zeros).Got? && |GetUEFrom(a, zeros).rest| >= |a| + zeros - 63
    decreases |a|
  {
    assert (a + more)[0] == a[0] && (a + more)[1..] == a[1..] + more;
    if a[0] {
      GetULength(zeros, a[1..], 0);
    } else {
      GetUEFits(a[1..], more, zeros + 1);
    }
  }

  lemma GetSEFits(a: Bits, more: Bits)
    requires |a| >= 63 && GetSE(a + more).Got?
    ensures GetSE(a).Got? && |GetSE(a).rest| >= |a| - 63
  {
    GetUEFits(a, more, 0);
  }

  lemma GetSliceStartFits(a: Bits, more: Bits)
    requires |a| >= 189 && GetSliceStart(a + more).Got?
    ensures GetSliceStart(a).Got? && |GetSliceStart(a).rest| >= |a| - 189
  {
    GetUEFits(a, more, 0);
    GetUEExtends(a, more, 0);
    var b := GetUE(a).rest;
    GetUEFits(b, more, 0);
    GetUEExtends(b, more, 0);
    GetUEFits(GetUE(b).rest, more, 0);
  }

  lemma GetOrderFits(sps: SpsRange, bottom: bool, a: Bits, more: Bits)
    requires |a| >= 126 && GetOrder(sps, bottom, a + more).Got?
    ensures GetOrder(sps, bottom, a).Got?
  {
    if sps.pocType == 0 {
      GetULength(sps.pocLsbBits, a, 0);
      if bottom {
        GetUExtends(sps.pocLsbBits, a, more, 0);
        GetSEFits(GetU(sps.pocLsbBits, a).rest, more);
      }
    } else if sps.pocType == 1 && !sps.deltaPicOrderAlwaysZero {
      GetSEFits(a, more);
      if bottom {
        GetSEExtends(a, more);
        GetSEFits(GetSE(a).rest, more);
      }
    }
  }

  lemma GetIdrFits(start: SliceStart, idr: bool, frameNum: nat, a: Bits, more: Bits)
    requires |a| >= 63 && GetIdr(start, idr, frameNum, a + more).Got?
    ensures GetIdr(start, idr, frameNum, a).Got? && |GetIdr(start, idr, frameNum, a).rest| >= |a| - 63
    ensures GetIdr(start, idr, frameNum, a + more) ==
      Got(GetIdr(start, idr, frameNum, a).value, GetIdr(start, idr, frameNum, a).rest + more)
  {
    if idr {
      GetUEFits(a, more, 0);
      GetUEExtends(a, more, 0);
    }
  }

  lemma GetPictureFits(sps: SpsRange, bottom: bool, start: SliceStart, idr: bool, reference: bool, a: Bits, more: Bits)
    requires sps.frameNumBits <= 16 && |a| >= 205 && GetPicture(sps, bottom, start, idr, reference, a + more).Got?
    ensures GetPicture(sps, bottom, start, idr, reference, a).Got?
  {
    GetULength(sps.frameNumBits, a, 0);
    GetUExtends(sps.frameNumBits, a, more, 0);
    var frameNum, b := GetU(sps.frameNumBits, a).value, GetU(sps.frameNumBits, a).rest;
    GetIdrFits(start, idr, frameNum, b, more);
    GetOrderFits(sps, bottom, GetIdr(start, idr, frameNum, b).rest, more);
  }

  // ---- the window is harmless --------------------------------------------------------

  /** The start of a slice header is the same in the window and in the whole unit. */
  lemma SliceStartFitsWindow(nal: Bytes)
    requires nal != []
    ensures var w, all := GetSliceStart(WindowBits(nal)), GetSliceStart(PayloadBits(nal, 1, |nal|, 0));
      w.Got? == all.Got? && (w.Got? ==> w.value == all.value)
  {
    var bits := WindowBits(nal);
    var more := WindowBitsArePrefix(nal);
    if more == [] {
      assert bits + more == bits;
    } else if GetSliceStart(bits + more).Got? {
      GetSliceStartFits(bits, more);
    }
    if GetSliceStart(bits).Got? {
      GetSliceStartExtends(bits, more);
    }
  }

  /** And so is the whole of what is read of a header. */
  lemma WindowIsHarmless(t: Tables, nal: Bytes)
    requires Sized(t) && nal != []
    ensures PictureOutcome(t, nal) ==
      if SliceHeaderByte(nal) then PictureFrom(t, nal[0], PayloadBits(nal, 1, |nal|, 0)) else None
  {
    var bits := WindowBits(nal);
    var more := WindowBitsArePrefix(nal);
    SliceStartFitsWindow(nal);
    if more == [] {
      assert bits + more == bits;
    } else if GetSliceStart(bits).Got? {
      GetSliceStartFits(bits, more);
      GetSliceStartExtends(bits, more);
      RestIsHarmless(t, nal[0], bits, more);
    }
  }

  lemma RestIsHarmless(t: Tables, header: Byte, bits: Bits, more: Bits)
    requires Sized(t) && GetSliceStart(bits).Got? && |GetSliceStart(bits).rest| >= 205
    requires GetSliceStart(bits + more) == Got(GetSliceStart(bits).value, GetSliceStart(bits).rest + more)
    ensures PictureFrom(t, header, bits) == PictureFrom(t, header, bits + more)
  {
    var s, rest := GetSliceStart(bits).value, GetSliceStart(bits).rest;
    if s.pps <= 255 {
      var pps := t.pps[s.pps];
      var sps := t.sps[pps.spsId].value;
      var idr, reference := header % 32 == 5, (header / 32) % 4 != 0;
      if PictureScope(sps, s.firstMb) {
        if GetPicture(sps, pps.bottom, s, idr, reference, rest + more).Got? {
          GetPictureFits(sps, pps.bottom, s, idr, reference, rest, more);
        }
        if GetPicture(sps, pps.bottom, s, idr, reference, rest).Got? {
          GetPictureExtends(sps, pps.bottom, s, idr, reference, rest, more);
        }
      }
    }
  }
}
