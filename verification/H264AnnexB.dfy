/**
 * Annex B framing (ITU-T H.264, section B.1): the scan for start codes, the list of NAL
 * units it finds in an access unit, and the writer it inverts.
 */
module AnnexB {
  import opened Basics
  import opened Emulation

  type Bytes = seq<Byte>

  ghost function Zeros(n: nat): Bytes { seq(n, _ => 0) }

  datatype StartCode = StartCode(start: int, next: int)

  function Shift(c: StartCode, n: int): StartCode { StartCode(c.start + n, c.next + n) }

  /**
   * The first start code in `s` when `zeros` zero bytes come just before it: where its
   * zero bytes begin and the position after its 0x01, relative to `s`; both are the
   * length of `s` when there is none.
   */
  ghost function Scan(s: Bytes, zeros: nat): (c: StartCode)
    ensures 0 - zeros <= c.start <= c.next <= |s| && (zeros == 0 ==> c.start >= 0)
    ensures c.start == |s| || (c.start < c.next && c.next > 0)
  {
    if s == [] then StartCode(0, 0)
    else if s[0] == 0 then Shift(Scan(s[1..], zeros + 1), 1)
    else if s[0] == 1 && zeros >= 2 then StartCode(0 - zeros, 1)
    else Shift(Scan(s[1..], 0), 1)
  }

  /** The scan of `data` from position i on, in positions of `data`. */
  ghost function ScanFrom(data: Bytes, i: nat, zeros: nat): StartCode
    requires i <= |data|
  {
    Shift(Scan(data[i..], zeros), i)
  }

  /** One byte further into the scan. */
  lemma {:induction false} ScanAt(data: Bytes, i: nat, zeros: nat)
    requires i <= |data|
    ensures i == |data| ==> ScanFrom(data, i, zeros) == StartCode(i, i)
    ensures i < |data| && data[i] == 0 ==> ScanFrom(data, i, zeros) == ScanFrom(data, i + 1, zeros + 1)
    ensures i < |data| && data[i] == 1 && zeros >= 2 ==> ScanFrom(data, i, zeros) == StartCode(i - zeros, i + 1)
    ensures i < |data| && data[i] != 0 && !(data[i] == 1 && zeros >= 2) ==>
      ScanFrom(data, i, zeros) == ScanFrom(data, i + 1, 0)
  {
    if i < |data| {
      assert data[i..][1..] == data[i + 1..];
    }
  }

  /** chd_h264_range_start */
  method FindStart(data: Bytes, from: nat) returns (next: nat, start: nat)
    requires from <= |data|
    ensures from <= start <= next <= |data| && (start == |data| || start < next)
    ensures StartCode(start, next) == Shift(Scan(data[from..], 0), from)
  {
    ghost var spec := ScanFrom(data, from, 0);
    var i, zeros := from, 0;
    while i < |data|
      invariant from <= i <= |data| && zeros <= i - from
      invariant spec == ScanFrom(data, i, zeros)
    {
      ScanAt(data, i, zeros);
      if data[i] == 0 {
        zeros, i := zeros + 1, i + 1;
        continue;
      }
      if data[i] == 1 && zeros >= 2 {
        return i + 1, i - zeros;
      }
      zeros, i := 0, i + 1;
    }
    ScanAt(data, i, zeros);
    return |data|, |data|;
  }

  ghost function TrimZeros(s: Bytes): (t: Bytes)
    ensures |t| <= |s| && t == s[..|t|]
    ensures t == [] || t[|t| - 1] != 0
  {
    if s == [] || s[|s| - 1] != 0 then s else TrimZeros(s[..|s| - 1])
  }

  /** The NAL units after a first start code; `dangling` when a last start code has no unit. */
  datatype Framing = Framing(nals: seq<Bytes>, dangling: bool)

  ghost function Split(s: Bytes): (f: Framing)
    ensures f.nals != []
    decreases |s|
  {
    var c := Scan(s, 0);
    var nal := TrimZeros(s[..c.start]);
    if c.next == |s| then Framing([nal], c.start < |s|)
    else
      var rest := Split(s[c.next..]);
      Framing([nal] + rest.nals, rest.dangling)
  }

  // ---- the writer ------------------------------------------------------------------

  /** NAL units that Annex B can carry as they are. */
  ghost predicate Framable(nal: Bytes) {
    nal != [] && nal[|nal| - 1] != 0 &&
    forall i :: 0 <= i && i + 2 < |nal| ==> !(nal[i] == 0 && nal[i + 1] == 0 && nal[i + 2] == 1)
  }

  /** The units without their first start code; unit i + 1 follows gaps[i] zero bytes and 0x01. */
  ghost function FrameRest(nals: seq<Bytes>, gaps: seq<nat>, trailing: nat): Bytes
    requires |nals| == |gaps| + 1
    decreases |nals|
  {
    if |nals| == 1 then nals[0] + Zeros(trailing)
    else nals[0] + (Zeros(gaps[0]) + ([1] + FrameRest(nals[1..], gaps[1..], trailing)))
  }

  /** byte_stream_nal_unit()s with any start code lengths and any trailing zero bytes. */
  ghost function Frame(nals: seq<Bytes>, gaps: seq<nat>, trailing: nat): Bytes
    requires |nals| == |gaps| > 0
  {
    Zeros(gaps[0]) + ([1] + FrameRest(nals, gaps[1..], trailing))
  }

  /** No 0x01 after two or more zero bytes, `zeros` of them before `m`. */
  ghost predicate NoStart(m: Bytes, zeros: nat) {
    m == [] ||
    (!(m[0] == 1 && zeros >= 2) && NoStart(m[1..], NextZeros(zeros, m[0])))
  }

  lemma {:induction false} FramableHasNoStart(m: Bytes, zeros: nat)
    requires forall i :: 0 <= i && i + 2 < |m| ==> !(m[i] == 0 && m[i + 1] == 0 && m[i + 2] == 1)
    requires zeros >= 1 && |m| > 1 ==> !(m[0] == 0 && m[1] == 1)
    requires zeros >= 2 && |m| > 0 ==> m[0] != 1
    ensures NoStart(m, zeros)
  {
    if m != [] {
      assert forall i :: 0 <= i < |m[1..]| ==> m[1..][i] == m[i + 1];
      FramableHasNoStart(m[1..], NextZeros(zeros, m[0]));
    }
  }

  lemma ConcatFirst(a: Bytes, b: Bytes)
    requires a != []
    ensures (a + b)[0] == a[0] && (a + b)[1..] == a[1..] + b
  {
  }

  lemma ConcatEmpty(b: Bytes)
    ensures [] + b == b
  {
  }

  lemma ConcatSplit(a: Bytes, b: Bytes)
    ensures (a + b)[..|a|] == a && (a + b)[|a|..] == b
  {
  }

  lemma {:induction false} ScanZeros(n: nat, more: Bytes, zeros: nat)
    requires zeros + n >= 2
    ensures Scan(Zeros(n) + ([1] + more), zeros) == StartCode(0 - zeros, n + 1)
  {
    var s := Zeros(n) + ([1] + more);
    if n > 0 {
      ScanZeros(n - 1, more, zeros + 1);
      assert s[1..] == Zeros(n - 1) + ([1] + more);
    }
  }

  /** A scan runs over a unit and stops where the zero bytes after it begin. */
  lemma {:induction false} ScanOver(m: Bytes, zeros: nat, gap: nat, more: Bytes)
    requires NoStart(m, zeros) && gap >= 2
    requires if m == [] then zeros == 0 else m[|m| - 1] != 0
    ensures Scan(m + (Zeros(gap) + ([1] + more)), zeros) == StartCode(|m|, |m| + gap + 1)
    decreases |m|
  {
    var s := m + (Zeros(gap) + ([1] + more));
    if m == [] {
      assert s == Zeros(gap) + ([1] + more);
      ScanZeros(gap, more, 0);
    } else {
      ScanOver(m[1..], NextZeros(zeros, m[0]), gap, more);
      assert s[1..] == m[1..] + (Zeros(gap) + ([1] + more));
    }
  }

  lemma {:induction false} ScanPadding(trailing: nat, zeros: nat)
    ensures Scan(Zeros(trailing), zeros) == StartCode(trailing, trailing)
  {
    if trailing > 0 {
      ScanPadding(trailing - 1, zeros + 1);
      assert Zeros(trailing)[1..] == Zeros(trailing - 1);
    }
  }

  /** A scan over a last unit and its padding finds nothing. */
  lemma {:induction false} ScanToEnd(m: Bytes, zeros: nat, trailing: nat)
    requires NoStart(m, zeros)
    ensures Scan(m + Zeros(trailing), zeros) == StartCode(|m| + trailing, |m| + trailing)
    decreases |m|
  {
    if m == [] {
      ConcatEmpty(Zeros(trailing));
      ScanPadding(trailing, zeros);
    } else {
      ConcatFirst(m, Zeros(trailing));
      ScanToEnd(m[1..], NextZeros(zeros, m[0]), trailing);
    }
  }

  lemma {:induction false} TrimPadding(m: Bytes, trailing: nat)
    requires m == [] || m[|m| - 1] != 0
    ensures TrimZeros(m + Zeros(trailing)) == m
  {
    var s := m + Zeros(trailing);
    if trailing > 0 {
      TrimPadding(m, trailing - 1);
      assert s[..|s| - 1] == m + Zeros(trailing - 1);
    } else {
      assert s == m;
    }
  }

  lemma SplitAt(s: Bytes, nal: Bytes, next: nat, more: Bytes)
    requires nal != [] && nal[|nal| - 1] != 0 && next < |s|
    requires Scan(s, 0) == StartCode(|nal|, next) && s[..|nal|] == nal && s[next..] == more
    ensures Split(s) == Framing([nal] + Split(more).nals, Split(more).dangling)
  {
    assert TrimZeros(nal) == nal;
  }

  lemma {:induction false} SplitStep(nal: Bytes, gap: nat, more: Bytes)
    requires Framable(nal) && gap >= 2 && more != []
    ensures Split(nal + (Zeros(gap) + ([1] + more))) ==
      Framing([nal] + Split(more).nals, Split(more).dangling)
  {
    var s := nal + (Zeros(gap) + ([1] + more));
    FramableHasNoStart(nal, 0);
    ScanOver(nal, 0, gap, more);
    ConcatSplit(nal, Zeros(gap) + ([1] + more));
    assert s[|nal| + gap + 1..] == more by {
      ConcatSplit(nal + Zeros(gap) + [1], more);
      assert s == nal + Zeros(gap) + [1] + more;
    }
    SplitAt(s, nal, |nal| + gap + 1, more);
  }

  lemma SplitLast(nal: Bytes, trailing: nat)
    requires Framable(nal)
    ensures Split(nal + Zeros(trailing)) == Framing([nal], false)
  {
    var s := nal + Zeros(trailing);
    FramableHasNoStart(nal, 0);
    ScanToEnd(nal, 0, trailing);
    TrimPadding(nal, trailing);
    assert s[..|s|] == s;
  }

  lemma {:induction false} SplitFrameRest(nals: seq<Bytes>, gaps: seq<nat>, trailing: nat)
    requires |nals| == |gaps| + 1
    requires forall i :: 0 <= i < |nals| ==> Framable(nals[i])
    requires forall i :: 0 <= i < |gaps| ==> gaps[i] >= 2
    ensures FrameRest(nals, gaps, trailing) != []
    ensures Split(FrameRest(nals, gaps, trailing)) == Framing(nals, false)
    decreases |nals|
  {
    assert nals == [nals[0]] + nals[1..];
    if |nals| == 1 {
      SplitLast(nals[0], trailing);
    } else {
      SplitFrameRest(nals[1..], gaps[1..], trailing);
      SplitStep(nals[0], gaps[0], FrameRest(nals[1..], gaps[1..], trailing));
    }
  }

  ghost predicate AllZero(s: Bytes) { forall i :: 0 <= i < |s| ==> s[i] == 0 }

  /** The NAL units of an access unit, if it begins with a start code and has data after it. */
  ghost function Units(data: Bytes): Option<Framing> {
    var c := Scan(data, 0);
    if c.next == |data| || !AllZero(data[..c.start]) then None
    else Some(Split(data[c.next..]))
  }

  /** The scan recovers any list of units from any framing of it. */
  lemma SplitUndoesFrame(nals: seq<Bytes>, gaps: seq<nat>, trailing: nat)
    requires |nals| == |gaps| > 0
    requires forall i :: 0 <= i < |nals| ==> Framable(nals[i])
    requires forall i :: 0 <= i < |gaps| ==> gaps[i] >= 2
    ensures Units(Frame(nals, gaps, trailing)) == Some(Framing(nals, false))
  {
    var data := Frame(nals, gaps, trailing);
    var rest := FrameRest(nals, gaps[1..], trailing);
    ScanZeros(gaps[0], rest, 0);
    SplitFrameRest(nals, gaps[1..], trailing);
    assert data[gaps[0] + 1..] == rest;
  }

  /** Escaped NAL units can be framed: emulation prevention leaves no start code inside. */
  lemma EscapedIsFramable(header: Byte, rbsp: Bytes)
    requires header != 0 && rbsp != [] && rbsp[|rbsp| - 1] != 0
    ensures Framable([header] + Escape(rbsp, 0))
  {
    var e := Escape(rbsp, 0);
    StripUndoesEscape(rbsp, 0);
    WellEscapedHasNoForbidden(e, 0);
    EscapeKeepsLast(rbsp, 0);
    var nal := [header] + e;
    forall i | 0 <= i && i + 2 < |nal|
      ensures !(nal[i] == 0 && nal[i + 1] == 0 && nal[i + 2] == 1)
    {
      if i > 0 {
        assert !ForbiddenAt(e, i - 1);
      }
    }
  }

  lemma {:induction false} EscapeKeepsLast(rbsp: Bytes, zeros: nat)
    requires zeros <= 2 && rbsp != []
    ensures Escape(rbsp, zeros) != []
    ensures Escape(rbsp, zeros)[|Escape(rbsp, zeros)| - 1] == rbsp[|rbsp| - 1]
    decreases |rbsp|, zeros
  {
    if zeros == 2 && rbsp[0] <= 3 {
      EscapeKeepsLast(rbsp, 0);
    } else if |rbsp| > 1 {
      EscapeKeepsLast(rbsp[1..], NextZeros(zeros, rbsp[0]));
    }
  }

  // ---- what a scan finds -------------------------------------------------------------
  // Positions below zero stand for the zero bytes that come just before `s`.

  ghost predicate ZeroAt(s: Bytes, zeros: nat, k: int) { 0 - zeros <= k < 0 || (0 <= k < |s| && s[k] == 0) }

  /** A start code's last two zero bytes and its 0x01. */
  ghost predicate StartAt(s: Bytes, zeros: nat, i: int) {
    ZeroAt(s, zeros, i) && ZeroAt(s, zeros, i + 1) && 0 <= i + 2 < |s| && s[i + 2] == 1
  }

  /** Between `start` and `next` stands the first start code with all its zero bytes, or both are the end. */
  ghost predicate First(s: Bytes, zeros: nat, start: int, next: int) {
    if start == |s| then next == |s| && forall i :: !StartAt(s, zeros, i)
    else
      && 0 - zeros <= start && start + 3 <= next <= |s| && next > 0 && s[next - 1] == 1
      && (forall k :: start <= k < next - 1 ==> ZeroAt(s, zeros, k))
      && (start > 0 - zeros ==> !ZeroAt(s, zeros, start - 1))
      && forall i :: StartAt(s, zeros, i) ==> i + 3 >= next
  }

  lemma FirstAfterZero(s: Bytes, r: Bytes, zeros: nat, start: int, next: int)
    requires s == [0] + r && First(r, zeros + 1, start, next)
    ensures First(s, zeros, start + 1, next + 1)
  {
    assert forall k :: ZeroAt(s, zeros, k) <==> ZeroAt(r, zeros + 1, k - 1);
    assert forall i :: StartAt(s, zeros, i) <==> StartAt(r, zeros + 1, i - 1);
  }

  lemma FirstAfterOther(s: Bytes, x: Byte, r: Bytes, zeros: nat, start: int, next: int)
    requires s == [x] + r && x != 0 && !(x == 1 && zeros >= 2) && First(r, 0, start, next)
    ensures First(s, zeros, start + 1, next + 1)
  {
    assert forall k :: k >= 0 ==> (ZeroAt(s, zeros, k) <==> ZeroAt(r, 0, k - 1));
    assert !ZeroAt(s, zeros, 0);
    assert forall i :: StartAt(s, zeros, i) ==> i > 0 && StartAt(r, 0, i - 1);
  }

  lemma {:induction false} ScanIsFirst(s: Bytes, zeros: nat)
    ensures First(s, zeros, Scan(s, zeros).start, Scan(s, zeros).next)
    decreases |s|
  {
    if s != [] {
      assert s == [s[0]] + s[1..];
      if s[0] == 0 {
        ScanIsFirst(s[1..], zeros + 1);
        FirstAfterZero(s, s[1..], zeros, Scan(s[1..], zeros + 1).start, Scan(s[1..], zeros + 1).next);
      } else if !(s[0] == 1 && zeros >= 2) {
        ScanIsFirst(s[1..], 0);
        FirstAfterOther(s, s[0], s[1..], zeros, Scan(s[1..], 0).start, Scan(s[1..], 0).next);
      }
    }
  }

  /** The scan finds the first start code there is, with all the zero bytes before its 0x01. */
  lemma ScanFindsFirst(s: Bytes)
    ensures First(s, 0, Scan(s, 0).start, Scan(s, 0).next)
  {
    ScanIsFirst(s, 0);
  }

  // ---- and nothing but framed units is taken -----------------------------------------

  lemma TrimmedTail(s: Bytes)
    ensures s == TrimZeros(s) + Zeros(|s| - |TrimZeros(s)|)
  {
    if s != [] && s[|s| - 1] == 0 {
      TrimmedTail(s[..|s| - 1]);
    }
  }

  lemma UnitIsFramable(s: Bytes, start: nat, next: nat)
    requires First(s, 0, start, next) && TrimZeros(s[..start]) != []
    ensures Framable(TrimZeros(s[..start])) && (start < |s| ==> TrimZeros(s[..start]) == s[..start])
  {
    var nal := TrimZeros(s[..start]);
    forall i | 0 <= i && i + 2 < |nal| ensures !(nal[i] == 0 && nal[i + 1] == 0 && nal[i + 2] == 1) {
      assert nal[i] == s[i] && nal[i + 1] == s[i + 1] && nal[i + 2] == s[i + 2];
      assert !StartAt(s, 0, i);
    }
    if 0 < start < |s| {
      assert !ZeroAt(s, 0, start - 1) && s[..start][start - 1] == s[start - 1];
    }
  }

  lemma {:induction false} CutTwice(s: Bytes, a: nat, b: nat)
    requires a <= b <= |s|
    ensures s == s[..a] + (s[a..b] + s[b..])
  {
  }

  lemma {:induction false} CutFirst(s: Bytes, k: nat)
    requires k < |s|
    ensures s[k..] == [s[k]] + s[k + 1..]
  {
  }

  /** Two or more zero bytes from `start` on, then a 0x01 just before `next`. */
  ghost predicate Gap(s: Bytes, start: nat, next: nat) {
    start + 3 <= next <= |s| && s[next - 1] == 1 && forall k :: start <= k < next - 1 ==> s[k] == 0
  }

  lemma FirstHasGap(s: Bytes, start: nat, next: nat)
    requires First(s, 0, start, next) && start < |s|
    ensures Gap(s, start, next)
  {
    forall k | start <= k < next - 1 ensures s[k] == 0 {
      assert ZeroAt(s, 0, k);
    }
  }

  lemma {:induction false} GapIsZeros(s: Bytes, start: nat, next: nat)
    requires Gap(s, start, next)
    ensures s[start..next - 1] == Zeros(next - 1 - start)
  {
  }

  lemma {:induction false} Glued(s: Bytes, u: Bytes, z: Bytes, t: Bytes, g: Bytes, r: Bytes)
    requires s == u + (z + t) && z == g && t == [1] + r
    ensures s == u + (g + ([1] + r))
  {
  }

  /** A unit, its start code's successor, and the rest. */
  lemma {:induction false} Pieces(s: Bytes, start: nat, next: nat)
    requires Gap(s, start, next)
    ensures s == s[..start] + (Zeros(next - 1 - start) + ([1] + s[next..]))
  {
    CutTwice(s, start, next - 1);
    GapIsZeros(s, start, next);
    CutFirst(s, next - 1);
    Glued(s, s[..start], s[start..next - 1], s[next - 1..], Zeros(next - 1 - start), s[next..]);
  }

  lemma {:induction false} FramedFrom(s: Bytes, start: nat, next: nat, more: seq<Bytes>, rest: seq<nat>, trailing: nat)
    requires Gap(s, start, next) && more != [] && |rest| + 1 == |more|
    requires s[next..] == FrameRest(more, rest, trailing)
    ensures s == FrameRest([s[..start]] + more, [next - 1 - start] + rest, trailing)
  {
    Pieces(s, start, next);
    FramedOneMore(s[..start], next - 1 - start, more, rest, trailing);
  }

  /** The first unit that is split off, and the others. */
  lemma SplitFirst(s: Bytes, c: StartCode)
    requires c == Scan(s, 0) && c.next < |s| && !Split(s).dangling && [] !in Split(s).nals
    ensures c.start >= 0 && Gap(s, c.start, c.next)
    ensures Split(s) == Framing([s[..c.start]] + Split(s[c.next..]).nals, false)
    ensures Framable(s[..c.start]) && !Split(s[c.next..]).dangling && [] !in Split(s[c.next..]).nals
  {
    var nal, more := TrimZeros(s[..c.start]), Split(s[c.next..]).nals;
    ScanFindsFirst(s);
    assert Split(s) == Framing([nal] + more, Split(s[c.next..]).dangling);
    assert ([nal] + more)[0] == nal;
    UnitIsFramable(s, c.start, c.next);
    FirstHasGap(s, c.start, c.next);
    assert forall x :: x in more ==> x in [nal] + more;
  }

  lemma {:induction false} Whole(s: Bytes)
    ensures s[..|s|] == s
  {
  }

  lemma {:induction false} SplitLastUnit(s: Bytes)
    requires Scan(s, 0) == StartCode(|s|, |s|)
    ensures Split(s) == Framing([TrimZeros(s)], false)
  {
    Whole(s);
  }

  lemma {:induction false} LastIsFramed(s: Bytes)
    requires Scan(s, 0).next == |s| && !Split(s).dangling && [] !in Split(s).nals
    ensures Split(s).nals == [TrimZeros(s)] && Framable(TrimZeros(s))
    ensures s == FrameRest([TrimZeros(s)], [], |s| - |TrimZeros(s)|)
  {
    SplitLastUnit(s);
    ScanFindsFirst(s);
    Whole(s);
    assert [TrimZeros(s)][0] == TrimZeros(s);
    UnitIsFramable(s, |s|, |s|);
    TrimmedTail(s);
  }

  lemma {:induction false} SplitAreFramable(s: Bytes)
    requires !Split(s).dangling && [] !in Split(s).nals
    ensures forall nal :: nal in Split(s).nals ==> Framable(nal)
    decreases |s|
  {
    var c := Scan(s, 0);
    if c.next == |s| {
      LastIsFramed(s);
    } else {
      SplitFirst(s, c);
      SplitAreFramable(s[c.next..]);
    }
  }

  ghost predicate IsRest(s: Bytes, nals: seq<Bytes>, gaps: seq<nat>, trailing: nat) {
    |nals| == |gaps| + 1 && (forall i :: 0 <= i < |gaps| ==> gaps[i] >= 2) && s == FrameRest(nals, gaps, trailing)
  }

  /** Units that are all there were framed: the bytes are one of their framings. */
  lemma {:induction false} SplitIsFramed(s: Bytes, nals: seq<Bytes>) returns (gaps: seq<nat>, trailing: nat)
    requires Split(s) == Framing(nals, false) && [] !in nals
    ensures IsRest(s, nals, gaps, trailing)
    decreases |s|
  {
    var c := Scan(s, 0);
    if c.next == |s| {
      LastIsFramed(s);
      gaps, trailing := [], |s| - |TrimZeros(s)|;
    } else {
      SplitFirst(s, c);
      var more := Split(s[c.next..]).nals;
      var rest;
      rest, trailing := SplitIsFramed(s[c.next..], more);
      gaps := [c.next - 1 - c.start] + rest;
      OneMoreRest(s, c.start, c.next, more, rest, trailing);
    }
  }

  lemma {:induction false} OneMoreRest(s: Bytes, start: nat, next: nat, more: seq<Bytes>, rest: seq<nat>, trailing: nat)
    requires Gap(s, start, next) && IsRest(s[next..], more, rest, trailing)
    ensures IsRest(s, [s[..start]] + more, [next - 1 - start] + rest, trailing)
  {
    FramedFrom(s, start, next, more, rest, trailing);
  }

  lemma FramedOneMore(nal: Bytes, gap: nat, more: seq<Bytes>, gaps: seq<nat>, trailing: nat)
    requires more != [] && |gaps| + 1 == |more|
    ensures FrameRest([nal] + more, [gap] + gaps, trailing) == nal + (Zeros(gap) + ([1] + FrameRest(more, gaps, trailing)))
  {
    assert ([nal] + more)[1..] == more && ([gap] + gaps)[1..] == gaps;
  }

  /** An access unit is taken as these units if and only if it is one of their framings. */
  lemma UnitsIffFramed(data: Bytes, nals: seq<Bytes>)
    requires nals != [] && [] !in nals
    ensures Units(data) == Some(Framing(nals, false)) <==>
      ((forall nal :: nal in nals ==> Framable(nal)) &&
       exists gaps, trailing :: IsFraming(data, nals, gaps, trailing))
  {
    if Units(data) == Some(Framing(nals, false)) {
      var gaps, trailing := UnitsAreFramed(data, nals);
      assert IsFraming(data, nals, gaps, trailing);
    }
    if forall nal :: nal in nals ==> Framable(nal) {
      forall gaps, trailing | IsFraming(data, nals, gaps, trailing) ensures Units(data) == Some(Framing(nals, false)) {
        SplitUndoesFrame(nals, gaps, trailing);
      }
    }
  }

  ghost predicate IsFraming(data: Bytes, nals: seq<Bytes>, gaps: seq<nat>, trailing: nat) {
    |gaps| == |nals| > 0 && (forall i :: 0 <= i < |gaps| ==> gaps[i] >= 2) && data == Frame(nals, gaps, trailing)
  }

  lemma FirstUnitAt(data: Bytes, nals: seq<Bytes>) returns (next: nat)
    requires nals != [] && Units(data) == Some(Framing(nals, false))
    ensures Gap(data, 0, next) && Split(data[next..]) == Framing(nals, false)
  {
    var c := Scan(data, 0);
    next := c.next;
    ScanFindsFirst(data);
    if c.start > 0 {
      DataBefore(data, c.start, c.next);
    }
    FirstHasGap(data, 0, c.next);
  }

  lemma UnitsAreFramed(data: Bytes, nals: seq<Bytes>) returns (gaps: seq<nat>, trailing: nat)
    requires nals != [] && [] !in nals && Units(data) == Some(Framing(nals, false))
    ensures IsFraming(data, nals, gaps, trailing) && forall nal :: nal in nals ==> Framable(nal)
  {
    var next := FirstUnitAt(data, nals);
    SplitAreFramable(data[next..]);
    var rest;
    rest, trailing := SplitIsFramed(data[next..], nals);
    gaps := [next - 1] + rest;
    FramedFirst(data, next, nals, rest, trailing);
  }

  lemma DataBefore(data: Bytes, start: nat, next: nat)
    requires First(data, 0, start, next) && 0 < start < |data|
    ensures !AllZero(data[..start])
  {
    assert !ZeroAt(data, 0, start - 1) && data[..start][start - 1] == data[start - 1];
  }

  lemma {:induction false} FrameIs(nals: seq<Bytes>, gap: nat, rest: seq<nat>, trailing: nat)
    requires |nals| == |rest| + 1
    ensures Frame(nals, [gap] + rest, trailing) == Zeros(gap) + ([1] + FrameRest(nals, rest, trailing))
  {
    assert ([gap] + rest)[1..] == rest;
  }

  lemma {:induction false} NothingBefore(s: Bytes, t: Bytes)
    requires s == s[..0] + t
    ensures s == t
  {
  }

  lemma {:induction false} FramedFirst(data: Bytes, next: nat, nals: seq<Bytes>, rest: seq<nat>, trailing: nat)
    requires Gap(data, 0, next) && IsRest(data[next..], nals, rest, trailing)
    ensures IsFraming(data, nals, [next - 1] + rest, trailing)
  {
    Pieces(data, 0, next);
    NothingBefore(data, Zeros(next - 1) + ([1] + data[next..]));
    FrameIs(nals, next - 1, rest, trailing);
  }
}
