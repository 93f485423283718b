/**
 * Emulation prevention (ITU-T H.264, section 7.3.1) as the range reader sees it:
 * the byte string after the NAL header, and the RBSP bytes it stands for.
 * `zeros` is always the number of zero bytes just before the current position,
 * counted since the last emulation prevention byte.
 */
module Emulation {
  import opened Basics

  function NextZeros(zeros: nat, v: Byte): nat {
    if v == 0 then zeros + 1 else 0
  }

  /** Inserts 0x03 after every two zero bytes that a byte up to 3 would follow. */
  ghost function Escape(rbsp: seq<Byte>, zeros: nat): seq<Byte>
    requires zeros <= 2
    decreases |rbsp|, zeros
  {
    if rbsp == [] then []
    else if zeros == 2 && rbsp[0] <= 3 then [3] + Escape(rbsp, 0)
    else [rbsp[0]] + Escape(rbsp[1..], NextZeros(zeros, rbsp[0]))
  }

  /** The longest RBSP that can be read off `s` before a forbidden pattern or its end. */
  ghost function Strip(s: seq<Byte>, zeros: nat): seq<Byte>
    requires zeros <= 2
    decreases |s|
  {
    if s == [] || (zeros == 2 && s[0] < 3) then []
    else if zeros == 2 && s[0] == 3 then
      if |s| == 1 || s[1] > 3 then [] else Strip(s[1..], 0)
    else [s[0]] + Strip(s[1..], NextZeros(zeros, s[0]))
  }

  /** No forbidden pattern at all: what the reader checks before trusting an SPS. */
  ghost predicate WellEscaped(s: seq<Byte>, zeros: nat)
    requires zeros <= 2
    decreases |s|
  {
    s == [] ||
    (if zeros == 2 && s[0] < 3 then false
     else if zeros == 2 && s[0] == 3 then |s| > 1 && s[1] <= 3 && WellEscaped(s[1..], 0)
     else WellEscaped(s[1..], NextZeros(zeros, s[0])))
  }

  lemma {:induction false} StripUndoesEscape(rbsp: seq<Byte>, zeros: nat)
    requires zeros <= 2
    ensures WellEscaped(Escape(rbsp, zeros), zeros)
    ensures Strip(Escape(rbsp, zeros), zeros) == rbsp
    decreases |rbsp|, zeros
  {
    if rbsp == [] {
    } else {
      var e := Escape(rbsp, zeros);
      if zeros == 2 && rbsp[0] <= 3 {
        StripUndoesEscape(rbsp, 0);
        assert e[1..] == Escape(rbsp, 0) && e[1] == rbsp[0];
      } else {
        StripUndoesEscape(rbsp[1..], NextZeros(zeros, rbsp[0]));
        assert e[1..] == Escape(rbsp[1..], NextZeros(zeros, rbsp[0]));
      }
    }
  }

  lemma {:induction false} EscapeUndoesStrip(s: seq<Byte>, zeros: nat)
    requires zeros <= 2 && WellEscaped(s, zeros)
    ensures Escape(Strip(s, zeros), zeros) == s
    decreases |s|
  {
    if s == [] {
    } else if zeros == 2 && s[0] == 3 {
      EscapeUndoesStrip(s[1..], 0);
      assert s == [3] + s[1..];
      assert Strip(s, zeros) == Strip(s[1..], 0) && Strip(s[1..], 0)[0] == s[1];
    } else {
      EscapeUndoesStrip(s[1..], NextZeros(zeros, s[0]));
      var r := Strip(s, zeros);
      assert r[1..] == Strip(s[1..], NextZeros(zeros, s[0]));
      assert s == [s[0]] + s[1..];
    }
  }

  /** The accepted byte strings are exactly the image of the escaping function. */
  lemma WellEscapedIsImage(s: seq<Byte>)
    ensures WellEscaped(s, 0) <==> exists rbsp: seq<Byte> :: Escape(rbsp, 0) == s
  {
    if WellEscaped(s, 0) {
      EscapeUndoesStrip(s, 0);
    }
    forall rbsp: seq<Byte> | Escape(rbsp, 0) == s ensures WellEscaped(s, 0) {
      StripUndoesEscape(rbsp, 0);
    }
  }

  lemma EscapeInjective(a: seq<Byte>, b: seq<Byte>)
    requires Escape(a, 0) == Escape(b, 0)
    ensures a == b
  {
    StripUndoesEscape(a, 0);
    StripUndoesEscape(b, 0);
  }

  /** Cutting the input short never changes the bytes read before the cut. */
  lemma {:induction false} StripPrefix(s: seq<Byte>, n: nat, zeros: nat)
    requires zeros <= 2 && n <= |s|
    ensures Strip(s[..n], zeros) <= Strip(s, zeros)
    decreases |s|
  {
    if n == 0 || (zeros == 2 && s[0] < 3) {
    } else if zeros == 2 && s[0] == 3 {
      if n > 1 && s[1] <= 3 {
        StripPrefix(s[1..], n - 1, 0);
        assert s[..n][1..] == s[1..][..n - 1];
      }
    } else {
      StripPrefix(s[1..], n - 1, NextZeros(zeros, s[0]));
      assert s[..n][1..] == s[1..][..n - 1];
    }
  }

  /** Three bytes that section 7.4.1 forbids inside a NAL unit. */
  ghost predicate ForbiddenAt(s: seq<Byte>, i: int) {
    0 <= i && i + 2 < |s| && s[i] == 0 && s[i + 1] == 0 && s[i + 2] <= 2
  }

  lemma {:induction false} WellEscapedHasNoForbidden(s: seq<Byte>, zeros: nat)
    requires zeros <= 2 && WellEscaped(s, zeros)
    ensures forall i :: !ForbiddenAt(s, i)
    ensures zeros == 1 ==> !(|s| >= 2 && s[0] == 0 && s[1] <= 2)
    ensures zeros == 2 ==> !(|s| >= 1 && s[0] <= 2)
    decreases |s|
  {
    if s == [] {
    } else {
      var z := if zeros == 2 && s[0] == 3 then 0 else NextZeros(zeros, s[0]);
      WellEscapedHasNoForbidden(s[1..], z);
      forall i ensures !ForbiddenAt(s, i) {
        if ForbiddenAt(s, i) {
          if i > 0 {
            assert ForbiddenAt(s[1..], i - 1);
          } else {
            assert false;
          }
        }
      }
    }
  }

  /** One pass over a NAL unit (header included) deciding WellEscaped. */
  method Ebsp(nal: seq<Byte>, bytes: nat) returns (ok: bool)
    requires 1 <= bytes <= |nal|
    ensures ok <==> WellEscaped(nal[1..bytes], 0)
  {
    var i, zeros := 1, 0;
    while i < bytes
      invariant 1 <= i <= bytes && zeros <= 2
      invariant WellEscaped(nal[1..bytes], 0) <==> WellEscaped(nal[i..bytes], zeros)
    {
      var value := nal[i];
      ghost var s := nal[i..bytes];
      assert s[1..] == nal[i + 1..bytes] && s[0] == value;
      if zeros == 2 {
        if value < 3 {
          return false;
        }
        if value == 3 {
          if i + 1 == bytes || nal[i + 1] > 3 {
            return false;
          }
          zeros, i := 0, i + 1;
          continue;
        }
      }
      zeros, i := NextZeros(zeros, value), i + 1;
    }
    ok := true;
  }
}
