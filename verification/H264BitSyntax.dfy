/**
 * The bit-level syntax elements u(n), ue(v) and se(v) (ITU-T H.264, sections 7.2, 9.1
 * and 9.1.1) as reader and writer pairs. A writer takes the bits that follow it, so a
 * structure is written by nesting calls and read by threading the remaining bits; each
 * pair comes with two lemmas, one for each direction of the round trip.
 */
module BitSyntax {
  import opened Basics

  type Bits = seq<bool>

  const SE_LIMIT := 0x7FFF_FFFF
  const UE_LIMIT := 0xFFFF_FFFE

  datatype Parsed<+T> = Got(value: T, rest: Bits) | Invalid | Unsupported
  {
    predicate IsFailure() { !Got? }
    function PropagateFailure<U>(): Parsed<U>
      requires IsFailure()
    {
      if Invalid? then Invalid else Unsupported
    }
    function Extract(): (T, Bits)
      requires Got?
    {
      (value, rest)
    }
  }

  function BitValue(b: bool): nat { if b then 1 else 0 }

  // ---- u(n), most significant bit first -------------------------------------------

  /** The next n bits, accumulated onto `high`. */
  function GetU(n: nat, bits: Bits, high: nat := 0): (p: Parsed<nat>)
    ensures !p.Unsupported?
    decreases |bits|
  {
    if n == 0 then Got(high, bits)
    else if bits == [] then Invalid
    else GetU(n - 1, bits[1..], 2 * high + BitValue(bits[0]))
  }

  ghost function PutU(n: nat, v: nat, tail: Bits): Bits
    requires v < Pow2(n)
  {
    if n == 0 then tail
    else if v >= Pow2(n - 1) then [true] + PutU(n - 1, v - Pow2(n - 1), tail)
    else [false] + PutU(n - 1, v, tail)
  }

  lemma DoubleStep(high: nat, bit: nat, q: nat)
    ensures (2 * high + bit) * q == high * (2 * q) + bit * q
    ensures (2 * high + bit + 1) * q == high * (2 * q) + bit * q + q
    ensures (high + 1) * (2 * q) == high * (2 * q) + 2 * q
  {
  }

  lemma {:induction false} GetPutUFrom(n: nat, v: nat, tail: Bits, high: nat)
    requires v < Pow2(n)
    ensures GetU(n, PutU(n, v, tail), high) == Got(high * Pow2(n) + v, tail)
  {
    if n > 0 {
      var bit := v >= Pow2(n - 1);
      var low := if bit then v - Pow2(n - 1) else v;
      DoubleStep(high, BitValue(bit), Pow2(n - 1));
      GetPutUFrom(n - 1, low, tail, 2 * high + BitValue(bit));
      assert PutU(n, v, tail)[1..] == PutU(n - 1, low, tail);
    }
  }

  lemma GetPutU(n: nat, v: nat, tail: Bits)
    requires v < Pow2(n)
    ensures GetU(n, PutU(n, v, tail)) == Got(v, tail)
  {
    GetPutUFrom(n, v, tail, 0);
  }

  lemma {:induction false} PutGetUFrom(n: nat, bits: Bits, high: nat)
    requires GetU(n, bits, high).Got?
    ensures var p := GetU(n, bits, high);
      high * Pow2(n) <= p.value < (high + 1) * Pow2(n) &&
      PutU(n, p.value - high * Pow2(n), p.rest) == bits
  {
    if n > 0 {
      var p := GetU(n, bits, high);
      var bit := BitValue(bits[0]);
      var q := Pow2(n - 1);
      DoubleStep(high, bit, q);
      PutGetUFrom(n - 1, bits[1..], 2 * high + bit);
      var low := p.value - high * Pow2(n) - bit * q;
      assert PutU(n - 1, low, p.rest) == bits[1..];
      assert bits == [bits[0]] + bits[1..];
    }
  }

  lemma PutGetU(n: nat, bits: Bits)
    requires GetU(n, bits).Got?
    ensures GetU(n, bits).value < Pow2(n)
    ensures PutU(n, GetU(n, bits).value, GetU(n, bits).rest) == bits
  {
    PutGetUFrom(n, bits, 0);
  }

  /** How many bits u(n) takes, and when it runs out of them. */
  lemma {:induction false} GetULength(n: nat, bits: Bits, high: nat)
    ensures GetU(n, bits, high).Got? <==> n <= |bits|
    ensures n <= |bits| ==> GetU(n, bits, high).rest == bits[n..]
  {
    if n > 0 && bits != [] {
      GetULength(n - 1, bits[1..], 2 * high + BitValue(bits[0]));
    }
  }

  // ---- one-bit flags ---------------------------------------------------------------

  function GetFlag(bits: Bits): (p: Parsed<bool>)
    ensures !p.Unsupported?
  {
    if bits == [] then Invalid else Got(bits[0], bits[1..])
  }

  ghost function PutFlag(b: bool, tail: Bits): Bits { [b] + tail }

  lemma GetPutFlag(b: bool, tail: Bits)
    ensures GetFlag(PutFlag(b, tail)) == Got(b, tail)
  {
  }

  lemma PutGetFlag(bits: Bits)
    requires GetFlag(bits).Got?
    ensures PutFlag(GetFlag(bits).value, GetFlag(bits).rest) == bits
  {
  }

  lemma FlagIsU1(bits: Bits)
    ensures GetU(1, bits) ==
      match GetFlag(bits)
      case Got(b, rest) => Got(BitValue(b), rest)
      case _ => Invalid
  {
    if bits != [] {
      assert GetU(1, bits) == GetU(0, bits[1..], BitValue(bits[0]));
    }
  }

  // ---- ue(v) -----------------------------------------------------------------------

  /** ue(v) after `zeros` leading zero bits; more than 31 of them are refused. */
  function GetUEFrom(bits: Bits, zeros: nat): (p: Parsed<nat>)
    ensures !p.Unsupported?
    decreases |bits|
  {
    if bits == [] then Invalid
    else if bits[0] then
      var (suffix, rest) :- GetU(zeros, bits[1..]);
      Got(Pow2(zeros) - 1 + suffix, rest)
    else if zeros + 1 > 31 then Invalid
    else GetUEFrom(bits[1..], zeros + 1)
  }

  function GetUE(bits: Bits): (p: Parsed<nat>)
    ensures !p.Unsupported?
  {
    GetUEFrom(bits, 0)
  }

  ghost function PutZeros(n: nat, tail: Bits): Bits {
    if n == 0 then tail else [false] + PutZeros(n - 1, tail)
  }

  /** `zeros` zero bits, a one bit, and k bits of suffix: the code of v when 2^k <= v + 1 < 2^(k+1). */
  ghost function PutUEAs(zeros: nat, k: nat, v: nat, tail: Bits): Bits
    requires Pow2(k) <= v + 1 < Pow2(k + 1)
  {
    PutZeros(zeros, [true] + PutU(k, v + 1 - Pow2(k), tail))
  }

  ghost function PutUE(v: nat, tail: Bits): Bits {
    PutUEAs(Log2(v + 1), Log2(v + 1), v, tail)
  }

  lemma {:induction false} GetPutUEFrom(zeros: nat, k: nat, v: nat, tail: Bits)
    requires zeros <= k <= 31 && Pow2(k) <= v + 1 < Pow2(k + 1)
    ensures GetUEFrom(PutUEAs(zeros, k, v, tail), k - zeros) == Got(v, tail)
  {
    if zeros == 0 {
      GetPutU(k, v + 1 - Pow2(k), tail);
      assert PutUEAs(0, k, v, tail)[1..] == PutU(k, v + 1 - Pow2(k), tail);
    } else {
      GetPutUEFrom(zeros - 1, k, v, tail);
      assert PutUEAs(zeros, k, v, tail)[1..] == PutUEAs(zeros - 1, k, v, tail);
    }
  }

  lemma GetPutUE(v: nat, tail: Bits)
    requires v <= UE_LIMIT
    ensures GetUE(PutUE(v, tail)) == Got(v, tail)
  {
    var k := Log2(v + 1);
    if k > 31 {
      Pow2Values();
      Pow2Monotone(32, k);
    }
    GetPutUEFrom(k, k, v, tail);
  }

  lemma {:induction false} PutGetUEFrom(bits: Bits, zeros: nat) returns (k: nat)
    requires zeros <= 31 && GetUEFrom(bits, zeros).Got?
    ensures var p := GetUEFrom(bits, zeros);
      zeros <= k <= 31 && Pow2(k) <= p.value + 1 < Pow2(k + 1) &&
      PutUEAs(k - zeros, k, p.value, p.rest) == bits
    decreases |bits|
  {
    assert bits == [bits[0]] + bits[1..];
    if bits[0] {
      k := zeros;
      PutGetU(zeros, bits[1..]);
    } else {
      k := PutGetUEFrom(bits[1..], zeros + 1);
    }
  }

  lemma PutGetUE(bits: Bits)
    requires GetUE(bits).Got?
    ensures GetUE(bits).value <= UE_LIMIT
    ensures PutUE(GetUE(bits).value, GetUE(bits).rest) == bits
  {
    var k := PutGetUEFrom(bits, 0);
    Log2Unique(GetUE(bits).value + 1, k);
    Pow2Values();
    Pow2Monotone(k + 1, 32);
  }

  // ---- se(v) -----------------------------------------------------------------------

  function SignedCode(code: nat): int {
    if code % 2 == 1 then code / 2 + 1 else -(code / 2)
  }

  function GetSE(bits: Bits): (p: Parsed<int>)
    ensures !p.Unsupported?
  {
    var (code, rest) :- GetUE(bits);
    Got(SignedCode(code), rest)
  }

  /** Table 9-3: positive values take the odd codes. */
  ghost function PutSE(v: int, tail: Bits): Bits {
    PutUE(if v > 0 then 2 * v - 1 else -2 * v, tail)
  }

  lemma GetPutSE(v: int, tail: Bits)
    requires -SE_LIMIT <= v <= SE_LIMIT
    ensures GetSE(PutSE(v, tail)) == Got(v, tail)
  {
    GetPutUE(if v > 0 then 2 * v - 1 else -2 * v, tail);
  }

  lemma PutGetSE(bits: Bits)
    requires GetSE(bits).Got?
    ensures -SE_LIMIT <= GetSE(bits).value <= SE_LIMIT
    ensures PutSE(GetSE(bits).value, GetSE(bits).rest) == bits
  {
    PutGetUE(bits);
  }

  // ---- reading a prefix ------------------------------------------------------------
  // A read that succeeds on a prefix of the bits reads the same from all of them.

  lemma {:induction false} GetUExtends(n: nat, bits: Bits, more: Bits, high: nat)
    requires GetU(n, bits, high).Got?
    ensures GetU(n, bits + more, high) == Got(GetU(n, bits, high).value, GetU(n, bits, high).rest + more)
  {
    if n > 0 {
      GetUExtends(n - 1, bits[1..], more, 2 * high + BitValue(bits[0]));
      assert (bits + more)[1..] == bits[1..] + more;
    }
  }

  lemma {:induction false} GetUEExtends(bits: Bits, more: Bits, zeros: nat)
    requires GetUEFrom(bits, zeros).Got?
    ensures GetUEFrom(bits + more, zeros) ==
      Got(GetUEFrom(bits, zeros).value, GetUEFrom(bits, zeros).rest + more)
    decreases |bits|
  {
    assert (bits + more)[1..] == bits[1..] + more;
    if bits[0] {
      GetUExtends(zeros, bits[1..], more, 0);
    } else {
      GetUEExtends(bits[1..], more, zeros + 1);
    }
  }

  lemma GetSEExtends(bits: Bits, more: Bits)
    requires GetSE(bits).Got?
    ensures GetSE(bits + more) == Got(GetSE(bits).value, GetSE(bits).rest + more)
  {
    GetUEExtends(bits, more, 0);
  }
}
