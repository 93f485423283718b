/**
 * The allocation-free cursor of crystalhd_h264_sps_range.h: it walks the escaped NAL
 * bytes once and hands out RBSP bits. Its abstract value is the bit string still to come.
 */
module BitCursor {
  import opened Basics
  import opened BitSyntax
  import opened Emulation

  /** (v >> n) & 1 */
  function BitAt(v: Byte, n: nat): (bit: nat)
    ensures bit <= 1
    decreases n
  {
    if n == 0 then v % 2 else BitAt(v / 2, n - 1)
  }

  /** The low n bits of a byte, most significant first. */
  ghost function LowBits(v: Byte, n: nat): Bits {
    if n == 0 then [] else [BitAt(v, n - 1) == 1] + LowBits(v, n - 1)
  }

  lemma TopBit(v: Byte, n: nat, more: Bits)
    requires n > 0
    ensures LowBits(v, n) + more == [BitAt(v, n - 1) == 1] + (LowBits(v, n - 1) + more)
  {
  }

  ghost function BytesBits(bytes: seq<Byte>): Bits {
    if bytes == [] then [] else LowBits(bytes[0], 8) + BytesBits(bytes[1..])
  }

  /** The RBSP bits readable from NAL bytes [from..bytes) with `zeros` zero bytes before. */
  ghost function PayloadBits(nal: seq<Byte>, from: nat, bytes: nat, zeros: nat): Bits
    requires from <= bytes <= |nal| && zeros <= 2
  {
    BytesBits(Strip(nal[from..bytes], zeros))
  }

  /** The byte that a cursor at `from` has to deliver next. */
  lemma FirstByte(nal: seq<Byte>, from: nat, bytes: nat, zeros: nat)
    requires from <= bytes <= |nal| && zeros <= 2
    ensures var rbsp := Strip(nal[from..bytes], zeros);
      if from == bytes || (zeros == 2 && nal[from] < 3) then rbsp == []
      else if zeros == 2 && nal[from] == 3 then
        if from + 1 == bytes || nal[from + 1] > 3 then rbsp == []
        else rbsp == [nal[from + 1]] + Strip(nal[from + 2..bytes], NextZeros(0, nal[from + 1]))
      else rbsp == [nal[from]] + Strip(nal[from + 1..bytes], NextZeros(zeros, nal[from]))
  {
    if from < bytes {
      assert nal[from..bytes][1..] == nal[from + 1..bytes];
      if from + 1 < bytes {
        assert nal[from + 1..bytes][1..] == nal[from + 2..bytes];
      }
    }
  }

  /** Outcome of a read, as the specification of every cursor method states it. */
  ghost predicate Reads<T(!new)>(p: Parsed<T>, failedBefore: bool, failed: bool, value: T, rest: Bits) {
    if failedBefore || !p.Got? then failed
    else !failed && value == p.value && rest == p.rest
  }

  class Cursor {
    const nal: seq<Byte>
    const bytes: nat
    var offset: nat
    var zeros: nat
    var left: nat
    var current: Byte
    var failed: bool

    ghost predicate Valid()
      reads this
    {
      offset <= bytes <= |nal| && zeros <= 2 && left <= 8
    }

    ghost function Remaining(): Bits
      reads this
      requires Valid()
    {
      LowBits(current, left) + PayloadBits(nal, offset, bytes, zeros)
    }

    constructor (nal: seq<Byte>, bytes: nat)
      requires 1 <= bytes <= |nal|
      ensures Valid() && !failed && this.nal == nal && this.bytes == bytes
      ensures Remaining() == PayloadBits(nal, 1, bytes, 0)
    {
      this.nal, this.bytes := nal, bytes;
      offset, zeros, left, current, failed := 1, 0, 0, 0, false;
      new;
      assert LowBits(current, left) == [];
    }

    /** Fetches the next RBSP byte when the current one is used up. */
    method Refill()
      requires Valid() && !failed && left == 0
      modifies this
      ensures Valid()
      ensures failed <==> old(Remaining()) == []
      ensures !failed ==> left == 8 && Remaining() == old(Remaining())
    {
      ghost var rbsp := Strip(nal[offset..bytes], zeros);
      FirstByte(nal, offset, bytes, zeros);
      assert Remaining() == BytesBits(rbsp);
      if offset >= bytes {
        failed := true;
        return;
      }
      current, offset := nal[offset], offset + 1;
      if zeros == 2 {
        if current < 3 {
          failed := true;
          return;
        }
        if current == 3 {
          if offset >= bytes || nal[offset] > 3 {
            failed := true;
            return;
          }
          current, offset, zeros := nal[offset], offset + 1, 0;
        }
      }
      zeros := NextZeros(zeros, current);
      left := 8;
      assert BytesBits(rbsp) == LowBits(current, 8) + BytesBits(rbsp[1..]);
      assert LowBits(current, 8) != [];
    }

    /** One pass of the reading loop: the next bit, or failure at the end of the RBSP. */
    method NextBit() returns (bit: nat)
      requires Valid() && !failed
      modifies this
      ensures Valid() && bit <= 1
      ensures failed <==> old(Remaining()) == []
      ensures !failed ==> old(Remaining()) == [bit == 1] + Remaining()
    {
      bit := 0;
      ghost var before := Remaining();
      if left == 0 {
        Refill();
        if failed {
          return;
        }
      }
      TopBit(current, left, PayloadBits(nal, offset, bytes, zeros));
      left := left - 1;
      bit := BitAt(current, left);
    }

    /** u(count); an unsigned int holds at most 32 bits. */
    method Get(count: nat) returns (value: nat)
      requires Valid() && count <= 32
      modifies this
      ensures Valid()
      ensures Reads(GetU(count, old(Remaining())), old(failed), failed, value, Remaining())
      ensures old(failed) ==> value == 0
    {
      value := 0;
      var todo: nat := count;
      ghost var spec := GetU(count, Remaining());
      while todo > 0 && !failed
        invariant Valid() && todo <= count
        invariant old(failed) ==> failed && value == 0
        invariant !old(failed) ==> if failed then spec.Invalid? else spec == GetU(todo, Remaining(), value)
        decreases if failed then 0 else 1, todo
      {
        todo := todo - 1;
        var bit := NextBit();
        if !failed {
          value := 2 * value + bit;
        }
      }
    }

    method GetBool() returns (value: bool)
      requires Valid()
      modifies this
      ensures Valid()
      ensures Reads(GetFlag(old(Remaining())), old(failed), failed, value, Remaining())
      ensures old(failed) ==> !value
    {
      FlagIsU1(Remaining());
      var v := Get(1);
      value := v != 0;
    }

    method Ue() returns (value: nat)
      requires Valid()
      modifies this
      ensures Valid()
      ensures Reads(GetUE(old(Remaining())), old(failed), failed, value, Remaining())
    {
      ghost var spec := GetUE(Remaining());
      var count := 0;
      while true
        invariant Valid() && count <= 31
        invariant old(failed) ==> failed
        invariant !old(failed) ==> !failed && spec == GetUEFrom(Remaining(), count)
        decreases 31 - count
      {
        if failed {
          break;
        }
        var bit := GetBool();
        if bit {
          break;
        }
        if failed {
          break;
        }
        count := count + 1;
        if count > 31 {
          failed := true;
          return 0;
        }
      }
      if failed {
        return 0;
      }
      var suffix := Get(count);
      value := Pow2(count) - 1 + suffix;
    }

    method Se() returns (value: int)
      requires Valid()
      modifies this
      ensures Valid()
      ensures Reads(GetSE(old(Remaining())), old(failed), failed, value, Remaining())
    {
      var code: int := Ue();
      value := if code % 2 == 1 then code / 2 + 1 else -(code / 2);
    }
  }
}
