/**
 * UTF-8 as the configuration files use it: the byte ranges of section 4 of RFC 3629, the
 * encoder, and the native reader's decoding loop (include/crystalhd-config.h).
 */
module ConfigUtf8 {
  import opened Basics

  type CodePoint = x: int | 0 <= x < 0x11_0000
  type Text = seq<CodePoint>
  type Bytes = seq<Byte>

  const BOM: Bytes := [0xEF, 0xBB, 0xBF]

  predicate Surrogate(c: CodePoint) { 0xD800 <= c <= 0xDFFF }

  predicate Scalars(t: Text) { forall k :: 0 <= k < |t| ==> !Surrogate(t[k]) }

  // ---- the encoder, also for lone surrogates -----------------------------------------

  function EncodeOne(c: CodePoint): (b: Bytes)
    ensures 1 <= |b| <= 4
  {
    if c < 0x80 then [c]
    else if c < 0x800 then [0xC0 + c / 64, 0x80 + c % 64]
    else if c < 0x1_0000 then [0xE0 + c / 4096, 0x80 + c / 64 % 64, 0x80 + c % 64]
    else [0xF0 + c / 262144, 0x80 + c / 4096 % 64, 0x80 + c / 64 % 64, 0x80 + c % 64]
  }

  function Encode(t: Text): Bytes {
    if t == [] then [] else EncodeOne(t[0]) + Encode(t[1..])
  }

  // ---- the byte ranges of RFC 3629 ---------------------------------------------------

  datatype Lead = Malformed | Character(c: CodePoint, width: nat)

  predicate Tail(b: Byte) { 0x80 <= b < 0xC0 }

  /** Six more bits. */
  function Six(c: nat, b: Byte): nat { c * 64 + b % 64 }

  /** The first character of a byte string, UTF8-1 to UTF8-4. */
  function DecodeOne(b: Bytes): (r: Lead)
    requires b != []
    ensures r.Character? ==> 1 <= r.width <= |b|
  {
    if b[0] < 0x80 then Character(b[0], 1)
    else if 0xC2 <= b[0] <= 0xDF && |b| >= 2 && Tail(b[1]) then Character(Six(b[0] % 32, b[1]), 2)
    else if 0xE0 <= b[0] <= 0xEF && |b| >= 3 && Tail(b[1]) && Tail(b[2])
      && (b[0] == 0xE0 ==> b[1] >= 0xA0) && (b[0] == 0xED ==> b[1] <= 0x9F)
    then Character(Six(Six(b[0] % 16, b[1]), b[2]), 3)
    else if 0xF0 <= b[0] <= 0xF4 && |b| >= 4 && Tail(b[1]) && Tail(b[2]) && Tail(b[3])
      && (b[0] == 0xF0 ==> b[1] >= 0x90) && (b[0] == 0xF4 ==> b[1] <= 0x8F)
    then Character(Six(Six(Six(b[0] % 8, b[1]), b[2]), b[3]), 4)
    else Malformed
  }

  function Decode(b: Bytes): Option<Text>
    decreases |b|
  {
    if b == [] then Some([])
    else
      var l := DecodeOne(b);
      if l.Malformed? then None
      else
        var rest := Decode(b[l.width..]);
        if rest.None? then None else Some([l.c] + rest.value)
  }

  /** What both readers make of a file: strict UTF-8 and no byte-order mark. */
  function ReadText(b: Bytes): Option<Text> {
    if BOM <= b then None else Decode(b)
  }

  // ---- decoding inverts encoding, both ways ------------------------------------------

  lemma SixBits(c: nat)
    ensures Six(c / 64, 0x80 + c % 64) == c
    ensures Six(Six(c / 4096, 0x80 + c / 64 % 64), 0x80 + c % 64) == c
    ensures Six(Six(Six(c / 262144, 0x80 + c / 4096 % 64), 0x80 + c / 64 % 64), 0x80 + c % 64) == c
  {
    assert c / 64 / 64 == c / 4096 && c / 4096 / 64 == c / 262144;
  }

  lemma SixDigits(c: nat, b: Byte)
    ensures Six(c, b) / 64 == c && Six(c, b) % 64 == b % 64
    ensures Six(c, b) / 4096 == c / 64 && Six(c, b) / 64 % 64 == c % 64
    ensures Six(c, b) / 262144 == c / 4096 && Six(c, b) / 4096 % 64 == c / 64 % 64
  {
    var x := Six(c, b);
    assert x / 64 == c;
    assert x / 4096 == x / 64 / 64 && x / 262144 == x / 64 / 4096;
  }

  lemma DecodeOneInverts(c: CodePoint, rest: Bytes)
    requires !Surrogate(c)
    ensures DecodeOne(EncodeOne(c) + rest) == Character(c, |EncodeOne(c)|)
  {
    var b := EncodeOne(c) + rest;
    SixBits(c);
    if c < 0x80 {
    } else if c < 0x800 {
      DecodeTwo(b);
    } else if c < 0x1_0000 {
      DecodeThree(b);
      assert c < 0x1000 ==> c / 4096 == 0 && c / 64 % 64 >= 32;
      assert c / 4096 == 0xD ==> c / 64 % 64 < 32;
    } else {
      DecodeFour(b);
      assert c / 262144 == 0 ==> c / 4096 % 64 >= 16;
      assert c / 262144 == 4 ==> c / 4096 % 64 < 16;
    }
  }

  lemma DecodeTwo(b: Bytes)
    requires |b| >= 2 && 0xC2 <= b[0] <= 0xDF && Tail(b[1])
    ensures DecodeOne(b) == Character(Six(b[0] - 0xC0, b[1]), 2)
  {
    assert b[0] % 32 == b[0] - 0xC0;
  }

  lemma DecodeThree(b: Bytes)
    requires |b| >= 3 && 0xE0 <= b[0] <= 0xEF && Tail(b[1]) && Tail(b[2])
    ensures var c := Six(Six(b[0] - 0xE0, b[1]), b[2]);
      DecodeOne(b) ==
        if (b[0] == 0xE0 ==> b[1] >= 0xA0) && (b[0] == 0xED ==> b[1] <= 0x9F) then Character(c, 3) else Malformed
  {
    assert b[0] % 16 == b[0] - 0xE0;
  }

  lemma DecodeFour(b: Bytes)
    requires |b| >= 4 && 0xF0 <= b[0] <= 0xF4 && Tail(b[1]) && Tail(b[2]) && Tail(b[3])
    ensures var c := Six(Six(Six(b[0] - 0xF0, b[1]), b[2]), b[3]);
      DecodeOne(b) ==
        if (b[0] == 0xF0 ==> b[1] >= 0x90) && (b[0] == 0xF4 ==> b[1] <= 0x8F) then Character(c, 4) else Malformed
  {
    assert b[0] % 8 == b[0] - 0xF0;
  }

  lemma TwoRange(h: nat, x: Byte)
    requires 2 <= h < 32 && Tail(x)
    ensures var c := Six(h, x); 128 <= c < 2048 && EncodeOne(c) == [0xC0 + h, x]
  {
    SixDigits(h, x);
  }

  lemma ThreeRange(h: nat, x: Byte, y: Byte)
    requires h < 16 && Tail(x) && Tail(y)
    ensures var c := Six(Six(h, x), y);
      && c < 0x1_0000
      && (c >= 2048 <==> (h == 0 ==> x >= 0xA0))
      && (0xD800 <= c <= 0xDFFF <==> h == 13 && x >= 0xA0)
  {
    assert Six(Six(h, x), y) == h * 4096 + (x - 128) * 64 + (y - 128);
  }

  lemma ThreeBytes(h: nat, x: Byte, y: Byte)
    requires h < 16 && Tail(x) && Tail(y) && (h == 0 ==> x >= 0xA0)
    ensures EncodeOne(Six(Six(h, x), y)) == [0xE0 + h, x, y]
  {
    ThreeRange(h, x, y);
    SixDigits(h, x);
    SixDigits(Six(h, x), y);
  }

  lemma FourRange(h: nat, x: Byte, y: Byte, z: Byte)
    requires h < 5 && Tail(x) && Tail(y) && Tail(z)
    ensures var c := Six(Six(Six(h, x), y), z);
      && (c >= 0x1_0000 <==> (h == 0 ==> x >= 0x90))
      && (c <= 0x10_FFFF <==> (h == 4 ==> x <= 0x8F))
      && (0x1_0000 <= c <= 0x10_FFFF ==> EncodeOne(c) == [0xF0 + h, x, y, z])
  {
    SixDigits(h, x);
    SixDigits(Six(h, x), y);
    SixDigits(Six(Six(h, x), y), z);
    assert Six(Six(Six(h, x), y), z) == h * 262144 + (x - 128) * 4096 + (y - 128) * 64 + (z - 128);
  }

  lemma EncodeOneInverts(b: Bytes)
    requires b != [] && DecodeOne(b).Character?
    ensures var l := DecodeOne(b); !Surrogate(l.c) && b[..l.width] == EncodeOne(l.c)
  {
    if b[0] < 0x80 {
    } else if b[0] <= 0xDF {
      DecodeTwo(b);
      TwoRange(b[0] - 0xC0, b[1]);
    } else if b[0] <= 0xEF {
      DecodeThree(b);
      ThreeRange(b[0] - 0xE0, b[1], b[2]);
      ThreeBytes(b[0] - 0xE0, b[1], b[2]);
    } else {
      DecodeFour(b);
      FourRange(b[0] - 0xF0, b[1], b[2], b[3]);
    }
  }

  lemma {:induction false} DecodeIsEncodeBackward(b: Bytes)
    requires Decode(b).Some?
    ensures Scalars(Decode(b).value) && Encode(Decode(b).value) == b
    decreases |b|
  {
    if b != [] {
      var l := DecodeOne(b);
      EncodeOneInverts(b);
      DecodeIsEncodeBackward(b[l.width..]);
      assert Decode(b).value[1..] == Decode(b[l.width..]).value;
      assert b == b[..l.width] + b[l.width..];
    }
  }

  lemma {:induction false} EncodeIsDecodeBackward(t: Text)
    requires Scalars(t)
    ensures Decode(Encode(t)) == Some(t)
  {
    if t != [] {
      DecodeOneInverts(t[0], Encode(t[1..]));
      EncodeIsDecodeBackward(t[1..]);
      assert Encode(t)[|EncodeOne(t[0])|..] == Encode(t[1..]);
      assert [t[0]] + t[1..] == t;
    }
  }

  /** Strict decoding accepts exactly the encodings of scalar values, and inverts the encoder. */
  lemma DecodeIffEncoded(b: Bytes, t: Text)
    ensures Decode(b) == Some(t) <==> Scalars(t) && Encode(t) == b
  {
    if Decode(b) == Some(t) {
      DecodeIsEncodeBackward(b);
    } else if Scalars(t) && Encode(t) == b {
      EncodeIsDecodeBackward(t);
    }
  }

  // ---- encoded strings stand for their texts -----------------------------------------

  function WidthOf(b: Byte): nat { if b < 0x80 then 1 else if b < 0xE0 then 2 else if b < 0xF0 then 3 else 4 }

  lemma LeadGivesWidth(c: CodePoint)
    ensures |EncodeOne(c)| == WidthOf(EncodeOne(c)[0])
  {
  }

  lemma FirstCharacter(c: CodePoint, d: CodePoint, x: Bytes, y: Bytes)
    requires EncodeOne(c) + x == EncodeOne(d) + y
    ensures c == d && x == y
  {
    var u, v := EncodeOne(c) + x, EncodeOne(d) + y;
    var e, f := EncodeOne(c), EncodeOne(d);
    assert e[0] == u[0] == f[0];
    LeadGivesWidth(c);
    LeadGivesWidth(d);
    assert e == u[..|e|] && f == v[..|e|];
    SixBits(c);
    SixBits(d);
    assert x == u[|e|..] && y == v[|e|..];
  }

  /** The native reader's byte strings name their texts, surrogates included. */
  lemma {:induction false} EncodeInjective(s: Text, t: Text)
    requires Encode(s) == Encode(t)
    ensures s == t
  {
    if s != [] && t != [] {
      FirstCharacter(s[0], t[0], Encode(s[1..]), Encode(t[1..]));
      EncodeInjective(s[1..], t[1..]);
      assert s == [s[0]] + s[1..] && t == [t[0]] + t[1..];
    }
  }

  lemma Associative(a: Bytes, b: Bytes, c: Bytes)
    ensures a + (b + c) == (a + b) + c
  {
  }

  lemma EncodeStep(t: Text, rest: Text)
    requires t != [] && t[1..] == rest
    ensures Encode(t) == EncodeOne(t[0]) + Encode(rest)
  {
  }

  lemma {:induction false} EncodeAppend(s: Text, t: Text)
    ensures Encode(s + t) == Encode(s) + Encode(t)
  {
    if s == [] {
      assert s + t == t;
    } else {
      EncodeStep(s + t, s[1..] + t);
      EncodeStep(s, s[1..]);
      EncodeAppend(s[1..], t);
      Associative(EncodeOne(s[0]), Encode(s[1..]), Encode(t));
    }
  }

  predicate Ascii(t: seq<int>) { forall k :: 0 <= k < |t| ==> 0 <= t[k] < 128 }

  /** Encoding leaves ASCII alone. */
  lemma {:induction false} EncodeAscii(t: Text)
    requires Ascii(t)
    ensures Encode(t) == t
  {
    if t != [] {
      EncodeStep(t, t[1..]);
      EncodeAscii(t[1..]);
      assert EncodeOne(t[0]) == [t[0]];
    }
  }

  lemma AsciiLead(c: CodePoint)
    ensures EncodeOne(c)[0] < 128 ==> c < 128
  {
  }

  /** And no other text encodes to ASCII. */
  lemma {:induction false} OnlyAsciiEncodesToAscii(t: Text)
    requires Ascii(Encode(t))
    ensures Ascii(t)
  {
    if t != [] {
      var e, rest := EncodeOne(t[0]), Encode(t[1..]);
      EncodeStep(t, t[1..]);
      AsciiLead(t[0]);
      assert Encode(t)[0] == e[0];
      assert forall k :: 0 <= k < |rest| ==> rest[k] == Encode(t)[|e| + k];
      OnlyAsciiEncodesToAscii(t[1..]);
      assert t == [t[0]] + t[1..];
    }
  }

  // ---- the native reader's loops -----------------------------------------------------

  /** Append: the bytes of one code point pushed onto a string. */
  method Append(text: Bytes, c: CodePoint) returns (result: Bytes)
    ensures result == text + EncodeOne(c)
  {
    result := text;
    if c < 128 {
      result := result + [c];
    } else if c < 2048 {
      result := result + [0xC0 + c / 64];
      result := result + [0x80 + c % 64];
    } else if c < 65536 {
      result := result + [0xE0 + c / 4096];
      result := result + [0x80 + c / 64 % 64];
      result := result + [0x80 + c % 64];
    } else {
      result := result + [0xF0 + c / 262144];
      result := result + [0x80 + c / 4096 % 64];
      result := result + [0x80 + c / 64 % 64];
      result := result + [0x80 + c % 64];
    }
  }

  method EncodeText(text: Text) returns (result: Bytes)
    ensures result == Encode(text)
  {
    result := [];
    var i := 0;
    while i < |text|
      invariant 0 <= i <= |text|
      invariant result + Encode(text[i..]) == Encode(text)
    {
      assert text[i..][1..] == text[i + 1..];
      assert result + Encode(text[i..]) == (result + EncodeOne(text[i])) + Encode(text[i + 1..]);
      result := Append(result, text[i]);
      i := i + 1;
    }
    assert text[i..] == [];
  }

  /** Six bits from each following byte. */
  function Gather(c: nat, b: Bytes): nat
    decreases |b|
  {
    if b == [] then c else Gather(Six(c, b[0]), b[1..])
  }

  /** How many bytes follow a lead byte, the least value they may give, and the lead's own bits. */
  function LeadPlan(b: Byte): (int, int, int) {
    if 0xC2 <= b <= 0xDF then (1, 128, b % 32)
    else if 0xE0 <= b <= 0xEF then (2, 2048, b % 16)
    else if 0xF0 <= b <= 0xF4 then (3, 65536, b % 8)
    else (0, 0, 0)
  }

  predicate Tails(b: Bytes) { forall k :: 0 <= k < |b| ==> Tail(b[k]) }

  lemma GatherThree(c: nat, b: Bytes)
    ensures |b| == 1 ==> Gather(c, b) == Six(c, b[0])
    ensures |b| == 2 ==> Gather(c, b) == Six(Six(c, b[0]), b[1])
    ensures |b| == 3 ==> Gather(c, b) == Six(Six(Six(c, b[0]), b[1]), b[2])
    decreases |b|
  {
    if |b| == 2 {
      assert Gather(Six(c, b[0]), b[1..]) == Six(Six(c, b[0]), b[1]);
    } else if |b| == 3 {
      GatherThree(Six(c, b[0]), b[1..]);
    }
  }

  /** The reader's check of a gathered value. */
  function Checked(c: nat, least: nat, width: nat): Lead {
    if least <= c <= 0x10_FFFF && !(0xD800 <= c <= 0xDFFF) then Character(c, width) else Malformed
  }

  lemma TwoIsRange(b: Bytes)
    requires |b| >= 2 && 0xC2 <= b[0] <= 0xDF && Tail(b[1])
    ensures DecodeOne(b) == Checked(Gather(b[0] % 32, b[1..2]), 128, 2)
  {
    GatherThree(b[0] % 32, b[1..2]);
    DecodeTwo(b);
    TwoRange(b[0] - 0xC0, b[1]);
  }

  lemma ThreeIsRange(b: Bytes)
    requires |b| >= 3 && 0xE0 <= b[0] <= 0xEF && Tail(b[1]) && Tail(b[2])
    ensures DecodeOne(b) == Checked(Gather(b[0] % 16, b[1..3]), 2048, 3)
  {
    assert b[0] % 16 == b[0] - 0xE0;
    GatherThree(b[0] - 0xE0, b[1..3]);
    DecodeThree(b);
    ThreeRange(b[0] - 0xE0, b[1], b[2]);
  }

  lemma FourIsRange(b: Bytes)
    requires |b| >= 4 && 0xF0 <= b[0] <= 0xF4 && Tail(b[1]) && Tail(b[2]) && Tail(b[3])
    ensures DecodeOne(b) == Checked(Gather(b[0] % 8, b[1..4]), 65536, 4)
  {
    GatherThree(b[0] % 8, b[1..4]);
    DecodeFour(b);
    FourRange(b[0] - 0xF0, b[1], b[2], b[3]);
  }

  /** The reader's numeric check and the byte ranges of RFC 3629 agree. */
  lemma PlanIsRanges(b: Bytes)
    requires b != [] && b[0] >= 128
    ensures var (n, least, bits) := LeadPlan(b[0]);
      DecodeOne(b) ==
        if n == 0 || |b| < n + 1 || !Tails(b[1..n + 1]) then Malformed
        else Checked(Gather(bits, b[1..n + 1]), least, n + 1)
  {
    var (n, least, bits) := LeadPlan(b[0]);
    if n != 0 && |b| >= n + 1 {
      var s := b[1..n + 1];
      assert s[0] == b[1] && (n >= 2 ==> s[1] == b[2]) && (n >= 3 ==> s[2] == b[3]);
      if Tails(s) {
        if n == 1 {
          TwoIsRange(b);
        } else if n == 2 {
          ThreeIsRange(b);
        } else {
          FourIsRange(b);
        }
      }
    }
  }

  /** The bytes after a lead byte, six bits each. */
  method FollowingBytes(bytes: Bytes, start: nat, count: nat, lead: nat) returns (ok: bool, c: nat)
    requires start + count <= |bytes|
    ensures ok == Tails(bytes[start..start + count])
    ensures ok ==> c == Gather(lead, bytes[start..start + count])
  {
    ok, c := true, lead;
    var i, left := start, count;
    ghost var all := bytes[start..start + count];
    while left != 0
      invariant i + left == start + count && start <= i && 0 <= left
      invariant Gather(c, bytes[i..start + count]) == Gather(lead, all)
      invariant Tails(bytes[start..i])
    {
      var next := bytes[i];
      assert bytes[i..start + count][1..] == bytes[i + 1..start + count];
      assert all[i - start] == next;
      if !(0x80 <= next < 0xC0) {
        return false, 0;
      }
      assert bytes[start..i + 1] == bytes[start..i] + [next];
      c := Six(c, next);
      i := i + 1;
      left := left - 1;
    }
    assert bytes[i..start + count] == [];
  }

  /** Decode: the native reader's strict decoder refines what both readers accept. */
  method DecodeBytes(bytes: Bytes) returns (result: Option<Text>)
    ensures result == ReadText(bytes)
  {
    var text: Text := [];
    var i := 0;
    assert bytes[0..] == bytes;
    PrependNothing(Decode(bytes));
    while i < |bytes|
      invariant 0 <= i <= |bytes|
      invariant Decode(bytes) == Prepend(text, Decode(bytes[i..]))
    {
      var lead := bytes[i];
      ghost var here := bytes[i..];
      if lead < 128 {
        DecodeStep(here, text, bytes[i + 1..]);
        text := text + [lead];
        i := i + 1;
        continue;
      }
      var (count, least, bits) := LeadPlan(lead);
      PlanIsRanges(here);
      if count == 0 || |bytes| - (i + 1) < count {
        return None;
      }
      assert here[1..count + 1] == bytes[i + 1..i + 1 + count];
      var ok, c := FollowingBytes(bytes, i + 1, count, bits);
      if !ok || !(least <= c <= 0x10FFFF) || 0xD800 <= c <= 0xDFFF {
        return None;
      }
      DecodeStep(here, text, bytes[i + 1 + count..]);
      text := text + [c];
      i := i + 1 + count;
    }
    assert bytes[i..] == [];
    assert Decode(bytes) == Some(text + []) && text + [] == text;
    BomIsFirst(bytes);
    result := if text != [] && text[0] == 0xFEFF then None else Some(text);
  }

  function Prepend(head: Text, tail: Option<Text>): Option<Text> {
    if tail.None? then None else Some(head + tail.value)
  }

  lemma PrependNothing(tail: Option<Text>)
    ensures Prepend([], tail) == tail
  {
    if tail.Some? {
      assert [] + tail.value == tail.value;
    }
  }

  lemma DecodeStep(b: Bytes, head: Text, rest: Bytes)
    requires b != [] && DecodeOne(b).Character? && rest == b[DecodeOne(b).width..]
    ensures Prepend(head, Decode(b)) == Prepend(head + [DecodeOne(b).c], Decode(rest))
  {
    if Decode(rest).Some? {
      assert head + ([DecodeOne(b).c] + Decode(rest).value) == (head + [DecodeOne(b).c]) + Decode(rest).value;
    }
  }

  lemma BomIsFirst(b: Bytes)
    requires Decode(b).Some?
    ensures BOM <= b <==> Decode(b).value != [] && Decode(b).value[0] == 0xFEFF
  {
    if b != [] {
      EncodeOneInverts(b);
      var l := DecodeOne(b);
      assert Decode(b).value[0] == l.c;
      assert EncodeOne(0xFEFF) == BOM;
      if BOM <= b {
        assert b[0] == 0xEF && b[1] == 0xBB && b[2] == 0xBF;
      }
    }
  }
}
