/** The native reader's value parser, index loop by index loop (include/crystalhd-config.h). */
module ConfigJsonReader {
  import opened Basics
  import opened ConfigUtf8
  import opened ConfigText
  import opened ConfigJson

  /** The reader keeps strings as UTF-8 bytes, lone surrogates included. */
  function EncodeValue(v: Value<Text>): Value<Bytes> {
    match v
    case Unset => Unset
    case Bool(b) => Bool(b)
    case Int(n) => Int(n)
    case Str(s) => Str(Encode(s))
  }

  /** The first n hexadecimal digits. */
  function Nibbles(t: Text): Option<nat> {
    if t == [] then Some(0)
    else
      var before, d := Nibbles(t[..|t| - 1]), HexDigit(t[|t| - 1]);
      if before.None? || d.None? then None else Some(before.value * 16 + d.value)
  }

  lemma NibblesPrefix(t: Text, n: nat)
    requires n <= |t| && Nibbles(t[..n]).None?
    ensures Nibbles(t).None?
    decreases |t| - n
  {
    if n < |t| {
      assert t[..n + 1][..n] == t[..n];
      NibblesPrefix(t, n + 1);
    } else {
      assert t[..n] == t;
    }
  }

  lemma FourNibbles(t: Text)
    requires |t| >= 4
    ensures Nibbles(t[..4]) == Hex4(t)
  {
    assert t[..4][..3] == t[..3] && t[..3][..2] == t[..2] && t[..2][..1] == t[..1] && t[..1][..0] == [];
    assert Nibbles(t[..1]) == HexDigit(t[0]);
    assert Nibbles(t[..2]) == if HexDigit(t[0]).None? || HexDigit(t[1]).None? then None
                              else Some(HexDigit(t[0]).value * 16 + HexDigit(t[1]).value);
    assert Nibbles(t[..3]) == if Nibbles(t[..2]).None? || HexDigit(t[2]).None? then None
                              else Some(Nibbles(t[..2]).value * 16 + HexDigit(t[2]).value);
  }

  /** Escape: four digits from index i. */
  method Escape(s: Text, i: nat) returns (value: Option<CodePoint>)
    requires i <= |s|
    ensures value == Hex4(s[i..])
  {
    if |s| - i < 4 {
      return None;
    }
    ghost var t := s[i..];
    FourNibbles(t);
    var number := 0;
    var n := 0;
    while n < 4
      invariant 0 <= n <= 4
      invariant Nibbles(t[..n]) == Some(number)
    {
      assert t[..n + 1][..n] == t[..n] && t[n] == s[i + n];
      var digit := HexDigit(s[i + n]);
      if digit.None? {
        assert t[..4][..n + 1] == t[..n + 1];
        NibblesPrefix(t[..4], n + 1);
        return None;
      }
      number := number * 16 + digit.value;
      n := n + 1;
    }
    value := Some(number);
  }

  /** One turn of the string loop: what stands at i, and where the reader goes on. */
  method NextCharacter(s: Text, i: nat) returns (c: Option<CodePoint>, next: nat)
    requires i < |s| && s[i] != QUOTE
    ensures c.None? ==> ScanOne(s[i..]).Failed?
    ensures c.Some? ==> i < next <= |s| && ScanOne(s[i..]) == One(c.value, s[next..])
  {
    if s[i] < 32 {
      return None, i;
    }
    if s[i] != BACKSLASH {
      return Some(s[i]), i + 1;
    }
    if i + 1 >= |s| {
      return None, i;
    }
    if s[i + 1] != 117 {
      assert s[i..][1] == s[i + 1] && s[i..][2..] == s[i + 2..];
      return ShortEscape(s[i + 1]), i + 2;
    }
    c, next := UnicodeEscape(s, i + 2);
    assert s[i..][2..] == s[i + 2..];
  }

  method UnicodeEscape(s: Text, i: nat) returns (c: Option<CodePoint>, next: nat)
    requires i <= |s|
    ensures c.None? ==> ScanUnicode(s[i..]).Failed?
    ensures c.Some? ==> i < next <= |s| && ScanUnicode(s[i..]) == One(c.value, s[next..])
  {
    ghost var t := s[i..];
    c, next := None, i;
    var first := Escape(s, i);
    if first.None? {
      return;
    }
    var j := i + 4;
    assert t[4..] == s[j..];
    c, next := first, j;
    if 0xD800 <= first.value <= 0xDBFF && |s| - j >= 6 && s[j] == BACKSLASH && s[j + 1] == 117 {
      assert t[6..] == s[j + 2..] && t[10..] == s[j + 6..];
      var second := Escape(s, j + 2);
      if second.None? {
        return None, j;
      }
      if 0xDC00 <= second.value <= 0xDFFF {
        c, next := Some(Join(first.value, second.value)), j + 6;
      }
    }
  }

  function Ahead(head: Text, s: Scanned): Scanned {
    if s.Unscanned? then s else Scanned(head + s.value, s.rest)
  }

  /** What the reader accepts as a whole string value. */
  function WholeString(s: Scanned): Option<Bytes> {
    if s.Scanned? && s.rest == [] && NoNul(s.value) then Some(Encode(s.value)) else None
  }

  method ParseString(s: Text) returns (result: Option<Bytes>)
    requires s != [] && s[0] == QUOTE
    ensures result == WholeString(ScanString(s[1..]))
  {
    var bytes: Bytes := [];
    ghost var text: Text := [];
    var i := 1;
    var closed := false;
    assert Ahead([], ScanString(s[1..])) == ScanString(s[1..]);
    while i < |s| && !closed
      invariant 1 <= i <= |s|
      invariant bytes == Encode(text) && NoNul(text)
      invariant ScanString(s[1..]) == if closed then Scanned(text, s[i..]) else Ahead(text, ScanString(s[i..]))
      decreases |s| - i, !closed
    {
      if s[i] == QUOTE {
        closed := true;
        i := i + 1;
        assert text + [] == text;
      } else {
        var c, next := NextCharacter(s, i);
        if c.None? {
          return None;
        }
        StringStep(s[i..], text, c.value, s[next..]);
        if c.value == 0 {
          ZeroStays(text + [0], ScanString(s[next..]), |text|);
          return None;
        }
        EncodeAppend(text, [c.value]);
        assert Encode([c.value]) == EncodeOne(c.value) by { assert Encode([]) == []; }
        bytes := Append(bytes, c.value);
        text := text + [c.value];
        i := next;
      }
    }
    if closed && i == |s| {
      result := Some(bytes);
    } else {
      result := None;
    }
  }

  lemma StringStep(t: Text, head: Text, c: CodePoint, rest: Text)
    requires ScanOne(t) == One(c, rest)
    ensures Ahead(head, ScanString(t)) == Ahead(head + [c], ScanString(rest))
  {
    var s := ScanString(rest);
    if s.Scanned? {
      assert head + ([c] + s.value) == head + [c] + s.value;
    }
  }

  lemma ZeroStays(head: Text, s: Scanned, k: nat)
    requires k < |head| && head[k] == 0
    ensures WholeString(Ahead(head, s)).None?
  {
    if s.Scanned? {
      assert (head + s.value)[k] == 0;
    }
  }

  /** ParseValue: the native reader takes the same values from a stripped text. */
  method ReadValue(s: Text) returns (result: Option<Value<Bytes>>)
    requires Stripped(s)
    ensures ParseValue(s).None? ==> result.None?
    ensures ParseValue(s).Some? ==> result == Some(EncodeValue(ParseValue(s).value))
  {
    if s == UNSET {
      return Some(Unset);
    }
    if s == TRUE {
      return Some(Bool(true));
    }
    if s == FALSE {
      return Some(Bool(false));
    }
    if s != [] && s[0] == QUOTE {
      var text := ParseString(s);
      StrippedLeavesNothing(s);
      return if text.Some? then Some(Str(text.value)) else None;
    }
    result := ReadNumber(s);
  }

  /** What is left after the closing quote of a stripped text is never JSON white space. */
  lemma StrippedLeavesNothing(s: Text)
    requires Stripped(s) && s != [] && s[0] == QUOTE
    ensures var r := ScanString(s[1..]); r.Scanned? ==> (JsonSpaces(r.rest) <==> r.rest == [])
  {
    var r := ScanString(s[1..]);
    if r.Scanned? && r.rest != [] {
      RestKeepsEnd(s[1..]);
    }
  }

  lemma {:induction false} RestKeepsEnd(t: Text)
    requires ScanString(t).Scanned? && ScanString(t).rest != []
    ensures t != [] && ScanString(t).rest[|ScanString(t).rest| - 1] == t[|t| - 1]
    decreases |t|
  {
    var o := ScanOne(t);
    RestIsSuffix(t);
    if o.One? {
      RestKeepsEnd(o.rest);
    }
  }

  lemma RestIsSuffix(t: Text)
    requires !ScanOne(t).Failed?
    ensures var r := ScanOne(t).rest; |r| <= |t| && r == t[|t| - |r|..]
  {
    var r := ScanOne(t).rest;
    if t[0] == BACKSLASH && t[1] == 117 {
      assert r == t[2..][4..] || r == t[2..][10..];
      if r == t[2..][4..] {
        assert r == t[6..];
      } else {
        assert r == t[12..];
      }
    }
  }

  method ReadNumber(s: Text) returns (result: Option<Value<Bytes>>)
    ensures result ==
      if Integer(s) && |s| <= MAXIMUM_DIGITS then Some(Int(Number(s))) else None
  {
    if s == [] || |s| > 10 || !(|s| == 1 || s[0] != 48) {
      return None;
    }
    var number: nat := 0;
    var i := 0;
    while i < |s|
      invariant 0 <= i <= |s|
      invariant Digits(s[..i]) && number == Number(s[..i]) && number < PowerOfTen(i)
    {
      assert s[..i + 1][..i] == s[..i];
      if !(48 <= s[i] <= 57) {
        return None;
      }
      assert Digits(s[..i + 1]);
      number := number * 10 + (s[i] - 48);
      i := i + 1;
    }
    assert s[..i] == s;
    TenDigitsFit(|s|);
    assert number <= U64_MAX;
    result := Some(Int(number));
  }

  lemma TenDigitsFit(n: nat)
    requires n <= 10
    ensures PowerOfTen(n) <= U64_MAX
    decreases 10 - n
  {
    if n < 10 {
      TenDigitsFit(n + 1);
    } else {
      assert PowerOfTen(5) == 100000;
    }
  }
}
