/**
 * Values written back (_format_value in scripts/crystalhd-config.py, json.dumps with
 * ensure_ascii), and when reading them again gives the same value.
 */
module ConfigJsonWriter {
  import opened Basics
  import opened ConfigUtf8
  import opened ConfigText
  import opened ConfigJson

  function HexChar(d: nat): (c: CodePoint)
    requires d < 16
    ensures HexDigit(c) == Some(d) && 33 <= c < 128
  {
    if d < 10 then 48 + d else 87 + d
  }

  function HexText(c: nat): (t: Text)
    requires c < 0x1_0000
    ensures |t| == 4
  {
    [HexChar(c / 4096), HexChar(c / 256 % 16), HexChar(c / 16 % 16), HexChar(c % 16)]
  }

  function UnicodeEscape(c: nat): (t: Text)
    requires c < 0x1_0000
    ensures |t| == 6
  {
    [BACKSLASH, 117] + HexText(c)
  }

  function HighHalf(c: CodePoint): (h: CodePoint)
    requires c >= 0x1_0000
    ensures High(h)
  {
    0xD800 + (c - 0x1_0000) / 1024
  }

  function LowHalf(c: CodePoint): (l: CodePoint)
    requires c >= 0x1_0000
    ensures Low(l)
  {
    0xDC00 + (c - 0x1_0000) % 1024
  }

  /** One character as json.dumps writes it. */
  function EscapeOne(c: CodePoint): Text {
    if c == 34 || c == 92 then [BACKSLASH, c]
    else if c == 8 then [BACKSLASH, 98]
    else if c == 12 then [BACKSLASH, 102]
    else if c == 10 then [BACKSLASH, 110]
    else if c == 13 then [BACKSLASH, 114]
    else if c == 9 then [BACKSLASH, 116]
    else if 32 <= c <= 126 then [c]
    else if c < 0x1_0000 then UnicodeEscape(c)
    else UnicodeEscape(HighHalf(c)) + UnicodeEscape(LowHalf(c))
  }

  function EscapeText(t: Text): Text {
    if t == [] then [] else EscapeOne(t[0]) + EscapeText(t[1..])
  }

  function DigitChar(n: nat): (c: CodePoint)
    requires n < 10
    ensures Digit(c)
  {
    48 + n
  }

  function Decimal(n: nat): (t: Text)
    ensures Digits(t) && t != []
  {
    if n < 10 then [DigitChar(n)] else Decimal(n / 10) + [DigitChar(n % 10)]
  }

  function FormatValue(v: Value<Text>): Text {
    match v
    case Unset => UNSET
    case Bool(b) => if b then TRUE else FALSE
    case Int(n) => Decimal(n)
    case Str(s) => [QUOTE] + EscapeText(s) + [QUOTE]
  }

  // ---- numbers -----------------------------------------------------------------------

  lemma {:induction false} DecimalIsInteger(n: nat)
    ensures Number(Decimal(n)) == n
    ensures n > 0 ==> Decimal(n)[0] != 48
    ensures Integer(Decimal(n))
  {
    if n >= 10 {
      DecimalIsInteger(n / 10);
      var t := Decimal(n);
      assert t[..|t| - 1] == Decimal(n / 10);
      assert t[0] == Decimal(n / 10)[0];
    } else {
      assert Decimal(n)[..0] == [];
    }
  }

  lemma {:induction false} DecimalLength(n: nat, k: nat)
    requires k >= 1
    ensures |Decimal(n)| <= k <==> n < PowerOfTen(k)
  {
    if n >= 10 {
      if k == 1 {
        assert PowerOfTen(1) == 10;
      } else {
        DecimalLength(n / 10, k - 1);
        assert PowerOfTen(k) == 10 * PowerOfTen(k - 1);
      }
    } else if k > 1 {
      DecimalLength(n, k - 1);
    } else {
      assert PowerOfTen(1) == 10;
    }
  }

  // ---- one escaped character ---------------------------------------------------------

  lemma HexTextReads(c: nat, rest: Text)
    requires c < 0x1_0000
    ensures Hex4(HexText(c) + rest) == Some(c)
  {
    var t := HexText(c) + rest;
    assert t[0] == HexChar(c / 4096) && t[1] == HexChar(c / 256 % 16) && t[2] == HexChar(c / 16 % 16) && t[3] == HexChar(c % 16);
    assert c / 256 == c / 4096 * 16 + c / 256 % 16;
    assert c / 16 == c / 256 * 16 + c / 16 % 16;
  }

  lemma HalvesJoin(c: CodePoint)
    requires c >= 0x1_0000
    ensures Join(HighHalf(c), LowHalf(c)) == c
  {
  }

  /** What a text starts with when a low half is written next. */
  predicate LowNext(rest: Text) {
    |rest| >= 6 && rest[0] == BACKSLASH && rest[1] == 117 && Hex4(rest[2..]).Some? && Low(Hex4(rest[2..]).value)
  }

  /** No broken escape comes next. */
  predicate WholeNext(rest: Text) {
    |rest| >= 6 && rest[0] == BACKSLASH && rest[1] == 117 ==> Hex4(rest[2..]).Some?
  }

  lemma UnicodeEscapeScans(c: CodePoint, rest: Text)
    requires c < 0x1_0000 && WholeNext(rest)
    ensures var t := UnicodeEscape(c) + rest;
      ScanOne(t) ==
        if High(c) && LowNext(rest) then One(Join(c, Hex4(rest[2..]).value), rest[6..]) else One(c, rest)
  {
    var t := UnicodeEscape(c) + rest;
    var u := t[2..];
    assert u == HexText(c) + rest;
    HexTextReads(c, rest);
    assert u[4..] == rest;
    if |rest| >= 6 {
      assert u[4] == rest[0] && u[5] == rest[1] && u[6..] == rest[2..] && u[10..] == rest[6..];
    }
  }

  lemma EscapeOneScans(c: CodePoint, rest: Text)
    requires WholeNext(rest) && !(High(c) && LowNext(rest))
    ensures ScanOne(EscapeOne(c) + rest) == One(c, rest)
  {
    var t := EscapeOne(c) + rest;
    if c >= 0x1_0000 {
      var second := UnicodeEscape(LowHalf(c)) + rest;
      assert t == UnicodeEscape(HighHalf(c)) + second;
      assert second[2..] == HexText(LowHalf(c)) + rest && second[6..] == rest;
      HexTextReads(LowHalf(c), rest);
      UnicodeEscapeScans(HighHalf(c), second);
      HalvesJoin(c);
    } else if c > 126 || (c < 32 && c !in {8, 9, 10, 12, 13}) {
      UnicodeEscapeScans(c, rest);
    } else if 32 <= c <= 126 && c != 34 && c != 92 {
      assert t[1..] == rest;
    } else {
      assert t[2..] == rest;
    }
  }

  lemma EscapeShape(c: CodePoint)
    ensures var e := EscapeOne(c);
      if |e| < 6 then 1 <= |e| <= 2 && (e[0] != BACKSLASH || (|e| == 2 && e[1] != 117))
      else e[..6] == UnicodeEscape(if c < 0x1_0000 then c else HighHalf(c))
  {
  }

  lemma UnicodeEscapeStarts(c: CodePoint, rest: Text)
    requires c < 0x1_0000
    ensures var t := UnicodeEscape(c) + rest; WholeNext(t) && (LowNext(t) <==> Low(c))
  {
    var t := UnicodeEscape(c) + rest;
    assert t[2..] == HexText(c) + rest;
    HexTextReads(c, rest);
  }

  /** An escaped text followed by its quote starts with a low half iff the text does. */
  lemma EscapedStart(s: Text, rest: Text)
    ensures var t := EscapeText(s) + [QUOTE] + rest;
      WholeNext(t) && (LowNext(t) <==> s != [] && Low(s[0]))
  {
    var t := EscapeText(s) + [QUOTE] + rest;
    if s == [] {
      assert t[0] == QUOTE;
    } else {
      EscapedSplit(s, rest);
      EscapedNext(s[0], EscapeText(s[1..]) + [QUOTE] + rest, t);
    }
  }

  lemma EscapedSplit(s: Text, rest: Text)
    requires s != []
    ensures EscapeText(s) + [QUOTE] + rest == EscapeOne(s[0]) + (EscapeText(s[1..]) + [QUOTE] + rest)
  {
  }

  lemma EscapedNext(c: CodePoint, more: Text, t: Text)
    requires t == EscapeOne(c) + more
    ensures WholeNext(t) && (LowNext(t) <==> Low(c))
  {
    var e := EscapeOne(c);
    EscapeShape(c);
    assert t[0] == e[0] && (|e| >= 2 ==> t[1] == e[1]);
    if |e| >= 6 {
      var head := if c < 0x1_0000 then c else HighHalf(c);
      assert t == UnicodeEscape(head) + t[6..] by { assert t[..6] == e[..6]; }
      UnicodeEscapeStarts(head, t[6..]);
    } else {
      ShortStart(c);
    }
  }

  lemma ShortStart(c: CodePoint)
    requires |EscapeOne(c)| < 6
    ensures !Low(c)
  {
  }

  // ---- strings -----------------------------------------------------------------------

  lemma EscapedHead(s: Text, rest: Text, more: Text)
    requires s != [] && NoPair(s) && more == EscapeText(s[1..]) + [QUOTE] + rest
    ensures ScanOne(EscapeOne(s[0]) + more) == One(s[0], more)
  {
    EscapedStart(s[1..], rest);
    assert s[1..] != [] ==> !(High(s[0]) && Low(s[1]));
    EscapeOneScans(s[0], more);
  }

  lemma ScannedCons(s: Text, t: Text, more: Text, rest: Text)
    requires s != [] && ScanOne(t) == One(s[0], more) && ScanString(more) == Scanned(s[1..], rest)
    ensures ScanString(t) == Scanned(s, rest)
  {
    assert [s[0]] + s[1..] == s;
  }

  lemma {:induction false} EscapedScans(s: Text, rest: Text)
    requires NoPair(s)
    ensures ScanString(EscapeText(s) + [QUOTE] + rest) == Scanned(s, rest)
  {
    var t := EscapeText(s) + [QUOTE] + rest;
    if s == [] {
      assert t[1..] == rest;
    } else {
      var more := EscapeText(s[1..]) + [QUOTE] + rest;
      assert t == EscapeOne(s[0]) + more;
      EscapedHead(s, rest, more);
      EscapedScans(s[1..], rest);
      ScannedCons(s, t, more, rest);
    }
  }

  lemma EscapedIsPlain(c: CodePoint)
    ensures forall k :: 0 <= k < |EscapeOne(c)| ==> 32 <= EscapeOne(c)[k] <= 126
  {
  }

  /** Everything written is printable ASCII, on one line. */
  lemma {:induction false} EscapeTextIsPlain(s: Text)
    ensures forall k :: 0 <= k < |EscapeText(s)| ==> 32 <= EscapeText(s)[k] <= 126
  {
    if s != [] {
      EscapedIsPlain(s[0]);
      EscapeTextIsPlain(s[1..]);
    }
  }

  predicate Plain(t: Text) { forall k :: 0 <= k < |t| ==> 32 <= t[k] <= 126 }

  lemma FormatIsPlain(v: Value<Text>)
    ensures var t := FormatValue(v); t != [] && Plain(t) && Stripped(t)
  {
    if v.Str? {
      EscapeTextIsPlain(v.s);
    } else if v.Int? {
      var t := Decimal(v.n);
      assert Digit(t[0]) && Digit(t[|t| - 1]);
    }
  }

  lemma IntegerReadsBack(n: nat)
    ensures ParseValue(Decimal(n)) == if n < PowerOfTen(MAXIMUM_DIGITS) then Some(Int(n)) else None
  {
    DecimalIsInteger(n);
    DecimalLength(n, MAXIMUM_DIGITS);
    assert Digit(Decimal(n)[0]);
  }

  lemma StringReadsBack(s: Text)
    requires NoPair(s) && NoNul(s)
    ensures ParseValue([QUOTE] + EscapeText(s) + [QUOTE]) == Some(Str(s))
  {
    var t := [QUOTE] + EscapeText(s) + [QUOTE];
    assert t[1..] == EscapeText(s) + [QUOTE] + [];
    EscapedScans(s, []);
    QuotedIsString(t);
  }

  lemma QuotedIsString(t: Text)
    requires t != [] && t[0] == QUOTE
    ensures ParseValue(t) ==
      var s := ScanString(t[1..]);
      if s.Scanned? && JsonSpaces(s.rest) && NoNul(s.value) then Some(Str(s.value)) else None
  {
  }

  lemma WritableReadsBack(v: Value<Text>)
    requires Writable(v)
    ensures ParseValue(FormatValue(v)) == Some(v)
  {
    if v.Int? {
      IntegerReadsBack(v.n);
    } else if v.Str? {
      StringReadsBack(v.s);
    }
  }

  /** Written back, a value reads as itself exactly when it is bounded and has no joinable pair. */
  lemma ReadsBackIffWritable(v: Value<Text>)
    ensures ParseValue(FormatValue(v)) == Some(v) <==> Writable(v)
  {
    if v.Int? {
      IntegerReadsBack(v.n);
    } else if Writable(v) {
      WritableReadsBack(v);
    } else if ParseValue(FormatValue(v)) == Some(v) {
      FormatIsPlain(v);
      ParsedHasNoPair(FormatValue(v));
      assert false;
    }
  }
}
