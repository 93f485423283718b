/**
 * One value of the configuration language: unset, booleans, bounded integers and JSON
 * strings (sections 7 and 8 of RFC 8259), as scripts/crystalhd-config.py reads and writes
 * them, and the native reader's index loops (include/crystalhd-config.h).
 */
module ConfigJson {
  import opened Basics
  import opened ConfigUtf8
  import opened ConfigText

  datatype Value<S> = Unset | Bool(b: bool) | Int(n: nat) | Str(s: S)

  const UNSET: Text := [117, 110, 115, 101, 116]
  const TRUE: Text := [116, 114, 117, 101]
  const FALSE: Text := [102, 97, 108, 115, 101]
  const QUOTE: CodePoint := 34
  const BACKSLASH: CodePoint := 92
  const MAXIMUM_DIGITS := 10

  predicate High(c: CodePoint) { 0xD800 <= c <= 0xDBFF }
  predicate Low(c: CodePoint) { 0xDC00 <= c <= 0xDFFF }

  function Join(high: CodePoint, low: CodePoint): (c: CodePoint)
    requires High(high) && Low(low)
    ensures c >= 0x1_0000
  {
    0x1_0000 + (high - 0xD800) * 1024 + (low - 0xDC00)
  }

  // ---- reading a string --------------------------------------------------------------

  function HexDigit(c: CodePoint): (d: Option<nat>)
    ensures d.Some? ==> d.value < 16
  {
    if 48 <= c <= 57 then Some(c - 48)
    else if 97 <= c <= 102 then Some(c - 87)
    else if 65 <= c <= 70 then Some(c - 55)
    else None
  }

  function Hex4(t: Text): (r: Option<CodePoint>)
    ensures r.Some? ==> |t| >= 4 && r.value < 0x1_0000
  {
    if |t| < 4 then None
    else
      var a, b, c, d := HexDigit(t[0]), HexDigit(t[1]), HexDigit(t[2]), HexDigit(t[3]);
      if a.None? || b.None? || c.None? || d.None? then None
      else Some(((a.value * 16 + b.value) * 16 + c.value) * 16 + d.value)
  }

  datatype Scan = Failed | End(rest: Text) | One(c: CodePoint, rest: Text)

  /** The letter of a short escape and the character it stands for. */
  function ShortEscape(c: CodePoint): Option<CodePoint> {
    if c == 34 || c == 92 || c == 47 then Some(c)
    else if c == 98 then Some(8)
    else if c == 102 then Some(12)
    else if c == 110 then Some(10)
    else if c == 114 then Some(13)
    else if c == 116 then Some(9)
    else None
  }

  /** After a backslash and u: four digits, joined with a low half that follows at once. */
  function ScanUnicode(t: Text): (r: Scan)
    ensures !r.End? && (r.One? ==> |r.rest| < |t|)
  {
    var first := Hex4(t);
    if first.None? then Failed
    else if High(first.value) && |t| >= 10 && t[4] == BACKSLASH && t[5] == 117 then
      var second := Hex4(t[6..]);
      if second.None? then Failed
      else if Low(second.value) then One(Join(first.value, second.value), t[10..])
      else One(first.value, t[4..])
    else One(first.value, t[4..])
  }

  /** The next character of a string, or its closing quote. */
  function ScanOne(t: Text): (r: Scan)
    ensures !r.Failed? ==> |r.rest| < |t|
  {
    if t == [] then Failed
    else if t[0] == QUOTE then End(t[1..])
    else if t[0] < 32 then Failed
    else if t[0] != BACKSLASH then One(t[0], t[1..])
    else if |t| == 1 then Failed
    else if t[1] == 117 then ScanUnicode(t[2..])
    else
      var e := ShortEscape(t[1]);
      if e.Some? then One(e.value, t[2..]) else Failed
  }

  datatype Scanned = Unscanned | Scanned(value: Text, rest: Text)

  /** A string's characters up to its closing quote, and what follows it. */
  function ScanString(t: Text): Scanned
    decreases |t|
  {
    match ScanOne(t)
    case Failed => Unscanned
    case End(rest) => Scanned([], rest)
    case One(c, rest) =>
      var s := ScanString(rest);
      if s.Unscanned? then Unscanned else Scanned([c] + s.value, s.rest)
  }

  // ---- reading a value ---------------------------------------------------------------

  predicate Digit(c: CodePoint) { 48 <= c <= 57 }

  predicate Digits(t: Text) { forall k :: 0 <= k < |t| ==> Digit(t[k]) }

  /** (?:0|[1-9][0-9]*) */
  predicate Integer(t: Text) { t != [] && Digits(t) && (t[0] == 48 ==> |t| == 1) }

  function Number(t: Text): nat
    requires Digits(t)
  {
    if t == [] then 0 else Number(t[..|t| - 1]) * 10 + (t[|t| - 1] - 48)
  }

  function PowerOfTen(k: nat): nat { if k == 0 then 1 else 10 * PowerOfTen(k - 1) }

  predicate JsonSpaces(t: Text) { forall k :: 0 <= k < |t| ==> t[k] in {9, 10, 13, 32} }

  predicate NoNul(t: Text) { forall k :: 0 <= k < |t| ==> t[k] != 0 }

  /** parse_value */
  function ParseValue(t: Text): Option<Value<Text>> {
    if t == TRUE then Some(Bool(true))
    else if t == FALSE then Some(Bool(false))
    else if t == UNSET then Some(Unset)
    else if Integer(t) then if |t| > MAXIMUM_DIGITS then None else Some(Int(Number(t)))
    else if t != [] && t[0] == QUOTE then
      var s := ScanString(t[1..]);
      if s.Scanned? && JsonSpaces(s.rest) && NoNul(s.value) then Some(Str(s.value)) else None
    else None
  }

  // ---- what a parsed string can be ---------------------------------------------------

  /** No high half stands right before a low half. */
  predicate NoPair(t: Text) {
    forall k :: 0 <= k < |t| - 1 ==> !(High(t[k]) && Low(t[k + 1]))
  }

  lemma {:induction false} ScannedHasNoPair(t: Text)
    requires Scalars(t) && ScanString(t).Scanned?
    ensures NoPair(ScanString(t).value)
    decreases |t|
  {
    var o := ScanOne(t);
    if o.One? {
      ScanRest(t);
      ScannedHasNoPair(o.rest);
      var v, w := ScanString(t).value, ScanString(o.rest).value;
      assert v == [o.c] + w;
      if High(o.c) && w != [] && Low(w[0]) {
        HighIsEscaped(t);
        LowIsEscaped(o.rest);
        assert false;
      }
    }
  }

  lemma ScanRest(t: Text)
    requires Scalars(t) && ScanOne(t).One?
    ensures Scalars(ScanOne(t).rest) && exists k :: 0 < k <= |t| && ScanOne(t).rest == t[k..]
  {
    var o := ScanOne(t);
    if t[0] != BACKSLASH {
      assert o.rest == t[1..];
    } else if t[1] != 117 {
      assert o.rest == t[2..];
    } else if o.rest == t[2..][4..] {
      assert o.rest == t[6..];
    } else {
      assert o.rest == t[2..][10..] == t[12..];
    }
  }

  lemma HighIsEscaped(t: Text)
    requires Scalars(t) && ScanOne(t).One? && High(ScanOne(t).c)
    ensures |t| >= 6 && t[0] == BACKSLASH && t[1] == 117 && ScanOne(t).rest == t[6..] && Hex4(t[2..]) == Some(ScanOne(t).c)
  {
    assert t[0] == BACKSLASH;
    assert t[2..][4..] == t[6..];
  }

  lemma LowIsEscaped(t: Text)
    requires Scalars(t) && ScanOne(t).One? && Low(ScanOne(t).c)
    ensures |t| >= 6 && t[0] == BACKSLASH && t[1] == 117 && Hex4(t[2..]) == Some(ScanOne(t).c)
  {
    assert t[0] == BACKSLASH;
  }

  /** In a strictly decoded text no parsed string holds a joinable pair of halves. */
  lemma ParsedHasNoPair(t: Text)
    requires Scalars(t) && ParseValue(t).Some? && ParseValue(t).value.Str?
    ensures NoPair(ParseValue(t).value.s) && NoNul(ParseValue(t).value.s)
  {
    assert Scalars(t[1..]);
    ScannedHasNoPair(t[1..]);
  }

  /** The values that survive being written and read back. */
  predicate Writable(v: Value<Text>) {
    match v
    case Int(n) => n < PowerOfTen(MAXIMUM_DIGITS)
    case Str(s) => NoPair(s) && NoNul(s)
    case _ => true
  }

  /** Everything the parser returns for a decoded text can be written and read back. */
  lemma ParsedIsWritable(t: Text)
    requires Scalars(t) && ParseValue(t).Some?
    ensures Writable(ParseValue(t).value)
  {
    var v := ParseValue(t).value;
    if v.Str? {
      ParsedHasNoPair(t);
    } else if v.Int? {
      NumberBound(t);
      PowersGrow(|t|, MAXIMUM_DIGITS);
    }
  }

  lemma {:induction false} NumberBound(t: Text)
    requires Digits(t)
    ensures Number(t) < PowerOfTen(|t|)
  {
    if t != [] {
      NumberBound(t[..|t| - 1]);
    }
  }

  lemma {:induction false} PowersGrow(j: nat, k: nat)
    requires j <= k
    ensures PowerOfTen(j) <= PowerOfTen(k)
    decreases k - j
  {
    if j < k {
      PowersGrow(j, k - 1);
    }
  }
}
