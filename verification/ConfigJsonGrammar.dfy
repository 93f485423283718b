/**
 * JSON strings by the grammar of section 7 of RFC 8259: a list of characters and escapes,
 * what it looks like, and what it means. The scanner takes exactly those texts so.
 */
module ConfigJsonGrammar {
  import opened Basics
  import opened ConfigUtf8
  import opened ConfigJson
  import opened ConfigDocument
  import opened ConfigJsonWriter

  // ---- the grammar -------------------------------------------------------------------

  const LOWER_DIGITS := "0123456789abcdef"
  const UPPER_DIGITS := "0123456789ABCDEF"
  const SHORT_LETTERS := "\"\\/bfnrt"

  /** A hexadecimal digit, in either case. */
  datatype Hex = Hex(value: nat, upper: bool) {
    predicate Valid() { value < 16 }

    function Char(): CodePoint
      requires Valid()
    {
      if upper then UPPER_DIGITS[value] as int else LOWER_DIGITS[value] as int
    }
  }

  datatype Token = Raw(c: CodePoint) | Short(letter: char) | Escaped(a: Hex, b: Hex, c2: Hex, d: Hex) {
    /** No raw control character, quote or backslash; one of eight letters; any four digits. */
    predicate Valid() {
      match this
      case Raw(c) => c >= 0x20 && c != '"' as int && c != '\\' as int
      case Short(letter) => letter in SHORT_LETTERS
      case Escaped(a, b, c, d) => a.Valid() && b.Valid() && c.Valid() && d.Valid()
    }

    function Text(): Text
      requires Valid()
    {
      match this
      case Raw(c) => [c]
      case Short(letter) => ['\\' as int, letter as int]
      case Escaped(a, b, c, d) => ['\\' as int, 'u' as int, a.Char(), b.Char(), c.Char(), d.Char()]
    }

    /** The character or UTF-16 code unit it stands for. */
    function Unit(): CodePoint
      requires Valid()
    {
      match this
      case Raw(c) => c
      case Short(letter) =>
        (match letter case 'b' => 0x08 case 'f' => 0x0C case 'n' => 0x0A case 'r' => 0x0D case 't' => 0x09
         case _ => letter as int)
      case Escaped(a, b, c, d) => 0x1000 * a.value + 0x100 * b.value + 0x10 * c.value + d.value
    }
  }

  predicate Valid(tokens: seq<Token>) { forall i :: 0 <= i < |tokens| ==> tokens[i].Valid() }

  function Spelled(tokens: seq<Token>): Text
    requires Valid(tokens)
  {
    if tokens == [] then [] else tokens[0].Text() + Spelled(tokens[1..])
  }

  /** Two escapes that are the halves of one character. */
  predicate Halves(t: Token, u: Token)
    requires t.Valid() && u.Valid()
  {
    t.Escaped? && u.Escaped? && 0xD800 <= t.Unit() <= 0xDBFF && 0xDC00 <= u.Unit() <= 0xDFFF
  }

  function Meaning(tokens: seq<Token>): Text
    requires Valid(tokens)
  {
    if tokens == [] then []
    else if |tokens| >= 2 && Halves(tokens[0], tokens[1]) then
      [0x1_0000 + (tokens[0].Unit() - 0xD800) * 0x400 + (tokens[1].Unit() - 0xDC00)] + Meaning(tokens[2..])
    else [tokens[0].Unit()] + Meaning(tokens[1..])
  }

  // ---- one token scanned -------------------------------------------------------------

  lemma DigitReads(h: Hex)
    requires h.Valid()
    ensures HexDigit(h.Char()) == Some(h.value)
  {
  }

  lemma EscapedReads(t: Token, rest: Text)
    requires t.Valid() && t.Escaped?
    ensures t.Text() + rest == [92, 117] + ([t.a.Char(), t.b.Char(), t.c2.Char(), t.d.Char()] + rest)
    ensures Hex4([t.a.Char(), t.b.Char(), t.c2.Char(), t.d.Char()] + rest) == Some(t.Unit())
  {
    DigitReads(t.a);
    DigitReads(t.b);
    DigitReads(t.c2);
    DigitReads(t.d);
  }

  /** What follows a token in a string: another one, or the closing quote. */
  function Closed(tokens: seq<Token>, rest: Text): Text
    requires Valid(tokens)
  {
    Spelled(tokens) + [34] + rest
  }

  lemma ClosedStep(tokens: seq<Token>, rest: Text)
    requires Valid(tokens) && tokens != []
    ensures Closed(tokens, rest) == tokens[0].Text() + Closed(tokens[1..], rest)
  {
  }

  lemma ShortReads(t: Token, rest: Text)
    requires t.Valid() && !t.Escaped?
    ensures ScanOne(t.Text() + rest) == One(t.Unit(), rest)
  {
    var s := t.Text() + rest;
    assert s[|t.Text()|..] == rest;
    if t.Short? {
      assert s[0] == 92 && s[1] == t.letter as int && s[2..] == rest;
    }
  }

  /** An escape before anything but an escape is one character. */
  lemma EscapeAlone(t: Token, after: Text)
    requires t.Valid() && t.Escaped? && after != [] && (after[0] == 92 ==> |after| > 1 && after[1] != 117)
    ensures ScanOne(t.Text() + after) == One(t.Unit(), after)
  {
    EscapedReads(t, after);
    var digits := [t.a.Char(), t.b.Char(), t.c2.Char(), t.d.Char()] + after;
    assert (t.Text() + after)[2..] == digits && digits[4..] == after;
    assert digits[4] == after[0] && (|after| > 1 ==> digits[5] == after[1]);
  }

  /** The text after a backslash and u, when another escape follows the digits. */
  lemma PairText(t: Token, u: Token, later: Text)
    requires t.Valid() && t.Escaped? && u.Valid() && u.Escaped?
    ensures var s := (t.Text() + (u.Text() + later))[2..];
      && |s| >= 10 && s[4] == 92 && s[5] == 117 && s[4..] == u.Text() + later && s[10..] == later
      && Hex4(s) == Some(t.Unit()) && Hex4(s[6..]) == Some(u.Unit())
  {
    var after := u.Text() + later;
    EscapedReads(t, after);
    EscapedReads(u, later);
    var digits := [u.a.Char(), u.b.Char(), u.c2.Char(), u.d.Char()];
    var s := (t.Text() + after)[2..];
    assert s == [t.a.Char(), t.b.Char(), t.c2.Char(), t.d.Char()] + after;
    assert s[4..] == after && s[6..] == after[2..] == digits + later;
    assert s[10..] == (digits + later)[4..] == later;
  }

  lemma PairScans(s: Text, first: CodePoint, second: CodePoint)
    requires |s| >= 10 && s[4] == 92 && s[5] == 117 && Hex4(s) == Some(first) && Hex4(s[6..]) == Some(second)
    ensures ScanUnicode(s) ==
      if 0xD800 <= first <= 0xDBFF && 0xDC00 <= second <= 0xDFFF
      then One(0x1_0000 + (first - 0xD800) * 0x400 + (second - 0xDC00), s[10..]) else One(first, s[4..])
  {
  }

  /** An escape takes the next one with it exactly when the two are halves. */
  lemma EscapePair(t: Token, u: Token, later: Text)
    requires t.Valid() && t.Escaped? && u.Valid() && u.Escaped?
    ensures ScanOne(t.Text() + (u.Text() + later)) ==
      if Halves(t, u) then One(0x1_0000 + (t.Unit() - 0xD800) * 0x400 + (u.Unit() - 0xDC00), later)
      else One(t.Unit(), u.Text() + later)
  {
    var s := t.Text() + (u.Text() + later);
    PairText(t, u, later);
    PairScans(s[2..], t.Unit(), u.Unit());
    UnicodeScans(s, t, u.Text() + later);
  }

  lemma UnicodeScans(s: Text, t: Token, after: Text)
    requires t.Valid() && t.Escaped? && s == t.Text() + after
    ensures ScanOne(s) == ScanUnicode(s[2..])
  {
    assert s[0] == 92 && s[1] == 117;
  }

  /** The first character of a string, and how many tokens it takes. */
  function Head(tokens: seq<Token>): (CodePoint, nat)
    requires Valid(tokens) && tokens != []
  {
    if |tokens| >= 2 && Halves(tokens[0], tokens[1]) then
      (0x1_0000 + (tokens[0].Unit() - 0xD800) * 0x400 + (tokens[1].Unit() - 0xDC00), 2)
    else (tokens[0].Unit(), 1)
  }

  lemma HeadScans(tokens: seq<Token>, rest: Text)
    requires Valid(tokens) && tokens != []
    ensures ScanOne(Closed(tokens, rest)) == One(Head(tokens).0, Closed(tokens[Head(tokens).1..], rest))
  {
    ClosedStep(tokens, rest);
    if !tokens[0].Escaped? {
      ShortReads(tokens[0], Closed(tokens[1..], rest));
    } else if |tokens| == 1 {
      assert Closed(tokens[1..], rest)[0] == 34;
      EscapeAlone(tokens[0], Closed(tokens[1..], rest));
    } else {
      SecondScans(tokens, rest);
    }
  }

  lemma SecondScans(tokens: seq<Token>, rest: Text)
    requires Valid(tokens) && |tokens| >= 2 && tokens[0].Escaped?
    requires Closed(tokens, rest) == tokens[0].Text() + Closed(tokens[1..], rest)
    ensures ScanOne(Closed(tokens, rest)) == One(Head(tokens).0, Closed(tokens[Head(tokens).1..], rest))
  {
    var later := Closed(tokens[1..][1..], rest);
    ClosedStep(tokens[1..], rest);
    NextScans(tokens[0], tokens[1], later);
    assert tokens[1..][1..] == tokens[2..];
  }

  lemma NextScans(t: Token, u: Token, later: Text)
    requires t.Valid() && t.Escaped? && u.Valid()
    ensures ScanOne(t.Text() + (u.Text() + later)) ==
      if Halves(t, u) then One(0x1_0000 + (t.Unit() - 0xD800) * 0x400 + (u.Unit() - 0xDC00), later)
      else One(t.Unit(), u.Text() + later)
  {
    if u.Escaped? {
      EscapePair(t, u, later);
    } else {
      var after := u.Text() + later;
      assert after[0] == u.Text()[0] && (u.Short? ==> after[1] == u.letter as int);
      EscapeAlone(t, after);
    }
  }

  // ---- whole strings -----------------------------------------------------------------

  /** Every string of the grammar is scanned to its end, with its meaning. */
  lemma {:induction false} SpelledScans(tokens: seq<Token>, rest: Text)
    requires Valid(tokens)
    ensures ScanString(Closed(tokens, rest)) == Scanned(Meaning(tokens), rest)
    decreases |tokens|
  {
    if tokens == [] {
      assert Closed(tokens, rest)[0] == 34 && Closed(tokens, rest)[1..] == rest;
    } else {
      HeadScans(tokens, rest);
      SpelledScans(tokens[Head(tokens).1..], rest);
    }
  }

  // ---- and nothing else --------------------------------------------------------------

  function HexOf(c: CodePoint): (h: Hex)
    requires HexDigit(c).Some?
    ensures h.Valid() && h.Char() == c && h.value == HexDigit(c).value
  {
    Hex(HexDigit(c).value, c < 97)
  }

  /** The escape that a text starts with. */
  lemma EscapeOf(t: Text) returns (e: Token)
    requires |t| >= 6 && t[0] == 92 && t[1] == 117 && Hex4(t[2..]).Some?
    ensures e.Escaped? && e.Valid() && t == e.Text() + t[6..]
  {
    var s := t[2..];
    assert s[0] == t[2] && s[1] == t[3] && s[2] == t[4] && s[3] == t[5];
    e := Escaped(HexOf(t[2]), HexOf(t[3]), HexOf(t[4]), HexOf(t[5]));
  }

  lemma ShortOf(c: CodePoint) returns (t: Token)
    requires ShortEscape(c).Some?
    ensures t.Short? && t.Valid() && t.Text() == [92, c] && t.Unit() == ShortEscape(c).value
  {
    var letter := c as char;
    assert SHORT_LETTERS[0] == '"' && SHORT_LETTERS[1] == '\\' && SHORT_LETTERS[2] == '/' && SHORT_LETTERS[3] == 'b';
    assert SHORT_LETTERS[4] == 'f' && SHORT_LETTERS[5] == 'n' && SHORT_LETTERS[6] == 'r' && SHORT_LETTERS[7] == 't';
    t := Short(letter);
  }

  /** The tokens in front of a text, in which one character is found: one, or two escapes. */
  lemma TokensOf(t: Text) returns (first: Token, second: Option<Token>)
    requires ScanOne(t).One?
    ensures first.Valid() && (second.Some? ==> second.value.Valid())
    ensures t == first.Text() + if second.None? then ScanOne(t).rest else second.value.Text() + ScanOne(t).rest
  {
    second := None;
    if t[0] != BACKSLASH {
      first := Raw(t[0]);
      assert t == [t[0]] + t[1..];
    } else if t[1] != 117 {
      first := ShortOf(t[1]);
      assert t == [92, t[1]] + t[2..];
    } else {
      assert t[2..][4..] == t[6..];
      first := EscapeOf(t);
      if ScanOne(t).rest != t[6..] {
        SecondEscape(t);
        var e := EscapeOf(t[6..]);
        second := Some(e);
      }
    }
  }

  lemma SecondEscape(t: Text)
    requires |t| >= 6 && t[0] == 92 && t[1] == 117 && ScanOne(t).One? && ScanOne(t).rest != t[6..]
    ensures |t| >= 12 && t[6] == 92 && t[7] == 117 && Hex4(t[6..][2..]).Some? && ScanOne(t).rest == t[6..][6..]
  {
    var s := t[2..];
    assert s[4..] == t[6..] && s[6..] == t[6..][2..] && s[10..] == t[6..][6..];
    assert ScanOne(t) == ScanUnicode(s);
  }

  lemma ClosedFirst(t: Token, more: seq<Token>, rest: Text)
    requires t.Valid() && Valid(more)
    ensures Valid([t] + more) && Closed([t] + more, rest) == t.Text() + Closed(more, rest)
  {
    assert ([t] + more)[1..] == more;
    ClosedStep([t] + more, rest);
  }

  /** One or two tokens in front of a string of the grammar. */
  lemma Prepended(first: Token, second: Option<Token>, more: seq<Token>, rest: Text) returns (tokens: seq<Token>)
    requires first.Valid() && (second.Some? ==> second.value.Valid()) && Valid(more)
    ensures Valid(tokens)
    ensures Closed(tokens, rest) ==
      first.Text() + if second.None? then Closed(more, rest) else second.value.Text() + Closed(more, rest)
  {
    tokens := more;
    if second.Some? {
      ClosedFirst(second.value, tokens, rest);
      tokens := [second.value] + tokens;
    }
    ClosedFirst(first, tokens, rest);
    tokens := [first] + tokens;
  }

  /** Whatever is scanned is a string of the grammar, with its meaning. */
  lemma {:induction false} ScannedIsSpelled(t: Text) returns (tokens: seq<Token>)
    requires ScanString(t).Scanned?
    ensures Valid(tokens) && t == Closed(tokens, ScanString(t).rest) && ScanString(t).value == Meaning(tokens)
    decreases |t|
  {
    match ScanOne(t)
    case End(rest) =>
      tokens := [];
      assert t == [34] + rest;
    case One(c, rest) =>
      var first, second := TokensOf(t);
      var more := ScannedIsSpelled(rest);
      tokens := Prepended(first, second, more, ScanString(t).rest);
      SpelledScans(tokens, ScanString(t).rest);
  }

  /** The scanner's texts are exactly the closed strings of the grammar. */
  lemma ScansIffSpelled(t: Text, value: Text, rest: Text)
    ensures ScanString(t) == Scanned(value, rest) <==>
      exists tokens :: Valid(tokens) && t == Closed(tokens, rest) && value == Meaning(tokens)
  {
    if ScanString(t) == Scanned(value, rest) {
      var tokens := ScannedIsSpelled(t);
    }
    forall tokens | Valid(tokens) && t == Closed(tokens, rest) && value == Meaning(tokens)
      ensures ScanString(t) == Scanned(value, rest)
    {
      SpelledScans(tokens, rest);
    }
  }

  // ---- the written spelling ----------------------------------------------------------

  lemma TokenIsLonger(t: Token)
    requires t.Valid() && Plain(t.Text())
    ensures |EscapeOne(t.Unit())| <= |t.Text()|
  {
    if t.Raw? {
      assert t.Text()[0] == t.c;
    }
  }

  lemma PlainParts(a: Text, b: Text)
    requires Plain(a + b)
    ensures Plain(a) && Plain(b)
  {
    assert forall k :: 0 <= k < |a| ==> a[k] == (a + b)[k];
    assert forall k :: 0 <= k < |b| ==> b[k] == (a + b)[|a| + k];
  }

  /** Of all spellings of a string in printable ASCII, none is shorter than the one written. */
  lemma {:induction false} WrittenIsShortest(tokens: seq<Token>)
    requires Valid(tokens) && Plain(Spelled(tokens))
    ensures |EscapeText(Meaning(tokens))| <= |Spelled(tokens)|
    decreases |tokens|
  {
    if tokens != [] {
      var next := tokens[1..];
      PlainParts(tokens[0].Text(), Spelled(next));
      if |tokens| >= 2 && Halves(tokens[0], tokens[1]) {
        PlainParts(next[0].Text(), Spelled(next[1..]));
        assert next[1..] == tokens[2..];
        WrittenIsShortest(tokens[2..]);
      } else {
        TokenIsLonger(tokens[0]);
        WrittenIsShortest(next);
      }
    }
  }

  // ---- values ------------------------------------------------------------------------

  /** A canonical integer is the decimal of its value. */
  lemma {:induction false} IntegerIsDecimal(t: Text)
    requires Integer(t)
    ensures t == Decimal(Number(t))
    decreases |t|
  {
    if |t| > 1 {
      var u, n := t[..|t| - 1], Number(t[..|t| - 1]);
      IntegerIsDecimal(u);
      assert u[0] == t[0] != 48;
      assert Decimal(0) == [48];
      assert Number(t) / 10 == n && t == u + [t[|t| - 1]];
    } else {
      assert t[..0] == [];
    }
  }

  /** A word, a number of at most ten digits, or a closed string without NUL before white space. */
  ghost predicate Denotes(t: Text, v: Value<Text>) {
    match v
    case Unset => t == Chars("unset")
    case Bool(b) => t == Chars(if b then "true" else "false")
    case Int(n) => n < 100_0000_0000 && t == Decimal(n)
    case Str(s) => 0 !in s && exists tokens, spaces :: String(t, tokens, s, spaces)
  }

  ghost predicate String(t: Text, tokens: seq<Token>, s: Text, spaces: Text) {
    && Valid(tokens) && t == [34] + Closed(tokens, spaces) && s == Meaning(tokens)
    && forall k :: 0 <= k < |spaces| ==> spaces[k] in {0x09, 0x0A, 0x0D, 0x20}
  }

  lemma Words()
    ensures UNSET == Chars("unset") && TRUE == Chars("true") && FALSE == Chars("false")
  {
  }

  lemma TenDigits()
    ensures PowerOfTen(10) == 100_0000_0000
  {
    assert PowerOfTen(5) == 100000;
  }

  lemma NumberDenotes(t: Text, n: nat)
    ensures ParseValue(t) == Some(Int(n)) <==> Denotes(t, Int(n))
  {
    DecimalIsInteger(n);
    DecimalLength(n, 10);
    TenDigits();
    if Integer(t) {
      IntegerIsDecimal(t);
    }
    assert Decimal(n) != TRUE && Decimal(n) != FALSE && Decimal(n) != UNSET by {
      assert Digit(Decimal(n)[0]);
    }
  }

  lemma ParsedString(t: Text, s: Text)
    requires ParseValue(t) == Some(Str(s))
    ensures Denotes(t, Str(s))
  {
    var r := ScanString(t[1..]);
    var tokens := ScannedIsSpelled(t[1..]);
    assert t == [34] + t[1..];
    assert String(t, tokens, s, r.rest);
  }

  lemma StringParses(t: Text, tokens: seq<Token>, s: Text, spaces: Text)
    requires String(t, tokens, s, spaces) && 0 !in s
    ensures ParseValue(t) == Some(Str(s))
  {
    assert t[1..] == Closed(tokens, spaces) && t[0] == 34;
    SpelledScans(tokens, spaces);
    assert !Digit(t[0]) && TRUE[0] != 34 && FALSE[0] != 34 && UNSET[0] != 34;
  }

  lemma StringDenotes(t: Text, s: Text)
    ensures ParseValue(t) == Some(Str(s)) <==> Denotes(t, Str(s))
  {
    if ParseValue(t) == Some(Str(s)) {
      ParsedString(t, s);
    }
    if Denotes(t, Str(s)) {
      var tokens, spaces :| String(t, tokens, s, spaces);
      StringParses(t, tokens, s, spaces);
    }
  }

  /** Every text has exactly the value the language gives it, or none. */
  lemma ParsesIff(t: Text, v: Value<Text>)
    ensures ParseValue(t) == Some(v) <==> Denotes(t, v)
  {
    Words();
    match v
    case Int(n) => NumberDenotes(t, n);
    case Str(s) => StringDenotes(t, s);
    case _ => assert !Integer(TRUE) && !Integer(FALSE) && !Integer(UNSET) by {
      assert !Digit(TRUE[0]) && !Digit(FALSE[0]) && !Digit(UNSET[0]);
    }
  }
}
