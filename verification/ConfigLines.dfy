/**
 * Configuration documents line by line: which characters end and pad lines, what each kind
 * of line does, and what names and sizes look like.
 */
module ConfigLines {
  import opened Basics
  import opened ConfigUtf8
  import opened ConfigText
  import opened ConfigJson
  import opened ConfigJsonWriter
  import opened ConfigJsonGrammar
  import opened ConfigDocument
  import ConfigReader

  // ---- characters --------------------------------------------------------------------

  /** The line boundaries of str.splitlines. */
  const LINE_BREAKS: set<int> := {0x0A, 0x0B, 0x0C, 0x0D, 0x1C, 0x1D, 0x1E, 0x85, 0x2028, 0x2029}

  /** The white space of str.strip. */
  const WHITE_SPACE: set<int> := {
    0x09, 0x0A, 0x0B, 0x0C, 0x0D, 0x1C, 0x1D, 0x1E, 0x1F, 0x20, 0x85, 0xA0, 0x1680, 0x2000, 0x2001, 0x2002,
    0x2003, 0x2004, 0x2005, 0x2006, 0x2007, 0x2008, 0x2009, 0x200A, 0x2028, 0x2029, 0x202F, 0x205F, 0x3000}

  lemma CharactersListed(c: CodePoint)
    ensures LineBreak(c) <==> c in LINE_BREAKS
    ensures Space(c) <==> c in WHITE_SPACE
  {
  }

  const LETTERS := "abcdefghijklmnopqrstuvwxyz"
  const CAPITALS := "ABCDEFGHIJKLMNOPQRSTUVWXYZ"
  const DIGITS := "0123456789"

  ghost predicate Among(c: CodePoint, s: string) { exists i :: 0 <= i < |s| && s[i] as int == c }

  lemma InOrder(c: CodePoint, s: string, first: int)
    requires forall i :: 0 <= i < |s| ==> s[i] as int == first + i
    ensures Among(c, s) <==> first <= c < first + |s|
  {
    if first <= c < first + |s| {
      assert s[c - first] as int == c;
    }
  }

  lemma LettersListed(c: CodePoint)
    ensures Lower(c) <==> Among(c, LETTERS)
    ensures Letter(c) <==> Among(c, LETTERS) || Among(c, CAPITALS)
    ensures Digit(c) <==> Among(c, DIGITS)
  {
    InOrder(c, LETTERS, 97);
    InOrder(c, CAPITALS, 65);
    InOrder(c, DIGITS, 48);
  }

  /** A key: a small letter, then small letters, digits, dots and underscores. */
  ghost predicate KeyShape(t: Text) {
    && t != [] && Among(t[0], LETTERS)
    && forall k :: 0 <= k < |t| ==> Among(t[k], LETTERS) || Among(t[k], DIGITS) || Among(t[k], "_.") || k == 0
  }

  lemma KeysAreShaped(t: Text)
    ensures KeyName(t) <==> KeyShape(t)
  {
    forall k | 0 <= k < |t|
      ensures Lower(t[k]) <==> Among(t[k], LETTERS)
      ensures Digit(t[k]) <==> Among(t[k], DIGITS)
      ensures t[k] in {46, 95} <==> Among(t[k], "_.")
    {
      LettersListed(t[k]);
      assert "_."[0] == '_' && "_."[1] == '.';
    }
  }

  /** A profile or preset name: a letter or digit, then up to 63 of these and of . _ - */
  ghost predicate NameShape(t: Text) {
    && 0 < |t| <= 64
    && (forall k :: 0 <= k < |t| ==>
          Among(t[k], LETTERS) || Among(t[k], CAPITALS) || Among(t[k], DIGITS) || (k > 0 && Among(t[k], "._-")))
  }

  lemma NamesAreShaped(t: Text)
    ensures ProfileName(t) <==> NameShape(t)
  {
    forall k | 0 <= k < |t|
      ensures Letter(t[k]) || Digit(t[k]) <==> Among(t[k], LETTERS) || Among(t[k], CAPITALS) || Among(t[k], DIGITS)
      ensures t[k] in {45, 46, 95} <==> Among(t[k], "._-")
    {
      LettersListed(t[k]);
      assert "._-"[0] == '.' && "._-"[1] == '_' && "._-"[2] == '-';
    }
  }

  // ---- sizes -------------------------------------------------------------------------

  ghost predicate Side(n: nat) { 0 < n <= 4096 && n % 2 == 0 }

  lemma DimensionIff(t: Text)
    ensures Dimension(t) <==> Digits(t) && Side(Number(t)) && t == Decimal(Number(t))
  {
    assert PowerOfTen(4) == 10000;
    if Digits(t) {
      DecimalLength(Number(t), 4);
      DecimalIsInteger(Number(t));
      if Integer(t) {
        IntegerIsDecimal(t);
      }
      if Dimension(t) {
        assert Integer(t);
        assert Number(t) > 0 by { assert Decimal(0) == [48]; }
      }
    }
  }

  ghost predicate SizeText(t: Text, width: nat, height: nat) {
    Side(width) && Side(height) && width * height <= 8847360 && t == Decimal(width) + ['x' as int] + Decimal(height)
  }

  /** An output size is two even sides of at most 4096 in decimal, with at most 4096x2160 pixels. */
  lemma OutputSizeIff(t: Text)
    ensures OutputSize(t) <==> exists width, height :: SizeText(t, width, height)
  {
    if OutputSize(t) {
      var x := Find(t, 120);
      DimensionIff(t[..x]);
      DimensionIff(t[x + 1..]);
      assert t == t[..x] + [120] + t[x + 1..];
      assert SizeText(t, Number(t[..x]), Number(t[x + 1..]));
    }
    forall width: nat, height: nat | SizeText(t, width, height) ensures OutputSize(t) {
      SizeIsRead(t, width, height);
    }
  }

  lemma SizeIsRead(t: Text, width: nat, height: nat)
    requires SizeText(t, width, height)
    ensures OutputSize(t)
  {
    var w := Decimal(width);
    DecimalIsInteger(width);
    DecimalIsInteger(height);
    assert t[..|w|] == w && t[|w|] == 120 && t[|w| + 1..] == Decimal(height);
    assert Find(t, 120) == |w| by {
      assert forall k :: 0 <= k < |w| ==> t[k] == w[k] && Digit(w[k]);
    }
    DimensionIff(w);
    DimensionIff(Decimal(height));
  }

  // ---- lines -------------------------------------------------------------------------

  /** A line ends at any boundary; CR LF is one. */
  lemma LineIsCut(line: Text, end: Text, rest: Text)
    requires forall k :: 0 <= k < |line| ==> line[k] !in LINE_BREAKS
    requires end == [13, 10] || (|end| == 1 && end[0] in LINE_BREAKS && (end == [13] ==> rest == [] || rest[0] != 10))
    ensures var t := line + end + rest; t[..LineLength(t)] == line && AfterLine(t) == rest
  {
    var t := line + end + rest;
    forall k | 0 <= k < |line| ensures !LineBreak(t[k]) && t[k] == line[k] {
      CharactersListed(line[k]);
    }
    CharactersListed(end[0]);
    assert t[..|line|] == line && t[|line|] == end[0];
    LineLengthIs(t, |line|);
    assert t[|line| + |end|..] == rest;
    if end == [13] && rest != [] {
      assert t[|line| + 1] == rest[0];
    }
  }

  /** The last line needs no end. */
  lemma LastLineIsCut(line: Text)
    requires line != [] && forall k :: 0 <= k < |line| ==> line[k] !in LINE_BREAKS
    ensures line[..LineLength(line)] == line && AfterLine(line) == []
  {
    forall k | 0 <= k < |line| ensures !LineBreak(line[k]) {
      CharactersListed(line[k]);
    }
    assert line[..|line|] == line;
    LineLengthIs(line, |line|);
  }

  ghost predicate Padding(t: Text) { forall k :: 0 <= k < |t| ==> t[k] in WHITE_SPACE }

  lemma PaddingIsSpace(t: Text)
    ensures Padding(t) <==> Spaces(t)
  {
    forall k | 0 <= k < |t| ensures t[k] in WHITE_SPACE <==> Space(t[k]) {
      CharactersListed(t[k]);
    }
  }

  ghost predicate Solid(t: Text) { t != [] && t[0] !in WHITE_SPACE && t[|t| - 1] !in WHITE_SPACE }

  lemma SolidIsStripped(before: Text, t: Text, after: Text)
    requires Padding(before) && Padding(after) && (t == [] || Solid(t))
    ensures Strip(before + t + after) == t
  {
    PaddingIsSpace(before);
    PaddingIsSpace(after);
    if t != [] {
      CharactersListed(t[0]);
      CharactersListed(t[|t| - 1]);
    }
    StripPadded(before, t, after);
  }

  /** White space alone says nothing. */
  lemma BlankLine(p: Progress<Text>, line: Text, rules: Rules)
    requires Padding(line)
    ensures StepLine(p, line, rules) == Some(p)
  {
    SolidIsStripped(line, [], []);
    assert line + [] + [] == line;
  }

  /** Nor does a line whose first visible character is a number sign. */
  lemma CommentLine(p: Progress<Text>, before: Text, comment: Text, after: Text, rules: Rules)
    requires Padding(before) && Padding(after) && Solid(comment) && comment[0] == '#' as int
    ensures StepLine(p, before + comment + after, rules) == Some(p)
  {
    SolidIsStripped(before, comment, after);
  }

  /** A section opens once, under one of its three kinds of name, spelled exactly. */
  lemma HeaderLine(p: Progress<Text>, before: Text, name: Text, after: Text, rules: Rules)
    requires Padding(before) && Padding(after)
    ensures var r := StepLine(p, before + (['[' as int] + name + [']' as int]) + after, rules);
      if name in p.seen then r == None
      else if name == Chars("crystalhd") then r == Some(p.(section := Some(Meta), seen := p.seen + {name}))
      else if name == Chars("settings") then r == Some(p.(section := Some(Settings), seen := p.seen + {name}))
      else if exists profile :: name == Chars("profile.") + profile && NameShape(profile) then
        && r.Some? && r.value.seen == p.seen + {name} && r.value.section == Some(Profile(name[8..]))
        && r.value.doc == p.doc.(profiles := p.doc.profiles[name[8..] := map[]])
      else r == None
  {
    var line := ['[' as int] + name + [']' as int];
    SolidIsStripped(before, line, after);
    assert line[1..|line| - 1] == name;
    SectionNames(name);
  }

  lemma SectionNames(name: Text)
    ensures SectionNamed(name) ==
      if name == Chars("crystalhd") then Some(Meta)
      else if name == Chars("settings") then Some(Settings)
      else if exists profile :: name == Chars("profile.") + profile && NameShape(profile) then Some(Profile(name[8..]))
      else None
  {
    var prefix := Chars("profile.");
    assert |prefix| == 8 && prefix == PROFILE_PREFIX;
    if prefix <= name {
      assert name == prefix + name[8..];
      NamesAreShaped(name[8..]);
    }
    forall profile: Text | name == prefix + profile && NameShape(profile)
      ensures prefix <= name && name[8..] == profile && ProfileName(profile)
    {
      NamesAreShaped(profile);
    }
  }

  /** What may stand under a key of the open section. */
  ghost predicate Takes(s: Section, key: Text, v: Value<Text>, rules: Rules) {
    if s.Meta? then
      (key == Chars("schema") && v == Int(1)) ||
      (key in {Chars("preset"), Chars("profile")} && v.Str? && NameShape(v.s))
    else key in rules && (v == Unset || Accepts(rules[key], v))
  }

  lemma AdmitsIff(s: Section, key: Text, v: Value<Text>, rules: Rules)
    ensures Admits(s, key, v, rules) <==> Takes(s, key, v, rules)
  {
    if v.Str? {
      NamesAreShaped(v.s);
    }
    assert |Chars("schema")| == 6 && |Chars("preset")| == 6 && |Chars("profile")| == 7;
    assert Chars("schema")[0] == 115 && Chars("preset")[0] == 112;
  }

  /** The open section has no such key yet, and takes the value that the text denotes. */
  ghost predicate Enters(p: Progress<Text>, key: Text, text: Text, v: Value<Text>, rules: Rules) {
    && p.section.Some? && key !in LayerOf(p.doc, p.section.value)
    && Denotes(text, v) && Takes(p.section.value, key, v, rules)
  }

  /**
   * A key, an equals sign and a value add an entry if the section is open and has no such
   * key yet, the text denotes a value, and the section takes it; otherwise they refuse.
   */
  lemma EntryLine(p: Progress<Text>, before: Text, key: Text, m: Text, n: Text, text: Text, after: Text, rules: Rules)
    requires Padding(before) && Padding(m) && Padding(n) && Padding(after)
    requires KeyShape(key) && (text == [] || Solid(text))
    ensures var r := StepLine(p, (before + key + m) + ['=' as int] + (n + text + after), rules);
      && (forall v :: Enters(p, key, text, v, rules) ==> r == Some(AddEntry(p, p.section.value, key, v)))
      && (r.Some? ==> exists v :: Enters(p, key, text, v, rules))
  {
    KeysAreShaped(key);
    EntryIsCut(p, before, key, m, n, text, after, rules);
    CutEnters(p, key, text, rules);
  }

  lemma EntryIsCut(p: Progress<Text>, before: Text, key: Text, m: Text, n: Text, text: Text, after: Text, rules: Rules)
    requires Padding(before) && Padding(m) && Padding(n) && Padding(after)
    requires KeyName(key) && (text == [] || Solid(text))
    ensures StepLine(p, (before + key + m) + [61] + (n + text + after), rules) ==
      ConfigReader.StepCut(p, Some((key, text)), rules)
  {
    var left, right := before + key + m, n + text + after;
    var raw := left + [61] + right;
    EntryShape(before, key, m, right);
    KeyIsSolid(key);
    SolidIsStripped(before, key, m);
    SolidIsStripped(n, text, after);
    assert raw[..|left|] == left && raw[|left| + 1..] == right;
    ConfigReader.CutDecides(p, raw, rules);
  }

  /** What a key and a text do in the open section. */
  lemma CutEnters(p: Progress<Text>, key: Text, text: Text, rules: Rules)
    ensures var r := ConfigReader.StepCut(p, Some((key, text)), rules);
      && (forall v :: KeyName(key) && Enters(p, key, text, v, rules) ==> r == Some(AddEntry(p, p.section.value, key, v)))
      && (r.Some? ==> KeyName(key) && exists v :: Enters(p, key, text, v, rules))
  {
    forall v | Denotes(text, v) ensures ParseValue(text) == Some(v) {
      ParsesIff(text, v);
    }
    if p.section.Some? && ParseValue(text).Some? {
      var v := ParseValue(text).value;
      ParsesIff(text, v);
      AdmitsIff(p.section.value, key, v, rules);
      assert Enters(p, key, text, v, rules) <==> key !in LayerOf(p.doc, p.section.value) && Admits(p.section.value, key, v, rules);
    }
  }

  lemma KeyIsSolid(key: Text)
    requires KeyName(key)
    ensures Solid(key) && forall k :: 0 <= k < |key| ==> key[k] != 61 && key[k] != 35 && key[k] != 91
  {
  }

  /** The line is no comment and no header, and its first equals sign comes after the key. */
  lemma EntryShape(before: Text, key: Text, m: Text, right: Text)
    requires Padding(before) && Padding(m) && KeyName(key)
    ensures var raw := (before + key + m) + [61] + right;
      Find(raw, 61) == |before + key + m| && Strip(raw) != [] && Strip(raw)[0] == key[0]
  {
    var left := before + key + m;
    var raw := left + [61] + right;
    KeyIsSolid(key);
    forall k | 0 <= k < |left| ensures raw[k] != 61 {
      LeftHasNoEquals(before, key, m, k);
      assert raw[k] == left[k];
    }
    assert raw[|left|] == 61;
    FirstVisible(raw, before, key);
  }

  lemma LeftHasNoEquals(before: Text, key: Text, m: Text, k: nat)
    requires Padding(before) && Padding(m) && KeyName(key) && k < |before + key + m|
    ensures (before + key + m)[k] != 61
  {
    var left := before + key + m;
    if k < |before| {
      assert left[k] == before[k];
    } else if k < |before| + |key| {
      assert left[k] == key[k - |before|];
    } else {
      assert left[k] == m[k - |before| - |key|];
    }
  }

  lemma {:induction false} FirstVisible(raw: Text, before: Text, key: Text)
    requires Padding(before) && Solid(key) && before + key <= raw
    ensures Strip(raw) != [] && Strip(raw)[0] == key[0]
    decreases |raw|
  {
    if before != [] {
      assert raw[0] == (before + key)[0] == before[0];
      CharactersListed(raw[0]);
      assert before[1..] + key == (before + key)[1..] <= raw[1..];
      FirstVisible(raw[1..], before[1..], key);
    } else {
      assert raw[0] == (before + key)[0] == key[0];
      CharactersListed(raw[0]);
      KeepsFirst(raw);
    }
  }

  lemma {:induction false} KeepsFirst(raw: Text)
    requires raw != [] && !Space(raw[0])
    ensures Strip(raw) != [] && Strip(raw)[0] == raw[0]
    decreases |raw|
  {
    if Space(raw[|raw| - 1]) {
      KeepsFirst(raw[..|raw| - 1]);
    }
  }

  /** Every other line that is accepted is such an entry. */
  lemma OtherLinesAreEntries(p: Progress<Text>, raw: Text, rules: Rules)
    returns (before: Text, key: Text, m: Text, n: Text, text: Text, after: Text)
    requires StepLine(p, raw, rules).Some? && Strip(raw) != [] && Strip(raw)[0] != '#' as int
    requires !(Strip(raw)[0] == '[' as int && Strip(raw)[|Strip(raw)| - 1] == ']' as int)
    ensures raw == (before + key + m) + ['=' as int] + (n + text + after)
    ensures Padding(before) && Padding(m) && Padding(n) && Padding(after)
    ensures KeyShape(key) && (text == [] || Solid(text)) && exists v :: Enters(p, key, text, v, rules)
  {
    OtherLineIsCut(p, raw, rules);
    var equals := Find(raw, 61);
    key, text := Strip(raw[..equals]), Strip(raw[equals + 1..]);
    CutEnters(p, key, text, rules);
    KeysAreShaped(key);
    before, m := SplitSolid(raw[..equals]);
    n, after := SplitSolid(raw[equals + 1..]);
    Reassembled(raw, equals);
  }

  lemma Reassembled(raw: Text, k: nat)
    requires k < |raw| && raw[k] == 61
    ensures raw == raw[..k] + [61] + raw[k + 1..]
  {
  }

  lemma OtherLineIsCut(p: Progress<Text>, raw: Text, rules: Rules)
    requires StepLine(p, raw, rules).Some? && Strip(raw) != [] && Strip(raw)[0] != '#' as int
    requires !(Strip(raw)[0] == '[' as int && Strip(raw)[|Strip(raw)| - 1] == ']' as int)
    ensures var equals := Find(raw, 61);
      && equals < |raw|
      && ConfigReader.StepCut(p, Some((Strip(raw[..equals]), Strip(raw[equals + 1..]))), rules).Some?
  {
    ConfigReader.CutDecides(p, raw, rules);
  }

  lemma SplitSolid(t: Text) returns (before: Text, after: Text)
    ensures t == before + Strip(t) + after && Padding(before) && Padding(after)
    ensures Strip(t) == [] || Solid(Strip(t))
  {
    before, after := ConfigReader.StripSplits(t);
    PaddingIsSpace(before);
    PaddingIsSpace(after);
    StripIsStripped(t);
    if Strip(t) != [] {
      CharactersListed(Strip(t)[0]);
      CharactersListed(Strip(t)[|Strip(t)| - 1]);
    }
  }

  // ---- the file ----------------------------------------------------------------------

  /** A file is read as a text exactly if it is that text in UTF-8, without a byte-order mark. */
  lemma ReadsIff(b: Bytes, t: Text)
    ensures ReadText(b) == Some(t) <==> Scalars(t) && b == Encode(t) && (t == [] || t[0] != 0xFEFF)
  {
    DecodeIffEncoded(b, t);
    if Scalars(t) && b == Encode(t) && t != [] {
      assert Encode(t) == EncodeOne(t[0]) + Encode(t[1..]);
      MarkIff(t[0], Encode(t[1..]));
    }
  }

  /** A document is its lines, one after the other, up to 64 KiB; the last may lack its end. */
  lemma LinesAreRead(p: Progress<Text>, line: Text, end: Text, rest: Text, rules: Rules)
    requires forall k :: 0 <= k < |line| ==> line[k] !in LINE_BREAKS
    requires end == [13, 10] || (|end| == 1 && end[0] in LINE_BREAKS && (end == [13] ==> rest == [] || rest[0] != 10))
    ensures ParseLines(p, line + end + rest, rules) ==
      match StepLine(p, line, rules) case None => None case Some(next) => ParseLines(next, rest, rules)
    ensures ParseLines(p, line, rules) == StepLine(p, line, rules)
  {
    LineIsCut(line, end, rest);
    if line == [] {
      BlankLine(p, line, rules);
    } else {
      LastLineIsCut(line);
    }
  }

  /** It is parsed when its lines are, and the first section with its schema is there. */
  lemma DocumentIff(b: Bytes, rules: Rules, d: Document<Text>)
    ensures ParseDocument(b, rules) == Some(d) <==>
      && |b| <= 64 * 1024 && ReadText(b).Some?
      && var p := ParseLines(Start(), ReadText(b).value, rules);
         && p.Some? && p.value.doc == d && Chars("crystalhd") in p.value.seen
         && Chars("schema") in d.metadata && d.metadata[Chars("schema")] == Int(1)
  {
  }

  lemma MarkIff(c: CodePoint, rest: Bytes)
    ensures [0xEF, 0xBB, 0xBF] <= EncodeOne(c) + rest <==> c == 0xFEFF
  {
    var b := EncodeOne(c) + rest;
    assert |EncodeOne(c)| >= 3 ==> b[0] == EncodeOne(c)[0] && b[1] == EncodeOne(c)[1] && b[2] == EncodeOne(c)[2];
    assert b[0] == EncodeOne(c)[0];
  }
}
