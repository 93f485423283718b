/**
 * The native document reader (include/crystalhd-config.h): index loops over bytes and
 * code points that accept exactly what the Python parser accepts, and build the same
 * document with its strings in UTF-8.
 */
module ConfigReader {
  import opened Basics
  import opened ConfigUtf8
  import opened ConfigText
  import opened ConfigJson
  import opened ConfigJsonReader
  import opened ConfigDocument

  // ---- the native reader's documents -------------------------------------------------

  function EncodeLayer(l: Layer<Text>): Layer<Bytes> {
    map key | key in l :: EncodeValue(l[key])
  }

  function EncodeDocument(d: Document<Text>): Document<Bytes> {
    Document(EncodeLayer(d.metadata), EncodeLayer(d.settings), map name | name in d.profiles :: EncodeLayer(d.profiles[name]))
  }

  function EncodeProgress(p: Progress<Text>): Progress<Bytes> {
    Progress(EncodeDocument(p.doc), p.section, p.seen)
  }

  /** Section names are kept as bytes too; those that pass are ASCII. */
  ghost predicate Tracks(n: Progress<Bytes>, p: Progress<Text>) {
    n == EncodeProgress(p) && forall name :: name in p.seen ==> Ascii(name)
  }

  ghost predicate TracksOption(n: Option<Progress<Bytes>>, p: Option<Progress<Text>>) {
    if n.None? then p.None? else p.Some? && Tracks(n.value, p.value)
  }

  // ---- names -------------------------------------------------------------------------

  lemma NamesAreAscii(t: Text)
    requires ProfileName(t) || KeyName(t)
    ensures Ascii(t)
  {
  }

  /** Checking the bytes of a name is checking its characters. */
  lemma NamesEncoded(t: Text)
    ensures ProfileName(Encode(t)) <==> ProfileName(t)
    ensures KeyName(Encode(t)) <==> KeyName(t)
    ensures ProfileName(t) || KeyName(t) ==> Encode(t) == t
  {
    var e: Text := Encode(t);
    if ProfileName(t) || KeyName(t) {
      NamesAreAscii(t);
      EncodeAscii(t);
    } else if ProfileName(e) || KeyName(e) {
      NamesAreAscii(e);
      OnlyAsciiEncodesToAscii(t);
      EncodeAscii(t);
    }
  }

  method Name(s: Bytes, key: bool) returns (ok: bool)
    ensures ok == if key then KeyName(s) else ProfileName(s)
  {
    if s == [] || (!key && |s| > 64) {
      return false;
    }
    var i := 0;
    while i < |s|
      invariant 0 <= i <= |s|
      invariant i > 0 ==> Lower(s[0]) || (!key && (Letter(s[0]) || Digit(s[0])))
      invariant forall k :: 1 <= k < i ==>
        Lower(s[k]) || Digit(s[k]) || s[k] in {46, 95} || (!key && (Letter(s[k]) || s[k] == 45))
    {
      var c := s[i];
      var letter := 97 <= c <= 122;
      if !key {
        letter := letter || 65 <= c <= 90;
      }
      var digit := 48 <= c <= 57;
      if i == 0 {
        if !(letter || (!key && digit)) {
          return false;
        }
      } else if !(letter || digit || c == 95 || c == 46 || (!key && c == 45)) {
        return false;
      }
      i := i + 1;
    }
    ok := true;
  }

  // ---- settings ----------------------------------------------------------------------

  lemma OutputSizeIsAscii(t: Text)
    requires OutputSize(t)
    ensures Ascii(t)
  {
    var x := Find(t, 120);
    assert forall k :: 0 <= k < x ==> t[k] == t[..x][k];
    assert forall k :: x < k < |t| ==> t[k] == t[x + 1..][k - x - 1];
  }

  lemma OutputSizeEncoded(t: Text)
    ensures OutputSize(Encode(t)) <==> OutputSize(t)
  {
    var e: Text := Encode(t);
    if OutputSize(t) {
      OutputSizeIsAscii(t);
      EncodeAscii(t);
    } else if OutputSize(e) {
      OutputSizeIsAscii(e);
      OnlyAsciiEncodesToAscii(t);
      EncodeAscii(t);
    }
  }

  /** One dimension of an output size, between two indices. */
  method ReadDimension(s: Bytes, begin: nat, end: nat) returns (value: Option<nat>)
    requires begin < end <= |s| && end - begin <= 4
    ensures value == if Dimension(s[begin..end]) then Some(Number(s[begin..end])) else None
  {
    ghost var t: Text := s[begin..end];
    if s[begin] == 48 {
      return None;
    }
    var number: nat := 0;
    var i := begin;
    while i < end
      invariant begin <= i <= end
      invariant Digits(t[..i - begin]) && number == Number(t[..i - begin])
    {
      assert t[..i + 1 - begin][..i - begin] == t[..i - begin] && t[i - begin] == s[i];
      if s[i] < 48 || s[i] > 57 {
        return None;
      }
      assert Digits(t[..i + 1 - begin]);
      number := number * 10 + (s[i] - 48);
      i := i + 1;
    }
    assert t[..i - begin] == t;
    if number > 4096 || number % 2 != 0 {
      return None;
    }
    value := Some(number);
  }

  method FindByte(s: Text, c: CodePoint) returns (x: nat)
    ensures x == Find(s, c)
  {
    x := 0;
    while x < |s| && s[x] != c
      invariant 0 <= x <= |s|
      invariant Find(s, c) == x + Find(s[x..], c)
    {
      assert s[x..][1..] == s[x + 1..];
      x := x + 1;
    }
  }

  method ReadOutputSize(s: Bytes) returns (ok: bool)
    ensures ok == OutputSize(s)
  {
    var x := FindByte(s, 120);
    if x == |s| || x == 0 || x > 4 || |s| - x - 1 == 0 || |s| - x - 1 > 4 {
      return false;
    }
    var width := ReadDimension(s, 0, x);
    var height := ReadDimension(s, x + 1, |s|);
    assert s[0..x] == s[..x] && s[x + 1..|s|] == s[x + 1..];
    if width.None? || height.None? {
      return false;
    }
    ok := Fits(width.value, height.value);
  }

  /** Some choice equals the value; the table's choices are ASCII. */
  method IsChoice(words: seq<Text>, s: Bytes, ghost t: Text) returns (ok: bool)
    requires s == Encode(t) && forall k :: 0 <= k < |words| ==> Ascii(words[k])
    ensures ok == (t in words)
  {
    var k := 0;
    while k < |words|
      invariant 0 <= k <= |words|
      invariant t !in words[..k]
    {
      EncodeAscii(words[k]);
      if s == words[k] {
        EncodeInjective(t, words[k]);
        return true;
      }
      assert words[..k + 1] == words[..k] + [words[k]];
      k := k + 1;
    }
    assert words[..k] == words;
    ok := false;
  }

  method IsNumberChoice(numbers: seq<nat>, n: nat) returns (ok: bool)
    ensures ok == (n in numbers)
  {
    var k := 0;
    while k < |numbers|
      invariant 0 <= k <= |numbers| && n !in numbers[..k]
    {
      if n == numbers[k] {
        return true;
      }
      assert numbers[..k + 1] == numbers[..k] + [numbers[k]];
      k := k + 1;
    }
    assert numbers[..k] == numbers;
    ok := false;
  }

  method Valid(r: Rule, v: Value<Bytes>, ghost w: Value<Text>) returns (ok: bool)
    requires v == EncodeValue(w) && (w.Str? ==> NoNul(w.s))
    requires r.StringEnum? ==> forall k :: 0 <= k < |r.words| ==> Ascii(r.words[k])
    ensures ok == (w.Unset? || Accepts(r, w))
  {
    if v.Unset? {
      return true;
    }
    match r
    case BooleanRule => ok := v.Bool?;
    case IntegerEnum(numbers) =>
      ok := false;
      if v.Int? {
        ok := IsNumberChoice(numbers, v.n);
      }
    case StringEnum(words) =>
      ok := false;
      if v.Str? {
        ok := IsChoice(words, v.s, w.s);
      }
    case AnyString => ok := v.Str?;
    case NonemptyString =>
      ok := v.Str? && v.s != [];
      assert w.Str? ==> (w.s == [] <==> Encode(w.s) == []);
    case ScaleWidth => ok := v.Int? && (v.n == 0 || (v.n >= 128 && v.n <= 1918 && v.n % 2 == 0));
    case OutputSizeRule =>
      ok := false;
      if v.Str? {
        ok := ReadOutputSize(v.s);
        OutputSizeEncoded(w.s);
      }
  }

  // ---- section headers ---------------------------------------------------------------

  lemma SectionsAreAscii(name: Text)
    requires SectionNamed(name).Some?
    ensures Ascii(name)
  {
    if PROFILE_PREFIX <= name && ProfileName(name[8..]) {
      NamesAreAscii(name[8..]);
      assert forall k :: 0 <= k < 8 ==> name[k] == PROFILE_PREFIX[k];
      assert forall k :: 8 <= k < |name| ==> name[k] == name[8..][k - 8];
    }
  }

  /** Comparing a section's bytes is comparing its characters. */
  lemma SectionsEncoded(name: Text)
    ensures SectionNamed(Encode(name)) == SectionNamed(name)
    ensures SectionNamed(name).Some? ==> Encode(name) == name
  {
    var e: Text := Encode(name);
    if SectionNamed(name).Some? {
      SectionsAreAscii(name);
      EncodeAscii(name);
    } else if SectionNamed(e).Some? {
      SectionsAreAscii(e);
      OnlyAsciiEncodesToAscii(name);
      EncodeAscii(name);
    }
  }

  lemma SeenEncoded(seen: set<Text>, name: Text)
    requires forall s :: s in seen ==> Ascii(s)
    ensures Encode(name) in seen <==> name in seen
  {
    var e: Text := Encode(name);
    if e in seen {
      OnlyAsciiEncodesToAscii(name);
      EncodeAscii(name);
    } else if name in seen {
      EncodeAscii(name);
    }
  }

  method HeaderLine(n: Progress<Bytes>, line: Text, ghost p: Progress<Text>) returns (r: Option<Progress<Bytes>>)
    requires Tracks(n, p) && |line| >= 2
    ensures TracksOption(r, StepSection(p, line[1..|line| - 1]))
  {
    ghost var text := line[1..|line| - 1];
    var name := EncodeText(line[1..|line| - 1]);
    SeenEncoded(p.seen, text);
    SectionsEncoded(text);
    if name in n.seen {
      return None;
    }
    var section: Section;
    if name == CRYSTALHD {
      section := Meta;
    } else if name == SETTINGS {
      section := Settings;
    } else {
      if !(PROFILE_PREFIX <= name) {
        return None;
      }
      var ok := Name(name[8..], false);
      if !ok {
        return None;
      }
      section := Profile(name[8..]);
    }
    SectionsAreAscii(text);
    OpenEncoded(p, section, text);
    r := Some(OpenSection(n, section, name));
  }

  lemma OpenEncoded(p: Progress<Text>, s: Section, name: Text)
    ensures EncodeProgress(OpenSection(p, s, name)) == OpenSection(EncodeProgress(p), s, name)
  {
    var q := OpenSection(p, s, name);
    if s.Profile? {
      assert EncodeDocument(q.doc).profiles == EncodeDocument(p.doc).profiles[s.name := map[]];
    }
  }

  // ---- entries -----------------------------------------------------------------------

  lemma LayerEncoded(d: Document<Text>, s: Section)
    ensures LayerOf(EncodeDocument(d), s) == EncodeLayer(LayerOf(d, s))
  {
  }

  lemma WithLayerEncoded(d: Document<Text>, s: Section, l: Layer<Text>)
    ensures EncodeDocument(WithLayer(d, s, l)) == WithLayer(EncodeDocument(d), s, EncodeLayer(l))
  {
    if s.Profile? {
      assert EncodeDocument(WithLayer(d, s, l)).profiles == EncodeDocument(d).profiles[s.name := EncodeLayer(l)];
    }
  }

  lemma AddEncoded(p: Progress<Text>, s: Section, key: Text, v: Value<Text>)
    ensures EncodeProgress(AddEntry(p, s, key, v)) == AddEntry(EncodeProgress(p), s, key, EncodeValue(v))
    ensures key in LayerOf(EncodeProgress(p).doc, s) <==> key in LayerOf(p.doc, s)
  {
    var l := LayerOf(p.doc, s);
    LayerEncoded(p.doc, s);
    WithLayerEncoded(p.doc, s, l[key := v]);
    assert EncodeLayer(l[key := v]) == EncodeLayer(l)[key := EncodeValue(v)];
  }

  /** The key and value of a line that is neither blank, comment nor header. */
  method EntryLine(n: Progress<Bytes>, line: Text, rules: Rules, ghost p: Progress<Text>)
    returns (r: Option<Progress<Bytes>>)
    requires Tracks(n, p) && AsciiRules(rules) && Scalars(line)
    ensures TracksOption(r, StepEntry(p, line, rules))
  {
    var equals := FindByte(line, 61);
    if n.section.None? || equals == |line| {
      return None;
    }
    var keyText := StripText(line[..equals]);
    var key := EncodeText(keyText);
    NamesEncoded(keyText);
    var named := Name(key, true);
    if !named {
      return None;
    }
    var source := StripText(line[equals + 1..]);
    StripIsStripped(line[equals + 1..]);
    StripKeepsScalars(line[equals + 1..]);
    var value := ReadValue(source);
    if value.None? {
      return None;
    }
    ghost var w := ParseValue(source).value;
    ParsedIsWritable(source);
    var admitted := AdmitsNative(n.section.value, key, value.value, rules, w);
    AddEncoded(p, n.section.value, key, w);
    if !admitted || key in LayerOf(n.doc, n.section.value) {
      return None;
    }
    r := Some(AddEntry(n, n.section.value, key, value.value));
  }

  method AdmitsNative(s: Section, key: Text, v: Value<Bytes>, rules: Rules, ghost w: Value<Text>) returns (ok: bool)
    requires v == EncodeValue(w) && AsciiRules(rules) && (w.Str? ==> NoNul(w.s))
    ensures ok == Admits(s, key, w, rules)
  {
    if s.Meta? {
      if key == SCHEMA {
        return v == Int(1);
      }
      if (key != PRESET && key != PROFILE) || !v.Str? {
        return false;
      }
      NamesEncoded(w.s);
      ok := Name(v.s, false);
    } else {
      if key !in rules {
        return false;
      }
      ok := Valid(rules[key], v, w);
    }
  }

  // ---- cutting before or after stripping ---------------------------------------------

  lemma {:induction false} StripSplits(t: Text) returns (before: Text, after: Text)
    ensures Spaces(before) && Spaces(after) && t == before + Strip(t) + after
    decreases |t|
  {
    before, after := [], [];
    if t == [] {
    } else if Space(t[0]) {
      before, after := StripSplits(t[1..]);
      before := [t[0]] + before;
    } else if Space(t[|t| - 1]) {
      before, after := StripSplits(t[..|t| - 1]);
      after := after + [t[|t| - 1]];
    }
  }

  lemma StripWithin(before: Text, t: Text, after: Text)
    requires Spaces(before) && Spaces(after)
    ensures Strip(before + t + after) == Strip(t)
  {
    var b, a := StripSplits(t);
    StripIsStripped(t);
    assert before + t + after == (before + b) + Strip(t) + (a + after);
    StripPadded(before + b, Strip(t), a + after);
  }

  lemma FindIs(t: Text, c: CodePoint, n: nat)
    requires n <= |t| && (n < |t| ==> t[n] == c) && forall k :: 0 <= k < n ==> t[k] != c
    ensures Find(t, c) == n
  {
  }

  lemma {:induction false} PaddedAt(raw: Text, b: Text, line: Text, a: Text, k: nat)
    requires raw == b + line + a && k < |raw|
    ensures raw[k] == if k < |b| then b[k] else if k < |b| + |line| then line[k - |b|] else a[k - |b| - |line|]
  {
  }

  /** No equals sign in the padding, nor before the line's own. */
  lemma {:induction false} NoneBefore(raw: Text, b: Text, line: Text, a: Text, k: nat)
    requires raw == b + line + a && Spaces(b) && Spaces(a)
    requires k < |raw| && (Find(line, 61) < |line| ==> k < |b| + Find(line, 61))
    ensures raw[k] != 61
  {
    PaddedAt(raw, b, line, a, k);
    if k < |b| {
      assert Space(b[k]);
    } else if k >= |b| + |line| {
      assert Space(a[k - |b| - |line|]);
    }
  }

  lemma {:induction false} FindPadded(raw: Text, b: Text, line: Text, a: Text)
    requires raw == b + line + a && Spaces(b) && Spaces(a)
    ensures var n := Find(line, 61);
      Find(raw, 61) == if n == |line| then |raw| else |b| + n
  {
    var n := Find(line, 61);
    var m := if n == |line| then |raw| else |b| + n;
    forall k | 0 <= k < m ensures raw[k] != 61 {
      NoneBefore(raw, b, line, a, k);
    }
    if n < |line| {
      PaddedAt(raw, b, line, a, m);
    }
    FindIs(raw, 61, m);
  }

  /** What is before and after the first equals sign, stripped. */
  function Cut(t: Text): Option<(Text, Text)> {
    var n := Find(t, 61);
    if n == |t| then None else Some((Strip(t[..n]), Strip(t[n + 1..])))
  }

  lemma KeyPadded(raw: Text, b: Text, line: Text, a: Text, n: nat)
    requires raw == b + line + a && Spaces(b) && n < |line|
    ensures Strip(raw[..|b| + n]) == Strip(line[..n])
  {
    assert raw[..|b| + n] == b + line[..n] + [];
    StripWithin(b, line[..n], []);
  }

  lemma ValuePadded(raw: Text, b: Text, line: Text, a: Text, n: nat)
    requires raw == b + line + a && Spaces(a) && n < |line|
    ensures |b| + n < |raw| && Strip(raw[|b| + n + 1..]) == Strip(line[n + 1..])
  {
    assert raw[|b| + n + 1..] == [] + line[n + 1..] + a;
    StripWithin([], line[n + 1..], a);
  }

  lemma CutAt(raw: Text, line: Text, m: nat, n: nat)
    requires m == Find(raw, 61) && n == Find(line, 61) && m < |raw| && n < |line|
    requires Strip(raw[..m]) == Strip(line[..n]) && Strip(raw[m + 1..]) == Strip(line[n + 1..])
    ensures Cut(raw) == Cut(line)
  {
  }

  /** Cutting at the equals sign and stripping both parts does not see padding. */
  lemma {:induction false} PaddedCut(raw: Text, b: Text, line: Text, a: Text)
    requires raw == b + line + a && Spaces(b) && Spaces(a)
    ensures Cut(raw) == Cut(line)
  {
    var n := Find(line, 61);
    FindPadded(raw, b, line, a);
    if n < |line| {
      KeyPadded(raw, b, line, a, n);
      ValuePadded(raw, b, line, a, n);
      CutAt(raw, line, |b| + n, n);
    }
  }

  /** An entry, already cut. */
  function StepCut(p: Progress<Text>, cut: Option<(Text, Text)>, rules: Rules): Option<Progress<Text>> {
    if p.section.None? || cut.None? then None
    else
      var (s, key, v) := (p.section.value, cut.value.0, ParseValue(cut.value.1));
      if !KeyName(key) || key in LayerOf(p.doc, s) || v.None? || !Admits(s, key, v.value, rules) then None
      else Some(AddEntry(p, s, key, v.value))
  }

  lemma CutDecides(p: Progress<Text>, raw: Text, rules: Rules)
    ensures StepEntry(p, raw, rules) == StepCut(p, Cut(raw), rules)
  {
  }

  /** Python cuts the raw line at its equals sign, the native reader the stripped one. */
  lemma EntryIgnoresPadding(p: Progress<Text>, raw: Text, rules: Rules)
    ensures StepEntry(p, raw, rules) == StepEntry(p, Strip(raw), rules)
  {
    var b, a := StripSplits(raw);
    PaddedCut(raw, b, Strip(raw), a);
    CutDecides(p, raw, rules);
    CutDecides(p, Strip(raw), rules);
  }

  // ---- the whole document ------------------------------------------------------------

  /** One line, already cut out. */
  method ReadLine(n: Progress<Bytes>, raw: Text, rules: Rules, ghost p: Progress<Text>) returns (r: Option<Progress<Bytes>>)
    requires Tracks(n, p) && AsciiRules(rules) && Scalars(raw)
    ensures TracksOption(r, StepLine(p, raw, rules))
  {
    var line := StripText(raw);
    if line == [] || line[0] == 35 {
      return Some(n);
    }
    if line[0] == 91 && line[|line| - 1] == 93 {
      r := HeaderLine(n, line, p);
      return;
    }
    StripKeepsScalars(raw);
    EntryIgnoresPadding(p, raw, rules);
    r := EntryLine(n, line, rules, p);
  }

  method LineEnd(t: Text, begin: nat) returns (end: nat)
    requires begin <= |t|
    ensures end == begin + LineLength(t[begin..])
  {
    end := begin;
    while end < |t| && !LineBreak(t[end])
      invariant begin <= end <= |t|
      invariant forall k :: begin <= k < end ==> !LineBreak(t[k])
    {
      end := end + 1;
    }
    ghost var s := t[begin..];
    assert OneLine(s[..end - begin]);
    LineLengthIs(s, end - begin);
  }

  /** Past the line break, or past both halves of CR LF. */
  method NextBegin(t: Text, begin: nat, end: nat) returns (next: nat)
    requires begin < |t| && end == begin + LineLength(t[begin..])
    ensures begin < next <= |t| && t[next..] == AfterLine(t[begin..])
  {
    next := if end < |t| then end + 1 else end;
    if end < |t| && t[end] == 13 && next < |t| && t[next] == 10 {
      next := next + 1;
    }
    AfterLineAt(t, begin, end);
  }

  lemma AfterLineAt(t: Text, begin: nat, end: nat)
    requires begin < |t| && end == begin + LineLength(t[begin..])
    ensures AfterLine(t[begin..]) ==
      if end == |t| then []
      else if t[end] == 13 && end + 1 < |t| && t[end + 1] == 10 then t[end + 2..]
      else t[end + 1..]
  {
    var rest := t[begin..];
    var n := end - begin;
    if end < |t| {
      assert rest[n] == t[end] && rest[n + 1..] == t[end + 1..];
      if end + 1 < |t| {
        assert rest[n + 1] == t[end + 1] && rest[n + 2..] == t[end + 2..];
      }
    }
  }

  /** With what the entries were checked for, one count of the schema key is enough. */
  lemma SchemaSuffices(p: Progress<Text>, rules: Rules)
    requires GoodProgress(p, rules)
    ensures Finish(Some(p)) == if SCHEMA in p.doc.metadata then Some(p.doc) else None
  {
    if SCHEMA in p.doc.metadata {
      assert Admits(Meta, SCHEMA, p.doc.metadata[SCHEMA], rules);
    }
  }

  ghost predicate SameOutcome(n: Option<Document<Bytes>>, d: Option<Document<Text>>) {
    if n.None? then d.None? else d.Some? && n.value == EncodeDocument(d.value)
  }

  /** Parse: accepts exactly what parse_document accepts, and builds the same document. */
  method Parse(bytes: Bytes, rules: Rules) returns (doc: Option<Document<Bytes>>)
    requires AsciiRules(rules)
    ensures SameOutcome(doc, ParseDocument(bytes, rules))
  {
    if |bytes| > 65536 {
      return None;
    }
    var text := DecodeBytes(bytes);
    if text.None? {
      return None;
    }
    DecodeIsEncodeBackward(bytes);
    var n := ReadLines(text.value, rules);
    if n.None? {
      return None;
    }
    doc := if SCHEMA in n.value.doc.metadata then Some(n.value.doc) else None;
    StartIsGood(rules);
    ParseLinesIsGood(Start(), text.value, rules);
    SchemaSuffices(ParseLines(Start(), text.value, rules).value, rules);
  }

  lemma StartIsGood(rules: Rules)
    ensures GoodProgress(Start(), rules) && Tracks(Start(), Start())
  {
  }

  lemma ParseLinesStep(p: Progress<Text>, t: Text, line: Text, rules: Rules)
    requires t != [] && line == t[..LineLength(t)]
    ensures var q := StepLine(p, line, rules);
      ParseLines(p, t, rules) == if q.None? then None else ParseLines(q.value, AfterLine(t), rules)
  {
  }

  method ReadLines(t: Text, rules: Rules) returns (r: Option<Progress<Bytes>>)
    requires AsciiRules(rules) && Scalars(t)
    ensures TracksOption(r, ParseLines(Start(), t, rules))
  {
    var n: Progress<Bytes> := Start();
    ghost var p: Progress<Text> := Start();
    StartIsGood(rules);
    assert t[0..] == t;
    var begin := 0;
    while begin < |t|
      invariant 0 <= begin <= |t|
      invariant Tracks(n, p)
      invariant ParseLines(Start(), t, rules) == ParseLines(p, t[begin..], rules)
    {
      ghost var rest := t[begin..];
      var end := LineEnd(t, begin);
      var line := t[begin..end];
      ghost var step := StepLine(p, line, rules);
      ParseLinesStep(p, rest, line, rules);
      var next := ReadLine(n, line, rules, p);
      if next.None? {
        return None;
      }
      n := next.value;
      p := step.value;
      begin := NextBegin(t, begin, end);
    }
    r := Some(n);
  }
}
