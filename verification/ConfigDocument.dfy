/**
 * Configuration documents as scripts/crystalhd-config.py reads them: sections, keys,
 * typed settings and duplicates, over a table of rules.
 */
module ConfigDocument {
  import opened Basics
  import opened ConfigUtf8
  import opened ConfigText
  import opened ConfigJson

  function Chars(s: string): (t: Text)
    ensures |t| == |s| && forall k :: 0 <= k < |s| ==> t[k] == s[k] as int
  {
    seq(|s|, k requires 0 <= k < |s| => s[k] as int)
  }

  const CRYSTALHD := Chars("crystalhd")
  const SETTINGS := Chars("settings")
  const PROFILE_PREFIX := Chars("profile.")
  const SCHEMA := Chars("schema")
  const PRESET := Chars("preset")
  const PROFILE := Chars("profile")
  const MAXIMUM_BYTES := 65536

  // ---- names -------------------------------------------------------------------------

  predicate Lower(c: CodePoint) { 97 <= c <= 122 }
  predicate Letter(c: CodePoint) { Lower(c) || 65 <= c <= 90 }

  /** [A-Za-z0-9][A-Za-z0-9._-]{0,63} */
  predicate ProfileName(t: Text) {
    && 1 <= |t| <= 64 && (Letter(t[0]) || Digit(t[0]))
    && forall k :: 1 <= k < |t| ==> Letter(t[k]) || Digit(t[k]) || t[k] in {45, 46, 95}
  }

  /** [a-z][a-z0-9_.]* */
  predicate KeyName(t: Text) {
    && t != [] && Lower(t[0])
    && forall k :: 1 <= k < |t| ==> Lower(t[k]) || Digit(t[k]) || t[k] in {46, 95}
  }

  /** The first c in t, or |t|. */
  function Find(t: Text, c: CodePoint): (n: nat)
    ensures n <= |t| && (n < |t| ==> t[n] == c)
    ensures forall k :: 0 <= k < n ==> t[k] != c
  {
    if t == [] || t[0] == c then 0 else Find(t[1..], c) + 1
  }

  // ---- settings ----------------------------------------------------------------------

  datatype Rule =
    | BooleanRule
    | IntegerEnum(numbers: seq<nat>)
    | StringEnum(words: seq<Text>)
    | AnyString
    | NonemptyString
    | ScaleWidth
    | OutputSizeRule

  type Rules = map<Text, Rule>

  /** The words a rule offers are ASCII, as in the table. */
  ghost predicate AsciiRules(rules: Rules) {
    forall key :: key in rules && rules[key].StringEnum? ==>
      forall k :: 0 <= k < |rules[key].words| ==> Ascii(rules[key].words[k])
  }

  predicate Dimension(t: Text) {
    1 <= |t| <= 4 && Digits(t) && t[0] != 48 && Number(t) <= 4096 && Number(t) % 2 == 0
  }

  predicate Fits(width: nat, height: nat) { width * height <= 4096 * 2160 }

  /** WIDTHxHEIGHT */
  predicate OutputSize(t: Text) {
    var x := Find(t, 120);
    && x < |t| && Dimension(t[..x]) && Dimension(t[x + 1..])
    && Fits(Number(t[..x]), Number(t[x + 1..]))
  }

  predicate Accepts(r: Rule, v: Value<Text>) {
    match r
    case BooleanRule => v.Bool?
    case IntegerEnum(numbers) => v.Int? && v.n in numbers
    case StringEnum(words) => v.Str? && v.s in words
    case AnyString => v.Str? && NoNul(v.s)
    case NonemptyString => v.Str? && v.s != [] && NoNul(v.s)
    case ScaleWidth => v.Int? && (v.n == 0 || (128 <= v.n <= 1918 && v.n % 2 == 0))
    case OutputSizeRule => v.Str? && OutputSize(v.s)
  }

  // ---- documents ---------------------------------------------------------------------

  type Layer<S> = map<Text, Value<S>>

  datatype Document<S> = Document(metadata: Layer<S>, settings: Layer<S>, profiles: map<Text, Layer<S>>)

  datatype Section = Meta | Settings | Profile(name: Text)

  /** Where a reader is between two lines. */
  datatype Progress<S> = Progress(doc: Document<S>, section: Option<Section>, seen: set<Text>)

  function Start<S>(): Progress<S> { Progress(Document(map[], map[], map[]), None, {}) }

  function LayerOf<S>(d: Document<S>, s: Section): Layer<S> {
    match s
    case Meta => d.metadata
    case Settings => d.settings
    case Profile(name) => if name in d.profiles then d.profiles[name] else map[]
  }

  function WithLayer<S>(d: Document<S>, s: Section, l: Layer<S>): Document<S> {
    match s
    case Meta => d.(metadata := l)
    case Settings => d.(settings := l)
    case Profile(name) => d.(profiles := d.profiles[name := l])
  }

  function SectionNamed(name: Text): Option<Section> {
    if name == CRYSTALHD then Some(Meta)
    else if name == SETTINGS then Some(Settings)
    else if PROFILE_PREFIX <= name && ProfileName(name[8..]) then Some(Profile(name[8..]))
    else None
  }

  function OpenSection<S>(p: Progress<S>, s: Section, name: Text): Progress<S> {
    var doc := if s.Profile? then p.doc.(profiles := p.doc.profiles[s.name := map[]]) else p.doc;
    Progress(doc, Some(s), p.seen + {name})
  }

  /** A section header. */
  function StepSection(p: Progress<Text>, name: Text): Option<Progress<Text>> {
    var s := SectionNamed(name);
    if name in p.seen || s.None? then None else Some(OpenSection(p, s.value, name))
  }

  /** What a section admits under a key. */
  predicate Admits(s: Section, key: Text, v: Value<Text>, rules: Rules) {
    if s.Meta? then
      if key == SCHEMA then v == Int(1) else (key == PRESET || key == PROFILE) && v.Str? && ProfileName(v.s)
    else key in rules && (v.Unset? || Accepts(rules[key], v))
  }

  function AddEntry<S>(p: Progress<S>, s: Section, key: Text, v: Value<S>): Progress<S> {
    p.(doc := WithLayer(p.doc, s, LayerOf(p.doc, s)[key := v]))
  }

  /** A key and its value; they are cut at the first equals sign of the unstripped line. */
  function StepEntry(p: Progress<Text>, raw: Text, rules: Rules): Option<Progress<Text>> {
    var equals := Find(raw, 61);
    if p.section.None? || equals == |raw| then None
    else
      var s, key := p.section.value, Strip(raw[..equals]);
      var v := ParseValue(Strip(raw[equals + 1..]));
      if !KeyName(key) || key in LayerOf(p.doc, s) || v.None? || !Admits(s, key, v.value, rules) then None
      else Some(AddEntry(p, s, key, v.value))
  }

  function StepLine(p: Progress<Text>, raw: Text, rules: Rules): Option<Progress<Text>> {
    var line := Strip(raw);
    if line == [] || line[0] == 35 then Some(p)
    else if line[0] == 91 && line[|line| - 1] == 93 then StepSection(p, line[1..|line| - 1])
    else StepEntry(p, raw, rules)
  }

  function ParseLines(p: Progress<Text>, t: Text, rules: Rules): Option<Progress<Text>>
    decreases |t|
  {
    if t == [] then Some(p)
    else
      var next := StepLine(p, t[..LineLength(t)], rules);
      if next.None? then None else ParseLines(next.value, AfterLine(t), rules)
  }

  function Finish(p: Option<Progress<Text>>): Option<Document<Text>> {
    if p.Some? && CRYSTALHD in p.value.seen && SCHEMA in p.value.doc.metadata && p.value.doc.metadata[SCHEMA] == Int(1)
    then Some(p.value.doc) else None
  }

  /** parse_document */
  function ParseDocument(bytes: Bytes, rules: Rules): Option<Document<Text>> {
    if |bytes| > MAXIMUM_BYTES then None
    else
      var t := ReadText(bytes);
      if t.None? then None else Finish(ParseLines(Start(), t.value, rules))
  }

  // ---- what every parsed document is -------------------------------------------------

  ghost predicate GoodLayer(s: Section, l: Layer<Text>, rules: Rules) {
    forall key :: key in l ==> KeyName(key) && Admits(s, key, l[key], rules) && Writable(l[key])
  }

  ghost predicate GoodDocument(d: Document<Text>, rules: Rules) {
    && GoodLayer(Meta, d.metadata, rules)
    && GoodLayer(Settings, d.settings, rules)
    && forall name :: name in d.profiles ==> ProfileName(name) && GoodLayer(Profile(name), d.profiles[name], rules)
  }

  ghost predicate GoodProgress(p: Progress<Text>, rules: Rules) {
    && GoodDocument(p.doc, rules)
    && (p.section == Some(Meta) || p.doc.metadata != map[] ==> CRYSTALHD in p.seen)
    && (p.section.Some? && p.section.value.Profile? ==> ProfileName(p.section.value.name))
  }

  lemma StripKeepsScalars(t: Text)
    requires Scalars(t)
    ensures Scalars(Strip(t))
    decreases |t|
  {
    if t != [] {
      StripKeepsScalars(t[1..]);
      StripKeepsScalars(t[..|t| - 1]);
    }
  }

  lemma OpenSectionIsGood(p: Progress<Text>, s: Section, name: Text, rules: Rules)
    requires GoodProgress(p, rules) && SectionNamed(name) == Some(s)
    ensures GoodProgress(OpenSection(p, s, name), rules)
  {
  }

  lemma AddEntryIsGood(p: Progress<Text>, s: Section, key: Text, v: Value<Text>, rules: Rules)
    requires GoodProgress(p, rules) && p.section == Some(s)
    requires KeyName(key) && Admits(s, key, v, rules) && Writable(v)
    ensures GoodProgress(AddEntry(p, s, key, v), rules)
  {
    assert GoodLayer(s, LayerOf(p.doc, s)[key := v], rules);
  }

  lemma StepLineIsGood(p: Progress<Text>, raw: Text, rules: Rules)
    requires GoodProgress(p, rules) && Scalars(raw) && StepLine(p, raw, rules).Some?
    ensures GoodProgress(StepLine(p, raw, rules).value, rules)
  {
    var line := Strip(raw);
    if line == [] || line[0] == 35 {
    } else if line[0] == 91 && line[|line| - 1] == 93 {
      var name := line[1..|line| - 1];
      OpenSectionIsGood(p, SectionNamed(name).value, name, rules);
    } else {
      var equals := Find(raw, 61);
      var key, source := Strip(raw[..equals]), raw[equals + 1..];
      assert Scalars(source);
      StripKeepsScalars(source);
      ParsedIsWritable(Strip(source));
      AddEntryIsGood(p, p.section.value, key, ParseValue(Strip(source)).value, rules);
    }
  }

  lemma {:induction false} ParseLinesIsGood(p: Progress<Text>, t: Text, rules: Rules)
    requires GoodProgress(p, rules) && Scalars(t) && ParseLines(p, t, rules).Some?
    ensures GoodProgress(ParseLines(p, t, rules).value, rules)
    decreases |t|
  {
    if t != [] {
      StepLineIsGood(p, t[..LineLength(t)], rules);
      ParseLinesIsGood(StepLine(p, t[..LineLength(t)], rules).value, AfterLine(t), rules);
    }
  }

  /** Whatever is parsed has schema 1, good names, and values its rules accept. */
  lemma ParsedIsGood(bytes: Bytes, rules: Rules)
    requires ParseDocument(bytes, rules).Some?
    ensures var d := ParseDocument(bytes, rules).value;
      GoodDocument(d, rules) && SCHEMA in d.metadata && d.metadata[SCHEMA] == Int(1)
  {
    DecodeIsEncodeBackward(bytes);
    var p: Progress<Text> := Start();
    assert GoodProgress(p, rules);
    ParseLinesIsGood(p, ReadText(bytes).value, rules);
  }
}
