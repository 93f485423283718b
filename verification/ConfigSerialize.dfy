/**
 * Writing a document back (serialize_document in scripts/crystalhd-config.py), and reading
 * it again. The order of keys and profiles is any enumeration, the source's sorted one too.
 */
module ConfigSerialize {
  import opened Basics
  import opened ConfigUtf8
  import opened ConfigText
  import opened ConfigJson
  import opened ConfigJsonWriter
  import opened ConfigDocument

  const SEPARATOR: Text := [32, 61, 32]

  /** Each key once, in some order. */
  ghost predicate Enumerates(order: seq<Text>, keys: set<Text>) {
    && (forall key :: key in order <==> key in keys)
    && forall i, j :: 0 <= i < j < |order| ==> order[i] != order[j]
  }

  /** The order the keys of every section, and the profiles, are written in. */
  datatype Orders = Orders(metadata: seq<Text>, settings: seq<Text>, names: seq<Text>, keys: map<Text, seq<Text>>)

  ghost predicate KeyOrders(profiles: map<Text, Layer<Text>>, names: seq<Text>, keys: map<Text, seq<Text>>) {
    forall k :: 0 <= k < |names| ==> KeyOrder(profiles, names[k], keys)
  }

  ghost predicate KeyOrder(profiles: map<Text, Layer<Text>>, name: Text, keys: map<Text, seq<Text>>) {
    name in profiles && name in keys && Enumerates(keys[name], profiles[name].Keys)
  }

  ghost predicate OrdersOf(o: Orders, d: Document<Text>) {
    && Enumerates(o.metadata, d.metadata.Keys) && Enumerates(o.settings, d.settings.Keys)
    && Enumerates(o.names, d.profiles.Keys) && KeyOrders(d.profiles, o.names, o.keys)
  }

  function EntryText(key: Text, v: Value<Text>): Text { key + SEPARATOR + FormatValue(v) }

  function Entries(l: Layer<Text>, order: seq<Text>): Text
    requires forall k :: 0 <= k < |order| ==> order[k] in l
  {
    if order == [] then [] else EntryText(order[0], l[order[0]]) + [10] + Entries(l, order[1..])
  }

  function SectionText(name: Text, l: Layer<Text>, order: seq<Text>): Text
    requires forall k :: 0 <= k < |order| ==> order[k] in l
  {
    [91] + name + [93] + [10] + Entries(l, order)
  }

  ghost function ProfilesText(profiles: map<Text, Layer<Text>>, names: seq<Text>, keys: map<Text, seq<Text>>): Text
    requires KeyOrders(profiles, names, keys)
  {
    if names == [] then []
    else
      assert KeyOrder(profiles, names[0], keys);
      [10] + SectionText(PROFILE_PREFIX + names[0], profiles[names[0]], keys[names[0]])
      + ProfilesText(profiles, names[1..], keys)
  }

  ghost function BaseText(d: Document<Text>, o: Orders): Text
    requires OrdersOf(o, d)
  {
    SectionText(CRYSTALHD, d.metadata, o.metadata)
    + (if d.settings == map[] then [] else [10] + SectionText(SETTINGS, d.settings, o.settings))
  }

  /** Every section followed by a blank line, except the last. */
  ghost function DocumentText(d: Document<Text>, o: Orders): Text
    requires OrdersOf(o, d)
  {
    BaseText(d, o) + ProfilesText(d.profiles, o.names, o.keys)
  }

  // ---- reading one written line ------------------------------------------------------

  lemma BlankParses(p: Progress<Text>, rest: Text, rules: Rules)
    ensures ParseLines(p, [10] + rest, rules) == ParseLines(p, rest, rules)
  {
    CutTerminated([], rest);
    assert [] + [10] + rest == [10] + rest;
  }

  lemma LineParses(p: Progress<Text>, line: Text, rest: Text, rules: Rules)
    requires OneLine(line)
    ensures ParseLines(p, line + [10] + rest, rules) ==
      var q := StepLine(p, line, rules);
      if q.None? then None else ParseLines(q.value, rest, rules)
  {
    CutTerminated(line, rest);
  }

  lemma PlainIsOneLine(line: Text)
    requires Plain(line)
    ensures OneLine(line)
  {
  }

  lemma AlreadyStripped(t: Text)
    requires Stripped(t)
    ensures Strip(t) == t
  {
    StripPadded([], t, []);
    assert [] + t + [] == t;
  }

  /** A written entry is cut into its key and its value again. */
  lemma EntryCut(key: Text, f: Text)
    requires KeyName(key) && Plain(f) && Stripped(f)
    ensures var line := key + SEPARATOR + f;
      && Find(line, 61) == |key| + 1
      && Strip(line[..|key| + 1]) == key && Strip(line[|key| + 2..]) == f
  {
    var line := key + SEPARATOR + f;
    assert forall k :: 0 <= k < |key| ==> line[k] == key[k];
    FindAt(line, 61, |key| + 1);
    assert line[..|key| + 1] == [] + key + [32];
    StripPadded([], key, [32]);
    assert line[|key| + 2..] == [32] + f + [];
    StripPadded([32], f, []);
  }

  lemma FindAt(t: Text, c: CodePoint, n: nat)
    requires n < |t| && t[n] == c && forall k :: 0 <= k < n ==> t[k] != c
    ensures Find(t, c) == n
  {
  }

  lemma EntryShape(key: Text, v: Value<Text>)
    requires KeyName(key)
    ensures var line := EntryText(key, v);
      Plain(line) && OneLine(line) && Strip(line) == line && line != [] && line[0] == key[0]
  {
    var f := FormatValue(v);
    var line := EntryText(key, v);
    FormatIsPlain(v);
    assert line[0] == key[0] && line[|line| - 1] == f[|f| - 1];
    AlreadyStripped(line);
    assert Plain(key) && Plain(SEPARATOR);
    assert Plain(line);
    PlainIsOneLine(line);
  }

  lemma EntryAdds(p: Progress<Text>, s: Section, key: Text, v: Value<Text>, rules: Rules)
    requires p.section == Some(s) && key !in LayerOf(p.doc, s)
    requires KeyName(key) && Admits(s, key, v, rules) && Writable(v)
    ensures StepEntry(p, EntryText(key, v), rules) == Some(AddEntry(p, s, key, v))
  {
    FormatIsPlain(v);
    WritableReadsBack(v);
    EntryCut(key, FormatValue(v));
  }

  lemma EntrySteps(p: Progress<Text>, s: Section, key: Text, v: Value<Text>, rules: Rules)
    requires p.section == Some(s) && key !in LayerOf(p.doc, s)
    requires KeyName(key) && Admits(s, key, v, rules) && Writable(v)
    ensures StepLine(p, EntryText(key, v), rules) == Some(AddEntry(p, s, key, v))
    ensures OneLine(EntryText(key, v))
  {
    EntryShape(key, v);
    EntryAdds(p, s, key, v, rules);
  }

  lemma HeaderSteps(p: Progress<Text>, s: Section, name: Text, rules: Rules)
    requires SectionNamed(name) == Some(s) && name !in p.seen && Plain(name)
    ensures var line := [91] + name + [93];
      StepLine(p, line, rules) == Some(OpenSection(p, s, name)) && OneLine(line)
  {
    var line := [91] + name + [93];
    AlreadyStripped(line);
    assert line[1..|line| - 1] == name;
    PlainIsOneLine(line);
  }

  // ---- reading a written section -----------------------------------------------------

  function AddAll(p: Progress<Text>, s: Section, l: Layer<Text>, order: seq<Text>): Progress<Text>
    requires forall k :: 0 <= k < |order| ==> order[k] in l
    decreases |order|
  {
    if order == [] then p else AddAll(AddEntry(p, s, order[0], l[order[0]]), s, l, order[1..])
  }

  ghost predicate Fresh(p: Progress<Text>, s: Section, order: seq<Text>) {
    && (forall i :: 0 <= i < |order| ==> order[i] !in LayerOf(p.doc, s))
    && forall i, j :: 0 <= i < j < |order| ==> order[i] != order[j]
  }

  lemma {:induction false} EntriesParse(
    p: Progress<Text>, s: Section, l: Layer<Text>, order: seq<Text>, rest: Text, rules: Rules)
    requires p.section == Some(s) && GoodLayer(s, l, rules) && Fresh(p, s, order)
    requires forall k :: 0 <= k < |order| ==> order[k] in l
    ensures ParseLines(p, Entries(l, order) + rest, rules) == ParseLines(AddAll(p, s, l, order), rest, rules)
    decreases |order|
  {
    if order == [] {
      assert Entries(l, order) + rest == rest;
    } else {
      var key := order[0];
      var more := Entries(l, order[1..]) + rest;
      assert Entries(l, order) + rest == EntryText(key, l[key]) + [10] + more;
      EntrySteps(p, s, key, l[key], rules);
      LineParses(p, EntryText(key, l[key]), more, rules);
      EntriesParse(AddEntry(p, s, key, l[key]), s, l, order[1..], rest, rules);
    }
  }

  function Picked<V>(l: map<Text, V>, order: seq<Text>): map<Text, V>
    requires forall k :: 0 <= k < |order| ==> order[k] in l
  {
    map k | k in order :: l[k]
  }

  lemma PickedStep<V>(base: map<Text, V>, l: map<Text, V>, order: seq<Text>)
    requires order != [] && forall k :: 0 <= k < |order| ==> order[k] in l
    ensures base[order[0] := l[order[0]]] + Picked(l, order[1..]) == base + Picked(l, order)
  {
    assert order == [order[0]] + order[1..];
  }

  lemma PickedAll<V>(l: map<Text, V>, order: seq<Text>)
    requires Enumerates(order, l.Keys)
    ensures map[] + Picked(l, order) == l
  {
  }

  lemma LayerSet(d: Document<Text>, s: Section, l: Layer<Text>, m: Layer<Text>)
    ensures LayerOf(WithLayer(d, s, l), s) == l
    ensures WithLayer(WithLayer(d, s, l), s, m) == WithLayer(d, s, m)
  {
  }

  lemma {:induction false} AddAllIs(p: Progress<Text>, s: Section, l: Layer<Text>, order: seq<Text>)
    requires forall k :: 0 <= k < |order| ==> order[k] in l
    ensures order != [] ==>
      AddAll(p, s, l, order) == p.(doc := WithLayer(p.doc, s, LayerOf(p.doc, s) + Picked(l, order)))
    decreases |order|
  {
    if order != [] {
      var base, key := LayerOf(p.doc, s), order[0];
      var one := base[key := l[key]];
      var q := AddEntry(p, s, key, l[key]);
      LayerSet(p.doc, s, one, one + Picked(l, order[1..]));
      AddAllIs(q, s, l, order[1..]);
      PickedStep(base, l, order);
      if order[1..] == [] {
        assert one + Picked(l, order[1..]) == one;
      }
    }
  }

  /** The document with a whole section filled in. */
  function Filled(p: Progress<Text>, s: Section, name: Text, l: Layer<Text>): Progress<Text> {
    Progress(WithLayer(p.doc, s, l), Some(s), p.seen + {name})
  }

  lemma SectionFills(p: Progress<Text>, s: Section, name: Text, l: Layer<Text>, order: seq<Text>)
    requires Enumerates(order, l.Keys) && (s.Profile? || LayerOf(p.doc, s) == map[])
    ensures Fresh(OpenSection(p, s, name), s, order)
    ensures AddAll(OpenSection(p, s, name), s, l, order) == Filled(p, s, name, l)
  {
    var q := OpenSection(p, s, name);
    assert LayerOf(q.doc, s) == map[];
    AddAllIs(q, s, l, order);
    PickedAll(l, order);
  }

  lemma SectionParses(
    p: Progress<Text>, s: Section, name: Text, l: Layer<Text>, order: seq<Text>, rest: Text, rules: Rules)
    requires SectionNamed(name) == Some(s) && name !in p.seen && Plain(name)
    requires GoodLayer(s, l, rules) && Enumerates(order, l.Keys) && (s.Profile? || LayerOf(p.doc, s) == map[])
    ensures ParseLines(p, SectionText(name, l, order) + rest, rules) == ParseLines(Filled(p, s, name, l), rest, rules)
  {
    var header := [91] + name + [93];
    var more := Entries(l, order) + rest;
    assert SectionText(name, l, order) + rest == header + [10] + more;
    HeaderSteps(p, s, name, rules);
    LineParses(p, header, more, rules);
    SectionFills(p, s, name, l, order);
    EntriesParse(OpenSection(p, s, name), s, l, order, rest, rules);
  }

  // ---- reading a written document ----------------------------------------------------

  lemma ProfileSection(name: Text)
    requires ProfileName(name)
    ensures SectionNamed(PROFILE_PREFIX + name) == Some(Profile(name)) && Plain(PROFILE_PREFIX + name)
    ensures PROFILE_PREFIX + name != CRYSTALHD && PROFILE_PREFIX + name != SETTINGS
  {
    var t := PROFILE_PREFIX + name;
    assert t[0] == 112 && CRYSTALHD[0] == 99 && SETTINGS[0] == 115;
    assert t[8..] == name;
  }

  function AddProfiles(p: Progress<Text>, profiles: map<Text, Layer<Text>>, names: seq<Text>): Progress<Text>
    requires forall k :: 0 <= k < |names| ==> names[k] in profiles
    decreases |names|
  {
    if names == [] then p
    else AddProfiles(Filled(p, Profile(names[0]), PROFILE_PREFIX + names[0], profiles[names[0]]), profiles, names[1..])
  }

  ghost predicate GoodProfiles(profiles: map<Text, Layer<Text>>, names: seq<Text>, rules: Rules) {
    forall k :: 0 <= k < |names| ==>
      names[k] in profiles && ProfileName(names[k]) && GoodLayer(Profile(names[k]), profiles[names[k]], rules)
  }

  ghost predicate NewProfiles(p: Progress<Text>, names: seq<Text>) {
    && (forall i :: 0 <= i < |names| ==> PROFILE_PREFIX + names[i] !in p.seen)
    && forall i, j :: 0 <= i < j < |names| ==> names[i] != names[j]
  }

  lemma NewProfilesStep(p: Progress<Text>, names: seq<Text>, l: Layer<Text>)
    requires names != [] && NewProfiles(p, names)
    ensures NewProfiles(Filled(p, Profile(names[0]), PROFILE_PREFIX + names[0], l), names[1..])
  {
    forall i | 1 <= i < |names| ensures PROFILE_PREFIX + names[i] != PROFILE_PREFIX + names[0] {
      assert (PROFILE_PREFIX + names[i])[8..] == names[i] && (PROFILE_PREFIX + names[0])[8..] == names[0];
    }
  }

  lemma {:induction false} ProfilesParse(
    p: Progress<Text>, profiles: map<Text, Layer<Text>>, names: seq<Text>, keys: map<Text, seq<Text>>, rules: Rules)
    requires KeyOrders(profiles, names, keys) && NewProfiles(p, names)
    requires GoodProfiles(profiles, names, rules)
    ensures ParseLines(p, ProfilesText(profiles, names, keys), rules) == Some(AddProfiles(p, profiles, names))
    decreases |names|
  {
    if names != [] {
      var name, l := names[0], profiles[names[0]];
      var rest := ProfilesText(profiles, names[1..], keys);
      var section := SectionText(PROFILE_PREFIX + name, l, keys[name]);
      assert KeyOrder(profiles, name, keys);
      assert ProfilesText(profiles, names, keys) == [10] + (section + rest);
      BlankParses(p, section + rest, rules);
      ProfileSection(name);
      SectionParses(p, Profile(name), PROFILE_PREFIX + name, l, keys[name], rest, rules);
      var q := Filled(p, Profile(name), PROFILE_PREFIX + name, l);
      NewProfilesStep(p, names, l);
      ProfilesParse(q, profiles, names[1..], keys, rules);
    }
  }

  lemma {:induction false} AddProfilesIs(p: Progress<Text>, profiles: map<Text, Layer<Text>>, names: seq<Text>)
    requires forall k :: 0 <= k < |names| ==> names[k] in profiles
    ensures var q := AddProfiles(p, profiles, names);
      && q.doc == p.doc.(profiles := p.doc.profiles + Picked(profiles, names))
      && p.seen <= q.seen
    decreases |names|
  {
    if names == [] {
      assert p.doc.profiles + Picked(profiles, names) == p.doc.profiles;
    } else {
      PickedStep(p.doc.profiles, profiles, names);
      AddProfilesIs(Filled(p, Profile(names[0]), PROFILE_PREFIX + names[0], profiles[names[0]]), profiles, names[1..]);
    }
  }

  /** The state after the metadata and the settings. */
  ghost function Base(d: Document<Text>): Progress<Text> {
    var m := Filled(Start(), Meta, CRYSTALHD, d.metadata);
    if d.settings == map[] then m else Filled(m, Settings, SETTINGS, d.settings)
  }

  lemma MetaParses(d: Document<Text>, o: Orders, rest: Text, rules: Rules)
    requires OrdersOf(o, d) && GoodDocument(d, rules)
    ensures ParseLines(Start(), SectionText(CRYSTALHD, d.metadata, o.metadata) + rest, rules)
      == ParseLines(Filled(Start(), Meta, CRYSTALHD, d.metadata), rest, rules)
  {
    SectionNames();
    SectionParses(Start(), Meta, CRYSTALHD, d.metadata, o.metadata, rest, rules);
  }

  lemma SettingsParse(d: Document<Text>, o: Orders, rest: Text, rules: Rules)
    requires OrdersOf(o, d) && GoodDocument(d, rules)
    ensures var m := Filled(Start(), Meta, CRYSTALHD, d.metadata);
      ParseLines(m, [10] + (SectionText(SETTINGS, d.settings, o.settings) + rest), rules)
      == ParseLines(Filled(m, Settings, SETTINGS, d.settings), rest, rules)
  {
    SectionNames();
    var m := Filled(Start(), Meta, CRYSTALHD, d.metadata);
    BlankParses(m, SectionText(SETTINGS, d.settings, o.settings) + rest, rules);
    SectionParses(m, Settings, SETTINGS, d.settings, o.settings, rest, rules);
  }

  lemma Glue(a: Text, b: Text, c: Text)
    ensures a + ([10] + b) + c == a + ([10] + (b + c))
  {
  }

  lemma BaseParses(d: Document<Text>, o: Orders, rest: Text, rules: Rules)
    requires OrdersOf(o, d) && GoodDocument(d, rules)
    ensures ParseLines(Start(), BaseText(d, o) + rest, rules) == ParseLines(Base(d), rest, rules)
  {
    var meta := SectionText(CRYSTALHD, d.metadata, o.metadata);
    if d.settings == map[] {
      MetaParses(d, o, rest, rules);
      assert BaseText(d, o) == meta;
    } else {
      var settings := SectionText(SETTINGS, d.settings, o.settings);
      MetaParses(d, o, [10] + (settings + rest), rules);
      SettingsParse(d, o, rest, rules);
      Glue(meta, settings, rest);
    }
  }

  lemma SectionNames()
    ensures SectionNamed(CRYSTALHD) == Some(Meta) && SectionNamed(SETTINGS) == Some(Settings)
    ensures Plain(CRYSTALHD) && Plain(SETTINGS) && CRYSTALHD != SETTINGS
  {
    assert |CRYSTALHD| == 9 && |SETTINGS| == 8;
  }

  lemma BaseIs(d: Document<Text>)
    ensures Base(d).doc == Document(d.metadata, d.settings, map[])
    ensures CRYSTALHD in Base(d).seen && Base(d).seen <= {CRYSTALHD, SETTINGS}
  {
  }

  lemma ProfilesAreNew(d: Document<Text>, names: seq<Text>, rules: Rules)
    requires GoodDocument(d, rules) && Enumerates(names, d.profiles.Keys)
    ensures NewProfiles(Base(d), names) && GoodProfiles(d.profiles, names, rules)
  {
    BaseIs(d);
    forall i | 0 <= i < |names| ensures PROFILE_PREFIX + names[i] !in Base(d).seen && ProfileName(names[i]) {
      assert names[i] in d.profiles;
      ProfileSection(names[i]);
    }
  }

  /** Reading the lines of a written document gives it back. */
  lemma DocumentParses(d: Document<Text>, o: Orders, rules: Rules)
    requires OrdersOf(o, d) && GoodDocument(d, rules) && SCHEMA in d.metadata && d.metadata[SCHEMA] == Int(1)
    ensures Finish(ParseLines(Start(), DocumentText(d, o), rules)) == Some(d)
  {
    ProfilesAreNew(d, o.names, rules);
    BaseParses(d, o, ProfilesText(d.profiles, o.names, o.keys), rules);
    ProfilesParse(Base(d), d.profiles, o.names, o.keys, rules);
    AddProfilesIs(Base(d), d.profiles, o.names);
    BaseIs(d);
    PickedAll(d.profiles, o.names);
  }

  // ---- bytes -------------------------------------------------------------------------

  lemma EntryIsAscii(key: Text, v: Value<Text>)
    requires KeyName(key)
    ensures Ascii(EntryText(key, v))
  {
    EntryShape(key, v);
  }

  lemma {:induction false} EntriesAreAscii(l: Layer<Text>, order: seq<Text>)
    requires forall k :: 0 <= k < |order| ==> order[k] in l && KeyName(order[k])
    ensures Ascii(Entries(l, order))
  {
    if order != [] {
      EntryIsAscii(order[0], l[order[0]]);
      EntriesAreAscii(l, order[1..]);
    }
  }

  lemma {:induction false} ProfilesAreAscii(
    profiles: map<Text, Layer<Text>>, names: seq<Text>, keys: map<Text, seq<Text>>, rules: Rules)
    requires KeyOrders(profiles, names, keys) && GoodProfiles(profiles, names, rules)
    ensures Ascii(ProfilesText(profiles, names, keys))
    decreases |names|
  {
    if names != [] {
      assert KeyOrder(profiles, names[0], keys);
      ProfileSection(names[0]);
      EntriesAreAscii(profiles[names[0]], keys[names[0]]);
      ProfilesAreAscii(profiles, names[1..], keys, rules);
    }
  }

  lemma AsciiConcat(a: Text, b: Text)
    requires Ascii(a) && Ascii(b)
    ensures Ascii(a + b)
  {
  }

  lemma SectionIsAscii(name: Text, s: Section, l: Layer<Text>, order: seq<Text>, rules: Rules)
    requires Plain(name) && GoodLayer(s, l, rules) && Enumerates(order, l.Keys)
    ensures Ascii(SectionText(name, l, order)) && SectionText(name, l, order)[0] == 91
  {
    EntriesAreAscii(l, order);
    var header := [91] + name + [93] + [10];
    assert Ascii(header);
    AsciiConcat(header, Entries(l, order));
  }

  lemma BaseIsAscii(d: Document<Text>, o: Orders, rules: Rules)
    requires OrdersOf(o, d) && GoodDocument(d, rules)
    ensures Ascii(BaseText(d, o)) && BaseText(d, o) != [] && BaseText(d, o)[0] == 91
  {
    SectionNames();
    SectionIsAscii(CRYSTALHD, Meta, d.metadata, o.metadata, rules);
    SectionIsAscii(SETTINGS, Settings, d.settings, o.settings, rules);
    AsciiConcat([10], SectionText(SETTINGS, d.settings, o.settings));
  }

  lemma DocumentIsAscii(d: Document<Text>, o: Orders, rules: Rules)
    requires OrdersOf(o, d) && GoodDocument(d, rules)
    ensures Ascii(DocumentText(d, o)) && DocumentText(d, o) != [] && DocumentText(d, o)[0] == 91
  {
    BaseIsAscii(d, o, rules);
    ProfilesAreNew(d, o.names, rules);
    ProfilesAreAscii(d.profiles, o.names, o.keys, rules);
    AsciiConcat(BaseText(d, o), ProfilesText(d.profiles, o.names, o.keys));
  }

  lemma AsciiReads(t: Text)
    requires Ascii(t)
    ensures ReadText(Encode(t)) == Some(t)
  {
    EncodeAscii(t);
    assert Scalars(t);
    EncodeIsDecodeBackward(t);
  }

  /** Reading the bytes of a written document: itself, unless there are too many. */
  lemma WrittenReads(d: Document<Text>, o: Orders, rules: Rules)
    requires OrdersOf(o, d) && GoodDocument(d, rules) && SCHEMA in d.metadata && d.metadata[SCHEMA] == Int(1)
    ensures var data := Encode(DocumentText(d, o));
      ParseDocument(data, rules) == if |data| <= MAXIMUM_BYTES then Some(d) else None
  {
    DocumentIsAscii(d, o, rules);
    AsciiReads(DocumentText(d, o));
    DocumentParses(d, o, rules);
  }

  // ---- serialize_document ------------------------------------------------------------

  ghost predicate LayerWritable(l: Layer<Text>) {
    forall key :: key in l ==>
      && KeyName(key)
      && (l[key].Int? ==> l[key].n < PowerOfTen(MAXIMUM_DIGITS))
      && (l[key].Str? ==> |l[key].s| <= MAXIMUM_BYTES)
  }

  /** The document's bytes, or the refusals: bad keys or values, too long, or not read back. */
  ghost function SerializeDocument(d: Document<Text>, rules: Rules, o: Orders): Option<Bytes>
    requires OrdersOf(o, d)
  {
    var data := Encode(DocumentText(d, o));
    if !LayerWritable(d.metadata) || !LayerWritable(d.settings) then None
    else if exists name :: name in d.profiles && (!ProfileName(name) || !LayerWritable(d.profiles[name])) then None
    else if ParseDocument(data, rules).None? then None
    else Some(data)
  }

  /** Parse undoes serialize, for every document the parser can return. */
  lemma ParseUndoesSerialize(bytes: Bytes, d: Document<Text>, rules: Rules, o: Orders)
    requires ParseDocument(bytes, rules) == Some(d) && OrdersOf(o, d)
    ensures var data := SerializeDocument(d, rules, o);
      data.Some? ==> ParseDocument(data.value, rules) == Some(d)
  {
    ParsedIsGood(bytes, rules);
    WrittenReads(d, o, rules);
  }

  lemma {:induction false} EscapeGrows(s: Text)
    ensures |EscapeText(s)| >= |s|
  {
    if s != [] {
      EscapeGrows(s[1..]);
    }
  }

  lemma {:induction false} EntriesHold(l: Layer<Text>, order: seq<Text>, i: nat)
    requires i < |order| && forall k :: 0 <= k < |order| ==> order[k] in l
    ensures |Entries(l, order)| >= |FormatValue(l[order[i]])|
    decreases |order|
  {
    if i > 0 {
      EntriesHold(l, order[1..], i - 1);
    }
  }

  lemma ShortEntries(l: Layer<Text>, order: seq<Text>)
    requires Enumerates(order, l.Keys) && |Entries(l, order)| <= MAXIMUM_BYTES
    requires forall key :: key in l ==> KeyName(key) && Writable(l[key])
    ensures LayerWritable(l)
  {
    forall key | key in l && l[key].Str? ensures |l[key].s| <= MAXIMUM_BYTES {
      assert key in order;
      var i :| 0 <= i < |order| && order[i] == key;
      EntriesHold(l, order, i);
      EscapeGrows(l[key].s);
    }
  }

  lemma {:induction false} ProfilesHold(
    profiles: map<Text, Layer<Text>>, names: seq<Text>, keys: map<Text, seq<Text>>, i: nat)
    requires KeyOrders(profiles, names, keys) && i < |names|
    ensures KeyOrder(profiles, names[i], keys)
    ensures |ProfilesText(profiles, names, keys)| >= |Entries(profiles[names[i]], keys[names[i]])|
    decreases |names|
  {
    assert KeyOrder(profiles, names[0], keys);
    if i > 0 {
      ProfilesHold(profiles, names[1..], keys, i - 1);
    }
  }

  lemma SmallIsWritable(d: Document<Text>, o: Orders, rules: Rules)
    requires OrdersOf(o, d) && GoodDocument(d, rules) && |DocumentText(d, o)| <= MAXIMUM_BYTES
    ensures LayerWritable(d.metadata) && LayerWritable(d.settings)
    ensures forall name :: name in d.profiles ==> ProfileName(name) && LayerWritable(d.profiles[name])
  {
    ShortEntries(d.metadata, o.metadata);
    if d.settings != map[] {
      ShortEntries(d.settings, o.settings);
    }
    forall name | name in d.profiles ensures LayerWritable(d.profiles[name]) {
      assert name in o.names;
      var i :| 0 <= i < |o.names| && o.names[i] == name;
      ProfilesHold(d.profiles, o.names, o.keys, i);
      ShortEntries(d.profiles[name], o.keys[name]);
    }
  }

  /** The only thing a parsed document can be refused for is its size. */
  lemma SerializeRefusesOnlyOversize(bytes: Bytes, d: Document<Text>, rules: Rules, o: Orders)
    requires ParseDocument(bytes, rules) == Some(d) && OrdersOf(o, d)
    ensures SerializeDocument(d, rules, o).Some? <==> |Encode(DocumentText(d, o))| <= MAXIMUM_BYTES
  {
    ParsedIsGood(bytes, rules);
    WrittenReads(d, o, rules);
    DocumentIsAscii(d, o, rules);
    EncodeAscii(DocumentText(d, o));
    if |DocumentText(d, o)| <= MAXIMUM_BYTES {
      SmallIsWritable(d, o, rules);
    }
  }
}
