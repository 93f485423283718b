/** serialize_document (scripts/crystalhd-config.py) as it appends and joins its lines. */
module ConfigWriter {
  import opened Basics
  import opened ConfigUtf8
  import opened ConfigText
  import opened ConfigJson
  import opened ConfigJsonWriter
  import opened ConfigDocument
  import opened ConfigSerialize

  /** "\n".join */
  function JoinLines(lines: seq<Text>): Text {
    if lines == [] then []
    else if |lines| == 1 then lines[0]
    else lines[0] + [10] + JoinLines(lines[1..])
  }

  lemma {:induction false} JoinConcat(a: seq<Text>, b: seq<Text>)
    requires a != [] && b != []
    ensures JoinLines(a + b) == JoinLines(a) + [10] + JoinLines(b)
  {
    if |a| == 1 {
      assert (a + b)[1..] == b;
    } else {
      JoinConcat(a[1..], b);
      assert (a + b)[1..] == a[1..] + b;
    }
  }

  function EntryLines(l: Layer<Text>, order: seq<Text>): seq<Text>
    requires forall k :: 0 <= k < |order| ==> order[k] in l
  {
    if order == [] then [] else [EntryText(order[0], l[order[0]])] + EntryLines(l, order[1..])
  }

  function SectionLines(name: Text, l: Layer<Text>, order: seq<Text>): seq<Text>
    requires forall k :: 0 <= k < |order| ==> order[k] in l
  {
    [[91] + name + [93]] + EntryLines(l, order) + [[]]
  }

  lemma {:induction false} EntryLinesJoin(l: Layer<Text>, order: seq<Text>)
    requires forall k :: 0 <= k < |order| ==> order[k] in l
    ensures JoinLines(EntryLines(l, order) + [[]]) == Entries(l, order)
  {
    if order != [] {
      EntryLinesJoin(l, order[1..]);
      assert (EntryLines(l, order) + [[]])[1..] == EntryLines(l, order[1..]) + [[]];
    }
  }

  lemma SectionLinesJoin(name: Text, l: Layer<Text>, order: seq<Text>)
    requires forall k :: 0 <= k < |order| ==> order[k] in l
    ensures JoinLines(SectionLines(name, l, order)) == SectionText(name, l, order)
  {
    var lines := SectionLines(name, l, order);
    assert lines[1..] == EntryLines(l, order) + [[]];
    EntryLinesJoin(l, order);
  }

  predicate EntryWritable(key: Text, v: Value<Text>) {
    && KeyName(key)
    && (v.Int? ==> v.n < PowerOfTen(MAXIMUM_DIGITS))
    && (v.Str? ==> |v.s| <= MAXIMUM_BYTES)
  }

  ghost predicate FirstEntries(l: Layer<Text>, order: seq<Text>, n: nat)
    requires n <= |order| && forall k :: 0 <= k < |order| ==> order[k] in l
  {
    forall k :: 0 <= k < n ==> EntryWritable(order[k], l[order[k]])
  }

  lemma EntriesWritable(l: Layer<Text>, order: seq<Text>)
    requires Enumerates(order, l.Keys)
    ensures FirstEntries(l, order, |order|) <==> LayerWritable(l)
  {
    if FirstEntries(l, order, |order|) {
      forall key | key in l ensures EntryWritable(key, l[key]) {
        assert key in order;
      }
    } else {
      var k :| 0 <= k < |order| && !EntryWritable(order[k], l[order[k]]);
      assert order[k] in order;
    }
  }

  /** One section's lines appended, or a refusal. */
  method WriteSection(lines: seq<Text>, name: Text, l: Layer<Text>, order: seq<Text>) returns (ok: bool, result: seq<Text>)
    requires forall k :: 0 <= k < |order| ==> order[k] in l
    ensures ok == FirstEntries(l, order, |order|)
    ensures ok ==> result == lines + SectionLines(name, l, order)
  {
    result := lines + [[91] + name + [93]];
    ghost var base := result;
    var i := 0;
    assert order[..0] == [];
    while i < |order|
      invariant 0 <= i <= |order|
      invariant result == base + EntryLines(l, order[..i])
      invariant FirstEntries(l, order, i)
    {
      var key := order[i];
      if !EntryWritable(key, l[key]) {
        return false, [];
      }
      EntryLinesStep(l, order, i);
      LinesGrow(base, EntryLines(l, order[..i]), EntryText(key, l[key]));
      result := result + [EntryText(key, l[key])];
      i := i + 1;
    }
    assert order[..i] == order;
    result := result + [[]];
    SectionLinesAre(lines, name, l, order);
    ok := true;
  }

  lemma LinesGrow(base: seq<Text>, more: seq<Text>, line: Text)
    ensures base + more + [line] == base + (more + [line])
  {
  }

  lemma SectionLinesAre(lines: seq<Text>, name: Text, l: Layer<Text>, order: seq<Text>)
    requires forall k :: 0 <= k < |order| ==> order[k] in l
    ensures lines + [[91] + name + [93]] + EntryLines(l, order) + [[]] == lines + SectionLines(name, l, order)
  {
  }

  lemma {:induction false} EntryLinesStep(l: Layer<Text>, order: seq<Text>, i: nat)
    requires i < |order| && forall k :: 0 <= k < |order| ==> order[k] in l
    ensures EntryLines(l, order[..i + 1]) == EntryLines(l, order[..i]) + [EntryText(order[i], l[order[i]])]
    decreases i
  {
    if i > 0 {
      EntryLinesStep(l, order[1..], i - 1);
      assert order[..i + 1][1..] == order[1..][..i] && order[..i][1..] == order[1..][..i - 1];
    } else {
      assert order[..1][1..] == [] && order[..0] == [];
    }
  }

  /** The profile sections' lines. */
  ghost function ProfileLines(profiles: map<Text, Layer<Text>>, names: seq<Text>, keys: map<Text, seq<Text>>): seq<Text>
    requires KeyOrders(profiles, names, keys)
  {
    if names == [] then []
    else
      assert KeyOrder(profiles, names[0], keys);
      SectionLines(PROFILE_PREFIX + names[0], profiles[names[0]], keys[names[0]]) + ProfileLines(profiles, names[1..], keys)
  }

  lemma Regroup(a: seq<Text>, b: seq<Text>, c: seq<Text>)
    ensures a + (b + c) == (a + b) + c
  {
  }

  lemma Retext(a: Text, b: Text, c: Text)
    ensures a + [10] + b + c == a + ([10] + b + c)
  {
  }

  lemma {:induction false} ProfileLinesJoin(
    lines: seq<Text>, profiles: map<Text, Layer<Text>>, names: seq<Text>, keys: map<Text, seq<Text>>)
    requires KeyOrders(profiles, names, keys) && lines != []
    ensures JoinLines(lines + ProfileLines(profiles, names, keys)) == JoinLines(lines) + ProfilesText(profiles, names, keys)
    decreases |names|
  {
    if names == [] {
      assert lines + [] == lines;
    } else {
      var name, l := names[0], profiles[names[0]];
      assert KeyOrder(profiles, name, keys);
      var section := SectionLines(PROFILE_PREFIX + name, l, keys[name]);
      var text, more := SectionText(PROFILE_PREFIX + name, l, keys[name]), ProfilesText(profiles, names[1..], keys);
      SectionLinesJoin(PROFILE_PREFIX + name, l, keys[name]);
      JoinConcat(lines, section);
      ProfileLinesJoin(lines + section, profiles, names[1..], keys);
      Regroup(lines, section, ProfileLines(profiles, names[1..], keys));
      Retext(JoinLines(lines), text, more);
    }
  }

  lemma ProfileLinesFrom(profiles: map<Text, Layer<Text>>, names: seq<Text>, keys: map<Text, seq<Text>>, i: nat)
    requires i < |names| && KeyOrders(profiles, names[i..], keys)
    ensures KeyOrder(profiles, names[i], keys) && KeyOrders(profiles, names[i + 1..], keys)
    ensures ProfileLines(profiles, names[i..], keys)
      == SectionLines(PROFILE_PREFIX + names[i], profiles[names[i]], keys[names[i]]) + ProfileLines(profiles, names[i + 1..], keys)
  {
    var rest := names[i..];
    assert rest[0] == names[i] && rest[1..] == names[i + 1..];
    assert KeyOrder(profiles, rest[0], keys);
  }

  /** The profile names, checked before their sections are written. */
  method CheckNames(profiles: map<Text, Layer<Text>>, names: seq<Text>) returns (ok: bool)
    requires Enumerates(names, profiles.Keys)
    ensures ok == forall name :: name in profiles ==> ProfileName(name)
  {
    var i := 0;
    while i < |names|
      invariant 0 <= i <= |names|
      invariant forall k :: 0 <= k < i ==> ProfileName(names[k])
    {
      if !ProfileName(names[i]) {
        assert names[i] in names;
        return false;
      }
      i := i + 1;
    }
    ok := true;
    forall name | name in profiles ensures ProfileName(name) {
      assert name in names;
    }
  }

  ghost predicate ProfileWritable(profiles: map<Text, Layer<Text>>, name: Text) {
    name in profiles && LayerWritable(profiles[name])
  }

  ghost predicate FirstWritable(profiles: map<Text, Layer<Text>>, names: seq<Text>, n: nat)
    requires n <= |names|
  {
    forall k :: 0 <= k < n ==> ProfileWritable(profiles, names[k])
  }

  lemma AllWritable(profiles: map<Text, Layer<Text>>, names: seq<Text>)
    requires Enumerates(names, profiles.Keys)
    ensures FirstWritable(profiles, names, |names|) <==> forall name :: name in profiles ==> LayerWritable(profiles[name])
  {
    if FirstWritable(profiles, names, |names|) {
      forall name | name in profiles ensures ProfileWritable(profiles, name) {
        assert name in names;
      }
    } else {
      var k :| 0 <= k < |names| && !ProfileWritable(profiles, names[k]);
      assert names[k] in names;
    }
  }

  /** One profile's section. */
  method WriteProfile(lines: seq<Text>, name: Text, l: Layer<Text>, order: seq<Text>) returns (ok: bool, result: seq<Text>)
    requires Enumerates(order, l.Keys)
    ensures ok == LayerWritable(l)
    ensures ok ==> result == lines + SectionLines(PROFILE_PREFIX + name, l, order)
  {
    EntriesWritable(l, order);
    ok, result := WriteSection(lines, PROFILE_PREFIX + name, l, order);
  }

  method WriteProfiles(lines: seq<Text>, profiles: map<Text, Layer<Text>>, names: seq<Text>, keys: map<Text, seq<Text>>)
    returns (ok: bool, result: seq<Text>)
    requires KeyOrders(profiles, names, keys)
    ensures ok == FirstWritable(profiles, names, |names|)
    ensures ok ==> result == lines + ProfileLines(profiles, names, keys)
  {
    result := lines;
    var i := 0;
    ghost var all := lines + ProfileLines(profiles, names, keys);
    assert names[0..] == names;
    while i < |names|
      invariant 0 <= i <= |names| && KeyOrders(profiles, names[i..], keys)
      invariant result + ProfileLines(profiles, names[i..], keys) == all
      invariant FirstWritable(profiles, names, i)
    {
      var name := names[i];
      ProfileLinesFrom(profiles, names, keys, i);
      var l, order := profiles[name], keys[name];
      Regroup(result, SectionLines(PROFILE_PREFIX + name, l, order), ProfileLines(profiles, names[i + 1..], keys));
      ok, result := WriteProfile(result, name, l, order);
      assert ok == ProfileWritable(profiles, name);
      if !ok {
        return;
      }
      i := i + 1;
    }
    assert names[i..] == [];
    ok := true;
  }

  function BaseLines(d: Document<Text>, keys: seq<Text>, settings: seq<Text>): seq<Text>
    requires forall k :: 0 <= k < |keys| ==> keys[k] in d.metadata
    requires forall k :: 0 <= k < |settings| ==> settings[k] in d.settings
  {
    SectionLines(CRYSTALHD, d.metadata, keys)
    + (if d.settings == map[] then [] else SectionLines(SETTINGS, d.settings, settings))
  }

  lemma BaseJoins(d: Document<Text>, o: Orders)
    requires OrdersOf(o, d)
    ensures JoinLines(BaseLines(d, o.metadata, o.settings)) == BaseText(d, o)
  {
    var meta := SectionLines(CRYSTALHD, d.metadata, o.metadata);
    SectionLinesJoin(CRYSTALHD, d.metadata, o.metadata);
    if d.settings == map[] {
      assert meta + [] == meta;
    } else {
      SectionLinesJoin(SETTINGS, d.settings, o.settings);
      JoinConcat(meta, SectionLines(SETTINGS, d.settings, o.settings));
    }
  }

  /** The metadata section, and the settings if there are any. */
  method WriteBase(d: Document<Text>, keys: seq<Text>, settings: seq<Text>) returns (ok: bool, lines: seq<Text>)
    requires Enumerates(keys, d.metadata.Keys) && Enumerates(settings, d.settings.Keys)
    ensures ok == (LayerWritable(d.metadata) && LayerWritable(d.settings))
    ensures ok ==> lines == BaseLines(d, keys, settings)
  {
    EntriesWritable(d.metadata, keys);
    EntriesWritable(d.settings, settings);
    ok, lines := WriteSection([], CRYSTALHD, d.metadata, keys);
    if ok && |d.settings| > 0 {
      ok, lines := WriteSection(lines, SETTINGS, d.settings, settings);
    }
  }

  /** serialize_document */
  method Serialize(d: Document<Text>, rules: Rules, o: Orders) returns (data: Option<Bytes>)
    requires OrdersOf(o, d)
    ensures data == SerializeDocument(d, rules, o)
  {
    var written, lines := WriteBase(d, o.metadata, o.settings);
    if !written {
      return None;
    }
    BaseJoins(d, o);
    var named := CheckNames(d.profiles, o.names);
    if !named {
      return None;
    }
    ghost var base := lines;
    written, lines := WriteProfiles(lines, d.profiles, o.names, o.keys);
    AllWritable(d.profiles, o.names);
    if !written {
      return None;
    }
    ProfileLinesJoin(base, d.profiles, o.names, o.keys);
    var bytes := EncodeText(JoinLines(lines));
    if ParseDocument(bytes, rules).None? {
      return None;
    }
    data := Some(bytes);
  }
}
