/**
  What a lazy write is read as: every entry of the file with the value of its last line, as that line was printed, and
  everything else as the structure has it.
 */
module IniReadBack {
  import opened Wrappers
  import opened IniText
  import opened IniParser
  import opened IniLines
  import opened IniRewrite
  import opened IniMap
  import opened IniReader
  import opened IniMeaning
  import opened IniWriter
  import opened IniLazy
  import opened IniLayout

  // ---------------------------------------------------------------- entries that stay

  /** Values of keys that begin with a bracket hold no section mark. Nothing else can be read. */
  ghost predicate PlainValues(want: Maps) {
    forall s, k :: s in want && k in want[s] && Starts(k, '[') ==> NoSectionMarks(Trim(want[s][k]))
  }

  ghost predicate PlainSection(es: Section) {
    forall k :: Has(es, k) && Starts(k, '[') ==> NoSectionMarks(Trim(Lookup(es, k)))
  }

  /** The value that the line printed for an entry is read with. */
  function ReadValue(line: string, value: string, pretty: bool): string
    requires ParseLine(line).KeyValue?
  {
    EntryHasDelimiter(line);
    if ParseLine(line).value == value then value
    else match ParseLine(RewriteLine(line, value, pretty)) case KeyValue(_, v) => v case _ => ""
  }

  /**
    The line printed for an entry is read as an entry of the same key, with its new value exactly if it could be
    changed.
   */
  lemma StayingReads(es: Section, line: string, pretty: bool)
    requires StaysIn(es, line) && PlainSection(es)
    ensures var value := Lookup(es, Norm(ParseLine(line).key));
      && |Staying(es, line, pretty)| == 1
      && ParseLine(Staying(es, line, pretty)[0]) == KeyValue(ParseLine(line).key, ReadValue(line, value, pretty))
      && (ReadValue(line, value, pretty) == Trim(value) <==> ParseLine(line).value == value || Changeable(line, value))
  {
    hide ParseLine, Norm, Trim, RewriteLine, HasDelimiter, IndexOf, NoSectionMarks, Starts;
    var value := Lookup(es, Norm(ParseLine(line).key));
    BracketKey(line);
    if ParseLine(line).value == value {
      ValueIsTrimmed(line);
    } else {
      RewrittenInPlace(line, value, pretty);
      RewrittenReads(line, value, pretty);
    }
  }

  /** What one line makes of its section. */
  function Change(es: Section, line: string, pretty: bool): map<string, string> {
    if StaysIn(es, line) then
      var key := Norm(ParseLine(line).key); map[key := ReadValue(line, Lookup(es, key), pretty)]
    else map[]
  }

  function Changes(es: Section, body: seq<string>, pretty: bool): map<string, string>
    decreases |body|
  {
    if body == [] then map[] else Change(es, body[0], pretty) + Changes(es, body[1..], pretty)
  }

  lemma AddAll(maps: Maps, s: string, a: map<string, string>, b: map<string, string>)
    requires s in maps
    ensures maps[s := maps[s] + a][s := maps[s] + a + b] == maps[s := maps[s] + (a + b)]
    ensures maps[s := maps[s] + map[]] == maps
  {
    assert maps[s] + a + b == maps[s] + (a + b);
    assert maps[s] + map[] == maps[s];
  }

  /** Reading the lines that stay makes these changes and no other. */
  lemma {:induction false} StayingMeans(m: Meaning, s: string, es: Section, body: seq<string>, pretty: bool)
    requires m.open == Some(s) && s in m.maps && PlainSection(es)
    ensures MeanAll(m, StayingLines(es, body, pretty)) == m.(maps := m.maps[s := m.maps[s] + Changes(es, body, pretty)])
    decreases |body|
  {
    hide Staying, Change, PlainSection, Mean;
    if body == [] {
      AddAll(m.maps, s, map[], map[]);
    } else {
      var own, rest := Staying(es, body[0], pretty), StayingLines(es, body[1..], pretty);
      LineStays(m, s, es, body[0], pretty);
      MeanConcat(m, own, rest);
      StayingMeans(MeanAll(m, own), s, es, body[1..], pretty);
      AddAll(m.maps, s, Change(es, body[0], pretty), Changes(es, body[1..], pretty));
    }
  }

  lemma LineStays(m: Meaning, s: string, es: Section, line: string, pretty: bool)
    requires m.open == Some(s) && s in m.maps && PlainSection(es)
    ensures MeanAll(m, Staying(es, line, pretty)) == m.(maps := m.maps[s := m.maps[s] + Change(es, line, pretty)])
  {
    hide ParseLine, Norm, Lookup, ReadValue, PlainSection, Has, RewriteLine, HasDelimiter;
    AddAll(m.maps, s, map[], map[]);
    if StaysIn(es, line) {
      StayingReads(es, line, pretty);
      var own := Staying(es, line, pretty);
      assert own == [own[0]] && own[1..] == [];
      var key, value := Norm(ParseLine(line).key), ReadValue(line, Lookup(es, Norm(ParseLine(line).key)), pretty);
      assert m.maps[s][key := value] == m.maps[s] + map[key := value];
    } else if Quiet(line) {
      assert [line][1..] == [];
    }
  }

  // ---------------------------------------------------------------- new keys

  /** The entries that `original` lacks, as they are read. */
  function Additions(es: Section, original: Section): map<string, string>
    decreases |es|
  {
    if es == [] then map[] else Addition(es[0], original) + Additions(es[1..], original)
  }

  /** The same for one entry. */
  function Addition(entry: (string, string), original: Section): map<string, string> {
    if Has(original, entry.0) then map[] else map[entry.0 := Trim(entry.1)]
  }

  lemma AdditionMeans(m: Meaning, s: string, entry: (string, string), original: Section, pretty: bool)
    requires m.open == Some(s) && s in m.maps && Normal(entry.0)
    requires (!Has(original, entry.0) ==> Readable(entry.0, entry.1, pretty))
    ensures MeanAll(m, NewKeyLines([entry], original, pretty))
      == m.(maps := m.maps[s := m.maps[s] + Addition(entry, original)])
  {
    hide Trim, ParseLine, Norm, Readable, KeyLine, Has;
    var (key, value) := entry;
    assert Norm(key) == key && [entry][1..] == [];
    AddAll(m.maps, s, map[], map[]);
    if !Has(original, key) {
      KeyLineMeans(m, key, value, pretty);
      OneMean(m, KeyLine(key, value, pretty));
      assert m.maps[s][key := Trim(value)] == m.maps[s] + map[key := Trim(value)];
      assert [KeyLine(key, value, pretty)] + [] == [KeyLine(key, value, pretty)];
    }
  }

  lemma FirstKeyLine(es: Section, original: Section, pretty: bool)
    requires es != []
    ensures NewKeyLines(es, original, pretty)
      == NewKeyLines([es[0]], original, pretty) + NewKeyLines(es[1..], original, pretty)
  {
    hide Norm, KeyLine, Has;
    assert [es[0]][1..] == [];
  }

  lemma {:induction false} AdditionsMean(m: Meaning, s: string, es: Section, original: Section, pretty: bool)
    requires m.open == Some(s) && s in m.maps && NewKeysReadable(es, original, pretty)
    requires forall i :: 0 <= i < |es| ==> Normal(es[i].0)
    ensures MeanAll(m, NewKeyLines(es, original, pretty))
      == m.(maps := m.maps[s := m.maps[s] + Additions(es, original)])
    decreases |es|
  {
    hide Mean, NewKeyLines, Addition, Normal, Readable, Has;
    if es == [] {
      AddAll(m.maps, s, map[], map[]);
      NoKeyLines(original, pretty);
    } else {
      var first, rest := NewKeyLines([es[0]], original, pretty), NewKeyLines(es[1..], original, pretty);
      assert forall i :: 0 <= i < |es[1..]| ==> es[1..][i] == es[i + 1];
      FirstKeyLine(es, original, pretty);
      AdditionMeans(m, s, es[0], original, pretty);
      MeanConcat(m, first, rest);
      AdditionsMean(MeanAll(m, first), s, es[1..], original, pretty);
      AddAll(m.maps, s, Addition(es[0], original), Additions(es[1..], original));
    }
  }

  /** They are the wanted keys that were not there. */
  lemma {:induction false} AdditionsAre(es: Section, original: Section)
    requires Keyed(es)
    ensures forall k :: k in Additions(es, original) <==> Has(es, k) && !Has(original, k)
    ensures forall k :: k in Additions(es, original) ==> Additions(es, original)[k] == Trim(Lookup(es, k))
    decreases |es|
  {
    hide Trim, Keyed, Has, Lookup;
    if es == [] {
      NothingHas();
    } else {
      RestKeyed(es);
      AdditionsAre(es[1..], original);
      forall k ensures k in Additions(es, original) <==> Has(es, k) && !Has(original, k) {
        HasCons(es, k);
      }
      forall k | k in Additions(es, original) ensures Additions(es, original)[k] == Trim(Lookup(es, k)) {
        HasCons(es, k);
      }
    }
  }

  lemma RestKeyed(es: Section)
    requires Keyed(es) && es != []
    ensures Keyed(es[1..]) && !Has(es[1..], es[0].0)
  {
    hide Normal;
    assert forall i :: 0 <= i < |es[1..]| ==> es[1..][i] == es[i + 1];
  }

  lemma HasCons(es: Section, k: string)
    requires es != []
    ensures Has(es, k) <==> k == es[0].0 || Has(es[1..], k)
    ensures k == es[0].0 ==> Lookup(es, k) == es[0].1
    ensures k != es[0].0 && Has(es[1..], k) ==> Lookup(es, k) == Lookup(es[1..], k)
  {
  }

  // ---------------------------------------------------------------- one section

  lemma QuietTail(m: Meaning, lines: seq<string>, n: nat)
    requires n <= |lines| && AllQuiet(lines[n..])
    ensures MeanAll(m, lines) == MeanAll(m, lines[..n])
  {
    hide Mean, AllQuiet;
    assert lines == lines[..n] + lines[n..];
    MeanConcat(m, lines[..n], lines[n..]);
    QuietMeansNothing(MeanAll(m, lines[..n]), lines[n..]);
  }

  lemma KeptSectionMeans(m: Meaning, line: string, name: string, body: seq<string>, es: Section, original: Section,
                         pretty: bool)
    requires ParseLine(line).Section? && Norm(ParseLine(line).name) == name
    requires PlainSection(es) && NewKeysReadable(es, original, pretty) && forall i :: 0 <= i < |es| ==> Normal(es[i].0)
    ensures var maps := Opened(m.maps, name);
      MeanAll(m, KeptSection(line, body, es, NewKeyLines(es, original, pretty), pretty))
        == Meaning(maps[name := maps[name] + Changes(es, body, pretty) + Additions(es, original)], Some(name))
  {
    hide ParseLine, Norm, Normal, PlainSection, StayingLines, UpToLastKey, NewKeyLines, Changes, Additions,
      NewKeysReadable, AllQuiet, MeanAll, Opened;
    var staying, n, added := StayingLines(es, body, pretty), UpToLastKey(es, body, pretty), NewKeyLines(es, original,
                                          pretty);
    var last := LastKey(es, body, pretty);
    var all := [line] + staying[..n] + added + staying[n..];
    OpenedHas(m.maps, name);
    OneMean(m, line);
    var begun := Mean(m, line);
    StayingMeans(begun, name, es, body, pretty);
    QuietTail(begun, staying, n);
    var changed := MeanAll(begun, staying);
    AdditionsMean(changed, name, es, original, pretty);
    assert all[..1 + n + |added|] == [line] + staying[..n] + added && all[1 + n + |added|..] == staying[n..];
    QuietTail(m, all, 1 + n + |added|);
    MeanConcat(m, [line] + staying[..n], added);
    MeanConcat(m, [line], staying[..n]);
  }

  lemma OneMean(m: Meaning, line: string)
    ensures MeanAll(m, [line]) == Mean(m, line)
  {
    hide Mean;
    assert [line][1..] == [];
  }

  lemma {:induction false} RemainsMean(m: Meaning, body: seq<string>, discard: bool)
    ensures MeanAll(m, Remains(body, discard)) == m
    decreases |body|
  {
    hide ParseLine;
    if body != [] {
      RemainsMean(m, body[1..], false);
      RemainsMean(m, body[1..], discard);
      if Quiet(body[0]) && !(discard && body[0] == "") {
        assert ([body[0]] + Remains(body[1..], discard))[1..] == Remains(body[1..], discard);
      } else {
        assert [] + Remains(body[1..], discard) == Remains(body[1..], discard);
      }
    }
  }

  // ---------------------------------------------------------------- what is expected of the sections of the file

  /** The entries so far, each with the value that its last line is read with. */
  function ExpectedIn(expected: Maps, line: string, body: seq<string>, data: Structure, pretty: bool): Maps
    requires ParseLine(line).Section?
  {
    var name := Norm(ParseLine(line).name);
    if Has(data, name) then
      Extended(expected, name, Changes(Lookup(data, name), body, pretty))
    else expected
  }

  function Expected(expected: Maps, lines: seq<string>, data: Structure, pretty: bool): Maps
    requires lines != [] ==> ParseLine(lines[0]).Section?
    decreases |lines|
  {
    if lines == [] then expected
    else
      var n := BodyLength(lines[1..]);
      NextSection(lines[1..]);
      Expected(ExpectedIn(expected, lines[0], lines[1..][..n], data, pretty), lines[1..][n..], data, pretty)
  }

  /** The new keys of a section that stays. */
  ghost function AdditionsTo(s: string, data: Structure, original: Structure): map<string, string> {
    if Has(data, s) && Has(original, s) then Additions(Lookup(data, s), Lookup(original, s)) else map[]
  }

  /** The same with the new keys. */
  ghost function Filled(expected: Maps, data: Structure, original: Structure): Maps {
    map s | s in expected :: AdditionsTo(s, data, original) + expected[s]
  }

  /** Nothing is expected that was not there or is not wanted. */
  ghost predicate Tracked(expected: Maps, data: Structure, original: Structure) {
    forall s :: s in expected ==>
      && Has(data, s) && Has(original, s)
      && forall k :: k in expected[s] ==> Has(Lookup(data, s), k) && Has(Lookup(original, s), k)
  }

  ghost predicate KnownIn(os: Section, body: seq<string>) {
    forall i :: 0 <= i < |body| && ParseLine(body[i]).KeyValue? ==> Has(os, Norm(ParseLine(body[i]).key))
  }

  lemma {:induction false} ChangesKnown(es: Section, os: Section, body: seq<string>, pretty: bool)
    requires KnownIn(os, body)
    ensures forall k :: k in Changes(es, body, pretty) ==> Has(es, k) && Has(os, k)
    decreases |body|
  {
    hide ParseLine, Norm, Has, Lookup, ReadValue;
    if body != [] {
      assert forall i :: 0 <= i < |body[1..]| ==> body[1..][i] == body[i + 1];
      ChangesKnown(es, os, body[1..], pretty);
    }
  }

  /** The entry of one section is put in. */
  function Extended(expected: Maps, name: string, changes: map<string, string>): Maps {
    expected[name := (if name in expected then expected[name] else map[]) + changes]
  }

  lemma StaysTracked(expected: Maps, name: string, changes: map<string, string>, data: Structure, original: Structure)
    requires Tracked(expected, data, original) && Has(data, name) && Has(original, name)
    requires forall k :: k in changes ==> Has(Lookup(data, name), k) && Has(Lookup(original, name), k)
    ensures Tracked(Extended(expected, name, changes), data, original)
  {
    hide IndexOf;
  }

  lemma FillsUp(expected: Maps, name: string, changes: map<string, string>, data: Structure, original: Structure)
    requires Tracked(expected, data, original) && Has(data, name) && Has(original, name)
    requires forall k :: k in AdditionsTo(name, data, original) ==> !Has(Lookup(original, name), k)
    requires forall k :: k in changes ==> Has(Lookup(original, name), k)
    ensures var maps, added := Opened(Filled(expected, data, original), name), AdditionsTo(name, data, original);
      maps[name := maps[name] + changes + added] == Filled(Extended(expected, name, changes), data, original)
  {
    hide Has, Lookup, AdditionsTo;
    var added, before := AdditionsTo(name, data, original), if name in expected then expected[name] else map[];
    var inner := if name in expected then added + before else map[];
    assert inner + changes + added == added + (before + changes);
    OpenedFilled(expected, name, changes, data, original);
  }

  lemma FilledAt(expected: Maps, data: Structure, original: Structure)
    ensures forall s :: s in Filled(expected, data, original) <==> s in expected
    ensures forall s :: s in expected ==>
      Filled(expected, data, original)[s] == AdditionsTo(s, data, original) + expected[s]
  {
    hide AdditionsTo;
  }

  lemma UpdateIs<T>(a: map<string, T>, b: map<string, T>, name: string, value: T)
    requires name in b && b[name] == value && (forall s :: s in b <==> s == name || s in a)
    requires forall s :: s in a && s != name ==> b[s] == a[s]
    ensures a[name := value] == b
  {
  }

  lemma OpenedFilled(expected: Maps, name: string, changes: map<string, string>, data: Structure, original: Structure)
    ensures var maps, next := Opened(Filled(expected, data, original), name), Extended(expected, name, changes);
      && name in maps
      && maps[name] == (if name in expected then AdditionsTo(name, data, original) + expected[name] else map[])
      && maps[name := AdditionsTo(name, data, original) + next[name]] == Filled(next, data, original)
  {
    hide AdditionsTo, Filled;
    var maps, next := Opened(Filled(expected, data, original), name), Extended(expected, name, changes);
    FilledAt(expected, data, original);
    FilledAt(next, data, original);
    var filled := Filled(next, data, original);
    forall s | s in maps && s != name ensures filled[s] == maps[s] {
      assert next[s] == expected[s];
    }
    assert forall s :: s in filled <==> s == name || s in maps;
    hide *;
    UpdateIs(maps, filled, name, AdditionsTo(name, data, original) + next[name]);
  }

  // ---------------------------------------------------------------- all sections of the file

  lemma {:induction false} KnownConcat(maps: Maps, open: Option<string>, a: seq<string>, b: seq<string>)
    ensures Known(maps, open, a + b) <==> Known(maps, open, a) && Known(maps, OpenAfter(open, a), b)
    decreases |a|
  {
    hide KnownAt, ParseLine, Norm;
    if a == [] {
      assert a + b == b;
    } else {
      assert (a + b)[1..] == a[1..] + b && (a + b)[..1] == a[..1];
      KnownConcat(maps, OpenAfter(open, a[..1]), a[1..], b);
      OpenConcat(open, a[..1], a[1..]);
      assert a[..1] + a[1..] == a;
    }
  }

  lemma {:induction false} KnownBody(maps: Maps, s: string, body: seq<string>)
    requires Known(maps, Some(s), body) && forall i :: 0 <= i < |body| ==> !ParseLine(body[i]).Section?
    ensures OpenAfter(Some(s), body) == Some(s)
    ensures forall i :: 0 <= i < |body| && ParseLine(body[i]).KeyValue? ==>
      s in maps && Norm(ParseLine(body[i]).key) in maps[s]
    decreases |body|
  {
    hide ParseLine, Norm;
    if body != [] {
      assert body[..1] == [body[0]];
      OpenAfterOne(Some(s), body[0]);
      assert forall i :: 0 <= i < |body[1..]| ==> body[1..][i] == body[i + 1];
      KnownBody(maps, s, body[1..]);
    }
  }

  /** What is known of a section line and the lines up to the next one. */
  lemma KnownSection(original: Structure, open: Option<string>, line: string, body: seq<string>, rest: seq<string>)
    requires WellKeyed(original) && Known(ToMaps(original), open, [line] + body + rest) && ParseLine(line).Section?
    requires forall i :: 0 <= i < |body| ==> !ParseLine(body[i]).Section?
    ensures var name := Norm(ParseLine(line).name);
      Has(original, name) && KnownIn(Lookup(original, name), body) && Known(ToMaps(original), Some(name), rest)
  {
    hide ParseLine, Norm, ToMaps, WellKeyed, Has, Lookup;
    var maps, name := ToMaps(original), Norm(ParseLine(line).name);
    KnownConcat(maps, open, [line] + body, rest);
    KnownConcat(maps, open, [line], body);
    OpenConcat(open, [line], body);
    OpenAfterOne(open, line);
    assert KnownAt(maps, open, line);
    KnownBody(maps, name, body);
    SectionFacts(original, name);
  }

  lemma PlainHere(data: Structure, name: string)
    requires WellKeyed(data) && PlainValues(ToMaps(data)) && Has(data, name)
    ensures PlainSection(Lookup(data, name)) && Keyed(Lookup(data, name))
    ensures forall i :: 0 <= i < |Lookup(data, name)| ==> Normal(Lookup(data, name)[i].0)
  {
    hide ToMaps, Has, Lookup, Normal, Trim, NoSectionMarks, Starts, WellKeyed;
    SectionFacts(data, name);
    LookupWellKeyed(data, name);
  }

  lemma SectionMeans(m: Meaning, expected: Maps, open: Option<string>, line: string, body: seq<string>,
                     rest: seq<string>, data: Structure, original: Structure, pretty: bool)
    requires Ready(data, original, pretty) && PlainValues(ToMaps(data))
    requires Known(ToMaps(original), open, [line] + body + rest) && ParseLine(line).Section?
    requires forall i :: 0 <= i < |body| ==> !ParseLine(body[i]).Section?
    requires m.maps == Filled(expected, data, original) && Tracked(expected, data, original)
    ensures var next := ExpectedIn(expected, line, body, data, pretty);
      && MeanAll(m, SectionLayout(line, body, data, original, pretty)).maps == Filled(next, data, original)
      && Tracked(next, data, original) && Known(ToMaps(original), Some(Norm(ParseLine(line).name)), rest)
  {
    hide ParseLine, Norm, ToMaps, WellKeyed, Has, Lookup, Changes, Additions, Filled, Tracked, MeanAll, KeptSection,
      Remains, Known, Opened, KnownIn, Normal, Addable, PlainValues, PlainSection, Extended, Keyed, NewKeysReadable,
      NewKeyLines;
    var name := Norm(ParseLine(line).name);
    KnownSection(original, open, line, body, rest);
    if Has(data, name) {
      var es, os := Lookup(data, name), Lookup(original, name);
      PlainHere(data, name);
      NewKeysReadableHere(data, original, pretty, name);
      KeptSectionMeans(m, line, name, body, es, os, pretty);
      ChangesKnown(es, os, body, pretty);
      AdditionsAre(es, os);
      StaysTracked(expected, name, Changes(es, body, pretty), data, original);
      FillsUp(expected, name, Changes(es, body, pretty), data, original);
    } else {
      RemainsMean(m, body, true);
    }
  }

  lemma {:induction false} LayoutMeans(m: Meaning, expected: Maps, open: Option<string>, lines: seq<string>,
                                       data: Structure, original: Structure, pretty: bool)
    requires Ready(data, original, pretty) && PlainValues(ToMaps(data)) && Known(ToMaps(original), open, lines)
    requires lines != [] ==> ParseLine(lines[0]).Section?
    requires m.maps == Filled(expected, data, original) && Tracked(expected, data, original)
    ensures var all := Expected(expected, lines, data, pretty);
      MeanAll(m, Layout(lines, data, original, pretty)).maps == Filled(all, data, original)
          && Tracked(all, data, original)
    decreases |lines|
  {
    hide ParseLine, Norm, ToMaps, Ready, Filled, Tracked, Mean, SectionLayout, Known, PlainValues, ExpectedIn;
    if lines != [] {
      var line, n := lines[0], BodyLength(lines[1..]);
      var body, rest := lines[1..][..n], lines[1..][n..];
      NextSection(lines[1..]);
      assert lines == [line] + body + rest;
      SectionMeans(m, expected, open, line, body, rest, data, original, pretty);
      var own := SectionLayout(line, body, data, original, pretty);
      MeanConcat(m, own, Layout(rest, data, original, pretty));
      LayoutMeans(MeanAll(m, own), ExpectedIn(expected, line, body, data, pretty), Some(Norm(ParseLine(line).name)),
        rest, data, original, pretty);
    }
  }

  // ---------------------------------------------------------------- the same, line by line

  function Expect(e: Meaning, line: string, data: Structure, pretty: bool): Meaning {
    match ParseLine(line)
    case Section(name) => Meaning(if Has(data, Norm(name)) then Opened(e.maps, Norm(name)) else e.maps,
        Some(Norm(name)))
    case KeyValue(_, _) =>
      if e.open.Some? && e.open.value in e.maps && Has(data, e.open.value) then
        var s := e.open.value;
        e.(maps := e.maps[s := e.maps[s] + Change(Lookup(data, s), line, pretty)])
      else e
    case _ => e
  }

  function ExpectAll(e: Meaning, lines: seq<string>, data: Structure, pretty: bool): Meaning
    decreases |lines|
  {
    if lines == [] then e else ExpectAll(Expect(e, lines[0], data, pretty), lines[1..], data, pretty)
  }

  lemma {:induction false} ExpectConcat(e: Meaning, a: seq<string>, b: seq<string>, data: Structure, pretty: bool)
    ensures ExpectAll(e, a + b, data, pretty) == ExpectAll(ExpectAll(e, a, data, pretty), b, data, pretty)
    decreases |a|
  {
    hide Expect;
    if a == [] {
      assert a + b == b;
    } else {
      assert (a + b)[1..] == a[1..] + b;
      ExpectConcat(Expect(e, a[0], data, pretty), a[1..], b, data, pretty);
    }
  }

  lemma {:induction false} ExpectBody(e: Meaning, s: string, body: seq<string>, data: Structure, pretty: bool)
    requires e.open == Some(s) && (s in e.maps <==> Has(data, s))
    requires forall i :: 0 <= i < |body| ==> !ParseLine(body[i]).Section?
    ensures ExpectAll(e, body, data, pretty)
      == if Has(data, s) then e.(maps := e.maps[s := e.maps[s] + Changes(Lookup(data, s), body, pretty)]) else e
    decreases |body|
  {
    hide ParseLine, Norm, Change, Lookup, Has, StaysIn;
    if body == [] {
      if Has(data, s) {
        AddAll(e.maps, s, map[], map[]);
      }
    } else {
      assert forall i :: 0 <= i < |body[1..]| ==> body[1..][i] == body[i + 1];
      ExpectBody(Expect(e, body[0], data, pretty), s, body[1..], data, pretty);
      if Has(data, s) {
        OnlyEntriesChange(Lookup(data, s), body[0], pretty);
        AddAll(e.maps, s, Change(Lookup(data, s), body[0], pretty), Changes(Lookup(data, s), body[1..], pretty));
      }
    }
  }

  lemma OnlyEntriesChange(es: Section, line: string, pretty: bool)
    ensures !ParseLine(line).KeyValue? ==> Change(es, line, pretty) == map[]
  {
    hide ParseLine, Norm, Has, ReadValue;
  }

  lemma ExpectSection(e: Meaning, line: string, body: seq<string>, data: Structure, pretty: bool)
    requires ParseLine(line).Section? && forall i :: 0 <= i < |body| ==> !ParseLine(body[i]).Section?
    requires forall s :: s in e.maps ==> Has(data, s)
    ensures ExpectAll(e, [line] + body, data, pretty)
      == Meaning(ExpectedIn(e.maps, line, body, data, pretty), Some(Norm(ParseLine(line).name)))
  {
    hide ParseLine, Norm, Changes, Lookup, Has;
    assert ([line] + body)[1..] == body;
    var begun, name := Expect(e, line, data, pretty), Norm(ParseLine(line).name);
    ExpectBody(begun, name, body, data, pretty);
    if Has(data, name) {
      var changes := Changes(Lookup(data, name), body, pretty);
      assert map[] + changes == changes;
      assert begun.maps[name := begun.maps[name] + changes] == Extended(e.maps, name, changes);
    }
  }

  lemma ExpectedHas(expected: Maps, line: string, body: seq<string>, data: Structure, pretty: bool)
    requires ParseLine(line).Section? && forall s :: s in expected ==> Has(data, s)
    ensures forall s :: s in ExpectedIn(expected, line, body, data, pretty) ==> Has(data, s)
  {
    hide ParseLine, Norm, Changes, Lookup, Has;
  }

  lemma {:induction false} ExpectedIs(e: Meaning, lines: seq<string>, data: Structure, pretty: bool)
    requires (lines != [] ==> ParseLine(lines[0]).Section?) && forall s :: s in e.maps ==> Has(data, s)
    ensures ExpectAll(e, lines, data, pretty).maps == Expected(e.maps, lines, data, pretty)
    decreases |lines|
  {
    hide ParseLine, Norm, Expect, ExpectedIn, Has;
    if lines != [] {
      var line, n := lines[0], BodyLength(lines[1..]);
      var body, rest := lines[1..][..n], lines[1..][n..];
      NextSection(lines[1..]);
      assert lines == [line] + body + rest;
      ExpectConcat(e, [line] + body, rest, data, pretty);
      ExpectSection(e, line, body, data, pretty);
      ExpectedHas(e.maps, line, body, data, pretty);
      ExpectedIs(ExpectAll(e, [line] + body, data, pretty), rest, data, pretty);
    }
  }

  /** The sections and keys that are both read and wanted. */
  ghost predicate Mirrors(expected: Maps, read: Maps, data: Structure) {
    forall s :: (s in expected <==> s in read && Has(data, s))
      && (s in expected ==> forall k :: k in expected[s] <==> k in read[s] && Has(Lookup(data, s), k))
  }

  lemma MirrorStep(e: Meaning, read: Meaning, line: string, data: Structure, pretty: bool)
    requires Mirrors(e.maps, read.maps, data) && e.open == read.open
    requires (read.open.Some? ==> read.open.value in read.maps)
    ensures var e', read' := Expect(e, line, data, pretty), Mean(read, line);
      Mirrors(e'.maps, read'.maps, data) && e'.open == read'.open
          && (read'.open.Some? ==> read'.open.value in read'.maps)
  {
    hide ParseLine, Norm, Has, Lookup, ReadValue, IndexOf;
  }

  lemma {:induction false} ExpectMirrors(e: Meaning, read: Meaning, lines: seq<string>, data: Structure, pretty: bool)
    requires Mirrors(e.maps, read.maps, data) && e.open == read.open
    requires (read.open.Some? ==> read.open.value in read.maps)
    ensures Mirrors(ExpectAll(e, lines, data, pretty).maps, MeanAll(read, lines).maps, data)
    decreases |lines|
  {
    hide Mirrors, Expect, Mean;
    if lines != [] {
      MirrorStep(e, read, lines[0], data, pretty);
      ExpectMirrors(Expect(e, lines[0], data, pretty), Mean(read, lines[0]), lines[1..], data, pretty);
    }
  }

  // ---------------------------------------------------------------- the last line of every key

  /** A later line has an entry of key `k` in section `s`. */
  ghost predicate GivenLater(open: Option<string>, lines: seq<string>, s: string, k: string)
    decreases |lines|
  {
    lines != [] &&
    ((ParseLine(lines[0]).KeyValue? && open == Some(s) && Norm(ParseLine(lines[0]).key) == k)
     || GivenLater(OpenAfter(open, lines[..1]), lines[1..], s, k))
  }

  /** Is the key of this line given again? */
  ghost predicate GivenAgain(open: Option<string>, lines: seq<string>)
    requires lines != []
  {
    ParseLine(lines[0]).KeyValue? && open.Some?
    && GivenLater(OpenAfter(open, lines[..1]), lines[1..], open.value, Norm(ParseLine(lines[0]).key))
  }

  /**
    What a caller can check about the entries to be changed: each of them can be, unless its key is given again later
    in the section.
   */
  ghost predicate LastChangeable(want: Maps, open: Option<string>, lines: seq<string>)
    decreases |lines|
  {
    lines == [] ||
    ((ChangeableAt(want, open, lines[0]) || GivenAgain(open, lines))
     && LastChangeable(want, OpenAfter(open, lines[..1]), lines[1..]))
  }

  ghost predicate Right(data: Structure, s: string, k: string, value: string)
    requires Has(data, s) && Has(Lookup(data, s), k)
  {
    value == Trim(Lookup(Lookup(data, s), k))
  }

  /** The entry has its right value, or the lines give it again. */
  ghost predicate RightOrGiven(maps: Maps, data: Structure, open: Option<string>, lines: seq<string>, s: string,
                               k: string) {
    s in maps && k in maps[s] ==>
      Has(data, s) && Has(Lookup(data, s), k) && (Right(data, s, k, maps[s][k]) || GivenLater(open, lines, s, k))
  }

  ghost predicate AllRight(maps: Maps, data: Structure, open: Option<string>, lines: seq<string>) {
    forall s, k :: RightOrGiven(maps, data, open, lines, s, k)
  }

  /** Only what is wanted is expected. */
  ghost predicate AllWanted(e: Meaning, data: Structure) {
    && (forall s :: s in e.maps ==> Has(data, s) && forall k :: k in e.maps[s] ==> Has(Lookup(data, s), k))
    && (e.open.Some? && Has(data, e.open.value) ==> e.open.value in e.maps)
  }

  lemma ExpectWanted(e: Meaning, line: string, data: Structure, pretty: bool)
    requires AllWanted(e, data)
    ensures AllWanted(Expect(e, line, data, pretty), data)
    ensures Expect(e, line, data, pretty).open == OpenAfter(e.open, [line])
  {
    hide ParseLine, Norm, Has, Lookup, ReadValue;
    OpenAfterOne(e.open, line);
  }

  /** The line is an entry of key `k` in section `s`. */
  ghost predicate Gives(open: Option<string>, line: string, s: string, k: string) {
    ParseLine(line).KeyValue? && open == Some(s) && Norm(ParseLine(line).key) == k
  }

  lemma GivenStep(open: Option<string>, lines: seq<string>, s: string, k: string)
    requires lines != []
    ensures GivenLater(open, lines, s, k) <==>
      Gives(open, lines[0], s, k) || GivenLater(OpenAfter(open, [lines[0]]), lines[1..], s, k)
  {
    hide ParseLine, Norm;
    assert lines[..1] == [lines[0]];
  }

  /** A line leaves every entry alone that it does not give. */
  lemma OthersStay(e: Meaning, line: string, data: Structure, pretty: bool, s: string, k: string)
    requires AllWanted(e, data) && !(Gives(e.open, line, s, k) && Has(data, s) && Has(Lookup(data, s), k))
    ensures var maps := Expect(e, line, data, pretty).maps;
      (s in maps && k in maps[s] <==> s in e.maps && k in e.maps[s])
          && (s in e.maps && k in e.maps[s] ==> maps[s][k] == e.maps[s][k])
  {
    hide ParseLine, Norm, Has, Lookup, ReadValue;
  }

  /** The entry that it gives is right if it can be changed. */
  lemma OwnIsRight(e: Meaning, line: string, data: Structure, pretty: bool, s: string, k: string)
    requires WellKeyed(data) && PlainValues(ToMaps(data)) && AllWanted(e, data)
    requires Gives(e.open, line, s, k) && Has(data, s) && Has(Lookup(data, s), k)
    ensures var maps := Expect(e, line, data, pretty).maps;
      s in maps && k in maps[s] && (Right(data, s, k, maps[s][k]) <==> ChangeableAt(ToMaps(data), e.open, line))
  {
    hide ParseLine, Norm, Has, Lookup, ReadValue, ToMaps, WellKeyed, PlainValues, PlainSection, Changeable, Keyed, Trim;
    PlainHere(data, s);
    SectionFacts(data, s);
    StayingReads(Lookup(data, s), line, pretty);
  }

  lemma NotWantedChangeable(data: Structure, open: Option<string>, line: string)
    requires WellKeyed(data)
    requires forall s, k :: Gives(open, line, s, k) ==> !(Has(data, s) && Has(Lookup(data, s), k))
    ensures ChangeableAt(ToMaps(data), open, line)
  {
    hide ParseLine, Norm, Has, Lookup, ToMaps, WellKeyed, Changeable, Keyed;
    if ParseLine(line).KeyValue? && open.Some? {
      SectionFacts(data, open.value);
      assert Gives(open, line, open.value, Norm(ParseLine(line).key));
    }
  }

  lemma RightStep(e: Meaning, lines: seq<string>, data: Structure, pretty: bool)
    requires WellKeyed(data) && PlainValues(ToMaps(data)) && AllWanted(e, data) && lines != []
    ensures var e' := Expect(e, lines[0], data, pretty);
      AllRight(e'.maps, data, e'.open, lines[1..]) <==>
      AllRight(e.maps, data, e.open, lines)
          && (ChangeableAt(ToMaps(data), e.open, lines[0]) || GivenAgain(e.open, lines))
  {
    hide ParseLine, Norm, Has, Lookup, ToMaps, WellKeyed, PlainValues, ChangeableAt, Right, GivenLater, Expect,
      AllWanted;
    var line, rest, e' := lines[0], lines[1..], Expect(e, lines[0], data, pretty);
    assert lines[..1] == [line];
    ExpectWanted(e, line, data, pretty);
    forall s, k ensures
      if Gives(e.open, line, s, k) && Has(data, s) && Has(Lookup(data, s), k) then
        RightOrGiven(e.maps, data, e.open, lines, s, k)
        && (RightOrGiven(e'.maps, data, e'.open, rest, s, k)
            <==> ChangeableAt(ToMaps(data), e.open, line) || GivenAgain(e.open, lines))
      else RightOrGiven(e'.maps, data, e'.open, rest, s, k) <==> RightOrGiven(e.maps, data, e.open, lines, s, k)
    {
      GivenStep(e.open, lines, s, k);
      if Gives(e.open, line, s, k) && Has(data, s) && Has(Lookup(data, s), k) {
        OwnIsRight(e, line, data, pretty, s, k);
      } else {
        OthersStay(e, line, data, pretty, s, k);
        NotGivenHere(e, line, data, s, k);
      }
    }
    if s, k :| Gives(e.open, line, s, k) && Has(data, s) && Has(Lookup(data, s), k) {
    } else {
      NotWantedChangeable(data, e.open, line);
    }
  }

  lemma NotGivenHere(e: Meaning, line: string, data: Structure, s: string, k: string)
    requires AllWanted(e, data) && !(Gives(e.open, line, s, k) && Has(data, s) && Has(Lookup(data, s), k))
    ensures s in e.maps && k in e.maps[s] ==> !Gives(e.open, line, s, k)
  {
    hide ParseLine, Norm, Has, Lookup;
  }

  /** In the end all entries are right if every line can be changed whose key is not given again. */
  lemma {:induction false} AllRightIff(e: Meaning, lines: seq<string>, data: Structure, pretty: bool)
    requires WellKeyed(data) && PlainValues(ToMaps(data)) && AllWanted(e, data)
    ensures AllRight(ExpectAll(e, lines, data, pretty).maps, data, None, [])
      <==> AllRight(e.maps, data, e.open, lines) && LastChangeable(ToMaps(data), e.open, lines)
    decreases |lines|
  {
    hide ParseLine, Norm, Has, Lookup, ToMaps, WellKeyed, PlainValues, ChangeableAt, Right, Expect, AllWanted,
      AllRight, GivenLater;
    if lines == [] {
      NothingGiven(e.maps, data, e.open);
    } else {
      var e' := Expect(e, lines[0], data, pretty);
      assert lines[..1] == [lines[0]];
      ExpectWanted(e, lines[0], data, pretty);
      RightStep(e, lines, data, pretty);
      AllRightIff(e', lines[1..], data, pretty);
    }
  }

  lemma NothingGiven(maps: Maps, data: Structure, open: Option<string>)
    ensures AllRight(maps, data, None, []) <==> AllRight(maps, data, open, [])
  {
    hide Has, Lookup, Right;
    forall s, k ensures RightOrGiven(maps, data, None, [], s, k) <==> RightOrGiven(maps, data, open, [], s, k) {
    }
  }

  // ---------------------------------------------------------------- the sections that are new

  /** The new sections with their entries, as they are read. */
  function WithNew(maps: Maps, data: Structure, original: Structure): Maps
    decreases |data|
  {
    if data == [] then maps
    else
      var (name, es) := data[0];
      WithNew(if Has(original, name) then maps else maps[name := Additions(es, [])], data[1..], original)
  }

  lemma NewSectionReads(output: seq<string>, name: string, es: Section, pretty: bool)
    requires Normal(name) && ';' !in name && NewKeysReadable(es, [], pretty) && forall i :: 0 <= i < |es| ==>
      Normal(es[i].0)
    requires name !in MeanAll(NOTHING, output).maps
    ensures MeanAll(NOTHING, AppendSection(output, name, es, pretty)).maps
      == MeanAll(NOTHING, output).maps[name := Additions(es, [])]
  {
    hide Mean, ParseLine, Norm, Normal, NewKeysReadable, NewKeyLines, Additions, SectionLine;
    var spaced := if pretty && output != [] && output[|output| - 1] != "" then output + [""] else output;
    var m := MeanAll(NOTHING, output);
    if spaced != output {
      MeanLast(NOTHING, output, "");
      EmptyLineQuiet(m);
    }
    var line, added := SectionLine(name), NewKeyLines(es, [], pretty);
    SectionLineMeans(m, name);
    MeanLast(NOTHING, spaced, line);
    MeanConcat(NOTHING, spaced + [line], added);
    AdditionsMean(Mean(m, line), name, es, [], pretty);
    assert map[] + Additions(es, []) == Additions(es, []);
    assert Opened(m.maps, name)[name := Additions(es, [])] == m.maps[name := Additions(es, [])];
  }

  lemma {:induction false} NewSectionsRead(output: seq<string>, data: Structure, i: nat, original: Structure,
                                           pretty: bool)
    requires i <= |data| && Ready(data, original, pretty)
    requires forall j :: i <= j < |data| && !Has(original, data[j].0) ==> data[j].0 !in MeanAll(NOTHING, output).maps
    ensures MeanAll(NOTHING, AppendSections(output, data[i..], original, pretty)).maps
      == WithNew(MeanAll(NOTHING, output).maps, data[i..], original)
    decreases |data| - i
  {
    hide Mean, Norm, Normal, Has, AppendSection, NewKeysReadable, Additions, Keyed, MeanAll;
    if i < |data| {
      var (name, es) := data[i];
      DataFacts(data, i, original);
      NewSectionAt(data, i);
      assert data[i..][1..] == data[i + 1..];
      if !Has(original, name) {
        AddableAt(data, i, original, pretty);
        NewSectionReads(output, name, es, pretty);
        NewSectionsRead(AppendSection(output, name, es, pretty), data, i + 1, original, pretty);
      } else {
        NewSectionsRead(output, data, i + 1, original, pretty);
      }
    }
  }

  lemma NewSectionAt(data: Structure, i: nat)
    requires WellKeyed(data) && i < |data|
    ensures forall j :: 0 <= j < |data[i].1| ==> Normal(data[i].1[j].0)
    ensures forall j :: i < j < |data| ==> data[j].0 != data[i].0
  {
    hide Normal;
  }

  lemma {:induction false} WithNewIs(maps: Maps, data: Structure, i: nat, original: Structure)
    requires WellKeyed(data) && i <= |data| && forall s :: s in maps ==> Has(original, s) || IndexOf(data, s) < i
    ensures var all := WithNew(maps, data[i..], original);
      && (forall s :: s in all <==> s in maps || (i <= IndexOf(data, s) < |data| && !Has(original, s)))
      && (forall s :: s in maps ==> all[s] == maps[s])
      && (forall s :: s in all && s !in maps ==> all[s] == Additions(Lookup(data, s), []))
    decreases |data| - i
  {
    hide Has, Additions, IndexOf, WellKeyed;
    if i < |data| {
      var (name, es) := data[i];
      NameIsAt(data, i);
      assert data[i..][0] == data[i] && data[i..][1..] == data[i + 1..];
      WithNewIs(if Has(original, name) then maps else maps[name := Additions(es, [])], data, i + 1, original);
    }
  }

  lemma NameIsAt(data: Structure, i: nat)
    requires WellKeyed(data) && i < |data|
    ensures IndexOf(data, data[i].0) == i && Has(data, data[i].0) && Lookup(data, data[i].0) == data[i].1
    ensures forall s :: IndexOf(data, s) == i ==> s == data[i].0
  {
    hide Normal;
    IndexIs(data, i);
  }

  // ---------------------------------------------------------------- the whole file

  /** The file has every entry right exactly if the maps are those that are wanted. */
  lemma FilledIsAsRead(expected: Maps, data: Structure, original: Structure)
    requires WellKeyed(data) && WellKeyed(original) && Mirrors(expected, ToMaps(original), data)
    ensures WithNew(Filled(expected, data, original), data, original) == AsRead(ToMaps(data)) <==>
      AllRight(expected, data, None, [])
  {
    hide Has, Lookup, ToMaps, WellKeyed, Trim, Mirrors, AllRight;
    var all, want := WithNew(Filled(expected, data, original), data, original), AsRead(ToMaps(data));
    var maps := Filled(expected, data, original);
    assert data[0..] == data;
    forall s | s in maps ensures Has(original, s) {
      MirrorsAt(expected, original, data, s);
    }
    WithNewIs(maps, data, 0, original);
    forall s ensures s in all <==> s in want {
      SectionFacts(data, s);
      SectionFacts(original, s);
      MirrorsAt(expected, original, data, s);
      HasIs(data, s);
    }
    forall s | s in want
      ensures all[s] == want[s] <==> (s in expected ==> forall k :: RightOrGiven(expected, data, None, [], s, k))
    {
      SectionFacts(data, s);
      MirrorsAt(expected, original, data, s);
      if s in expected {
        OldSectionRight(expected, data, original, s);
      } else {
        NewSectionRight(data, s);
      }
    }
    SameSections(all, want);
    AllRightOf(expected, data);
    forall s | s in expected ensures s in want {
      SectionFacts(data, s);
      MirrorsAt(expected, original, data, s);
    }
  }

  lemma SameSections(a: Maps, b: Maps)
    requires forall s :: s in a <==> s in b
    ensures a == b <==> forall s :: s in b ==> a[s] == b[s]
  {
  }

  lemma AllRightOf(expected: Maps, data: Structure)
    ensures AllRight(expected, data, None, []) <==>
      forall s :: s in expected ==> forall k :: RightOrGiven(expected, data, None, [], s, k)
  {
    hide Has, Lookup, Right;
    if forall s :: s in expected ==> forall k :: RightOrGiven(expected, data, None, [], s, k) {
      forall s, k ensures RightOrGiven(expected, data, None, [], s, k) {
      }
    }
  }

  /** What the mirror shows of one section. */
  lemma MirrorsAt(expected: Maps, original: Structure, data: Structure, s: string)
    requires WellKeyed(original) && Mirrors(expected, ToMaps(original), data)
    ensures s in expected <==> Has(original, s) && Has(data, s)
    ensures s in expected ==> forall k :: k in expected[s] <==> Has(Lookup(original, s), k) && Has(Lookup(data, s), k)
  {
    hide Has, Lookup, ToMaps, WellKeyed;
    SectionFacts(original, s);
  }

  lemma OldSectionRight(expected: Maps, data: Structure, original: Structure, s: string)
    requires WellKeyed(data) && s in expected && Has(data, s) && Has(original, s) && s in ToMaps(data)
    requires forall k :: k in expected[s] <==> Has(Lookup(original, s), k) && Has(Lookup(data, s), k)
    ensures Filled(expected, data, original)[s] == AsRead(ToMaps(data))[s]
      <==> forall k :: RightOrGiven(expected, data, None, [], s, k)
  {
    hide Has, Lookup, ToMaps, WellKeyed, Trim, Keyed, Additions;
    SectionFacts(data, s);
    LookupWellKeyed(data, s);
    AdditionsAre(Lookup(data, s), Lookup(original, s));
    var got, want := Filled(expected, data, original)[s], AsRead(ToMaps(data))[s];
    assert forall k :: k in got <==> k in want;
    if got == want {
      forall k ensures RightOrGiven(expected, data, None, [], s, k) {
        assert k in expected[s] ==> got[k] == expected[s][k] == want[k];
      }
    } else {
      var k :| k in want && got[k] != want[k];
      assert !RightOrGiven(expected, data, None, [], s, k);
    }
  }

  lemma NewSectionRight(data: Structure, s: string)
    requires WellKeyed(data) && Has(data, s) && s in ToMaps(data)
    ensures Additions(Lookup(data, s), []) == AsRead(ToMaps(data))[s]
  {
    hide Has, Lookup, ToMaps, WellKeyed, Trim, Keyed, Additions;
    SectionFacts(data, s);
    LookupWellKeyed(data, s);
    AdditionsAre(Lookup(data, s), []);
    NothingHas();
  }

  lemma NothingHas()
    ensures forall k :: !Has<string>([], k)
  {
  }

  lemma {:induction false} QuietExpected(e: Meaning, lines: seq<string>, data: Structure, pretty: bool)
    requires AllQuiet(lines)
    ensures ExpectAll(e, lines, data, pretty) == e
    decreases |lines|
  {
    hide ParseLine;
    if lines != [] {
      assert Quiet(lines[0]);
      QuietExpected(e, lines[1..], data, pretty);
    }
  }

  /** What stands in front of the first section means nothing. */
  lemma FrontReads(lines: seq<string>, data: Structure, pretty: bool)
    ensures var kept := KeptLines(lines, false);
      var n := BodyLength(kept);
      && (n < |kept| ==> ParseLine(kept[n]).Section?) && Known(ToMaps(OriginalOf(lines)), None, kept[n..])
      && MeanAll(NOTHING, kept[..n]) == NOTHING
      && ExpectAll(NOTHING, kept, data, pretty) == ExpectAll(NOTHING, kept[n..], data, pretty)
  {
    hide ParseLine, OriginalOf, KeptLines, AllKept, ToMaps, Mean, Known, Expect, Quiet, WellKeyed;
    var kept := KeptLines(lines, false);
    var n := BodyLength(kept);
    OriginalMeans(lines);
    KeptAreKept(lines, false);
    NextSection(kept);
    NoEntriesFirst(kept);
    assert AllQuiet(kept[..n]);
    assert kept == kept[..n] + kept[n..];
    ReadIsKnown(NOTHING, kept, ToMaps(OriginalOf(lines)));
    KnownConcat(ToMaps(OriginalOf(lines)), None, kept[..n], kept[n..]);
    QuietMeansNothing(NOTHING, kept[..n]);
    ExpectConcat(NOTHING, kept[..n], kept[n..], data, pretty);
    QuietExpected(NOTHING, kept[..n], data, pretty);
  }

  lemma NothingExpected(data: Structure, original: Structure, lines: seq<string>)
    ensures Filled(map[], data, original) == map[] && Tracked(map[], data, original) && AllWanted(NOTHING, data)
    ensures Mirrors(map[], map[], data) && AllRight(map[], data, None, lines)
  {
  }

  /** What the file expects of its own sections. */
  lemma FileExpects(lines: seq<string>, data: Structure, pretty: bool)
    requires WellKeyed(data) && PlainValues(ToMaps(data))
    ensures var kept := KeptLines(lines, false); var all := ExpectAll(NOTHING, kept, data, pretty).maps;
      && Mirrors(all, ToMaps(OriginalOf(lines)), data)
      && (AllRight(all, data, None, []) <==> LastChangeable(ToMaps(data), None, kept))
  {
    hide ParseLine, OriginalOf, KeptLines, ToMaps, MeanAll, ExpectAll, Mirrors, AllRight, AllWanted, LastChangeable,
      WellKeyed, PlainValues;
    var kept := KeptLines(lines, false);
    OriginalMeans(lines);
    NothingExpected(data, [], kept);
    ExpectMirrors(NOTHING, NOTHING, kept, data, pretty);
    AllRightIff(NOTHING, kept, data, pretty);
  }

  /**
    Whatever the file, if the additions are readable and no value has section marks behind a bracket, a lazy write reads
    back as the structure exactly if every line to be changed can be, unless its key is given again.
   */
  lemma WriteReads(lines: seq<string>, data: Structure, pretty: bool)
    requires WellKeyed(data) && Addable(data, OriginalOf(lines), pretty) && PlainValues(ToMaps(data))
    ensures var kept, original := KeptLines(lines, false), OriginalOf(lines);
      MeanAll(NOTHING, LazyOutput(kept, data, original, pretty)).maps == AsRead(ToMaps(data))
      <==> LastChangeable(ToMaps(data), None, kept)
  {
    hide ParseLine, OriginalOf, KeptLines, ToMaps, Mean, Known, ExpectAll, Mirrors, AllRight, LastChangeable,
      WellKeyed, PlainValues, Layout, LazyOutput, Expected, Filled, Tracked, AsRead, Addable, AppendSections, Has,
      WithNew, AllWanted;
    var kept, original := KeptLines(lines, false), OriginalOf(lines);
    var n := BodyLength(kept);
    var front, sections := kept[..n], kept[n..];
    LazyLayout(lines, data, pretty);
    FrontReads(lines, data, pretty);
    OriginalMeans(lines);
    NothingExpected(data, original, kept);
    FileExpects(lines, data, pretty);
    ExpectedIs(NOTHING, sections, data, pretty);
    var all := Expected(map[], sections, data, pretty);
    LayoutMeans(NOTHING, map[], None, sections, data, original, pretty);
    var output := front + Layout(sections, data, original, pretty);
    MeanConcat(NOTHING, front, Layout(sections, data, original, pretty));
    forall s | s in Filled(all, data, original) ensures Has(original, s) {
      FilledHas(all, data, original, s);
    }
    assert data[0..] == data;
    NewSectionsRead(output, data, 0, original, pretty);
    FilledIsAsRead(all, data, original);
  }

  lemma FilledHas(expected: Maps, data: Structure, original: Structure, s: string)
    requires Tracked(expected, data, original) && s in Filled(expected, data, original)
    ensures Has(original, s)
  {
    hide Has, Lookup;
  }
}
