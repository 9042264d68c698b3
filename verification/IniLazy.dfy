/**
  What a lazy write achieves: reading the result gives the structure that was written, comments
  are kept, and writing again changes nothing.
 */
module IniLazy {
  import opened Wrappers
  import opened IniText
  import opened IniParser
  import opened IniLines
  import opened IniRewrite
  import opened IniMap
  import opened IniReader
  import opened IniMeaning
  import opened IniWriter

  // ---------------------------------------------------------------- the section that is open

  /** The section that is open behind the lines. */
  function OpenAfter(open: Option<string>, lines: seq<string>): Option<string>
    decreases |lines|
  {
    if lines == [] then open
    else OpenAfter(match ParseLine(lines[0]) case Section(name) => Some(Norm(name)) case _ => open, lines[1..])
  }

  lemma OpenAfterOne(open: Option<string>, line: string)
    ensures OpenAfter(open, [line]) == match ParseLine(line) case Section(name) => Some(Norm(name)) case _ => open
  {
    hide ParseLine, Norm;
    assert [line][1..] == [];
  }

  lemma {:induction false} OpenConcat(open: Option<string>, a: seq<string>, b: seq<string>)
    ensures OpenAfter(open, a + b) == OpenAfter(OpenAfter(open, a), b)
    decreases |a|
  {
    hide ParseLine, Norm;
    if a == [] {
      assert a + b == b;
    } else {
      assert (a + b)[1..] == a[1..] + b;
      OpenConcat(match ParseLine(a[0]) case Section(name) => Some(Norm(name)) case _ => open, a[1..], b);
    }
  }

  /** The section left open does not depend on what the maps hold. */
  lemma {:induction false} OpenIsOpen(m: Meaning, lines: seq<string>)
    ensures MeanAll(m, lines).open == OpenAfter(m.open, lines)
    decreases |lines|
  {
    hide ParseLine, Norm, Opened, Assigned;
    if lines != [] {
      OpenIsOpen(Mean(m, lines[0]), lines[1..]);
    }
  }

  // ---------------------------------------------------------------- quiet lines

  /** Comments and blank lines. */
  predicate Quiet(line: string) {
    ParseLine(line).Comment? || ParseLine(line).BlankLine?
  }

  ghost predicate AllQuiet(lines: seq<string>) {
    forall i :: 0 <= i < |lines| ==> Quiet(lines[i])
  }

  lemma {:induction false} QuietMeansNothing(m: Meaning, lines: seq<string>)
    requires AllQuiet(lines)
    ensures MeanAll(m, lines) == m && OpenAfter(m.open, lines) == m.open
    decreases |lines|
  {
    hide ParseLine;
    if lines != [] {
      assert Quiet(lines[0]);
      OpenAfterOne(m.open, lines[0]);
      assert lines[..1] == [lines[0]];
      QuietMeansNothing(m, lines[1..]);
    }
  }

  // ---------------------------------------------------------------- new keys

  /** The entries are among those of `inner`, under their stored names. */
  ghost predicate Within(es: Section, inner: map<string, string>) {
    forall i :: 0 <= i < |es| ==> Normal(es[i].0) && es[i].0 in inner && inner[es[i].0] == es[i].1
  }

  /** Every key that `original` lacks can be written so that it is read back. */
  ghost predicate NewKeysReadable(es: Section, original: Section, pretty: bool) {
    forall i :: 0 <= i < |es| && !Has(original, es[i].0) ==> Readable(es[i].0, es[i].1, pretty)
  }

  lemma KeyLineMeans(m: Meaning, key: string, value: string, pretty: bool)
    requires m.open.Some? && Normal(key) && Readable(key, value, pretty)
    ensures Mean(m, KeyLine(key, value, pretty)) == m.(maps := Assigned(m.maps, m.open.value, key, Trim(value)))
    ensures ParseLine(KeyLine(key, value, pretty)) == KeyValue(key, Trim(value))
  {
    hide Trim, ParseLine, Norm, Readable, KeyLine;
    NormalIsTrimmed(key);
    KeyLineReads(key, value, pretty);
    assert Norm(key) == key;
  }

  // ---------------------------------------------------------------- what a caller can check

  ghost predicate FlagsRight(st: LazyState, read: Meaning, want: Maps) {
    && (read.open.None? ==> read.maps == map[] && st.section == "" && !st.parsing && !st.skip)
    && (read.open.Some? ==>
          && read.open.value in read.maps && Norm(st.section) == read.open.value
          && st.parsing == (read.open.value in want) && st.skip == (read.open.value !in want))
  }

  /** What the caller of a lazy write can check about the sections and keys to be added. */
  ghost predicate Addable(data: Structure, original: Structure, pretty: bool) {
    forall i :: 0 <= i < |data| ==>
      if Has(original, data[i].0) then NewKeysReadable(data[i].1, Lookup(original, data[i].0), pretty)
      else ';' !in data[i].0 && NewKeysReadable(data[i].1, [], pretty)
  }

  /** And about the entries to be changed. */
  ghost predicate ChangeableAt(want: Maps, open: Option<string>, line: string) {
    ParseLine(line).KeyValue? && open.Some? && open.value in want && Norm(ParseLine(line).key) in want[open.value]
      && ParseLine(line).value != want[open.value][Norm(ParseLine(line).key)]
    ==> Changeable(line, want[open.value][Norm(ParseLine(line).key)])
  }

  lemma KeyedWithin(es: Section)
    requires Keyed(es)
    ensures Within(es, ToMap(es))
  {
    hide Normal;
    forall i | 0 <= i < |es| ensures Normal(es[i].0) && es[i].0 in ToMap(es) && ToMap(es)[es[i].0] == es[i].1 {
      IndexIs(es, i);
    }
  }

  /** The section is there; what the maps say of it is what its entries say. */
  lemma SectionFacts(data: Structure, name: string)
    requires WellKeyed(data)
    ensures name in ToMaps(data) <==> Has(data, name)
    ensures Has(data, name) ==>
      ToMaps(data)[name] == ToMap(Lookup(data, name)) && Within(Lookup(data, name), ToMaps(data)[name])
    ensures Has(data, name) ==> forall k :: k in ToMaps(data)[name] <==> Has(Lookup(data, name), k)
    ensures Has(data, name) ==> forall k :: k in ToMaps(data)[name] ==>
      ToMaps(data)[name][k] == Lookup(Lookup(data, name), k)
  {
    hide Keyed, Within;
    if Has(data, name) {
      LookupWellKeyed(data, name);
      KeyedWithin(Lookup(data, name));
    }
  }

  lemma NewKeysReadableHere(data: Structure, original: Structure, pretty: bool, name: string)
    requires Addable(data, original, pretty) && Has(data, name) && Has(original, name)
    ensures NewKeysReadable(Lookup(data, name), Lookup(original, name), pretty)
  {
    hide NewKeysReadable;
    assert data[IndexOf(data, name)].0 == name;
  }

  lemma OpenedHas(maps: Maps, name: string)
    ensures name in Opened(maps, name)
  {
  }

  /** The line printed for an entry that stays says what the data says. */
  lemma EntryReads(line: string, value: string, pretty: bool)
    requires ParseLine(line).KeyValue? && (ParseLine(line).value != value ==> Changeable(line, value))
    ensures HasDelimiter(line)
    ensures ParseLine(if ParseLine(line).value == value then line else RewriteLine(line, value, pretty))
      == KeyValue(ParseLine(line).key, Trim(value))
  {
    hide ParseEntry, Trim, RewriteLine, Changeable, HasDelimiter;
    EntryHasDelimiter(line);
    if ParseLine(line).value == value {
      ValueIsTrimmed(line);
    } else {
      RewrittenReads(line, value, pretty);
    }
  }

  lemma ValueIsTrimmed(line: string)
    requires ParseLine(line).KeyValue?
    ensures Trim(ParseLine(line).value) == ParseLine(line).value
  {
    hide Trim, ParseLine, Unescape;
    var before, p, tail := EntryShape(line);
    TrimmedStays(ParseLine(line).value);
  }

  lemma AssignedHas(maps: Maps, name: string, key: string, value: string)
    ensures name in Assigned(maps, name, key, value)
  {
  }

  // ---------------------------------------------------------------- values behind a bracket

  /** Values of keys that begin with a bracket hold no mark that would end a section line. */
  ghost predicate BracketsPlain(maps: Maps) {
    forall s, k :: s in maps && k in maps[s] && Starts(k, '[') ==> NoSectionMarks(maps[s][k])
  }

  lemma {:induction false} BracketsStayPlain(m: Meaning, lines: seq<string>)
    requires BracketsPlain(m.maps)
    ensures BracketsPlain(MeanAll(m, lines).maps)
    decreases |lines|
  {
    hide Mean, BracketsPlain;
    if lines != [] {
      LineStaysPlain(m, lines[0]);
      BracketsStayPlain(Mean(m, lines[0]), lines[1..]);
    }
  }

  lemma LineStaysPlain(m: Meaning, line: string)
    requires BracketsPlain(m.maps)
    ensures BracketsPlain(Mean(m, line).maps)
  {
    hide ParseLine, Norm, NoSectionMarks, Starts, BracketsPlain, Opened, Assigned;
    if ParseLine(line).KeyValue? {
      BracketKey(line);
      if m.open.Some? {
        AssignedPlain(m.maps, m.open.value, Norm(ParseLine(line).key), ParseLine(line).value);
      }
    } else if ParseLine(line).Section? {
      OpenedPlain(m.maps, Norm(ParseLine(line).name));
    }
  }

  lemma AssignedPlain(maps: Maps, name: string, key: string, value: string)
    requires BracketsPlain(maps) && (Starts(key, '[') ==> NoSectionMarks(value))
    ensures BracketsPlain(Assigned(maps, name, key, value))
  {
    hide NoSectionMarks, Starts;
  }

  lemma OpenedPlain(maps: Maps, name: string)
    requires BracketsPlain(maps)
    ensures BracketsPlain(Opened(maps, name))
  {
    hide NoSectionMarks, Starts;
  }

  // ---------------------------------------------------------------- kept lines

  ghost predicate AllKept(lines: seq<string>, inSection: bool)
    decreases |lines|
  {
    lines == [] ||
    var now := inSection || ParseLine(lines[0]).Section?;
    IsKept(lines[0], now) && AllKept(lines[1..], now)
  }

  lemma {:induction false} KeptAreKept(lines: seq<string>, inSection: bool)
    ensures AllKept(KeptLines(lines, inSection), inSection)
    decreases |lines|
  {
    hide ParseLine;
    if lines != [] {
      var now := inSection || ParseLine(lines[0]).Section?;
      KeptAreKept(lines[1..], now);
      var rest := KeptLines(lines[1..], now);
      assert ([lines[0]] + rest)[1..] == rest && [] + rest == rest;
    }
  }

  ghost predicate Ready(data: Structure, original: Structure, pretty: bool) {
    WellKeyed(data) && WellKeyed(original) && Addable(data, original, pretty)
  }

  lemma EmptyLineQuiet(m: Meaning)
    ensures Mean(m, "") == m
  {
    TrimmedStays("");
  }

  lemma SectionLineMeans(m: Meaning, name: string)
    requires Normal(name) && ';' !in name
    ensures Mean(m, SectionLine(name)) == Meaning(Opened(m.maps, name), Some(name))
  {
    hide ParseLine, Norm, SectionLine, Opened;
    NormalIsTrimmed(name);
    SectionLineReads(name);
    assert Norm(name) == name;
  }

  lemma HasIs<T>(es: Entries<T>, key: string)
    ensures Has(es, key) <==> IndexOf(es, key) < |es|
  {
  }

  lemma DataFacts(data: Structure, i: nat, original: Structure)
    requires WellKeyed(data) && i < |data|
    ensures Normal(data[i].0) && Norm(data[i].0) == data[i].0 && IndexOf(data, data[i].0) == i
    ensures data[i].0 in ToMaps(data) && Within(data[i].1, ToMaps(data)[data[i].0])
    ensures forall k :: k in ToMaps(data)[data[i].0] ==> Has(data[i].1, k)
  {
    hide Norm, Within, ToMaps;
    IndexIs(data, i);
    SectionFacts(data, data[i].0);
  }

  lemma AddableAt(data: Structure, i: nat, original: Structure, pretty: bool)
    requires Addable(data, original, pretty) && i < |data| && !Has(original, data[i].0)
    ensures ';' !in data[i].0 && NewKeysReadable(data[i].1, [], pretty)
  {
  }

  // ---------------------------------------------------------------- write, then read

  /** The maps as a file gives them back: values trimmed. */
  ghost function AsRead(maps: Maps): Maps {
    map s | s in maps :: map k | k in maps[s] :: Trim(maps[s][k])
  }

  /** What a file has that is written to: the structure and the lines that its reader keeps. */
  function OriginalOf(lines: seq<string>): Structure {
    ReadLines(START, lines).data
  }

  lemma OriginalMeans(lines: seq<string>)
    ensures WellKeyed(OriginalOf(lines)) && ToMaps(OriginalOf(lines)) == MeanAll(NOTHING, lines).maps
    ensures MeanAll(NOTHING, KeptLines(lines, false)) == MeanAll(NOTHING, lines)
  {
    hide ReadLine, Mean;
    assert WellKeyed([]);
    assert ToMaps([]) == map[];
    ReadMeans(START, lines);
    KeptMeans(NOTHING, lines);
  }

  // ---------------------------------------------------------------- nothing to change

  /** The line says just what `maps` says, with the value as it stands there. */
  ghost predicate MatchesAt(maps: Maps, open: Option<string>, line: string) {
    match ParseLine(line)
    case Section(name) => Norm(name) in maps
    case KeyValue(key, value) =>
      open.Some? && open.value in maps && Norm(key) in maps[open.value] && value == maps[open.value][Norm(key)]
    case Unknown => false
    case _ => true
  }

  ghost predicate Matches(maps: Maps, open: Option<string>, lines: seq<string>)
    decreases |lines|
  {
    lines == [] || (MatchesAt(maps, open, lines[0]) && Matches(maps, OpenAfter(open, lines[..1]), lines[1..]))
  }

  /** Nothing is wanted that was not there. */
  ghost predicate NothingNew(want: Maps, had: Maps) {
    forall s :: s in want ==> s in had && want[s].Keys <= had[s].Keys
  }

  lemma {:induction false} NoNewLines(es: Section, original: Section, pretty: bool)
    requires forall i :: 0 <= i < |es| ==> Normal(es[i].0) && Has(original, es[i].0)
    ensures NewKeyLines(es, original, pretty) == []
    decreases |es|
  {
    hide Norm, Has, KeyLine;
    if es != [] {
      assert Normal(es[0].0);
      NoNewLines(es[1..], original, pretty);
    }
  }

  lemma FlushNothing(st: LazyState, data: Structure, original: Structure, pretty: bool)
    requires WellKeyed(data) && WellKeyed(original) && NothingNew(ToMaps(data), ToMaps(original))
    ensures Flush(st, data, original, pretty) == st
  {
    hide Norm, Normal, WellKeyed, ToMaps, Has;
    var name := Norm(st.section);
    SectionFacts(data, name);
    SectionFacts(original, name);
    if Has(data, name) && Has(original, name) {
      NoNewLines(Lookup(data, name), Lookup(original, name), pretty);
    }
    if st.lastKey <= |st.output| {
      assert st.output[..st.lastKey] + [] + st.output[st.lastKey..] == st.output;
    }
  }

  /** The line is of a section or key that is wanted, whatever its value. */
  ghost predicate KnownAt(maps: Maps, open: Option<string>, line: string) {
    match ParseLine(line)
    case Section(name) => Norm(name) in maps
    case KeyValue(key, _) => open.Some? && open.value in maps && Norm(key) in maps[open.value]
    case Unknown => false
    case _ => true
  }

  ghost predicate Known(maps: Maps, open: Option<string>, lines: seq<string>)
    decreases |lines|
  {
    lines == [] || (KnownAt(maps, open, lines[0]) && Known(maps, OpenAfter(open, lines[..1]), lines[1..]))
  }

  lemma {:induction false} ReadIsKnown(m: Meaning, lines: seq<string>, maps: Maps)
    requires AllKept(lines, m.open.Some?) && (m.open.Some? ==> m.open.value in m.maps)
    requires MeanAll(m, lines).maps == maps
    ensures Known(maps, m.open, lines)
    decreases |lines|
  {
    hide ParseLine, Norm;
    if lines != [] {
      OpenAfterOne(m.open, lines[0]);
      assert lines[..1] == [lines[0]];
      var next := Mean(m, lines[0]);
      ReadGrows(next, lines[1..]);
      assert KnownAt(next.maps, m.open, lines[0]);
      ReadIsKnown(next, lines[1..], maps);
    }
  }

  /** What is printed for such a line: the line, or the rewritten line if it has another value. */
  ghost function Updated(maps: Maps, open: Option<string>, line: string, pretty: bool): string
    requires KnownAt(maps, open, line)
  {
    if ParseLine(line).KeyValue? then
      var value := maps[open.value][Norm(ParseLine(line).key)];
      EntryHasDelimiter(line);
      if ParseLine(line).value == value then line else RewriteLine(line, value, pretty)
    else line
  }

  ghost function UpdatedLines(maps: Maps, open: Option<string>, lines: seq<string>, pretty: bool): (r: seq<string>)
    requires Known(maps, open, lines)
    ensures |r| == |lines|
    decreases |lines|
  {
    if lines == [] then []
    else [Updated(maps, open, lines[0], pretty)] + UpdatedLines(maps, OpenAfter(open, lines[..1]), lines[1..], pretty)
  }

  lemma StepUpdates(st: LazyState, line: string, last: bool, open: Option<string>, data: Structure,
                    original: Structure, pretty: bool)
    requires WellKeyed(data) && WellKeyed(original) && NothingNew(ToMaps(data), ToMaps(original))
    requires KnownAt(ToMaps(data), open, line) && !st.skip && !st.discard
    requires (open.Some? ==> Norm(st.section) == open.value)
    ensures var r := LazyLine(st, line, last, data, original, pretty);
      && r.output == st.output + [Updated(ToMaps(data), open, line, pretty)] && !r.skip && !r.discard
      && (OpenAfter(open, [line]).Some? ==> Norm(r.section) == OpenAfter(open, [line]).value)
  {
    hide ParseLine, Norm, WellKeyed, ToMaps, Has, Flush, NothingNew, RewriteLine, HasDelimiter;
    OpenAfterOne(open, line);
    FlushNothing(st, data, original, pretty);
    var r := LazyLine(st, line, false, data, original, pretty);
    FlushNothing(r, data, original, pretty);
    var parsed := ParseLine(line);
    if parsed.Section? {
      SectionFacts(data, Norm(parsed.name));
    } else if parsed.KeyValue? {
      SectionFacts(data, open.value);
    }
  }

  lemma {:induction false} WalkUpdates(st: LazyState, lines: seq<string>, open: Option<string>, data: Structure,
                                       original: Structure, pretty: bool)
    requires WellKeyed(data) && WellKeyed(original) && NothingNew(ToMaps(data), ToMaps(original))
    requires Known(ToMaps(data), open, lines) && !st.skip && !st.discard
    requires (open.Some? ==> Norm(st.section) == open.value)
    ensures LazyLines(st, lines, data, original, pretty).output
      == st.output + UpdatedLines(ToMaps(data), open, lines, pretty)
    decreases |lines|
  {
    hide ParseLine, Norm, WellKeyed, ToMaps, NothingNew, LazyLine, KnownAt, Updated;
    if lines != [] {
      StepUpdates(st, lines[0], |lines| == 1, open, data, original, pretty);
      assert lines[..1] == [lines[0]];
      var next := LazyLine(st, lines[0], |lines| == 1, data, original, pretty);
      WalkUpdates(next, lines[1..], OpenAfter(open, lines[..1]), data, original, pretty);
    }
  }

  lemma {:induction false} NoNewSections(output: seq<string>, data: Structure, original: Structure, pretty: bool)
    requires forall i :: 0 <= i < |data| ==> Normal(data[i].0) && Has(original, data[i].0)
    ensures AppendSections(output, data, original, pretty) == output
    decreases |data|
  {
    hide Norm, Has, AppendSection;
    if data != [] {
      assert Normal(data[0].0);
      NoNewSections(output, data[1..], original, pretty);
    }
  }

  /** If nothing is new, a lazy write prints line for line, with the values brought up to date. */
  lemma LazyUpdates(lines: seq<string>, data: Structure, original: Structure, pretty: bool)
    requires WellKeyed(data) && WellKeyed(original) && Known(ToMaps(data), None, lines)
    requires NothingNew(ToMaps(data), ToMaps(original))
    ensures LazyOutput(lines, data, original, pretty) == UpdatedLines(ToMaps(data), None, lines, pretty)
  {
    hide ParseLine, Norm, WellKeyed, ToMaps, NothingNew, Has, Known, UpdatedLines;
    var out := UpdatedLines(ToMaps(data), None, lines, pretty);
    WalkUpdates(INIT, lines, None, data, original, pretty);
    assert [] + out == out;
    forall i | 0 <= i < |data| ensures Normal(data[i].0) && Has(original, data[i].0) {
      DataFacts(data, i, original);
      SectionFacts(original, data[i].0);
      NothingNewAt(ToMaps(data), ToMaps(original), data[i].0);
    }
    NoNewSections(out, data, original, pretty);
  }

  lemma {:induction false} MatchingStays(maps: Maps, open: Option<string>, lines: seq<string>, pretty: bool)
    requires Matches(maps, open, lines)
    ensures Known(maps, open, lines) && UpdatedLines(maps, open, lines, pretty) == lines
    decreases |lines|
  {
    hide ParseLine, Norm, RewriteLine, HasDelimiter;
    if lines != [] {
      MatchingStays(maps, OpenAfter(open, lines[..1]), lines[1..], pretty);
    }
  }

  /** If the lines already say what is wanted, and nothing is new, a lazy write prints them as they are. */
  lemma LazyCopies(lines: seq<string>, data: Structure, original: Structure, pretty: bool)
    requires WellKeyed(data) && WellKeyed(original) && Matches(ToMaps(data), None, lines)
    requires NothingNew(ToMaps(data), ToMaps(original))
    ensures LazyOutput(lines, data, original, pretty) == lines
  {
    hide *;
    MatchingStays(ToMaps(data), None, lines, pretty);
    LazyUpdates(lines, data, original, pretty);
  }

  lemma NothingNewAt(want: Maps, had: Maps, name: string)
    requires NothingNew(want, had) && name in want
    ensures name in had
  {
  }

  ghost predicate ValuesTrimmed(maps: Maps) {
    forall s, k :: s in maps && k in maps[s] ==> Trim(maps[s][k]) == maps[s][k]
  }
}
