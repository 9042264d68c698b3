/**
  Generate, then read: which structures come back from the file that `INIGenerator` writes, in the same order
  with their values trimmed. A structure that cannot be printed is never read back, because every printed line
  has to add one section or one key, and it has to add it at the end.
 */
module IniGenerated {
  import Lines
  import opened IniText
  import opened IniParser
  import opened IniLines
  import opened IniMap
  import opened IniReader
  import opened IniMeaning
  import opened IniGenerator

  function TrimValues(es: Section): (r: Section)
    ensures |r| == |es| && forall i :: 0 <= i < |es| ==> r[i] == (es[i].0, Trim(es[i].1))
  {
    if es == [] then [] else [(es[0].0, Trim(es[0].1))] + TrimValues(es[1..])
  }

  function TrimAll(data: Structure): (r: Structure)
    ensures |r| == |data| && forall i :: 0 <= i < |data| ==> r[i] == (data[i].0, TrimValues(data[i].1))
  {
    if data == [] then [] else [(data[0].0, TrimValues(data[0].1))] + TrimAll(data[1..])
  }

  predicate PrintableKeys(es: Section, pretty: bool) {
    forall i :: 0 <= i < |es| ==> Readable(es[i].0, es[i].1, pretty)
  }

  /** What a caller can check before writing `data`. */
  predicate Printable(data: Structure, pretty: bool) {
    forall i :: 0 <= i < |data| ==> ';' !in data[i].0 && PrintableKeys(data[i].1, pretty)
  }

  // ---------------------------------------------------------------- counting

  /** Sections and keys. */
  function Size(data: Structure): nat {
    if data == [] then 0 else 1 + |data[0].1| + Size(data[1..])
  }

  function Weight(lines: seq<string>): nat
    decreases |lines|
  {
    if lines == [] then 0 else (if lines[0] == "" then 0 else 1) + Weight(lines[1..])
  }

  lemma {:induction false} SizeConcat(a: Structure, b: Structure)
    ensures Size(a + b) == Size(a) + Size(b)
  {
    if a == [] {
      assert a + b == b;
    } else {
      assert (a + b)[1..] == a[1..] + b;
      SizeConcat(a[1..], b);
    }
  }

  lemma {:induction false} WeightConcat(a: seq<string>, b: seq<string>)
    ensures Weight(a + b) == Weight(a) + Weight(b)
    decreases |a|
  {
    if a == [] {
      assert a + b == b;
    } else {
      assert (a + b)[1..] == a[1..] + b;
      WeightConcat(a[1..], b);
    }
  }

  lemma SizeOne(name: string, es: Section)
    ensures Size([(name, es)]) == 1 + |es|
  {
  }

  lemma SizeUpdate(data: Structure, i: nat, name: string, es: Section)
    requires i < |data|
    ensures Size(data[i := (name, es)]) + |data[i].1| == Size(data) + |es|
  {
    hide Size;
    assert data == data[..i] + [data[i]] + data[i + 1..];
    assert data[i := (name, es)] == data[..i] + [(name, es)] + data[i + 1..];
    SizeConcat(data[..i] + [data[i]], data[i + 1..]);
    SizeConcat(data[..i], [data[i]]);
    SizeConcat(data[..i] + [(name, es)], data[i + 1..]);
    SizeConcat(data[..i], [(name, es)]);
    SizeOne(name, es);
    SizeOne(data[i].0, data[i].1);
  }

  // ---------------------------------------------------------------- every line adds at most one thing

  ghost predicate SectionOpen(st: ReadState) {
    st.inSection ==> Has(st.data, Norm(st.section))
  }

  /** The open section is the last one. */
  ghost predicate OnLast(st: ReadState) {
    if st.inSection then st.data != [] && IndexOf(st.data, Norm(st.section)) == |st.data| - 1 else st.data == []
  }

  function AddKey(data: Structure, key: string, value: string): Structure
    requires data != []
  {
    var last := |data| - 1;
    data[..last] + [(data[last].0, data[last].1 + [(key, value)])]
  }

  /** The line added a section or a key, at the end. */
  ghost predicate Grows(st: ReadState, line: string) {
    match ParseLine(line)
    case Section(name) => ReadLine(st, line).data == st.data + [(Norm(name), [])]
    case KeyValue(key, value) => st.data != [] && ReadLine(st, line).data == AddKey(st.data, Norm(key), value)
    case _ => false
  }

  lemma LineAddsOne(st: ReadState, line: string)
    requires SectionOpen(st)
    ensures SectionOpen(ReadLine(st, line))
    ensures Size(ReadLine(st, line).data) <= Size(st.data) + if line == "" then 0 else 1
    ensures OnLast(st) && Size(ReadLine(st, line).data) > Size(st.data) ==>
      OnLast(ReadLine(st, line)) && Grows(st, line)
  {
    hide ParseLine, Norm, Size, IndexOf;
    BlankParses();
    var parsed := ParseLine(line);
    if parsed.Section? {
      var name := Norm(parsed.name);
      if !Has(st.data, name) {
        SizeConcat(st.data, [(name, [])]);
        SizeOne(name, []);
        PutIndex(st.data, name, [], name);
      }
    } else if parsed.KeyValue? && st.inSection {
      var name, key := Norm(st.section), Norm(parsed.key);
      var i, inner := IndexOf(st.data, name), Lookup(st.data, name);
      SizeUpdate(st.data, i, name, Put(inner, key, parsed.value));
      PutIndex(st.data, name, Put(inner, key, parsed.value), name);
    }
  }

  lemma BlankParses()
    ensures ParseLine("") == BlankLine
  {
  }

  lemma {:induction false} LinesAddOneEach(st: ReadState, lines: seq<string>)
    requires SectionOpen(st)
    ensures Size(ReadLines(st, lines).data) <= Size(st.data) + Weight(lines)
    decreases |lines|
  {
    hide ReadLine, SectionOpen, Size;
    if lines != [] {
      LineAddsOne(st, lines[0]);
      LinesAddOneEach(ReadLine(st, lines[0]), lines[1..]);
    }
  }

  /** All that `lines` could add they did add. */
  ghost predicate Tight(st: ReadState, lines: seq<string>) {
    OnLast(st) && Size(ReadLines(st, lines).data) == Size(st.data) + Weight(lines)
  }

  lemma TightStep(st: ReadState, lines: seq<string>)
    requires Tight(st, lines) && lines != []
    ensures Tight(ReadLine(st, lines[0]), lines[1..])
    ensures if lines[0] == "" then ReadLine(st, lines[0]) == st else Grows(st, lines[0])
  {
    hide ParseLine, Norm, Grows, Size, IndexOf;
    BlankParses();
    LineAddsOne(st, lines[0]);
    LinesAddOneEach(ReadLine(st, lines[0]), lines[1..]);
  }

  /** Only the last section of `a` may have become longer. */
  ghost predicate Extends(a: Structure, b: Structure) {
    a != [] ==>
      var last := |a| - 1;
      && |a| <= |b| && a[..last] == b[..last]
      && a[last].0 == b[last].0 && a[last].1 <= b[last].1
  }

  lemma GrownExtends(st: ReadState, line: string, b: Structure)
    requires Grows(st, line) && Extends(ReadLine(st, line).data, b)
    ensures Extends(st.data, b)
  {
    hide ParseLine, Norm, ReadLine;
    var a, next := st.data, ReadLine(st, line).data;
    if a != [] {
      var last := |a| - 1;
      assert next[..last] == a[..last];
      if |next| > |a| {
        assert next[..|a|] == a;
        assert b[last] == b[..|a|][last] == a[last];
        assert b[..last] == b[..|a|][..last];
      }
    }
  }

  lemma {:induction false} TightExtends(st: ReadState, lines: seq<string>)
    requires Tight(st, lines)
    ensures Extends(st.data, ReadLines(st, lines).data)
    decreases |lines|
  {
    hide ReadLine, Tight, Grows;
    if lines != [] {
      TightStep(st, lines);
      TightExtends(ReadLine(st, lines[0]), lines[1..]);
      if lines[0] != "" {
        GrownExtends(st, lines[0], ReadLines(st, lines).data);
      }
    }
  }

  // ---------------------------------------------------------------- what is read back was printable

  ghost predicate NormalNames(data: Structure) {
    forall i :: 0 <= i < |data| ==> Normal(data[i].0) && NormalKeys(data[i].1)
  }

  ghost predicate NormalKeys(es: Section) {
    forall i :: 0 <= i < |es| ==> Normal(es[i].0)
  }

  /** Reading `lines` from `st` gives the open section `es` more, and then `after`. */
  ghost predicate Gains(st: ReadState, lines: seq<string>, done: Structure, name: string, read: Section, es: Section,
                        after: Structure) {
    && Tight(st, lines) && st.data == done + [(name, read)]
    && ReadLines(st, lines).data == done + [(name, read + TrimValues(es))] + after
  }

  lemma KeyMustRead(st: ReadState, line: string, lines: seq<string>, done: Structure, name: string, read: Section,
                    es: Section, after: Structure, pretty: bool)
    requires es != [] && Normal(es[0].0) && line == KeyLine(es[0].0, es[0].1, pretty)
    requires Gains(st, [line] + lines, done, name, read, es, after)
    ensures Readable(es[0].0, es[0].1, pretty)
    ensures Gains(ReadLine(st, line), lines, done, name, read + [(es[0].0, Trim(es[0].1))], es[1..], after)
  {
    hide Tight, ReadLine, KeyLine, Readable, Norm, Trim, ParseLine, Normal;
    assert ([line] + lines)[1..] == lines;
    KeyLineIsNoBlank(es[0].0, es[0].1, pretty);
    TightStep(st, [line] + lines);
    var next, final := ReadLine(st, line), ReadLines(st, [line] + lines).data;
    TightExtends(next, lines);
    assert final[|done|] == (name, read + TrimValues(es));
    if ParseLine(line).Section? {
      BehindSection(done, (name, read), (Norm(ParseLine(line).name), []), final);
    } else {
      var entry := (Norm(ParseLine(line).key), ParseLine(line).value);
      FirstEntry(done, name, read, entry, es, final);
      NormalIsTrimmed(es[0].0);
      if !Readable(es[0].0, es[0].1, pretty) {
        KeyLineFails(es[0].0, es[0].1, pretty);
      }
    }
  }

  /** The entry that is added is the first one that is still to come. */
  lemma FirstEntry(done: Structure, name: string, read: Section, entry: (string, string), es: Section, final: Structure)
    requires es != [] && |done| < |final| && final[|done|] == (name, read + TrimValues(es))
    requires Extends(AddKey(done + [(name, read)], entry.0, entry.1), final)
    ensures AddKey(done + [(name, read)], entry.0, entry.1) == done + [(name, read + [entry])]
    ensures entry == (es[0].0, Trim(es[0].1)) && read + TrimValues(es) == read + [entry] + TrimValues(es[1..])
  {
    hide *;
    AddedLast(done, name, read, entry, final);
    FirstBehind(read, entry, TrimValues(es));
    TrimFirst(es);
    PutBehind(read, entry, TrimValues(es[1..]));
  }

  lemma AddedLast(done: Structure, name: string, read: Section, entry: (string, string), final: Structure)
    requires |done| < |final| && Extends(AddKey(done + [(name, read)], entry.0, entry.1), final)
    ensures AddKey(done + [(name, read)], entry.0, entry.1) == done + [(name, read + [entry])]
    ensures read + [entry] <= final[|done|].1
  {
    assert (done + [(name, read)])[..|done|] == done;
  }

  lemma PutBehind(a: Section, b: (string, string), c: Section)
    ensures a + ([b] + c) == a + [b] + c
  {
  }

  lemma FirstBehind(a: Section, b: (string, string), c: Section)
    requires c != [] && a + [b] <= a + c
    ensures c[0] == b
  {
    assert (a + [b])[|a|] == (a + c)[|a|];
  }

  lemma TrimFirst(es: Section)
    requires es != []
    ensures TrimValues(es) == [(es[0].0, Trim(es[0].1))] + TrimValues(es[1..])
  {
    hide Trim;
  }

  /** A section that has another one behind it stays as it is. */
  lemma BehindSection(done: Structure, section: (string, Section), next: (string, Section), final: Structure)
    requires Extends(done + [section] + [next], final)
    ensures |done| < |final| && final[|done|] == section
  {
    assert (done + [section] + [next])[..|done| + 1][|done|] == section;
    assert final[..|done| + 1][|done|] == final[|done|];
  }

  lemma KeyLineIsNoBlank(key: string, value: string, pretty: bool)
    ensures KeyLine(key, value, pretty) != ""
  {
  }

  lemma {:induction false} KeysMustRead(st: ReadState, lines: seq<string>, done: Structure, name: string,
                                        read: Section, es: Section, after: Structure, pretty: bool)
    returns (next: ReadState)
    requires NormalKeys(es) && Gains(st, KeyLines(es, pretty) + lines, done, name, read, es, after)
    ensures PrintableKeys(es, pretty)
    ensures Gains(next, lines, done, name, read + TrimValues(es), [], after)
    ensures ReadLines(next, lines) == ReadLines(st, KeyLines(es, pretty) + lines)
    decreases |es|
  {
    hide Gains, ReadLine, KeyLine, Readable, Norm, Normal, Trim;
    if es == [] {
      assert KeyLines(es, pretty) + lines == lines;
      assert read + TrimValues(es) == read;
      next := st;
    } else {
      var line, rest := KeyLine(es[0].0, es[0].1, pretty), KeyLines(es[1..], pretty) + lines;
      var first := (es[0].0, Trim(es[0].1));
      assert KeyLines(es, pretty) + lines == [line] + rest;
      assert ([line] + rest)[1..] == rest;
      KeyMustRead(st, line, rest, done, name, read, es, after, pretty);
      next := KeysMustRead(ReadLine(st, line), lines, done, name, read + [first], es[1..], after, pretty);
      assert read + [first] + TrimValues(es[1..]) == read + TrimValues(es);
      PrintableCons(es, pretty);
    }
  }

  lemma PrintableCons(es: Section, pretty: bool)
    requires es != [] && Readable(es[0].0, es[0].1, pretty) && PrintableKeys(es[1..], pretty)
    ensures PrintableKeys(es, pretty)
  {
    hide Readable;
    forall i | 0 <= i < |es| ensures Readable(es[i].0, es[i].1, pretty) {
      if i > 0 {
        assert es[i] == es[1..][i - 1];
      }
    }
  }

  lemma {:induction false} SizeTrimmed(data: Structure, pretty: bool)
    ensures Size(TrimAll(data)) == Size(data) == Weight(GeneratedLines(data, pretty))
  {
    hide KeyLine, SectionLine, Trim;
    if data != [] {
      SizeTrimmed(data[1..], pretty);
      var (name, es) := data[0];
      var space := if |data| > 1 && pretty then [""] else [];
      WeightConcat(SectionLines(name, es, pretty) + space, GeneratedLines(data[1..], pretty));
      WeightConcat(SectionLines(name, es, pretty), space);
      SectionWeight(name, es, pretty);
    }
  }

  lemma SectionWeight(name: string, es: Section, pretty: bool)
    ensures Weight(SectionLines(name, es, pretty)) == 1 + |es|
  {
    hide SectionLine;
    WeightConcat([SectionLine(name)], KeyLines(es, pretty));
    KeysWeight(es, pretty);
    assert SectionLine(name) != "" by { SectionLineIsNoBlank(name); }
  }

  lemma SectionLineIsNoBlank(name: string)
    ensures SectionLine(name) != ""
  {
  }

  lemma {:induction false} KeysWeight(es: Section, pretty: bool)
    ensures Weight(KeyLines(es, pretty)) == |es|
    decreases |es|
  {
    hide KeyLine;
    if es != [] {
      KeysWeight(es[1..], pretty);
      KeyLineIsNoBlank(es[0].0, es[0].1, pretty);
      WeightConcat([KeyLine(es[0].0, es[0].1, pretty)], KeyLines(es[1..], pretty));
    }
  }

  lemma SectionMustRead(st: ReadState, lines: seq<string>, name: string, es: Section, after: Structure)
    requires Tight(st, [SectionLine(name)] + lines)
    requires ReadLines(st, [SectionLine(name)] + lines).data == st.data + [(name, TrimValues(es))] + after
    ensures ';' !in name
    ensures Gains(ReadLine(st, SectionLine(name)), lines, st.data, name, [], es, after)
  {
    hide Tight, ReadLine, SectionLine, Norm, Trim, ParseLine;
    var line, done := SectionLine(name), st.data;
    assert ([line] + lines)[1..] == lines;
    SectionLineIsNoBlank(name);
    TightStep(st, [line] + lines);
    var next, final := ReadLine(st, line), ReadLines(st, [line] + lines).data;
    TightExtends(next, lines);
    assert [] + TrimValues(es) == TrimValues(es);
    assert done != [] ==> final[|done| - 1] == done[|done| - 1];
    if ParseLine(line).Section? {
      assert next.data[|done|] == (Norm(ParseLine(line).name), []);
      assert final[|done|] == (name, TrimValues(es));
      if ';' in name {
        SectionLineFails(name);
      }
    } else {
      LongerSection(done, Norm(ParseLine(line).key), ParseLine(line).value, final);
    }
  }

  lemma LongerSection(done: Structure, key: string, value: string, final: Structure)
    requires done != [] && Extends(AddKey(done, key, value), final)
    ensures |done| <= |final| && |final[|done| - 1].1| > |done[|done| - 1].1|
  {
  }

  lemma {:induction false} SectionsMustRead(st: ReadState, rest: Structure, pretty: bool)
    requires OnLast(st) && NormalNames(rest)
    requires ReadLines(st, GeneratedLines(rest, pretty)).data == st.data + TrimAll(rest)
    ensures Printable(rest, pretty)
    decreases |rest|
  {
    hide Gains, ReadLine, SectionLine, KeyLine, OnLast, Norm, Normal, Trim, Size, Weight, PrintableKeys, SectionLines;
    if rest != [] {
      var (name, es) := rest[0];
      var line := SectionLine(name);
      var space := if |rest| > 1 && pretty then [""] else [];
      var later := space + GeneratedLines(rest[1..], pretty);
      var lines := GeneratedLines(rest, pretty);
      SizeTrimmed(rest, pretty);
      SizeConcat(st.data, TrimAll(rest));
      assert Tight(st, lines);
      GeneratedHere(rest, pretty, later);
      var after := TrimAll(rest[1..]);
      assert st.data + TrimAll(rest) == st.data + [(name, TrimValues(es))] + after;
      SectionMustRead(st, KeyLines(es, pretty) + later, name, es, after);
      var next := KeysMustRead(ReadLine(st, line), later, st.data, name, [], es, after, pretty);
      LaterSections(next, space, GeneratedLines(rest[1..], pretty), st.data, name, es, after);
      SectionsMustRead(next, rest[1..], pretty);
      PrintableSections(rest, pretty);
    }
  }

  /** The empty line between sections changes nothing. */
  lemma LaterSections(st: ReadState, space: seq<string>, lines: seq<string>, done: Structure, name: string,
                      es: Section, after: Structure)
    requires space == [] || space == [""]
    requires Gains(st, space + lines, done, name, [] + TrimValues(es), [], after)
    ensures OnLast(st) && st.data == done + [(name, TrimValues(es))]
    ensures ReadLines(st, lines).data == st.data + after
  {
    hide ReadLine, OnLast, Size, Weight;
    assert [] + TrimValues(es) == TrimValues(es) == TrimValues(es) + [];
    if space == [] {
      assert space + lines == lines;
    } else {
      assert (space + lines)[1..] == lines;
      TightStep(st, space + lines);
    }
  }

  lemma PrintableSections(data: Structure, pretty: bool)
    requires data != [] && ';' !in data[0].0 && PrintableKeys(data[0].1, pretty) && Printable(data[1..], pretty)
    ensures Printable(data, pretty)
  {
    hide PrintableKeys;
    forall i | 0 <= i < |data| ensures ';' !in data[i].0 && PrintableKeys(data[i].1, pretty) {
      if i > 0 {
        assert data[i] == data[1..][i - 1];
      }
    }
  }

  lemma GeneratedHere(data: Structure, pretty: bool, later: seq<string>)
    requires data != [] && later == (if |data| > 1 && pretty then [""] else []) + GeneratedLines(data[1..], pretty)
    ensures GeneratedLines(data, pretty) == [SectionLine(data[0].0)] + (KeyLines(data[0].1, pretty) + later)
  {
    hide SectionLine, KeyLines;
  }

  // ---------------------------------------------------------------- what is printable is read back

  /** The open section of `st` is the last one, `name` with the entries `read`. */
  ghost predicate Reading(st: ReadState, done: Structure, name: string, read: Section) {
    st.inSection && OnLast(st) && st.data == done + [(name, read)]
  }

  lemma KeyReads(st: ReadState, done: Structure, name: string, read: Section, key: string, value: string, pretty: bool)
    requires Reading(st, done, name, read) && Normal(key) && !Has(read, key) && Readable(key, value, pretty)
    ensures Reading(ReadLine(st, KeyLine(key, value, pretty)), done, name, read + [(key, Trim(value))])
  {
    hide ParseLine, KeyLine, Readable, Trim, IndexOf;
    NormalIsTrimmed(key);
    KeyLineReads(key, value, pretty);
    PutIndex(st.data, name, Put(read, key, Trim(value)), name);
  }

  lemma FirstIsNew(before: Section, first: (string, string), after: Section)
    requires Keyed(before + ([first] + after))
    ensures Normal(first.0) && !Has(before, first.0)
    ensures Keyed(before + [first] + after)
  {
    hide Normal, IndexOf;
    assert before + ([first] + after) == before + [first] + after;
    var all := before + [first] + after;
    assert all[|before|] == first;
    forall i | 0 <= i < |before| ensures before[i].0 != first.0 {
      assert all[i] == before[i];
    }
  }

  lemma {:induction false} KeysRead(st: ReadState, done: Structure, name: string, read: Section, es: Section,
                                    lines: seq<string>, pretty: bool)
    returns (next: ReadState)
    requires Reading(st, done, name, read) && Keyed(read + TrimValues(es)) && PrintableKeys(es, pretty)
    ensures Reading(next, done, name, read + TrimValues(es))
    ensures ReadLines(next, lines) == ReadLines(st, KeyLines(es, pretty) + lines)
    decreases |es|
  {
    hide Reading, ReadLine, KeyLine, Readable, Norm, Normal, Trim, Keyed;
    if es == [] {
      assert KeyLines(es, pretty) + lines == lines;
      assert read + TrimValues(es) == read;
      next := st;
    } else {
      var (key, value) := es[0];
      var line, rest := KeyLine(key, value, pretty), KeyLines(es[1..], pretty) + lines;
      var first := (key, Trim(value));
      assert KeyLines(es, pretty) + lines == [line] + rest;
      assert ([line] + rest)[1..] == rest;
      FirstIsNew(read, first, TrimValues(es[1..]));
      KeyReads(st, done, name, read, key, value, pretty);
      next := KeysRead(ReadLine(st, line), done, name, read + [first], es[1..], lines, pretty);
      assert read + [first] + TrimValues(es[1..]) == read + TrimValues(es);
    }
  }

  lemma SectionReads(st: ReadState, name: string)
    requires Normal(name) && ';' !in name && !Has(st.data, name)
    ensures Reading(ReadLine(st, SectionLine(name)), st.data, name, [])
  {
    hide ParseLine, SectionLine, IndexOf, Norm, Normal, Trimmed;
    NormalIsTrimmed(name);
    NormalStays(name);
    SectionLineReads(name);
    PutIndex(st.data, name, [], name);
  }

  lemma NormalStays(key: string)
    requires Normal(key)
    ensures Norm(key) == key
  {
  }

  lemma SectionIsNew(before: Structure, name: string, es: Section, after: Structure)
    requires Keyed(before + ([(name, es)] + after))
    ensures Normal(name) && !Has(before, name)
    ensures Keyed(before + [(name, es)] + after)
  {
    hide Normal, IndexOf;
    assert before + ([(name, es)] + after) == before + [(name, es)] + after;
    var all := before + [(name, es)] + after;
    assert all[|before|] == (name, es);
    forall i | 0 <= i < |before| ensures before[i].0 != name {
      assert all[i] == before[i];
    }
  }

  lemma SectionComes(st: ReadState, name: string, es: Section, space: seq<string>, lines: seq<string>, pretty: bool)
    returns (next: ReadState)
    requires Normal(name) && ';' !in name && !Has(st.data, name)
    requires Keyed(es) && PrintableKeys(es, pretty) && (space == [] || space == [""])
    ensures next.data == st.data + [(name, TrimValues(es))]
    ensures ReadLines(next, lines) == ReadLines(st, [SectionLine(name)] + (KeyLines(es, pretty) + (space + lines)))
  {
    hide ReadLine, SectionLine, KeyLines, OnLast, Normal, Trim, PrintableKeys, Keyed, Has;
    var line, keys := SectionLine(name), KeyLines(es, pretty) + (space + lines);
    SectionReads(st, name);
    assert ([line] + keys)[1..] == keys;
    TrimmedKeyed(es);
    assert [] + TrimValues(es) == TrimValues(es);
    next := KeysRead(ReadLine(st, line), st.data, name, [], es, space + lines, pretty);
    assert (space + lines)[|space|..] == lines;
    BlankReads(next);
  }

  lemma PrintableHere(data: Structure, pretty: bool)
    requires data != [] && Printable(data, pretty)
    ensures ';' !in data[0].0 && PrintableKeys(data[0].1, pretty) && Printable(data[1..], pretty)
  {
    hide PrintableKeys;
  }

  lemma {:induction false} SectionsRead(st: ReadState, rest: Structure, pretty: bool)
    requires Keyed(st.data + TrimAll(rest)) && Printable(rest, pretty)
    requires forall i :: 0 <= i < |rest| ==> Keyed(rest[i].1)
    ensures ReadLines(st, GeneratedLines(rest, pretty)).data == st.data + TrimAll(rest)
    decreases |rest|
  {
    hide ReadLine, SectionLine, KeyLines, Normal, TrimValues, PrintableKeys, Printable, SectionLines, Keyed, Has;
    if rest != [] {
      PrintableHere(rest, pretty);
      var (name, es) := rest[0];
      var space := if |rest| > 1 && pretty then [""] else [];
      var lines := GeneratedLines(rest[1..], pretty);
      GeneratedHere(rest, pretty, space + lines);
      SectionIsNew(st.data, name, TrimValues(es), TrimAll(rest[1..]));
      var next := SectionComes(st, name, es, space, lines, pretty);
      SectionsRead(next, rest[1..], pretty);
      Lines.Regroup(st.data, [(name, TrimValues(es))], TrimAll(rest[1..]));
    }
  }

  lemma BlankReads(st: ReadState)
    ensures ReadLine(st, "") == st
  {
  }

  lemma TrimmedKeyed(es: Section)
    requires Keyed(es)
    ensures Keyed(TrimValues(es))
  {
    hide Normal, Trim;
    forall i, j | 0 <= i < j < |es| ensures TrimValues(es)[i].0 != TrimValues(es)[j].0 {
      assert es[i].0 != es[j].0;
    }
  }

  lemma AllTrimmedKeyed(data: Structure)
    requires Keyed(data)
    ensures Keyed(TrimAll(data))
  {
    hide Normal, Trim, TrimValues;
    forall i, j | 0 <= i < j < |data| ensures TrimAll(data)[i].0 != TrimAll(data)[j].0 {
      assert data[i].0 != data[j].0;
    }
  }

  /** Generated lines are read back as the same structure, in the same order, exactly if it is printable. */
  lemma GeneratedLinesRead(data: Structure, pretty: bool)
    requires WellKeyed(data)
    ensures ReadLines(START, GeneratedLines(data, pretty)).data == TrimAll(data) <==> Printable(data, pretty)
  {
    hide ReadLines, GeneratedLines, Keyed, Normal, Printable;
    assert [] + TrimAll(data) == TrimAll(data);
    if Printable(data, pretty) {
      AllTrimmedKeyed(data);
      SectionsRead(START, data, pretty);
    } else if ReadLines(START, GeneratedLines(data, pretty)).data == TrimAll(data) {
      KeyedAreNormal(data);
      SectionsMustRead(START, data, pretty);
    }
  }

  lemma KeyedAreNormal(data: Structure)
    requires WellKeyed(data)
    ensures NormalNames(data)
  {
    hide Normal;
  }

  /** A key that ends in a backslash is lost in plain mode. */
  lemma BackslashKeyIsLost()
    ensures var data := [("s", [("a\\", "v")])];
      WellKeyed(data) && ReadLines(START, GeneratedLines(data, false)).data != TrimAll(data)
  {
    hide ReadLines, GeneratedLines, Readable, TrimAll, Trim;
    var es := [("a\\", "v")];
    var data := [("s", es)];
    TrimmedStays("s");
    TrimmedStays("a\\");
    assert Norm("s") == "s" && Norm("a\\") == "a\\";
    assert !Readable("a\\", "v", false) by {
      EndsInBackslash();
    }
    assert data[0].1[0] == ("a\\", "v");
    GeneratedLinesRead(data, false);
  }

  lemma EndsInBackslash()
    ensures !Readable("a\\", "v", false)
  {
  }
}
