/**
  Exactly when a lazy write reads back, whatever the file. A line for a new key that is not read as it was meant could
  be made up for by other lines; sums over all the lines that are added show that it never is.
 */
module IniExact {
  import opened Wrappers
  import opened Counting
  import opened IniText
  import opened IniParser
  import opened IniLines
  import opened IniRewrite
  import opened IniMap
  import opened IniReader
  import opened IniMeaning
  import opened IniWriter
  import opened IniLazy
  import opened IniReadBack
  import opened IniLedger

  // ---------------------------------------------------------------- counting characters

  function Count(s: string, c: char): nat {
    multiset(s)[c]
  }

  lemma CountConcat(a: string, b: string, c: char)
    ensures Count(a + b, c) == Count(a, c) + Count(b, c)
  {
  }

  lemma CountNone(s: string, c: char)
    ensures Count(s, c) == 0 <==> c !in s
  {
    assert c in s <==> c in multiset(s);
  }

  lemma CountTrim(s: string, c: char)
    requires !IsBlank(c)
    ensures Count(Trim(s), c) == Count(s, c)
  {
    hide Trim, Count;
    var before, after := TrimParts(s);
    CountNone(before, c);
    CountNone(after, c);
    CountConcat(before + Trim(s), after, c);
    CountConcat(before, Trim(s), c);
  }

  // ---------------------------------------------------------------- how a line can be misread

  lemma UncutParses(text: string, p: string, q: string)
    requires Printed(text, p, q) && ParseLine(text).KeyValue?
    requires (Starts(p, '[') ==> NoSectionMarks(p) && NoSectionMarks(q))
    ensures ParseLine(text) == ParseEntry(text) && !Starts(p, ';')
  {
    hide Trim, ParseEntry;
    TrimmedStays(text);
    if Starts(p, '[') {
      OpenPart(text);
      InPrinted(p, q, ';');
      InPrinted(p, q, ']');
    }
  }

  lemma SuffixCounts(s: string, i: nat, c: char)
    requires i <= |s|
    ensures Count(s[i..], c) <= Count(s, c)
  {
    assert s == s[..i] + s[i..];
  }

  /** The value of an uncut entry is the printed one, or a part of it behind a later delimiter. */
  lemma UncutValue(text: string, p: string, q: string)
    requires Printed(text, p, q) && ParseEntry(text).KeyValue?
    ensures var v := ParseEntry(text).value;
      && Count(v, ';') <= Count(q, ';')
      && if Ends(p, '\\') then |v| < |q| else v == Trim(q)
  {
    hide Trim, Unescape, ParseEntry, Count;
    var k := EntryDelimiter(text);
    BareInPrinted(text, p, q, k);
    var rest := text[k + 1..];
    assert rest == q[k - |p|..];
    SuffixCounts(q, k - |p|, ';');
    CountTrim(rest, ';');
    if !Ends(p, '\\') {
      PrintedDelimiter(p, q);
      assert k == |p|;
      assert rest == q;
    }
  }

  /**
    A line printed for a new key, if it is read as an entry at all: its value has no more semicolons; if as many, it
    is no longer; and if as long, the line was readable.
   */
  lemma NewLineRead(key: string, value: string, pretty: bool)
    requires Trimmed(key) && ParseLine(KeyLine(key, value, pretty)).KeyValue?
    ensures var v, w := ParseLine(KeyLine(key, value, pretty)).value, Trim(value);
      && Count(v, ';') <= Count(w, ';')
      && (Count(v, ';') == Count(w, ';') ==> |v| <= |w| && (|v| == |w| ==> Readable(key, value, pretty)))
  {
    hide Trim, Unescape, Escape, ParseEntry, KeyLine, Count, NoSectionMarks;
    var text, w := Trim(KeyLine(key, value, pretty)), Trim(value);
    TrimmedStays(text);
    assert ParseLine(KeyLine(key, value, pretty)) == ParseLine(text);
    var p, q := KeyLineShape(key, value, pretty);
    CountTrim(q, ';');
    if Starts(p, '[') && !(NoSectionMarks(p) && NoSectionMarks(q)) {
      MarkedFails(text, p, q);
      CountNone(q, ';');
      CountNone(ParseLine(text).value, ';');
    } else {
      UncutParses(text, p, q);
      UncutValue(text, p, q);
    }
  }

  // ---------------------------------------------------------------- the sums

  function IsEntry(e: Entry): nat {
    if e.None? then 0 else 1
  }

  function Semicolons(e: Entry): nat {
    if e.None? then 0 else Count(e.value.1, ';')
  }

  function Length(e: Entry): nat {
    if e.None? then 0 else |e.value.1|
  }

  /** The line of the account is read as `e`. */
  ghost predicate ReadAs(a: Account, e: Entry, pretty: bool) {
    Justified(a, pretty) && Content(a.line) == [e]
  }

  lemma AsEntry(a: Account, e: Entry, pretty: bool)
    requires ReadAs(a, e, pretty)
    ensures IsEntry(e) <= IsEntry(a.unit.entry)
  {
    hide ParseLine, Norm, Trim, KeyLine;
    assert [e][0] == e;
  }

  lemma ContentIs(line: string, e: Entry)
    requires Content(line) == [e] && e.Some?
    ensures ParseLine(line).KeyValue? && e.value == (Norm(ParseLine(line).key), ParseLine(line).value)
  {
    hide ParseLine, Norm;
  }

  lemma ReadEntry(a: Account, e: Entry, pretty: bool)
    requires ReadAs(a, e, pretty) && e.Some? == a.unit.entry.Some?
    ensures var due := a.unit.entry;
      && Semicolons(e) <= Semicolons(due)
      && (Semicolons(e) == Semicolons(due)
          ==> Length(e) <= Length(due) && (Length(e) == Length(due) ==> Good(a, pretty)))
  {
    hide ParseLine, Norm, Trim, KeyLine, Count, Content, Readable;
    if e.Some? {
      ContentIs(a.line, e);
      NormalIsTrimmed(a.origin.key);
      NewLineRead(a.origin.key, a.origin.value, pretty);
    }
  }

  lemma {:induction false} ContentOfEach(lines: seq<string>)
    ensures |Contents(lines)| <= |lines|
    ensures |Contents(lines)| == |lines| ==> forall i :: 0 <= i < |lines| ==> Content(lines[i]) == [Contents(lines)[i]]
    decreases |lines|
  {
    hide ParseLine, Norm;
    if lines != [] {
      ContentOfEach(lines[1..]);
      if |Contents(lines)| == |lines| {
        forall i | 0 <= i < |lines| ensures Content(lines[i]) == [Contents(lines)[i]] {
          if i > 0 {
            assert lines[i] == lines[1..][i - 1];
          }
        }
      }
    }
  }

  /** Terms that compare one by one, of lists that agree up to order, are equal one by one. */
  lemma Forced(f: Entry -> nat, a: seq<Entry>, b: seq<Entry>)
    requires multiset(a) == multiset(b) && |a| == |b|
    requires forall i :: 0 <= i < |a| ==> f(a[i]) <= f(b[i])
    ensures forall i :: 0 <= i < |a| ==> f(a[i]) == f(b[i])
  {
    SumSame(f, a, b);
    SumsForce(f, a, b);
  }

  /** If in sum the added lines are read as they were meant, each of them meets its condition. */
  lemma AllAreGood(ledger: seq<Account>, pretty: bool)
    requires AllJustified(ledger, pretty) && |Contents(LinesIn(ledger))| == |ledger|
    requires multiset(Contents(LinesIn(ledger))) == multiset(EntriesIn(UnitsIn(ledger)))
    ensures AllGood(ledger, pretty)
  {
    hide Contents, Content, Justified, Good, IsEntry, Semicolons, Length;
    var got, due := Contents(LinesIn(ledger)), EntriesIn(UnitsIn(ledger));
    ContentOfEach(LinesIn(ledger));
    forall i | 0 <= i < |ledger| ensures ReadAs(ledger[i], got[i], pretty) && due[i] == ledger[i].unit.entry {
      assert LinesIn(ledger)[i] == ledger[i].line && UnitsIn(ledger)[i] == ledger[i].unit;
    }
    forall i | 0 <= i < |ledger| ensures IsEntry(got[i]) <= IsEntry(due[i]) {
      AsEntry(ledger[i], got[i], pretty);
    }
    Forced(IsEntry, got, due);
    forall i | 0 <= i < |ledger| ensures Semicolons(got[i]) <= Semicolons(due[i]) {
      BothEntries(got[i], due[i]);
      ReadEntry(ledger[i], got[i], pretty);
    }
    Forced(Semicolons, got, due);
    forall i | 0 <= i < |ledger| ensures Length(got[i]) <= Length(due[i]) {
      BothEntries(got[i], due[i]);
      ReadEntry(ledger[i], got[i], pretty);
    }
    Forced(Length, got, due);
    forall i | 0 <= i < |ledger| ensures Good(ledger[i], pretty) {
      BothEntries(got[i], due[i]);
      ReadEntry(ledger[i], got[i], pretty);
    }
  }

  lemma BothEntries(a: Entry, b: Entry)
    requires IsEntry(a) == IsEntry(b)
    ensures a.Some? == b.Some?
  {
  }

  // ---------------------------------------------------------------- what reading back implies

  /** Names that have been read hold no semicolon. */
  lemma {:induction false} NamesReadArePlain(m: Meaning, lines: seq<string>)
    requires forall s :: s in m.maps ==> ';' !in s
    requires m.open.Some? ==> ';' !in m.open.value
    ensures forall s :: s in MeanAll(m, lines).maps ==> ';' !in s
    decreases |lines|
  {
    hide ParseLine, Norm;
    if lines != [] {
      if ParseLine(lines[0]).Section? {
        NameReadIsPlain(lines[0]);
        NormAddsNoMark(ParseLine(lines[0]).name, ';');
      }
      NamesReadArePlain(Mean(m, lines[0]), lines[1..]);
    }
  }

  lemma NameReadIsPlain(line: string)
    requires ParseLine(line).Section?
    ensures ';' !in ParseLine(line).name
  {
    hide Trim, ParseEntry;
    var text := Trim(line);
    TrimmedStays(text);
    EntryIsNoSection(text);
    OpenPart(text);
    var open := text[..Find(text, ';')];
    EntryIsNoSection(open);
    TrimKeepsChars(open[1..FindLast(open, ']')], ';');
  }

  lemma WantedNamesArePlain(data: Structure)
    requires WellKeyed(data) && forall s :: s in AsRead(ToMaps(data)) ==> ';' !in s
    ensures forall j :: 0 <= j < |data| ==> ';' !in data[j].0
  {
    hide ToMaps, WellKeyed, Trim, Normal, Norm, Within, IndexOf;
    forall j | 0 <= j < |data| ensures ';' !in data[j].0 {
      DataFacts(data, j, []);
    }
  }

  lemma PlainBrackets(want: Maps)
    ensures BracketsPlain(AsRead(want)) <==> PlainValues(want)
  {
    hide Trim, NoSectionMarks, Starts;
    forall s, k | s in want && k in want[s]
        ensures s in AsRead(want) && k in AsRead(want)[s] && AsRead(want)[s][k] == Trim(want[s][k]) {
    }
  }

  /** A key that the lines have brought in is given by one of them. */
  lemma {:induction false} ReadIsGiven(m: Meaning, lines: seq<string>, s: string, k: string)
    requires (m.open.Some? ==> m.open.value in m.maps) && !(s in m.maps && k in m.maps[s])
    requires s in MeanAll(m, lines).maps && k in MeanAll(m, lines).maps[s]
    ensures GivenLater(m.open, lines, s, k)
    decreases |lines|
  {
    hide ParseLine, Norm;
    if lines != [] {
      OpenAfterOne(m.open, lines[0]);
      assert lines[..1] == [lines[0]];
      var next := Mean(m, lines[0]);
      if !(s in next.maps && k in next.maps[s]) {
        ReadIsGiven(next, lines[1..], s, k);
      }
    }
  }

  /** A key with a bracket in front cannot be changed to a value with section marks, and is never given one. */
  lemma {:induction false} GivenIsPlain(want: Maps, open: Option<string>, lines: seq<string>, s: string, k: string)
    requires GivenLater(open, lines, s, k) && LastChangeable(want, open, lines)
    requires s in want && k in want[s] && Starts(k, '[')
    ensures NoSectionMarks(Trim(want[s][k]))
    decreases |lines|
  {
    hide ParseLine, Norm, Trim, NoSectionMarks, Starts, OpenAfter, ChangeableAt;
    if Gives(open, lines[0], s, k) && !GivenAgain(open, lines) {
      GivenHereIsPlain(want, open, lines[0], s, k);
    } else {
      GivenIsPlain(want, OpenAfter(open, lines[..1]), lines[1..], s, k);
    }
  }

  lemma GivenHereIsPlain(want: Maps, open: Option<string>, line: string, s: string, k: string)
    requires Gives(open, line, s, k) && ChangeableAt(want, open, line) && s in want && k in want[s] && Starts(k, '[')
    ensures NoSectionMarks(Trim(want[s][k]))
  {
    hide ParseLine, Norm, Trim, NoSectionMarks, Starts;
    BracketKey(line);
    ValueIsTrimmed(line);
  }

  /** The conditions leave no value with section marks behind a bracket. */
  lemma ConditionsArePlain(lines: seq<string>, data: Structure, pretty: bool)
    requires WellKeyed(data) && Addable(data, OriginalOf(lines), pretty)
    requires LastChangeable(ToMaps(data), None, KeptLines(lines, false))
    ensures PlainValues(ToMaps(data))
  {
    hide ToMaps, WellKeyed, Has, Lookup, OriginalOf, KeptLines, LastChangeable, Starts, NoSectionMarks, Trim, Addable,
      MeanAll, GivenLater;
    var want, kept, original := ToMaps(data), KeptLines(lines, false), OriginalOf(lines);
    OriginalMeans(lines);
    forall s, k | s in want && k in want[s] && Starts(k, '[') ensures NoSectionMarks(Trim(want[s][k])) {
      SectionFacts(data, s);
      SectionFacts(original, s);
      if Has(original, s) && Has(Lookup(original, s), k) {
        ReadIsGiven(NOTHING, kept, s, k);
        GivenIsPlain(want, None, kept, s, k);
      } else {
        NewIsPlain(data, original, pretty, s, k);
      }
    }
  }

  lemma NewIsPlain(data: Structure, original: Structure, pretty: bool, s: string, k: string)
    requires Addable(data, original, pretty) && Has(data, s) && Has(Lookup(data, s), k) && Starts(k, '[')
    requires !(Has(original, s) && Has(Lookup(original, s), k))
    ensures NoSectionMarks(Trim(Lookup(Lookup(data, s), k)))
  {
    hide NoSectionMarks, Starts, Trim;
    var i := IndexOf(data, s);
    var es := data[i].1;
    var j := IndexOf(es, k);
    var os := if Has(original, s) then Lookup(original, s) else [];
    assert NewKeysReadable(es, os, pretty);
    assert es[j].0 == k && Readable(es[j].0, es[j].1, pretty);
  }

  /** What reads back has all its additions readable. */
  lemma ReadBackIsAddable(lines: seq<string>, data: Structure, pretty: bool)
    requires WellKeyed(data)
    requires MeanAll(NOTHING, LazyOutput(KeptLines(lines, false), data, OriginalOf(lines), pretty)).maps
      == AsRead(ToMaps(data))
    ensures Addable(data, OriginalOf(lines), pretty) && PlainValues(ToMaps(data))
  {
    hide ToMaps, WellKeyed, LazyOutput, OriginalOf, AsRead, MeanAll, KeptLines, UnitsOf, AllJustified, AllGood,
      EntriesIn, IndexOf, Contents, UnitsIn, LinesIn, PlainValues, BracketsPlain, AddedUnits, Ledger, NewKeysReadable,
      OldUnit, ReadUnits, Distinct;
    var original := OriginalOf(lines);
    var out := LazyOutput(KeptLines(lines, false), data, original, pretty);
    NothingPlain();
    NamesReadArePlain(NOTHING, out);
    BracketsStayPlain(NOTHING, out);
    PlainBrackets(ToMaps(data));
    WantedNamesArePlain(data);
    OutputAccountable(lines, data, pretty);
    LedgerFacts(data, 0, original, pretty);
    assert data[0..] == data;
    var ledger, got := Ledger(data, original, pretty), AddedUnits(data, original, pretty);
    UnitsAreRead(NOTHING, out);
    var due := set u | u in UnitsOf(AsRead(ToMaps(data))) && !OldUnit(u, original);
    ContentOfEach(LinesIn(ledger));
    BooksBalance(got, UnitsIn(ledger), due);
    AllAreGood(ledger, pretty);
    LedgerIsAddable(data, original, pretty);
  }

  lemma NothingPlain()
    ensures BracketsPlain(map[]) && UnitsOf(map[]) == {}
  {
  }

  lemma LedgerIsAddable(data: Structure, original: Structure, pretty: bool)
    requires forall j :: 0 <= j < |data| ==> ';' !in data[j].0
    requires forall j :: 0 <= j < |data| ==>
      NewKeysReadable(data[j].1, if Has(original, data[j].0) then Lookup(original, data[j].0) else [], pretty)
    ensures Addable(data, original, pretty)
  {
    hide NewKeysReadable, Has, Lookup;
  }

  /**
    Whatever the file, a lazy write of a structure prints lines that read back as exactly that structure, values
    trimmed, if and only if its additions are readable and every entry to be changed can be, unless its key is given
    again later.
   */
  lemma LazyWriteReadsIff(lines: seq<string>, data: Structure, pretty: bool)
    requires WellKeyed(data)
    ensures var kept, original := KeptLines(lines, false), OriginalOf(lines);
      ToMaps(OriginalOf(LazyOutput(kept, data, original, pretty))) == AsRead(ToMaps(data))
      <==> Addable(data, original, pretty) && LastChangeable(ToMaps(data), None, kept)
  {
    hide *;
    var kept, original := KeptLines(lines, false), OriginalOf(lines);
    OriginalMeans(LazyOutput(kept, data, original, pretty));
    if MeanAll(NOTHING, LazyOutput(kept, data, original, pretty)).maps == AsRead(ToMaps(data)) {
      ReadBackIsAddable(lines, data, pretty);
      WriteReads(lines, data, pretty);
    } else if Addable(data, original, pretty) && LastChangeable(ToMaps(data), None, kept) {
      ConditionsArePlain(lines, data, pretty);
      WriteReads(lines, data, pretty);
    }
  }

  // ---------------------------------------------------------------- an escape in front of a value

  const SECTION_S := "[s]"
  const DATA_KV: Structure := [("s", [("k", "v")])]
  const MAPS_KV: Maps := map["s" := map["k" := "v"]]

  lemma OneEntryMap<T>(key: string, value: T)
    ensures ToMap([(key, value)]) == map[key := value]
  {
    var es: IniMap.Entries<T> := [];
    assert forall k :: !Has(es, k);
    assert ToMap(es) == map[];
    PutMeans(es, key, value);
    assert Put(es, key, value) == [(key, value)];
  }

  lemma DataMaps()
    ensures ToMaps(DATA_KV) == MAPS_KV == AsRead(MAPS_KV)
  {
    hide Trim, ToMap;
    OneEntryMap("s", [("k", "v")]);
    OneEntryMap("k", "v");
    TrimmedStays("v");
    assert AsRead(MAPS_KV)["s"] == MAPS_KV["s"];
  }

  lemma DataIsKeyed()
    ensures WellKeyed(DATA_KV) && Norm("s") == "s" && Norm("k") == "k" && ParseLine(SECTION_S) == Section("s")
  {
    hide Trim, ParseLine;
    TrimmedStays("s");
    TrimmedStays("k");
    assert Lower("s") == "s" && Lower("k") == "k";
    SectionLineReads("s");
    assert SectionLine("s") == SECTION_S;
  }

  lemma TwoLineFile(entry: string)
    requires ParseLine(SECTION_S) == Section("s") && Norm("s") == "s" && ParseLine(entry).KeyValue?
    ensures KeptLines([SECTION_S, entry], false) == [SECTION_S, entry]
    ensures LastChangeable(MAPS_KV, None, [SECTION_S, entry]) ==> ChangeableAt(MAPS_KV, Some("s"), entry)
  {
    hide ParseLine, Norm, ChangeableAt;
    var lines := [SECTION_S, entry];
    assert lines[1..] == [entry] && lines[..1] == [SECTION_S] && [entry][1..] == [];
    OpenAfterOne(None, SECTION_S);
    assert KeptLines([entry], true) == [entry] + [];
    assert LastChangeable(MAPS_KV, None, lines) ==> LastChangeable(MAPS_KV, Some("s"), [entry]);
  }

  /** The escape at the head of an old value stays in the file: the new value is not what is read. */
  lemma EscapedValueIsNotReplaced()
    ensures var lines := [SECTION_S, "k=\\=x"];
      && WellKeyed(DATA_KV)
      && ToMaps(OriginalOf(LazyOutput(KeptLines(lines, false), DATA_KV, OriginalOf(lines), false)))
        != AsRead(ToMaps(DATA_KV))
  {
    hide *;
    DataMaps();
    DataIsKeyed();
    EscapedOldValueStays();
    TwoLineFile("k=\\=x");
    NotChangeableInS("k=\\=x");
    LazyWriteReadsIff([SECTION_S, "k=\\=x"], DATA_KV, false);
  }

  lemma NotChangeableInS(entry: string)
    requires ParseLine(entry) == KeyValue("k", "\\=x") && Norm("k") == "k"
    ensures !ChangeableAt(MAPS_KV, Some("s"), entry)
  {
    hide ParseLine, Norm, Trim;
  }
}
