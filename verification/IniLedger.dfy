/**
  The accounts of what a lazy write adds: for every line of a new key or a new section the section or entry that it is
  meant to be. No two of them are the same, and nothing else in the output can stand for any of them.
 */
module IniLedger {
  import Lines
  import opened Wrappers
  import opened Counting
  import opened IniText
  import opened IniParser
  import opened IniLines
  import opened IniRewrite
  import opened IniMap
  import opened IniReader
  import opened IniMeaning
  import opened IniWriter
  import opened IniLazy
  import opened IniLayout
  import opened IniReadBack

  // ---------------------------------------------------------------- what lines contain

  /** An entry with its key as it is stored, or nothing for a section itself. */
  type Entry = Option<(string, string)>

  datatype Unit = Unit(section: string, entry: Entry)

  ghost function UnitsOf(maps: Maps): set<Unit> {
    (set s | s in maps :: Unit(s, None)) + (set s, k | s in maps && k in maps[s] :: Unit(s, Some((k, maps[s][k]))))
  }

  function Content(line: string): seq<Entry> {
    match ParseLine(line)
    case Section(_) => [None]
    case KeyValue(key, value) => [Some((Norm(key), value))]
    case _ => []
  }

  function Contents(lines: seq<string>): seq<Entry>
    decreases |lines|
  {
    if lines == [] then [] else Content(lines[0]) + Contents(lines[1..])
  }

  lemma {:induction false} ContentsConcat(a: seq<string>, b: seq<string>)
    ensures Contents(a + b) == Contents(a) + Contents(b)
    decreases |a|
  {
    hide Content;
    if a == [] {
      assert a + b == b;
    } else {
      assert (a + b)[1..] == a[1..] + b;
      ContentsConcat(a[1..], b);
    }
  }

  /** The same with the section that is open; before any section it does not matter which. */
  function LineUnits(open: Option<string>, line: string): seq<Unit> {
    match ParseLine(line)
    case Section(name) => [Unit(Norm(name), None)]
    case KeyValue(key, value) => [Unit(if open.Some? then open.value else "", Some((Norm(key), value)))]
    case _ => []
  }

  function ReadUnits(open: Option<string>, lines: seq<string>): seq<Unit>
    decreases |lines|
  {
    if lines == [] then [] else LineUnits(open, lines[0]) + ReadUnits(OpenAfter(open, lines[..1]), lines[1..])
  }

  function EntriesIn(units: seq<Unit>): (r: seq<Entry>)
    ensures |r| == |units| && forall i :: 0 <= i < |units| ==> r[i] == units[i].entry
  {
    seq(|units|, i requires 0 <= i < |units| => units[i].entry)
  }

  lemma {:induction false} UnitsAreContents(open: Option<string>, lines: seq<string>)
    ensures EntriesIn(ReadUnits(open, lines)) == Contents(lines)
    decreases |lines|
  {
    hide LineUnits, Content, OpenAfter;
    if lines != [] {
      LineUnitsAreContent(open, lines[0]);
      UnitsAreContents(OpenAfter(open, lines[..1]), lines[1..]);
      EntriesConcat(LineUnits(open, lines[0]), ReadUnits(OpenAfter(open, lines[..1]), lines[1..]));
    }
  }

  lemma LineUnitsAreContent(open: Option<string>, line: string)
    ensures EntriesIn(LineUnits(open, line)) == Content(line)
  {
    hide ParseLine, Norm;
  }

  lemma EntriesConcat(a: seq<Unit>, b: seq<Unit>)
    ensures EntriesIn(a + b) == EntriesIn(a) + EntriesIn(b)
  {
  }

  /** Whatever the maps hold, some line has put it there. */
  lemma {:induction false} UnitsAreRead(m: Meaning, lines: seq<string>)
    requires m.open.Some? ==> m.open.value in m.maps
    ensures forall u :: u in UnitsOf(MeanAll(m, lines).maps) ==> u in UnitsOf(m.maps) || u in ReadUnits(m.open, lines)
    decreases |lines|
  {
    hide Mean, UnitsOf, LineUnits, OpenAfter;
    if lines != [] {
      UnitIsRead(m, lines[0]);
      assert lines[..1] == [lines[0]];
      UnitsAreRead(Mean(m, lines[0]), lines[1..]);
    }
  }

  lemma UnitIsRead(m: Meaning, line: string)
    requires m.open.Some? ==> m.open.value in m.maps
    ensures forall u :: u in UnitsOf(Mean(m, line).maps) ==> u in UnitsOf(m.maps) || u in LineUnits(m.open, line)
    ensures Mean(m, line).open == OpenAfter(m.open, [line])
    ensures Mean(m, line).open.Some? ==> Mean(m, line).open.value in Mean(m, line).maps
  {
    hide ParseLine, Norm;
    OpenAfterOne(m.open, line);
  }

  lemma {:induction false} EntriesSame(a: seq<Unit>, b: seq<Unit>)
    requires multiset(a) == multiset(b)
    ensures multiset(EntriesIn(a)) == multiset(EntriesIn(b))
    decreases |a|
  {
    if a == [] {
      assert |multiset(b)| == |multiset(a)| == 0;
    } else {
      assert a[0] in multiset(a);
      var i :| 0 <= i < |b| && b[i] == a[0];
      Without(b, i);
      assert a == [a[0]] + a[1..];
      assert multiset(a[1..]) == multiset(a) - multiset{a[0]};
      assert multiset(b[..i] + b[i + 1..]) == multiset(b) - multiset{a[0]};
      EntriesSame(a[1..], b[..i] + b[i + 1..]);
      EntriesWithout(b, i);
      EntriesWithout(a, 0);
      assert a[..0] + a[0 + 1..] == a[1..];
    }
  }

  lemma EntriesWithout(units: seq<Unit>, i: nat)
    requires i < |units|
    ensures multiset(EntriesIn(units)) == multiset{units[i].entry} + multiset(EntriesIn(units[..i] + units[i + 1..]))
  {
    Without(EntriesIn(units), i);
    assert EntriesIn(units[..i] + units[i + 1..]) == EntriesIn(units)[..i] + EntriesIn(units)[i + 1..];
  }

  /** Lines that are read as all that is due, and are no more than that, are in sum what they were meant to be. */
  lemma BooksBalance(got: seq<Unit>, meant: seq<Unit>, due: set<Unit>)
    requires (forall u :: u in due ==> u in got) && |got| <= |meant|
    requires Distinct(meant) && forall u :: u in meant ==> u in due
    ensures multiset(EntriesIn(got)) == multiset(EntriesIn(meant)) && |got| == |meant|
  {
    hide Distinct, EntriesIn;
    SameElements(got, meant, due);
    EntriesSame(got, meant);
  }

  lemma {:induction false} UnitsConcat(open: Option<string>, a: seq<string>, b: seq<string>)
    ensures ReadUnits(open, a + b) == ReadUnits(open, a) + ReadUnits(OpenAfter(open, a), b)
    decreases |a|
  {
    hide LineUnits, OpenAfter;
    if a == [] {
      assert a + b == b && [] + ReadUnits(open, b) == ReadUnits(open, b);
      assert OpenAfter(open, []) == open by { NothingRead(open); }
    } else {
      var next := OpenAfter(open, a[..1]);
      assert (a + b)[1..] == a[1..] + b && (a + b)[..1] == a[..1] && a[..1] + a[1..] == a;
      UnitsConcat(next, a[1..], b);
      OpenConcat(open, a[..1], a[1..]);
      Lines.Regroup(LineUnits(open, a[0]), ReadUnits(next, a[1..]), ReadUnits(OpenAfter(next, a[1..]), b));
    }
  }

  lemma {:induction false} QuietUnits(open: Option<string>, lines: seq<string>)
    requires AllQuiet(lines)
    ensures ReadUnits(open, lines) == []
    decreases |lines|
  {
    hide ParseLine;
    if lines != [] {
      assert Quiet(lines[0]);
      QuietUnits(OpenAfter(open, lines[..1]), lines[1..]);
    }
  }

  // ---------------------------------------------------------------- the accounts

  /** A section line, or the line of a key that is added. */
  datatype Origin = Itself | Added(key: string, value: string)

  datatype Account = Account(line: string, unit: Unit, origin: Origin)

  ghost predicate Justified(a: Account, pretty: bool) {
    match a.origin
    case Itself => Content(a.line) == [None] && a.unit.entry.None?
    case Added(key, value) =>
      Normal(key) && a.line == KeyLine(key, value, pretty)
      && a.unit.entry == Some((key, Trim(value)))
  }

  /** The condition on the line that a caller can check. */
  ghost predicate Good(a: Account, pretty: bool) {
    a.origin.Added? ==> Readable(a.origin.key, a.origin.value, pretty)
  }

  ghost predicate AllJustified(ledger: seq<Account>, pretty: bool) {
    forall i :: 0 <= i < |ledger| ==> Justified(ledger[i], pretty)
  }

  ghost predicate AllGood(ledger: seq<Account>, pretty: bool) {
    forall i :: 0 <= i < |ledger| ==> Good(ledger[i], pretty)
  }

  function LinesIn(ledger: seq<Account>): (r: seq<string>)
    ensures |r| == |ledger| && forall i :: 0 <= i < |ledger| ==> r[i] == ledger[i].line
  {
    seq(|ledger|, i requires 0 <= i < |ledger| => ledger[i].line)
  }

  function UnitsIn(ledger: seq<Account>): (r: seq<Unit>)
    ensures |r| == |ledger| && forall i :: 0 <= i < |ledger| ==> r[i] == ledger[i].unit
  {
    seq(|ledger|, i requires 0 <= i < |ledger| => ledger[i].unit)
  }

  lemma GoodBefore(ledger: seq<Account>, more: seq<Account>, pretty: bool)
    ensures AllGood(ledger + more, pretty) <==> AllGood(ledger, pretty) && AllGood(more, pretty)
  {
    hide Good;
    assert forall i :: 0 <= i < |ledger| ==> (ledger + more)[i] == ledger[i];
    assert forall i :: 0 <= i < |more| ==> (ledger + more)[|ledger| + i] == more[i];
  }

  lemma OneGood(a: Account, pretty: bool)
    ensures AllGood([a], pretty) <==> Good(a, pretty)
  {
    assert [a][0] == a;
  }

  // ---------------------------------------------------------------- new keys

  function NewAccounts(name: string, es: Section, original: Section, pretty: bool): seq<Account>
    decreases |es|
  {
    if es == [] then []
    else
      var (key, value) := es[0];
      (if Has(original, Norm(key)) then []
       else [Account(KeyLine(key, value, pretty), Unit(name, Some((key, Trim(value)))), Added(key, value))])
      + NewAccounts(name, es[1..], original, pretty)
  }

  lemma {:induction false} NewAccountsFacts(name: string, es: Section, original: Section, pretty: bool)
    requires Keyed(es)
    ensures var more := NewAccounts(name, es, original, pretty);
      && LinesIn(more) == NewKeyLines(es, original, pretty)
      && AllJustified(more, pretty) && Distinct(UnitsIn(more))
      && (forall u :: u in UnitsIn(more) ==> NewUnit(u, name, es, original))
      && (AllGood(more, pretty) ==> NewKeysReadable(es, original, pretty))
    decreases |es|
  {
    hide Norm, Normal, Has, KeyLine, Trim, Readable, Justified, AllGood, NewKeysReadable, Distinct, NewUnit, LinesIn,
      UnitsIn, Keyed;
    if es == [] {
      NoAccounts(name, original, pretty);
    } else {
      var (key, value) := es[0];
      KeyedFirst(es);
      var rest := NewAccounts(name, es[1..], original, pretty);
      NewAccountsFacts(name, es[1..], original, pretty);
      NewUnitLater(name, es, original);
      ReadableCons(es, original, pretty);
      if Has(original, key) {
        assert [] + rest == rest && [] + LinesIn(rest) == LinesIn(rest);
      } else {
        var first := Account(KeyLine(key, value, pretty), Unit(name, Some((key, Trim(value)))), Added(key, value));
        FirstIsOther(first, rest, name, es, original);
        FirstIsNewUnit(first, es, original, pretty);
        GoodBefore([first], rest, pretty);
        OneGood(first, pretty);
        JustifiedCons(first, rest, pretty);
      }
    }
  }

  lemma NoAccounts(name: string, original: Section, pretty: bool)
    ensures NewAccounts(name, [], original, pretty) == [] && NewKeyLines([], original, pretty) == LinesIn([]) == []
    ensures Distinct(UnitsIn([])) && AllJustified([], pretty) && NewKeysReadable([], original, pretty)
    ensures UnitsIn([]) == []
  {
  }

  lemma JustifiedCons(first: Account, rest: seq<Account>, pretty: bool)
    requires Justified(first, pretty) && AllJustified(rest, pretty)
    ensures AllJustified([first] + rest, pretty)
  {
    hide Justified;
  }

  lemma FirstIsNewUnit(first: Account, es: Section, original: Section, pretty: bool)
    requires es != [] && Normal(es[0].0) && !Has(original, es[0].0)
    requires first.line == KeyLine(es[0].0, es[0].1, pretty)
    requires first.unit.entry == Some((es[0].0, Trim(es[0].1))) && first.origin == Added(es[0].0, es[0].1)
    ensures NewUnit(first.unit, first.unit.section, es, original) && Justified(first, pretty)
    ensures Good(first, pretty) <==> Readable(es[0].0, es[0].1, pretty)
  {
    hide Normal, Has, KeyLine, Trim, Readable;
  }

  /** A new entry of the section. */
  ghost predicate NewUnit(u: Unit, name: string, es: Section, original: Section) {
    u.section == name
    && exists i ::
      0 <= i < |es| && u.entry == Some((es[i].0, Trim(es[i].1))) && !Has(original, es[i].0)
  }

  lemma NewUnitLater(name: string, es: Section, original: Section)
    requires es != []
    ensures forall u :: NewUnit(u, name, es[1..], original) ==> NewUnit(u, name, es, original)
  {
    hide Trim, Has;
    forall u | NewUnit(u, name, es[1..], original) ensures NewUnit(u, name, es, original) {
      var i :| 0 <= i < |es[1..]| && u.entry == Some((es[1..][i].0, Trim(es[1..][i].1)))
          && !Has(original, es[1..][i].0);
      assert es[1..][i] == es[i + 1];
    }
  }

  lemma KeyedFirst(es: Section)
    requires Keyed(es) && es != []
    ensures Normal(es[0].0) && Norm(es[0].0) == es[0].0 && Keyed(es[1..])
    ensures forall i :: 0 <= i < |es[1..]| ==> es[1..][i].0 != es[0].0
  {
    hide Norm;
    assert Normal(es[0].0);
    assert forall i :: 0 <= i < |es[1..]| ==> es[1..][i] == es[i + 1];
  }

  lemma ReadableCons(es: Section, original: Section, pretty: bool)
    requires es != []
    ensures NewKeysReadable(es, original, pretty) <==>
      (Has(original, es[0].0) || Readable(es[0].0, es[0].1, pretty)) && NewKeysReadable(es[1..], original, pretty)
  {
    hide Has, Readable;
    assert forall i :: 0 <= i < |es[1..]| ==> es[1..][i] == es[i + 1];
    forall i | 0 < i < |es| ensures es[i] == es[1..][i - 1] {
    }
  }

  lemma FirstIsOther(first: Account, rest: seq<Account>, name: string, es: Section, original: Section)
    requires es != [] && Distinct(UnitsIn(rest)) && first.unit.entry.Some? && first.unit.entry.value.0 == es[0].0
    requires forall u :: u in UnitsIn(rest) ==> NewUnit(u, name, es[1..], original)
    requires forall i :: 0 <= i < |es[1..]| ==> es[1..][i].0 != es[0].0
    ensures Distinct(UnitsIn([first] + rest))
    ensures UnitsIn([first] + rest) == [first.unit] + UnitsIn(rest)
    ensures forall u :: u in UnitsIn([first] + rest) <==> u == first.unit || u in UnitsIn(rest)
    ensures LinesIn([first] + rest) == [first.line] + LinesIn(rest)
  {
    hide Trim, Has;
    forall i | 0 <= i < |rest| ensures first.unit != rest[i].unit {
      assert UnitsIn(rest)[i] in UnitsIn(rest);
    }
  }

  // ---------------------------------------------------------------- the ledger of a structure

  /** The accounts of one section: its new keys, or all of it. */
  function SectionAccounts(name: string, es: Section, original: Structure, pretty: bool): seq<Account> {
    if Has(original, name) then NewAccounts(name, es, Lookup(original, name), pretty)
    else [Account(SectionLine(name), Unit(name, None), Itself)] + NewAccounts(name, es, [], pretty)
  }

  function Ledger(data: Structure, original: Structure, pretty: bool): seq<Account>
    decreases |data|
  {
    if data == [] then []
    else SectionAccounts(data[0].0, data[0].1, original, pretty) + Ledger(data[1..], original, pretty)
  }

  /** What the lines of one section are read as. */
  function SectionUnits(name: string, es: Section, original: Structure, pretty: bool): seq<Unit> {
    if Has(original, name) then ReadUnits(Some(name), NewKeyLines(es, Lookup(original, name), pretty))
    else ReadUnits(None, [SectionLine(name)] + NewKeyLines(es, [], pretty))
  }

  function AddedUnits(data: Structure, original: Structure, pretty: bool): seq<Unit>
    decreases |data|
  {
    if data == [] then []
    else SectionUnits(data[0].0, data[0].1, original, pretty) + AddedUnits(data[1..], original, pretty)
  }

  /** It was in the file, whatever its value. */
  ghost predicate OldUnit(u: Unit, original: Structure) {
    Has(original, u.section) && (u.entry.Some? ==> Has(Lookup(original, u.section), u.entry.value.0))
  }

  /** It is wanted, with its value as a file gives it back, and was not in the file. */
  ghost predicate DueUnit(u: Unit, data: Structure, original: Structure) {
    u in UnitsOf(AsRead(ToMaps(data))) && !OldUnit(u, original)
  }

  /** What one section is accounted for. */
  ghost predicate SectionUnit(u: Unit, name: string, es: Section, original: Structure) {
    if Has(original, name) then NewUnit(u, name, es, Lookup(original, name))
    else u == Unit(name, None) || NewUnit(u, name, es, [])
  }

  lemma SectionFactsOf(name: string, es: Section, original: Structure, pretty: bool)
    requires Keyed(es) && Normal(name) && (!Has(original, name) ==> ';' !in name)
    ensures var more := SectionAccounts(name, es, original, pretty);
      && EntriesIn(SectionUnits(name, es, original, pretty)) == Contents(LinesIn(more))
      && AllJustified(more, pretty) && Distinct(UnitsIn(more))
      && (forall u :: u in UnitsIn(more) ==> u.section == name && SectionUnit(u, name, es, original))
      && (AllGood(more, pretty)
          ==> NewKeysReadable(es, if Has(original, name) then Lookup(original, name) else [], pretty))
  {
    hide Keyed, Normal, SectionLine, NewKeyLines, NewUnit, AllGood, AllJustified, NewKeysReadable, ParseLine, Norm,
      Justified, Distinct, UnitsIn, LinesIn, NewAccounts, Contents, EntriesIn, ReadUnits, Has, Lookup;
    NewUnitsName();
    if Has(original, name) {
      var os := Lookup(original, name);
      NewAccountsFacts(name, es, os, pretty);
      UnitsAreContents(Some(name), NewKeyLines(es, os, pretty));
    } else {
      var a, keys := Account(SectionLine(name), Unit(name, None), Itself), NewAccounts(name, es, [], pretty);
      NewAccountsFacts(name, es, [], pretty);
      UnitsAreContents(None, [SectionLine(name)] + NewKeyLines(es, [], pretty));
      SectionAccountJustified(a, pretty);
      JustifiedCons(a, keys, pretty);
      GoodBefore([a], keys, pretty);
      SectionFirst(a, keys, name, es);
    }
  }

  lemma NewUnitsName()
    ensures forall u: Unit, name, es, original :: NewUnit(u, name, es, original) ==> u.section == name && u.entry.Some?
  {
  }

  lemma SectionAccountJustified(a: Account, pretty: bool)
    requires Normal(a.unit.section) && ';' !in a.unit.section
    requires a == Account(SectionLine(a.unit.section), Unit(a.unit.section, None), Itself)
    ensures Justified(a, pretty)
  {
    hide ParseLine, Norm, SectionLine, Normal;
    NormalIsTrimmed(a.unit.section);
    SectionLineReads(a.unit.section);
  }

  lemma SectionFirst(a: Account, keys: seq<Account>, name: string, es: Section)
    requires a.unit == Unit(name, None) && Distinct(UnitsIn(keys)) && forall u :: u in UnitsIn(keys) ==>
      NewUnit(u, name, es, [])
    ensures Distinct(UnitsIn([a] + keys)) && LinesIn([a] + keys) == [a.line] + LinesIn(keys)
    ensures forall u :: u in UnitsIn([a] + keys) ==> u == a.unit || u in UnitsIn(keys)
  {
    hide Trim, Has;
    assert UnitsIn([a] + keys) == [a.unit] + UnitsIn(keys);
    forall i | 0 <= i < |keys| ensures keys[i].unit != a.unit {
      assert UnitsIn(keys)[i] in UnitsIn(keys);
    }
  }

  /** Every section or entry that is accounted for is due. */
  lemma SectionUnitsDue(data: Structure, i: nat, original: Structure)
    requires WellKeyed(data) && i < |data|
    ensures forall u: Unit :: u.section == data[i].0 && SectionUnit(u, data[i].0, data[i].1, original) ==>
      DueUnit(u, data, original)
  {
    hide Has, Lookup, Trim, ToMaps, Norm, Normal, Within, UnitsOf, NewUnit, AsRead, WellKeyed;
    var (name, es) := data[i];
    DataFacts(data, i, original);
    NewUnitsName();
    forall u: Unit | u.section == name && SectionUnit(u, name, es, original) ensures DueUnit(u, data, original) {
      var os := if Has(original, name) then Lookup(original, name) else [];
      NewUnitWanted(u, name, es, os, ToMaps(data));
      WantedIsUnit(u, ToMaps(data));
    }
  }

  /** Something that the maps, as a file gives them back, hold. */
  ghost predicate Wanted(u: Unit, want: Maps) {
    && u.section in want
    && (u.entry.Some? ==>
          var (key, value) := u.entry.value; key in want[u.section] && value == Trim(want[u.section][key]))
  }

  lemma WantedIsUnit(u: Unit, want: Maps)
    ensures Wanted(u, want) <==> u in UnitsOf(AsRead(want))
  {
    hide Trim;
    var maps := AsRead(want);
    if Wanted(u, want) && u.entry.Some? {
      assert maps[u.section][u.entry.value.0] == u.entry.value.1;
    }
    assert u.entry.None? ==> u == Unit(u.section, None);
    assert u.entry.Some? ==> u == Unit(u.section, Some((u.entry.value.0, u.entry.value.1)));
  }

  lemma NewUnitWanted(u: Unit, name: string, es: Section, os: Section, want: Maps)
    requires name in want && Within(es, want[name]) && (u == Unit(name, None) || NewUnit(u, name, es, os))
    ensures Wanted(u, want) && (u.entry.Some? ==> NewUnit(u, name, es, os) && !Has(os, u.entry.value.0))
  {
    hide Trim, Has, Normal;
  }

  lemma LedgerConcat(a: seq<Account>, b: seq<Account>, pretty: bool)
    ensures LinesIn(a + b) == LinesIn(a) + LinesIn(b) && UnitsIn(a + b) == UnitsIn(a) + UnitsIn(b)
    ensures AllJustified(a + b, pretty) <==> AllJustified(a, pretty) && AllJustified(b, pretty)
  {
    hide Justified;
    assert forall i :: 0 <= i < |a| ==> (a + b)[i] == a[i];
    assert forall i :: 0 <= i < |b| ==> (a + b)[|a| + i] == b[i];
  }

  lemma DistinctConcat(a: seq<Unit>, b: seq<Unit>, name: string)
    requires Distinct(a) && Distinct(b)
    requires (forall u :: u in a ==> u.section == name) && forall u :: u in b ==> u.section != name
    ensures Distinct(a + b) && forall u :: u in a + b <==> u in a || u in b
  {
    assert forall i :: 0 <= i < |a| ==> a[i] in a;
    assert forall i :: 0 <= i < |b| ==> b[i] in b;
  }

  /** The ledger agrees with what its lines are read as; it is justified, and all in it is due, once. */
  lemma {:induction false} LedgerFacts(data: Structure, i: nat, original: Structure, pretty: bool)
    requires WellKeyed(data) && i <= |data| && forall j :: i <= j < |data| && !Has(original, data[j].0) ==>
      ';' !in data[j].0
    ensures var ledger := Ledger(data[i..], original, pretty);
      && EntriesIn(AddedUnits(data[i..], original, pretty)) == Contents(LinesIn(ledger))
      && AllJustified(ledger, pretty) && Distinct(UnitsIn(ledger))
      && (forall u :: u in UnitsIn(ledger) ==> DueUnit(u, data, original) && i <= IndexOf(data, u.section))
      && (AllGood(ledger, pretty) ==> forall j :: i <= j < |data| ==>
            NewKeysReadable(data[j].1, if Has(original, data[j].0) then Lookup(original, data[j].0) else [], pretty))
    decreases |data| - i
  {
    hide WellKeyed, Has, Lookup, IndexOf, SectionAccounts, SectionUnits, SectionUnit, DueUnit, AllJustified, AllGood,
      Distinct, UnitsIn, LinesIn, Contents, EntriesIn, NewKeysReadable, Keyed, Normal;
    if i == |data| {
      EmptyLedger(pretty);
    } else {
      var (name, es) := data[i];
      var own, rest := SectionAccounts(name, es, original, pretty), Ledger(data[i + 1..], original, pretty);
      assert data[i..][0] == data[i] && data[i..][1..] == data[i + 1..];
      SectionAt(data, i);
      SectionFactsOf(name, es, original, pretty);
      LedgerFacts(data, i + 1, original, pretty);
      SectionUnitsDue(data, i, original);
      LedgerConcat(own, rest, pretty);
      GoodBefore(own, rest, pretty);
      ContentsConcat(LinesIn(own), LinesIn(rest));
      EntriesConcat(SectionUnits(name, es, original, pretty), AddedUnits(data[i + 1..], original, pretty));
      DistinctConcat(UnitsIn(own), UnitsIn(rest), name);
    }
  }

  lemma SectionAt(data: Structure, i: nat)
    requires WellKeyed(data) && i < |data|
    ensures Keyed(data[i].1) && Normal(data[i].0) && IndexOf(data, data[i].0) == i
  {
    hide Normal;
    IndexIs(data, i);
  }

  lemma EmptyLedger(pretty: bool)
    ensures EntriesIn([]) == Contents(LinesIn([])) && AllJustified([], pretty) && Distinct(UnitsIn([]))
    ensures UnitsIn([]) == []
  {
  }

  // ---------------------------------------------------------------- nothing else stands for what is due

  /** An old section or entry, or what a line that is added is read as. */
  ghost predicate Accountable(u: Unit, data: Structure, original: Structure, pretty: bool) {
    OldUnit(u, original) || u in AddedUnits(data, original, pretty)
  }

  ghost predicate AllAccountable(units: seq<Unit>, data: Structure, original: Structure, pretty: bool) {
    forall u :: u in units ==> Accountable(u, data, original, pretty)
  }

  lemma BothAccountable(a: seq<Unit>, b: seq<Unit>, data: Structure, original: Structure, pretty: bool)
    requires AllAccountable(a, data, original, pretty) && AllAccountable(b, data, original, pretty)
    ensures AllAccountable(a + b, data, original, pretty)
  {
    hide Accountable;
  }

  lemma {:induction false} AddedAt(data: Structure, i: nat, original: Structure, pretty: bool)
    requires i < |data|
    ensures forall u :: u in SectionUnits(data[i].0, data[i].1, original, pretty) ==>
      u in AddedUnits(data, original, pretty)
    decreases |data|
  {
    hide SectionUnits;
    if i > 0 {
      AddedAt(data[1..], i - 1, original, pretty);
    }
  }

  /** The lines that stay are read as entries that were there. */
  lemma {:induction false} StayingAccountable(name: string, es: Section, body: seq<string>, data: Structure,
                                              original: Structure, pretty: bool)
    requires PlainSection(es) && Has(original, name) && KnownIn(Lookup(original, name), body)
    ensures OpenAfter(Some(name), StayingLines(es, body, pretty)) == Some(name)
    ensures AllAccountable(ReadUnits(Some(name), StayingLines(es, body, pretty)), data, original, pretty)
    decreases |body|
  {
    hide Staying, PlainSection, ParseLine, Norm, Has, Lookup, Accountable, ReadUnits;
    if body == [] {
      NothingRead(Some(name));
    } else {
      var own, rest := Staying(es, body[0], pretty), StayingLines(es, body[1..], pretty);
      assert forall i :: 0 <= i < |body[1..]| ==> body[1..][i] == body[i + 1];
      StayingAccountable(name, es, body[1..], data, original, pretty);
      OneStays(name, es, body[0], data, original, pretty);
      UnitsConcat(Some(name), own, rest);
      OpenConcat(Some(name), own, rest);
      BothAccountable(ReadUnits(Some(name), own), ReadUnits(Some(name), rest), data, original, pretty);
    }
  }

  lemma NothingRead(open: Option<string>)
    ensures ReadUnits(open, []) == [] && OpenAfter(open, []) == open
  {
  }

  lemma OneRead(open: Option<string>, line: string)
    ensures ReadUnits(open, [line]) == LineUnits(open, line)
  {
    hide LineUnits;
    assert [line][1..] == [];
  }

  lemma OneStays(name: string, es: Section, line: string, data: Structure, original: Structure, pretty: bool)
    requires PlainSection(es) && Has(original, name)
    requires ParseLine(line).KeyValue? ==> Has(Lookup(original, name), Norm(ParseLine(line).key))
    ensures OpenAfter(Some(name), Staying(es, line, pretty)) == Some(name)
    ensures AllAccountable(ReadUnits(Some(name), Staying(es, line, pretty)), data, original, pretty)
  {
    hide PlainSection, ParseLine, Norm, Has, Lookup, ReadValue, AddedUnits, ReadUnits, RewriteLine, HasDelimiter,
      OpenAfter;
    var own := Staying(es, line, pretty);
    NothingRead(Some(name));
    if StaysIn(es, line) {
      StayingReads(es, line, pretty);
      assert own == [own[0]];
      OneRead(Some(name), own[0]);
      OpenAfterOne(Some(name), own[0]);
    } else if Quiet(line) {
      OneRead(Some(name), line);
      OpenAfterOne(Some(name), line);
    }
  }

  lemma SectionLineAccountable(open: Option<string>, line: string, name: string, data: Structure, original: Structure,
                               pretty: bool)
    requires ParseLine(line).Section? && Norm(ParseLine(line).name) == name && Has(original, name)
    ensures OpenAfter(open, [line]) == Some(name) && AllAccountable(ReadUnits(open, [line]), data, original, pretty)
  {
    hide ParseLine, Norm, Has, Lookup, AddedUnits, ReadUnits;
    OneRead(open, line);
    OpenAfterOne(open, line);
  }

  /** A section that stays. */
  lemma KeptAccountable(open: Option<string>, line: string, name: string, body: seq<string>, data: Structure,
                        original: Structure, pretty: bool)
    requires ParseLine(line).Section? && Norm(ParseLine(line).name) == name && Has(original, name) && Has(data, name)
    requires PlainSection(Lookup(data, name)) && KnownIn(Lookup(original, name), body)
    ensures var es := Lookup(data, name);
      AllAccountable(ReadUnits(open, KeptSection(line, body, es, NewKeyLines(es, Lookup(original, name), pretty),
          pretty)),
                     data, original, pretty)
  {
    hide ParseLine, Norm, Has, PlainSection, StayingLines, UpToLastKey, NewKeyLines, AllQuiet, ReadUnits, OpenAfter,
      AllAccountable, SectionUnits, EndsInKey, Lookup;
    var es, os := Lookup(data, name), Lookup(original, name);
    var staying, n, added := StayingLines(es, body, pretty), UpToLastKey(es, body, pretty), NewKeyLines(es, os, pretty);
    var m := LastKey(es, body, pretty);
    FrontOfKeys(es, body, pretty, n, m);
    FrontKnown(os, body, m);
    StayingAccountable(name, es, body[..m], data, original, pretty);
    SectionLineAccountable(open, line, name, data, original, pretty);
    AddedAccountable(data, original, name, pretty);
    var front, tail := staying[..n], staying[n..];
    UnitsConcat(open, [line], front);
    UnitsConcat(open, [line] + front, added);
    UnitsConcat(open, [line] + front + added, tail);
    OpenConcat(open, [line], front);
    QuietUnits(OpenAfter(open, [line] + front + added), tail);
    NoUnits(data, original, pretty);
    BothAccountable(ReadUnits(open, [line]), ReadUnits(Some(name), front), data, original, pretty);
    BothAccountable(ReadUnits(open, [line] + front), ReadUnits(Some(name), added), data, original, pretty);
    BothAccountable(ReadUnits(open, [line] + front + added), [], data, original, pretty);
  }

  lemma NoUnits(data: Structure, original: Structure, pretty: bool)
    ensures AllAccountable([], data, original, pretty)
  {
  }

  lemma FrontKnown(os: Section, body: seq<string>, m: nat)
    requires m <= |body| && KnownIn(os, body)
    ensures KnownIn(os, body[..m])
  {
    hide ParseLine, Norm, Has;
    assert forall i :: 0 <= i < m ==> body[..m][i] == body[i];
  }

  lemma AddedAccountable(data: Structure, original: Structure, name: string, pretty: bool)
    requires Has(data, name) && Has(original, name)
    ensures AllAccountable(ReadUnits(Some(name), NewKeyLines(Lookup(data, name), Lookup(original, name), pretty)),
        data, original, pretty)
  {
    hide ReadUnits, NewKeyLines, OldUnit;
    AddedAt(data, IndexOf(data, name), original, pretty);
  }

  lemma SectionAccountable(open: Option<string>, was: Option<string>, line: string, body: seq<string>,
                           rest: seq<string>, data: Structure, original: Structure, pretty: bool)
    requires WellKeyed(data) && WellKeyed(original) && PlainValues(ToMaps(data))
    requires Known(ToMaps(original), was, [line] + body + rest) && ParseLine(line).Section?
    requires forall i :: 0 <= i < |body| ==> !ParseLine(body[i]).Section?
    ensures AllAccountable(ReadUnits(open, SectionLayout(line, body, data, original, pretty)), data, original, pretty)
    ensures Known(ToMaps(original), Some(Norm(ParseLine(line).name)), rest)
  {
    hide ParseLine, Norm, ToMaps, WellKeyed, Has, Lookup, KeptSection, Remains, Known, ReadUnits, AllAccountable,
      KnownIn, PlainValues, PlainSection, NewKeyLines, AllQuiet, Keyed;
    var name := Norm(ParseLine(line).name);
    KnownSection(original, was, line, body, rest);
    if Has(data, name) {
      PlainHere(data, name);
      KeptAccountable(open, line, name, body, data, original, pretty);
    } else {
      RemainsQuiet(body, true);
      QuietUnits(open, Remains(body, true));
      NoUnits(data, original, pretty);
    }
  }

  lemma {:induction false} LayoutAccountable(open: Option<string>, was: Option<string>, lines: seq<string>,
                                             data: Structure, original: Structure, pretty: bool)
    requires WellKeyed(data) && WellKeyed(original) && PlainValues(ToMaps(data)) && Known(ToMaps(original), was, lines)
    requires lines != [] ==> ParseLine(lines[0]).Section?
    ensures AllAccountable(ReadUnits(open, Layout(lines, data, original, pretty)), data, original, pretty)
    decreases |lines|
  {
    hide ParseLine, Norm, ToMaps, WellKeyed, SectionLayout, Known, PlainValues, ReadUnits, AllAccountable, OpenAfter;
    if lines == [] {
      NothingRead(open);
      NoUnits(data, original, pretty);
    } else {
      var line, n := lines[0], BodyLength(lines[1..]);
      var body, rest := lines[1..][..n], lines[1..][n..];
      NextSection(lines[1..]);
      assert lines == [line] + body + rest;
      SectionAccountable(open, was, line, body, rest, data, original, pretty);
      var own, more := SectionLayout(line, body, data, original, pretty), Layout(rest, data, original, pretty);
      LayoutAccountable(OpenAfter(open, own), Some(Norm(ParseLine(line).name)), rest, data, original, pretty);
      UnitsConcat(open, own, more);
      BothAccountable(ReadUnits(open, own), ReadUnits(OpenAfter(open, own), more), data, original, pretty);
    }
  }

  lemma SectionResets(open: Option<string>, name: string, rest: seq<string>)
    requires Normal(name) && ';' !in name
    ensures ReadUnits(open, [SectionLine(name)] + rest) == ReadUnits(None, [SectionLine(name)] + rest)
  {
    hide ParseLine, Norm, Normal, SectionLine, ReadUnits;
    var line := SectionLine(name);
    NormalIsTrimmed(name);
    SectionLineReads(name);
    OneRead(open, line);
    OneRead(None, line);
    OpenAfterOne(open, line);
    OpenAfterOne(None, line);
    UnitsConcat(open, [line], rest);
    UnitsConcat(None, [line], rest);
  }

  lemma EmptyLineReads(output: seq<string>)
    ensures ReadUnits(None, output + [""]) == ReadUnits(None, output)
  {
    hide ReadUnits;
    EmptyLineIsQuiet();
    UnitsConcat(None, output, [""]);
    QuietUnits(OpenAfter(None, output), [""]);
  }

  lemma NewSectionAccountable(output: seq<string>, data: Structure, i: nat, original: Structure, pretty: bool)
    requires i < |data| && Normal(data[i].0) && ';' !in data[i].0 && !Has(original, data[i].0)
    requires AllAccountable(ReadUnits(None, output), data, original, pretty)
    ensures AllAccountable(ReadUnits(None, AppendSection(output, data[i].0, data[i].1, pretty)), data, original, pretty)
  {
    hide ReadUnits, SectionLine, NewKeyLines, Normal, Has, OldUnit;
    var (name, es) := data[i];
    var spaced := if pretty && output != [] && output[|output| - 1] != "" then output + [""] else output;
    EmptyLineReads(output);
    var own := [SectionLine(name)] + NewKeyLines(es, [], pretty);
    assert AppendSection(output, name, es, pretty) == spaced + own;
    UnitsConcat(None, spaced, own);
    SectionResets(OpenAfter(None, spaced), name, NewKeyLines(es, [], pretty));
    AddedAt(data, i, original, pretty);
    BothAccountable(ReadUnits(None, spaced), ReadUnits(None, own), data, original, pretty);
  }

  lemma {:induction false} NewSectionsAccountable(output: seq<string>, data: Structure, i: nat, original: Structure,
                                                  pretty: bool)
    requires i <= |data| && WellKeyed(data) && forall j :: 0 <= j < |data| && !Has(original, data[j].0) ==>
      ';' !in data[j].0
    requires AllAccountable(ReadUnits(None, output), data, original, pretty)
    ensures AllAccountable(ReadUnits(None, AppendSections(output, data[i..], original, pretty)), data, original, pretty)
    decreases |data| - i
  {
    hide ReadUnits, Has, AppendSection, Norm, Normal, AllAccountable, WellKeyed;
    if i < |data| {
      DataFacts(data, i, original);
      assert data[i..][1..] == data[i + 1..];
      if Has(original, data[i].0) {
        NewSectionsAccountable(output, data, i + 1, original, pretty);
      } else {
        NewSectionAccountable(output, data, i, original, pretty);
        NewSectionsAccountable(AppendSection(output, data[i].0, data[i].1, pretty), data, i + 1, original, pretty);
      }
    }
  }

  /**
    Whatever the file, all that a lazy write prints is read as something that was there or as a line that was added.
   */
  lemma OutputAccountable(lines: seq<string>, data: Structure, pretty: bool)
    requires WellKeyed(data) && PlainValues(ToMaps(data))
    requires forall j :: 0 <= j < |data| && !Has(OriginalOf(lines), data[j].0) ==> ';' !in data[j].0
    ensures var original := OriginalOf(lines);
      AllAccountable(ReadUnits(None, LazyOutput(KeptLines(lines, false), data, original, pretty)), data, original,
          pretty)
  {
    hide ParseLine, OriginalOf, KeptLines, AllKept, ToMaps, MeanAll, Known, Layout, LazyOutput, AppendSections,
      ReadUnits, AllAccountable, Has, WellKeyed, PlainValues, AllQuiet, OpenAfter;
    var kept, original := KeptLines(lines, false), OriginalOf(lines);
    var n := BodyLength(kept);
    OriginalMeans(lines);
    LazyLayout(lines, data, pretty);
    FrontReads(lines, data, pretty);
    KeptAreKept(lines, false);
    FrontIsQuiet(kept, n);
    QuietUnits(None, kept[..n]);
    UnitsConcat(None, kept[..n], Layout(kept[n..], data, original, pretty));
    LayoutAccountable(OpenAfter(None, kept[..n]), None, kept[n..], data, original, pretty);
    var walked := kept[..n] + Layout(kept[n..], data, original, pretty);
    var units := ReadUnits(OpenAfter(None, kept[..n]), Layout(kept[n..], data, original, pretty));
    assert [] + units == units;
    assert data[0..] == data;
    NewSectionsAccountable(walked, data, 0, original, pretty);
  }
}
