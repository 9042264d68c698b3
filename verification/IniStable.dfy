/**
  A second lazy write changes nothing: the lines of the first one match the structure as they stand.
 */
module IniStable {
  import opened Wrappers
  import opened IniText
  import opened IniParser
  import opened IniLines
  import opened IniRewrite
  import opened IniMap
  import opened IniReader
  import opened IniMeaning
  import opened IniWriter
  import opened IniLazy
  import opened IniLayout
  import opened IniReadBack
  import opened IniExact

  /** Every entry to be changed can be, whether or not its key is given again. */
  ghost predicate AllChangeable(want: Maps, open: Option<string>, lines: seq<string>)
    decreases |lines|
  {
    lines == [] || (ChangeableAt(want, open, lines[0]) && AllChangeable(want, OpenAfter(open, lines[..1]), lines[1..]))
  }

  lemma {:induction false} AllAreLast(want: Maps, open: Option<string>, lines: seq<string>)
    requires AllChangeable(want, open, lines)
    ensures LastChangeable(want, open, lines)
    decreases |lines|
  {
    hide ChangeableAt, GivenAgain, OpenAfter;
    if lines != [] {
      AllAreLast(want, OpenAfter(open, lines[..1]), lines[1..]);
    }
  }

  lemma {:induction false} ChangeableConcat(want: Maps, open: Option<string>, a: seq<string>, b: seq<string>)
    ensures AllChangeable(want, open, a + b) <==>
      AllChangeable(want, open, a) && AllChangeable(want, OpenAfter(open, a), b)
    decreases |a|
  {
    hide ChangeableAt, ParseLine, Norm;
    if a == [] {
      assert a + b == b;
    } else {
      assert (a + b)[1..] == a[1..] + b && (a + b)[..1] == a[..1];
      ChangeableConcat(want, OpenAfter(open, a[..1]), a[1..], b);
      OpenConcat(open, a[..1], a[1..]);
      assert a[..1] + a[1..] == a;
    }
  }

  lemma {:induction false} MatchesConcat(maps: Maps, open: Option<string>, a: seq<string>, b: seq<string>)
    ensures Matches(maps, open, a + b) <==> Matches(maps, open, a) && Matches(maps, OpenAfter(open, a), b)
    decreases |a|
  {
    hide MatchesAt, ParseLine, Norm;
    if a == [] {
      assert a + b == b;
    } else {
      assert (a + b)[1..] == a[1..] + b && (a + b)[..1] == a[..1];
      MatchesConcat(maps, OpenAfter(open, a[..1]), a[1..], b);
      OpenConcat(open, a[..1], a[1..]);
      assert a[..1] + a[1..] == a;
    }
  }

  lemma OneMatches(maps: Maps, open: Option<string>, line: string)
    ensures Matches(maps, open, [line]) <==> MatchesAt(maps, open, line)
  {
    hide MatchesAt, OpenAfter;
    assert [line][1..] == [];
  }

  lemma {:induction false} QuietMatches(maps: Maps, open: Option<string>, lines: seq<string>)
    requires AllQuiet(lines)
    ensures Matches(maps, open, lines) && OpenAfter(open, lines) == open
    decreases |lines|
  {
    hide ParseLine;
    if lines != [] {
      assert Quiet(lines[0]) && lines[..1] == [lines[0]];
      OpenAfterOne(open, lines[0]);
      QuietMatches(maps, open, lines[1..]);
    }
  }

  /** The section says what the maps say, and values are as a file gives them back. */
  ghost predicate SectionIs(es: Section, maps: Maps, s: string) {
    && s in maps && (forall k :: k in maps[s] <==> Has(es, k))
    && forall k :: k in maps[s] ==> maps[s][k] == Lookup(es, k) && Trim(maps[s][k]) == maps[s][k]
  }

  lemma {:induction false} StayingMatches(maps: Maps, s: string, es: Section, body: seq<string>, pretty: bool)
    requires SectionIs(es, maps, s) && AllChangeable(maps, Some(s), body)
    requires forall i :: 0 <= i < |body| ==> !ParseLine(body[i]).Section?
    ensures Matches(maps, Some(s), StayingLines(es, body, pretty))
    ensures OpenAfter(Some(s), StayingLines(es, body, pretty)) == Some(s)
    ensures OpenAfter(Some(s), body) == Some(s)
    decreases |body|
  {
    hide Staying, ParseLine, Norm, SectionIs, Matches, ChangeableAt;
    if body == [] {
      QuietMatches(maps, Some(s), []);
    } else {
      var own, rest := Staying(es, body[0], pretty), StayingLines(es, body[1..], pretty);
      assert forall i :: 0 <= i < |body[1..]| ==> body[1..][i] == body[i + 1];
      assert body[..1] == [body[0]];
      OpenAfterOne(Some(s), body[0]);
      StayingMatches(maps, s, es, body[1..], pretty);
      OneStayingMatches(maps, s, es, body[0], pretty);
      MatchesConcat(maps, Some(s), own, rest);
      OpenConcat(Some(s), own, rest);
    }
  }

  lemma OneStayingMatches(maps: Maps, s: string, es: Section, line: string, pretty: bool)
    requires SectionIs(es, maps, s) && ChangeableAt(maps, Some(s), line)
    ensures Matches(maps, Some(s), Staying(es, line, pretty))
    ensures OpenAfter(Some(s), Staying(es, line, pretty)) == Some(s)
  {
    hide ParseLine, Norm, Trim, Has, Lookup, RewriteLine, HasDelimiter, Changeable, OpenAfter, Matches;
    QuietMatches(maps, Some(s), []);
    if StaysIn(es, line) {
      var value := Lookup(es, Norm(ParseLine(line).key));
      EntryReads(line, value, pretty);
      var own := Staying(es, line, pretty);
      assert own == [own[0]];
      OneMatches(maps, Some(s), own[0]);
      OpenAfterOne(Some(s), own[0]);
    } else if Quiet(line) {
      OneMatches(maps, Some(s), line);
      OpenAfterOne(Some(s), line);
    }
  }

  lemma {:induction false} AddedMatches(maps: Maps, s: string, all: Section, es: Section, original: Section,
                                        pretty: bool)
    requires SectionIs(all, maps, s) && Within(es, maps[s]) && NewKeysReadable(es, original, pretty)
    ensures Matches(maps, Some(s), NewKeyLines(es, original, pretty))
    ensures OpenAfter(Some(s), NewKeyLines(es, original, pretty)) == Some(s)
    decreases |es|
  {
    hide ParseLine, Norm, Trim, Has, Lookup, KeyLine, Readable, OpenAfter, Matches;
    QuietMatches(maps, Some(s), []);
    if es != [] {
      var (key, value) := es[0];
      assert Norm(key) == key by {
        assert Normal(es[0].0);
      }
      var rest := NewKeyLines(es[1..], original, pretty);
      assert forall i :: 0 <= i < |es[1..]| ==> es[1..][i] == es[i + 1];
      AddedMatches(maps, s, all, es[1..], original, pretty);
      if Has(original, key) {
        assert [] + rest == rest;
      } else {
        var line := KeyLine(key, value, pretty);
        KeyLineMeans(Meaning(map[], Some(s)), key, value, pretty);
        OneMatches(maps, Some(s), line);
        OpenAfterOne(Some(s), line);
        MatchesConcat(maps, Some(s), [line], rest);
        OpenConcat(Some(s), [line], rest);
      }
    }
  }

  lemma SectionLineMatches(maps: Maps, open: Option<string>, line: string)
    requires ParseLine(line).Section? && Norm(ParseLine(line).name) in maps
    ensures Matches(maps, open, [line]) && OpenAfter(open, [line]) == Some(Norm(ParseLine(line).name))
  {
    hide ParseLine, Norm;
    OneMatches(maps, open, line);
    OpenAfterOne(open, line);
  }

  /** A section that stays, with its new keys. */
  lemma KeptSectionMatches(maps: Maps, open: Option<string>, line: string, s: string, body: seq<string>, es: Section,
                           os: Section, pretty: bool)
    requires ParseLine(line).Section? && Norm(ParseLine(line).name) == s
    requires SectionIs(es, maps, s) && Within(es, maps[s]) && NewKeysReadable(es, os, pretty)
    requires AllChangeable(maps, Some(s), body) && forall i :: 0 <= i < |body| ==> !ParseLine(body[i]).Section?
    ensures Matches(maps, open, KeptSection(line, body, es, NewKeyLines(es, os, pretty), pretty))
  {
    hide ParseLine, Norm, StayingLines, UpToLastKey, NewKeyLines, OpenAfter, Matches, EndsInKey, AllChangeable,
      AllQuiet, Within, NewKeysReadable;
    var staying, n, added := StayingLines(es, body, pretty), UpToLastKey(es, body, pretty), NewKeyLines(es, os, pretty);
    var m := LastKey(es, body, pretty);
    FrontOfKeys(es, body, pretty, n, m);
    assert body == body[..m] + body[m..];
    ChangeableConcat(maps, Some(s), body[..m], body[m..]);
    StayingMatches(maps, s, es, body[..m], pretty);
    SectionLineMatches(maps, open, line);
    AddedMatches(maps, s, es, es, os, pretty);
    QuietMatches(maps, Some(s), staying[n..]);
    var front := [line] + staying[..n];
    MatchesConcat(maps, open, [line], staying[..n]);
    OpenConcat(open, [line], staying[..n]);
    MatchesConcat(maps, open, front, added);
    OpenConcat(open, front, added);
    MatchesConcat(maps, open, front + added, staying[n..]);
  }

  /** The section as the structure has it. */
  lemma SectionIsThat(data: Structure, s: string)
    requires WellKeyed(data) && Has(data, s) && ValuesTrimmed(ToMaps(data))
    ensures SectionIs(Lookup(data, s), ToMaps(data), s) && Within(Lookup(data, s), ToMaps(data)[s])
  {
    hide Has, Lookup, ToMaps, WellKeyed, Trim, Within, Keyed;
    SectionFacts(data, s);
  }

  lemma {:induction false} LayoutMatches(open: Option<string>, was: Option<string>, lines: seq<string>,
                                         data: Structure, original: Structure, pretty: bool)
    requires Ready(data, original, pretty) && ValuesTrimmed(ToMaps(data)) && Known(ToMaps(original), was, lines)
    requires AllChangeable(ToMaps(data), was, lines) && (lines != [] ==> ParseLine(lines[0]).Section?)
    ensures Matches(ToMaps(data), open, Layout(lines, data, original, pretty))
    decreases |lines|
  {
    hide ParseLine, Norm, ToMaps, Ready, SectionLayout, Known, OpenAfter, Matches, AllChangeable, ValuesTrimmed;
    if lines == [] {
      QuietMatches(ToMaps(data), open, []);
    } else {
      var line, n := lines[0], BodyLength(lines[1..]);
      var body, rest := lines[1..][..n], lines[1..][n..];
      NextSection(lines[1..]);
      assert lines == [line] + body + rest;
      var own, more := SectionLayout(line, body, data, original, pretty), Layout(rest, data, original, pretty);
      SectionMatches(open, was, line, body, rest, data, original, pretty);
      LayoutMatches(OpenAfter(open, own), Some(Norm(ParseLine(line).name)), rest, data, original, pretty);
      MatchesConcat(ToMaps(data), open, own, more);
    }
  }

  lemma SectionMatches(open: Option<string>, was: Option<string>, line: string, body: seq<string>, rest: seq<string>,
                       data: Structure, original: Structure, pretty: bool)
    requires Ready(data, original, pretty) && ValuesTrimmed(ToMaps(data))
    requires Known(ToMaps(original), was, [line] + body + rest)
    requires AllChangeable(ToMaps(data), was, [line] + body + rest) && ParseLine(line).Section?
    requires forall i :: 0 <= i < |body| ==> !ParseLine(body[i]).Section?
    ensures Matches(ToMaps(data), open, SectionLayout(line, body, data, original, pretty))
    ensures var name := Norm(ParseLine(line).name);
      Known(ToMaps(original), Some(name), rest) && AllChangeable(ToMaps(data), Some(name), rest)
  {
    hide ParseLine, Norm, ToMaps, WellKeyed, Has, Lookup, KeptSection, Remains, Known, KnownIn, OpenAfter, Matches,
      AllChangeable, Addable, NewKeyLines, ValuesTrimmed, SectionIs, Within, NewKeysReadable, AllQuiet;
    var name := Norm(ParseLine(line).name);
    KnownSection(original, was, line, body, rest);
    BodyOpen(name, body);
    ChangeableConcat(ToMaps(data), was, [line] + body, rest);
    ChangeableConcat(ToMaps(data), was, [line], body);
    OpenAfterOne(was, line);
    OpenConcat(was, [line], body);
    if Has(data, name) {
      SectionIsThat(data, name);
      NewKeysReadableHere(data, original, pretty, name);
      KeptSectionMatches(ToMaps(data), open, line, name, body, Lookup(data, name), Lookup(original, name), pretty);
    } else {
      RemainsQuiet(body, true);
      QuietMatches(ToMaps(data), open, Remains(body, true));
    }
  }

  lemma {:induction false} BodyOpen(s: string, body: seq<string>)
    requires forall i :: 0 <= i < |body| ==> !ParseLine(body[i]).Section?
    ensures OpenAfter(Some(s), body) == Some(s)
    decreases |body|
  {
    hide ParseLine, Norm;
    if body != [] {
      assert forall i :: 0 <= i < |body[1..]| ==> body[1..][i] == body[i + 1];
      BodyOpen(s, body[1..]);
    }
  }

  lemma NewSectionMatches(output: seq<string>, name: string, es: Section, maps: Maps, pretty: bool)
    requires Matches(maps, None, output) && Normal(name) && ';' !in name
    requires SectionIs(es, maps, name) && Within(es, maps[name]) && NewKeysReadable(es, [], pretty)
    ensures Matches(maps, None, AppendSection(output, name, es, pretty))
  {
    hide ParseLine, Norm, SectionLine, NewKeyLines, OpenAfter, Matches, Within, NewKeysReadable, MatchesAt, Trim;
    var spaced := if pretty && output != [] && output[|output| - 1] != "" then output + [""] else output;
    EmptyLineIsQuiet();
    QuietMatches(maps, OpenAfter(None, output), [""]);
    MatchesConcat(maps, None, output, [""]);
    var line, added := SectionLine(name), NewKeyLines(es, [], pretty);
    NormalIsTrimmed(name);
    SectionLineReads(name);
    SectionLineMatches(maps, OpenAfter(None, spaced), line);
    AddedMatches(maps, name, es, es, [], pretty);
    MatchesConcat(maps, None, spaced, [line]);
    OpenConcat(None, spaced, [line]);
    MatchesConcat(maps, None, spaced + [line], added);
  }

  lemma {:induction false} AppendMatches(output: seq<string>, data: Structure, i: nat, original: Structure,
                                         pretty: bool)
    requires i <= |data| && Ready(data, original, pretty) && ValuesTrimmed(ToMaps(data))
    requires Matches(ToMaps(data), None, output)
    ensures Matches(ToMaps(data), None, AppendSections(output, data[i..], original, pretty))
    decreases |data| - i
  {
    hide ToMaps, Norm, Normal, Has, AppendSection, Within, NewKeysReadable, Matches, ValuesTrimmed, SectionIs,
      WellKeyed, Addable;
    if i < |data| {
      var (name, es) := data[i];
      DataFacts(data, i, original);
      NameIsAt(data, i);
      assert data[i..][1..] == data[i + 1..];
      var next := output;
      if !Has(original, name) {
        AddableAt(data, i, original, pretty);
        SectionIsThat(data, name);
        NewSectionMatches(output, name, es, ToMaps(data), pretty);
        next := AppendSection(output, name, es, pretty);
      }
      AppendMatches(next, data, i + 1, original, pretty);
    }
  }

  /** What a lazy write prints matches the structure. */
  lemma OutputMatches(lines: seq<string>, data: Structure, pretty: bool)
    requires WellKeyed(data) && Addable(data, OriginalOf(lines), pretty) && ValuesTrimmed(ToMaps(data))
    requires AllChangeable(ToMaps(data), None, KeptLines(lines, false))
    ensures Matches(ToMaps(data), None, LazyOutput(KeptLines(lines, false), data, OriginalOf(lines), pretty))
  {
    hide ParseLine, OriginalOf, KeptLines, AllKept, ToMaps, MeanAll, Known, Layout, LazyOutput, AppendSections,
      WellKeyed, AllQuiet, OpenAfter, Matches, AllChangeable, ValuesTrimmed, Addable;
    var kept, original := KeptLines(lines, false), OriginalOf(lines);
    var n := BodyLength(kept);
    OriginalMeans(lines);
    LazyLayout(lines, data, pretty);
    FrontReads(lines, data, pretty);
    KeptAreKept(lines, false);
    FrontIsQuiet(kept, n);
    QuietMatches(ToMaps(data), None, kept[..n]);
    assert kept == kept[..n] + kept[n..];
    ChangeableConcat(ToMaps(data), None, kept[..n], kept[n..]);
    LayoutMatches(None, None, kept[n..], data, original, pretty);
    MatchesConcat(ToMaps(data), None, kept[..n], Layout(kept[n..], data, original, pretty));
    assert data[0..] == data;
    AppendMatches(kept[..n] + Layout(kept[n..], data, original, pretty), data, 0, original, pretty);
  }

  lemma {:induction false} MatchingKept(maps: Maps, open: Option<string>, lines: seq<string>)
    requires Matches(maps, open, lines)
    ensures KeptLines(lines, open.Some?) == lines
    decreases |lines|
  {
    hide ParseLine, Norm;
    if lines != [] {
      OpenAfterOne(open, lines[0]);
      assert lines[..1] == [lines[0]];
      MatchingKept(maps, OpenAfter(open, lines[..1]), lines[1..]);
    }
  }

  /** A second lazy write of the same structure, with its values as a file gives them back, changes nothing. */
  lemma LazyWriteIsStable(lines: seq<string>, data: Structure, pretty: bool, again: bool)
    requires WellKeyed(data) && Addable(data, OriginalOf(lines), pretty) && ValuesTrimmed(ToMaps(data))
    requires AllChangeable(ToMaps(data), None, KeptLines(lines, false))
    ensures var out := LazyOutput(KeptLines(lines, false), data, OriginalOf(lines), pretty);
      LazyOutput(KeptLines(out, false), data, OriginalOf(out), again) == out
  {
    hide *;
    var out, want := LazyOutput(KeptLines(lines, false), data, OriginalOf(lines), pretty), ToMaps(data);
    AllAreLast(want, None, KeptLines(lines, false));
    LazyWriteReadsIff(lines, data, pretty);
    OutputMatches(lines, data, pretty);
    MatchingKept(want, None, out);
    TrimmedAsRead(want);
    OriginalMeans(out);
    LazyCopies(out, data, OriginalOf(out), again);
  }

  lemma TrimmedAsRead(maps: Maps)
    requires ValuesTrimmed(maps)
    ensures AsRead(maps) == maps && NothingNew(maps, AsRead(maps))
  {
    hide Trim;
    forall s | s in maps ensures AsRead(maps)[s] == maps[s] {
      assert forall k :: k in maps[s] ==> AsRead(maps)[s][k] == maps[s][k];
    }
  }
}
