/**
  Exactly when a file that was written reads back, whether or not it was there before.
 */
module IniSave {
  import opened Lines
  import opened Wrappers
  import opened IniText
  import opened IniParser
  import opened IniLines
  import opened IniMap
  import opened IniReader
  import opened IniMeaning
  import opened IniWriter
  import opened IniGenerator
  import opened IniGenerated
  import opened IniLazy
  import opened IniLayout
  import opened IniReadBack
  import opened IniExact
  import opened IniFile

  // ---------------------------------------------------------------- the first line

  lemma FirstOf(a: seq<string>, b: seq<string>)
    requires NoMarkFirst(a) && NoMarkFirst(b)
    ensures NoMarkFirst(a + b)
  {
  }

  lemma QuietBegins(lines: seq<string>)
    requires AllQuiet(lines)
    ensures NoMarkFirst(lines)
  {
    hide ParseLine;
    if lines != [] {
      assert Quiet(lines[0]);
      FirstOfLine(lines[0]);
    }
  }

  lemma SectionBegun(line: string, body: seq<string>, data: Structure, original: Structure, pretty: bool)
    requires ParseLine(line).Section?
    ensures NoMarkFirst(SectionLayout(line, body, data, original, pretty))
  {
    hide ParseLine, Norm, Has, Lookup, LinesToAdd, Remains, StayingLines, UpToLastKey;
    FirstOfLine(line);
    RemainsQuiet(body, true);
    QuietBegins(Remains(body, true));
  }

  lemma {:induction false} LayoutBegins(lines: seq<string>, data: Structure, original: Structure, pretty: bool)
    requires lines != [] ==> ParseLine(lines[0]).Section?
    ensures NoMarkFirst(Layout(lines, data, original, pretty))
    decreases |lines|
  {
    hide ParseLine, SectionLayout, NoMarkFirst;
    if lines == [] {
      QuietBegins([]);
    } else {
      var n := BodyLength(lines[1..]);
      NextSection(lines[1..]);
      SectionBegun(lines[0], lines[1..][..n], data, original, pretty);
      LayoutBegins(lines[1..][n..], data, original, pretty);
      FirstOf(SectionLayout(lines[0], lines[1..][..n], data, original, pretty),
              Layout(lines[1..][n..], data, original, pretty));
    }
  }

  lemma {:induction false} AppendBegins(output: seq<string>, data: Structure, original: Structure, pretty: bool)
    requires NoMarkFirst(output)
    ensures NoMarkFirst(AppendSections(output, data, original, pretty))
    decreases |data|
  {
    hide NewKeyLines, Norm, Has;
    if data != [] {
      var next := if Has(original, Norm(data[0].0)) then output
          else AppendSection(output, data[0].0, data[0].1, pretty);
      assert output != [] ==> next[0] == output[0];
      AppendBegins(next, data[1..], original, pretty);
    }
  }

  lemma OutputBegins(lines: seq<string>, data: Structure, pretty: bool)
    requires WellKeyed(data)
    ensures NoMarkFirst(LazyOutput(KeptLines(lines, false), data, OriginalOf(lines), pretty))
  {
    hide WellKeyed, OriginalOf, AppendSections, KeptLines, AllKept, Layout, LazyOutput, NoMarkFirst, AllQuiet;
    var kept, original := KeptLines(lines, false), OriginalOf(lines);
    var n := BodyLength(kept);
    LazyLayout(lines, data, pretty);
    KeptAreKept(lines, false);
    FrontIsQuiet(kept, n);
    QuietBegins(kept[..n]);
    LayoutBegins(kept[n..], data, original, pretty);
    FirstOf(kept[..n], Layout(kept[n..], data, original, pretty));
    AppendBegins(kept[..n] + Layout(kept[n..], data, original, pretty), data, original, pretty);
  }

  // ---------------------------------------------------------------- generating is writing into an empty file

  lemma {:induction false} AllKeysAreNew(es: Section, pretty: bool)
    ensures NewKeyLines(es, [], pretty) == KeyLines(es, pretty)
    decreases |es|
  {
    hide KeyLine, Norm;
    if es != [] {
      AllKeysAreNew(es[1..], pretty);
    }
  }

  lemma {:induction false} KeyLinesNotBlank(es: Section, pretty: bool)
    ensures forall i :: 0 <= i < |KeyLines(es, pretty)| ==> KeyLines(es, pretty)[i] != ""
    decreases |es|
  {
    hide KeyLine;
    if es != [] {
      KeyLineIsNoBlank(es[0].0, es[0].1, pretty);
      KeyLinesNotBlank(es[1..], pretty);
    }
  }

  /** What sets a section off from the lines in front of it. */
  function Space(output: seq<string>, data: Structure, pretty: bool): seq<string> {
    if pretty && output != [] && data != [] then [""] else []
  }

  lemma SpacedSection(output: seq<string>, data: Structure, pretty: bool)
    requires data != [] && (output != [] ==> output[|output| - 1] != "")
    requires NewKeyLines(data[0].1, [], pretty) == KeyLines(data[0].1, pretty)
    ensures AppendSection(output, data[0].0, data[0].1, pretty)
      == output + Space(output, data, pretty) + SectionLines(data[0].0, data[0].1, pretty)
  {
    hide KeyLines, NewKeyLines, SectionLine;
    assert output + [] == output;
  }

  lemma SectionLinesEnd(name: string, es: Section, pretty: bool)
    ensures var own := SectionLines(name, es, pretty); own != [] && own[|own| - 1] != ""
  {
    hide KeyLines, SectionLine;
    KeyLinesNotBlank(es, pretty);
    SectionLineIsNoBlank(name);
  }

  lemma FirstSection(output: seq<string>, data: Structure, pretty: bool)
    requires data != []
    ensures var (name, es) := data[0];
      && AppendSections(output, data, [], pretty)
          == AppendSections(AppendSection(output, name, es, pretty), data[1..], [], pretty)
      && GeneratedLines(data, pretty)
        == SectionLines(name, es, pretty) + (if |data| > 1 && pretty then [""] else [])
            + GeneratedLines(data[1..], pretty)
  {
    hide AppendSection, SectionLines, Norm;
  }

  lemma {:induction false} AppendedIsGenerated(output: seq<string>, data: Structure, pretty: bool)
    requires output != [] ==> output[|output| - 1] != ""
    ensures AppendSections(output, data, [], pretty)
      == output + Space(output, data, pretty) + GeneratedLines(data, pretty)
    decreases |data|
  {
    hide AppendSections, AppendSection, GeneratedLines, SectionLines;
    if data == [] {
      NothingAppended(output, pretty);
    } else {
      var (name, es) := data[0];
      var own, begun := SectionLines(name, es, pretty), output + Space(output, data, pretty);
      AllKeysAreNew(es, pretty);
      SectionLinesEnd(name, es, pretty);
      SpacedSection(output, data, pretty);
      FirstSection(output, data, pretty);
      AppendedIsGenerated(begun + own, data[1..], pretty);
      Regroup3(begun, own, Space(begun + own, data[1..], pretty), GeneratedLines(data[1..], pretty));
    }
  }

  lemma NothingAppended(output: seq<string>, pretty: bool)
    ensures AppendSections(output, [], [], pretty) == output + Space(output, [], pretty) + GeneratedLines([], pretty)
  {
    assert output + [] + [] == output;
  }

  lemma GeneratedIsWritten(data: Structure, pretty: bool)
    ensures GeneratedLines(data, pretty) == LazyOutput([], data, OriginalOf([]), pretty)
  {
    hide AppendSections, GeneratedLines;
    AppendedIsGenerated([], data, pretty);
    assert [] + [] + GeneratedLines(data, pretty) == GeneratedLines(data, pretty);
  }

  lemma NothingThere(data: Structure, pretty: bool)
    ensures KeptLines([], false) == [] && OriginalOf([]) == []
    ensures LastChangeable(ToMaps(data), None, []) && (Addable(data, [], pretty) <==> Printable(data, pretty))
  {
    hide Readable;
  }

  // ---------------------------------------------------------------- what is read is clean

  lemma CleanEntries(a: Section, b: Section)
    requires CleanKeys(a) && ToMap(a) == ToMap(b) && Keyed(b)
    ensures CleanKeys(b)
  {
    hide Clean, ToMap, Normal;
    forall i | 0 <= i < |b| ensures Clean(b[i].0) && Clean(b[i].1) {
      IndexIs(b, i);
      var key := b[i].0;
      assert key in ToMap(a) && ToMap(b)[key] == b[i].1;
      assert a[IndexOf(a, key)] == (key, ToMap(a)[key]);
    }
  }

  lemma CleanStructures(a: Structure, b: Structure)
    requires CleanStructure(a) && WellKeyed(b) && ToMaps(a) == ToMaps(b)
    ensures CleanStructure(b)
  {
    hide Clean, ToMap, Normal, CleanKeys;
    forall i | 0 <= i < |b| ensures Clean(b[i].0) && CleanKeys(b[i].1) {
      IndexIs(b, i);
      var name := b[i].0;
      assert name in ToMaps(a) && ToMaps(b)[name] == ToMap(b[i].1);
      assert a[IndexOf(a, name)] == (name, ToMap(a)[name]);
      CleanEntries(ToMap(a)[name], b[i].1);
    }
  }

  lemma TrimAllWellKeyed(data: Structure)
    requires WellKeyed(data)
    ensures WellKeyed(TrimAll(data))
  {
    hide Keyed, TrimValues;
    AllTrimmedKeyed(data);
    forall i | 0 <= i < |data| ensures Keyed(TrimAll(data)[i].1) {
      TrimmedKeyed(data[i].1);
    }
  }

  lemma ReadBackIsClean(content: string, data: Structure)
    requires WellKeyed(data) && ToMaps(OriginalOf(FileLines(content))) == AsRead(ToMaps(data))
    ensures CleanStructure(TrimAll(data))
  {
    hide WellKeyed, ToMaps, AsRead, FileLines, CleanStructure, TrimAll, AllClean, ReadLines;
    FileLinesAreClean(content);
    NothingIsClean();
    ReadIsClean(START, FileLines(content));
    TrimAllWellKeyed(data);
    TrimAllMeans(data);
    CleanStructures(OriginalOf(FileLines(content)), TrimAll(data));
  }

  // ---------------------------------------------------------------- the file

  /** What a caller can check before writing `data` into the file. */
  ghost predicate Writable(file: Option<string>, data: Structure, pretty: bool) {
    match file
    case None => Printable(data, pretty)
    case Some(content) =>
      && Addable(data, OriginalOf(FileLines(content)), pretty)
      && LastChangeable(ToMaps(data), None, KeptLines(FileLines(content), false))
  }

  lemma WritableAnew(data: Structure, pretty: bool)
    ensures Writable(None, data, pretty) <==> Printable(data, pretty)
  {
  }

  lemma MergedReadsIff(content: string, data: Structure, pretty: bool, endl: string)
    requires WellKeyed(data) && IsNewLine(endl) && CleanStructure(TrimAll(data))
    ensures ToMaps(OriginalOf(FileLines(Merged(content, data, pretty, endl)))) == AsRead(ToMaps(data))
      <==> Writable(Some(content), data, pretty)
  {
    hide CleanStructure, FileLines, TrimAll, WellKeyed, Addable, LazyOutput, Join, OriginalOf, Mark, AllClean,
      NoMarkFirst, ToMaps, AsRead, KeptLines, IsNewLine, LastChangeable;
    var lines := FileLines(content);
    var out := LazyOutput(KeptLines(lines, false), data, OriginalOf(lines), pretty);
    FileLinesAreClean(content);
    KeptAreClean(lines, false);
    OutputIsClean(KeptLines(lines, false), data, OriginalOf(lines), pretty);
    OutputBegins(lines, data, pretty);
    JoinedFile(out, BOM <= content, endl);
    OriginalMeans(out);
    OriginalMeans(FileLines(Merged(content, data, pretty, endl)));
    LazyWriteReadsIff(lines, data, pretty);
  }

  /** The byte order mark stays, whatever is written. */
  lemma MarkStays(content: string, data: Structure, pretty: bool, endl: string)
    requires WellKeyed(data) && IsNewLine(endl)
    ensures BOM <= Merged(content, data, pretty, endl) <==> BOM <= content
  {
    hide FileLines, WellKeyed, LazyOutput, Join, OriginalOf, NoMarkFirst, KeptLines, IsNewLine;
    var lines := FileLines(content);
    var out := LazyOutput(KeptLines(lines, false), data, OriginalOf(lines), pretty);
    OutputBegins(lines, data, pretty);
    JoinHasNoMark(out, endl);
    assert BOM <= content ==> Mark(true) <= Merged(content, data, pretty, endl);
    assert "" + Join(out, endl) == Join(out, endl);
  }

  lemma GeneratedReadsIff(data: Structure, pretty: bool, endl: string)
    requires WellKeyed(data) && IsNewLine(endl) && CleanStructure(TrimAll(data))
    ensures ToMaps(OriginalOf(FileLines(Join(GeneratedLines(data, pretty), endl)))) == AsRead(ToMaps(data))
      <==> Printable(data, pretty)
  {
    hide CleanStructure, FileLines, TrimAll, WellKeyed, Addable, LazyOutput, Join, OriginalOf, AllClean, NoMarkFirst,
      ToMaps, AsRead, KeptLines, IsNewLine, LastChangeable, GeneratedLines, Printable;
    var lines := GeneratedLines(data, pretty);
    NothingThere(data, pretty);
    GeneratedIsWritten(data, pretty);
    GeneratedIsClean(data, pretty);
    GeneratedBegins(data, pretty, endl);
    JoinedFile(lines, false, endl);
    assert Mark(false) + Join(lines, endl) == Join(lines, endl);
    OriginalMeans(lines);
    OriginalMeans(FileLines(Join(lines, endl)));
    LazyWriteReadsIff([], data, pretty);
  }

  /**
    A structure written to a file, whatever it holds or if there is none, reads back with its values trimmed if and
    only if it is clean and meets the conditions.
   */
  lemma SaveReadsIff(file: Option<string>, data: Structure, pretty: bool, endl: string)
    requires WellKeyed(data) && IsNewLine(endl)
    ensures ToMaps(OriginalOf(FileLines(Saved(file, data, pretty, endl)))) == AsRead(ToMaps(data))
      <==> CleanStructure(TrimAll(data)) && Writable(file, data, pretty)
  {
    hide *;
    var saved := Saved(file, data, pretty, endl);
    if ToMaps(OriginalOf(FileLines(saved))) == AsRead(ToMaps(data)) {
      ReadBackIsClean(saved, data);
    }
    if CleanStructure(TrimAll(data)) {
      match file
      case None =>
        SavedAnew(data, pretty, endl);
        WritableAnew(data, pretty);
        GeneratedReadsIff(data, pretty, endl);
      case Some(content) =>
        SavedOver(content, data, pretty, endl);
        MergedReadsIff(content, data, pretty, endl);
    }
  }
}
