/**
  From lines to files and back: what is printed reads back through the file contents as well, byte order mark
  included, as long as no name, key or value holds a character that the reader splits at or drops.
 */
module IniFile {
  import opened Lines
  import opened Wrappers
  import opened IniText
  import opened IniParser
  import opened IniLines
  import opened IniRewrite
  import opened IniMap
  import opened IniReader
  import opened IniMeaning
  import opened IniWriter
  import opened IniGenerator
  import opened IniGenerated
  import IniPrinted
  import opened IniLazy

  /** The characters that the reader splits at or drops. */
  predicate Lost(c: char) {
    c == '\n' || Dropped(c)
  }

  predicate Clean(s: string) {
    '\n' !in s && '\r' !in s && '\0' !in s
  }

  predicate AllClean(lines: seq<string>) {
    forall i :: 0 <= i < |lines| ==> Clean(lines[i])
  }

  predicate CleanKeys(es: Section) {
    forall i :: 0 <= i < |es| ==> Clean(es[i].0) && Clean(es[i].1)
  }

  predicate CleanStructure(data: Structure) {
    forall i :: 0 <= i < |data| ==> Clean(data[i].0) && CleanKeys(data[i].1)
  }

  // ---------------------------------------------------------------- splitting what was joined

  lemma {:induction false} SplitClean(a: string, rest: string, buffer: string)
    requires Clean(a)
    ensures SplitLines(a + rest, buffer) == SplitLines(rest, buffer + a)
    decreases |a|
  {
    if a == "" {
      assert a + rest == rest && buffer + a == buffer;
    } else {
      assert (a + rest)[1..] == a[1..] + rest;
      assert a[0] in a;
      SplitClean(a[1..], rest, buffer + [a[0]]);
      assert buffer + [a[0]] + a[1..] == buffer + a;
    }
  }

  /** A carriage return in front of the newline is dropped. */
  lemma SplitEnd(rest: string, buffer: string, endl: string)
    requires IsNewLine(endl)
    ensures SplitLines(endl + rest, buffer) == [buffer] + SplitLines(rest, "")
  {
    assert (endl + rest)[1..] == if endl == "\n" then rest else "\n" + rest;
    assert ("\n" + rest)[1..] == rest;
  }

  lemma {:induction false} SplitJoin(lines: seq<string>, endl: string)
    requires lines != [] && AllClean(lines) && IsNewLine(endl)
    ensures SplitLines(Join(lines, endl), "") == lines
    decreases |lines|
  {
    hide Clean, SplitLines, IsNewLine;
    var line := lines[0];
    assert "" + line == line;
    if |lines| == 1 {
      SplitClean(line, "", "");
      assert line + "" == line;
      SplitNothing(line);
    } else {
      var rest := Join(lines[1..], endl);
      Regroup(line, endl, rest);
      SplitClean(line, endl + rest, "");
      SplitEnd(rest, line, endl);
      SplitJoin(lines[1..], endl);
    }
  }

  lemma SplitNothing(buffer: string)
    ensures SplitLines("", buffer) == [buffer]
  {
  }

  lemma {:induction false} SplitsAreClean(s: string, buffer: string)
    requires Clean(buffer)
    ensures AllClean(SplitLines(s, buffer))
    decreases |s|
  {
    if s != "" {
      SplitsAreClean(s[1..], if s[0] == '\n' then "" else if Dropped(s[0]) then buffer else buffer + [s[0]]);
    }
  }

  /** Without carriage returns and zeroes. */
  function Undropped(s: string): string {
    if s == "" then "" else (if s[0] == '\r' || s[0] == '\0' then "" else [s[0]]) + Undropped(s[1..])
  }

  lemma {:induction false} SplitIs(s: string, buffer: string)
    ensures Join(SplitLines(s, buffer)) == buffer + Undropped(s)
    decreases |s|
  {
    hide Join;
    hide SplitLines;
    SplitOne(s, buffer);
    if s == "" {
      JoinOne(buffer);
    } else if s[0] == '\n' {
      SplitIs(s[1..], "");
      JoinOne(buffer);
      JoinConcat([buffer], SplitLines(s[1..], ""));
      Regroup(buffer, "\n", Undropped(s[1..]));
    } else if Dropped(s[0]) {
      SplitIs(s[1..], buffer);
    } else {
      SplitIs(s[1..], buffer + [s[0]]);
      Regroup(buffer, [s[0]], Undropped(s[1..]));
    }
  }

  lemma SplitOne(s: string, buffer: string)
    ensures SplitLines(s, buffer)
      == if s == "" then [buffer]
         else if s[0] == '\n' then [buffer] + SplitLines(s[1..], "")
         else SplitLines(s[1..], if Dropped(s[0]) then buffer else buffer + [s[0]])
  {
  }

  /**
    The lines of a file are those between its newlines, byte order mark, carriage returns and zeroes left out; an empty
    file has none.
   */
  lemma FileLinesAre(content: string)
    ensures var mark := "\U{EF}\U{BB}\U{BF}";
      && (content == "" <==> FileLines(content) == [])
      && Join(FileLines(content)) == Undropped(if mark <= content then content[3..] else content)
      && forall i :: 0 <= i < |FileLines(content)| ==> '\n' !in FileLines(content)[i]
  {
    hide Join, SplitLines, Undropped;
    FileLinesAreClean(content);
    if content == "" {
      NothingKept();
    } else {
      SplitIs(if BOM <= content then content[3..] else content, "");
    }
  }

  lemma NothingKept()
    ensures Join([]) == "" && Undropped("") == "" && !(BOM <= "")
  {
  }

  lemma FileLinesAreClean(content: string)
    ensures AllClean(FileLines(content))
  {
    SplitsAreClean(if BOM <= content then content[3..] else content, "");
  }

  function Mark(isBOM: bool): string {
    if isBOM then BOM else ""
  }

  /** A line that no byte order mark begins. */
  predicate NoMarkFirst(lines: seq<string>) {
    lines == [] || !Starts(lines[0], '\U{EF}')
  }

  lemma JoinHasNoMark(lines: seq<string>, endl: string)
    requires NoMarkFirst(lines) && IsNewLine(endl)
    ensures !(BOM <= Join(lines, endl))
  {
    assert lines != [] && lines[0] != "" ==> Join(lines, endl)[0] == lines[0][0];
    assert |lines| > 1 && lines[0] == "" ==> Join(lines, endl)[0] == endl[0];
  }

  /** Lines joined by either line end are the lines of the file again; only the empty line alone may become no line. */
  lemma JoinedFile(lines: seq<string>, isBOM: bool, endl: string)
    requires AllClean(lines) && NoMarkFirst(lines) && IsNewLine(endl)
    ensures BOM <= Mark(isBOM) + Join(lines, endl) <==> isBOM
    ensures Join(lines, endl) != "" ==> FileLines(Mark(isBOM) + Join(lines, endl)) == lines
    ensures MeanAll(NOTHING, FileLines(Mark(isBOM) + Join(lines, endl))) == MeanAll(NOTHING, lines)
  {
    hide Join, Clean, Mean, SplitLines;
    JoinHasNoMark(lines, endl);
    var content := Mark(isBOM) + Join(lines, endl);
    assert content[|Mark(isBOM)|..] == Join(lines, endl);
    if Join(lines, endl) != "" {
      JoinOfSome(lines, endl);
      SplitJoin(lines, endl);
    } else {
      EmptyJoin(lines, endl);
      EmptySplit();
      BlankMeansNothing();
    }
  }

  lemma JoinOfSome(lines: seq<string>, endl: string)
    requires Join(lines, endl) != ""
    ensures lines != []
  {
  }

  lemma EmptyJoin(lines: seq<string>, endl: string)
    requires Join(lines, endl) == "" && IsNewLine(endl)
    ensures lines == [] || lines == [""]
  {
  }

  lemma EmptySplit()
    ensures SplitLines("", "") == [""]
  {
  }

  lemma BlankMeansNothing()
    ensures MeanAll(NOTHING, [""]) == MeanAll(NOTHING, []) == NOTHING
  {
    BlankParses();
  }

  // ---------------------------------------------------------------- what is read is clean

  lemma {:induction false} ReplaceKeepsOut(s: string, a: string, b: string, c: char)
    requires a != "" && c !in s && c !in b
    ensures c !in ReplaceAll(s, a, b)
    decreases |s|
  {
    if s != "" {
      if |a| <= |s| && s[..|a|] == a {
        ReplaceKeepsOut(s[|a|..], a, b, c);
      } else {
        ReplaceKeepsOut(s[1..], a, b, c);
      }
    }
  }

  lemma EntryKeepsOut(s: string, c: char)
    requires c !in s && Lost(c) && ParseEntry(s).KeyValue?
    ensures c !in ParseEntry(s).key && c !in ParseEntry(s).value
  {
    hide Trim, LineNorm, Unescape, ParseEntry;
    var k := EntryDelimiter(s);
    TrimKeepsChars(s[..k], c);
    TrimKeepsChars(s[k + 1..], c);
    UnescapeKeepsOut(Trim(s[..k]), c);
  }

  lemma UnescapeKeepsOut(s: string, c: char)
    requires c !in s && Lost(c)
    ensures c !in Unescape(s)
  {
    ReplaceKeepsOut(s, "\\=", "=", c);
  }

  lemma LineKeepsOut(line: string, c: char)
    requires c !in line && Lost(c)
    ensures match ParseLine(line)
      case Section(name) => c !in name
      case KeyValue(key, value) => c !in key && c !in value
      case _ => true
  {
    hide Trim, ParseEntry;
    TrimKeepsChars(line, c);
    var text := Trim(line);
    if text != "" && text[0] == '[' {
      var open := text[..Find(text, ';')];
      var at := FindLast(open, ']');
      EntryIsNoSection(open);
      if at >= 1 {
        TrimKeepsChars(open[1..at], c);
      } else if ParseEntry(open).KeyValue? {
        EntryKeepsOut(open, c);
      }
    } else {
      EntryIsNoSection(text);
      if text != "" && ParseEntry(text).KeyValue? {
        EntryKeepsOut(text, c);
      }
    }
  }

  lemma NormIsClean(s: string)
    requires Clean(s)
    ensures Clean(Norm(s))
  {
    hide Norm;
    NormAddsNoMark(s, '\n');
    NormAddsNoMark(s, '\r');
    NormAddsNoMark(s, '\0');
  }

  lemma ParsedIsClean(line: string)
    requires Clean(line)
    ensures match ParseLine(line)
      case Section(name) => Clean(name)
      case KeyValue(key, value) => Clean(key) && Clean(value)
      case _ => true
  {
    hide ParseLine;
    LineKeepsOut(line, '\n');
    LineKeepsOut(line, '\r');
    LineKeepsOut(line, '\0');
  }

  lemma PutIsClean(es: Section, key: string, value: string)
    requires CleanKeys(es) && Clean(key) && Clean(value)
    ensures CleanKeys(Put(es, key, value))
  {
    hide Clean;
  }

  lemma PutSectionIsClean(data: Structure, name: string, es: Section)
    requires CleanStructure(data) && Clean(name) && CleanKeys(es)
    ensures CleanStructure(Put(data, name, es))
  {
    hide Clean, CleanKeys;
  }

  lemma LineIsClean(st: ReadState, line: string)
    requires CleanStructure(st.data) && Clean(st.section) && Clean(line)
    ensures CleanStructure(ReadLine(st, line).data) && Clean(ReadLine(st, line).section)
  {
    hide Clean, ParseLine, Norm, IndexOf;
    ParsedIsClean(line);
    var parsed := ParseLine(line);
    if parsed.Section? {
      NormIsClean(parsed.name);
      PutSectionIsClean(st.data, Norm(parsed.name), []);
    } else if parsed.KeyValue? && st.inSection {
      var name := Norm(st.section);
      NormIsClean(st.section);
      NormIsClean(parsed.key);
      var touched := Touch(st.data, name);
      var inner := if Has(touched, name) then Lookup(touched, name) else [];
      PutIsClean(inner, Norm(parsed.key), parsed.value);
      PutSectionIsClean(touched, name, Put(inner, Norm(parsed.key), parsed.value));
    }
  }

  lemma {:induction false} ReadIsClean(st: ReadState, lines: seq<string>)
    requires CleanStructure(st.data) && Clean(st.section) && AllClean(lines)
    ensures CleanStructure(ReadLines(st, lines).data)
    decreases |lines|
  {
    hide ReadLine, Clean, CleanStructure;
    if lines != [] {
      LineIsClean(st, lines[0]);
      ReadIsClean(ReadLine(st, lines[0]), lines[1..]);
    }
  }

  // ---------------------------------------------------------------- generate, then read

  lemma KeyLineIsClean(key: string, value: string, pretty: bool)
    requires Clean(key) && Clean(Trim(value))
    ensures Clean(KeyLine(key, value, pretty))
  {
    hide Escape, Trim;
    EscapeKeepsMarks(key, '\n');
    EscapeKeepsMarks(key, '\r');
    EscapeKeepsMarks(key, '\0');
  }

  lemma SectionLineIsClean(name: string)
    requires Clean(name)
    ensures Clean(SectionLine(name))
  {
  }

  lemma {:induction false} KeyLinesAreClean(es: Section, pretty: bool)
    requires CleanKeys(TrimValues(es))
    ensures AllClean(KeyLines(es, pretty))
    decreases |es|
  {
    hide Clean, KeyLine, Trim;
    if es != [] {
      assert TrimValues(es)[0] == (es[0].0, Trim(es[0].1));
      KeyLineIsClean(es[0].0, es[0].1, pretty);
      assert forall i :: 0 <= i < |es| - 1 ==> TrimValues(es[1..])[i] == TrimValues(es)[i + 1];
      KeyLinesAreClean(es[1..], pretty);
    }
  }

  lemma {:induction false} GeneratedIsClean(data: Structure, pretty: bool)
    requires CleanStructure(TrimAll(data))
    ensures AllClean(GeneratedLines(data, pretty))
    decreases |data|
  {
    hide Clean, CleanKeys, TrimValues, SectionLine, KeyLines;
    if data != [] {
      assert TrimAll(data)[0] == (data[0].0, TrimValues(data[0].1));
      SectionLineIsClean(data[0].0);
      KeyLinesAreClean(data[0].1, pretty);
      assert forall i :: 0 <= i < |data| - 1 ==> TrimAll(data[1..])[i] == TrimAll(data)[i + 1];
      GeneratedIsClean(data[1..], pretty);
      assert Clean("") by { EmptyIsClean(); }
    }
  }

  lemma EmptyIsClean()
    ensures Clean("")
  {
  }

  /** A generated file begins with a section line. */
  lemma GeneratedBegins(data: Structure, pretty: bool, endl: string)
    ensures NoMarkFirst(GeneratedLines(data, pretty))
    ensures Join(GeneratedLines(data, pretty), endl) == "" ==> data == []
  {
    hide KeyLines;
    if data != [] {
      assert GeneratedLines(data, pretty)[0] == SectionLine(data[0].0);
    }
  }

  /**
    The file that `INIGenerator` writes is read as the structure it was given, in the same order and with
    values trimmed, exactly if the structure is clean and printable.
   */
  lemma GenerateThenRead(data: Structure, pretty: bool, endl: string)
    requires WellKeyed(data) && IsNewLine(endl)
    ensures OriginalOf(FileLines(Join(GeneratedLines(data, pretty), endl))) == TrimAll(data)
      <==> CleanStructure(TrimAll(data)) && Printable(data, pretty)
  {
    hide CleanStructure, Printable, ReadLines, GeneratedLines, Join, FileLines, TrimAll, WellKeyed, AllClean,
      NoMarkFirst;
    var lines := GeneratedLines(data, pretty);
    var content := Join(lines, endl);
    FileLinesAreClean(content);
    NothingIsClean();
    ReadIsClean(START, FileLines(content));
    if CleanStructure(TrimAll(data)) {
      GeneratedIsClean(data, pretty);
      GeneratedBegins(data, pretty, endl);
      JoinedFile(lines, false, endl);
      assert "" + content == content;
      NothingToGenerate(pretty, endl);
      GeneratedLinesRead(data, pretty);
    }
  }

  lemma NothingIsClean()
    ensures CleanStructure([]) && Clean("")
  {
  }

  lemma NothingToGenerate(pretty: bool, endl: string)
    ensures GeneratedLines([], pretty) == FileLines(Join(GeneratedLines([], pretty), endl)) == []
  {
  }

  // ---------------------------------------------------------------- write into a file, then read it

  lemma RewriteIsClean(line: string, value: string, pretty: bool)
    requires HasDelimiter(line) && Clean(line) && Clean(Trim(value))
    ensures Clean(RewriteLine(line, value, pretty))
  {
    hide LineNorm, Trim;
    NormKeepsLength(line);
  }

  lemma ValueIsClean(data: Structure, name: string, key: string)
    requires CleanStructure(TrimAll(data)) && Has(data, name) && Has(Lookup(data, name), key)
    ensures Clean(Trim(Lookup(Lookup(data, name), key)))
  {
    hide Clean, Trim, IndexOf;
    var i := IndexOf(data, name);
    assert CleanKeys(TrimAll(data)[i].1);
    var j := IndexOf(data[i].1, key);
    assert Clean(TrimValues(data[i].1)[j].1);
  }

  lemma SectionIsClean(data: Structure, name: string)
    requires CleanStructure(TrimAll(data)) && Has(data, name)
    ensures CleanKeys(TrimValues(Lookup(data, name)))
  {
    hide Clean, Trim, IndexOf;
    assert CleanKeys(TrimAll(data)[IndexOf(data, name)].1);
  }

  lemma {:induction false} NewKeyLinesAreClean(es: Section, original: Section, pretty: bool)
    requires CleanKeys(TrimValues(es))
    ensures AllClean(NewKeyLines(es, original, pretty))
    decreases |es|
  {
    hide Clean, KeyLine, Trim, Norm, Has;
    if es != [] {
      assert TrimValues(es)[0] == (es[0].0, Trim(es[0].1));
      KeyLineIsClean(es[0].0, es[0].1, pretty);
      assert forall i :: 0 <= i < |es| - 1 ==> TrimValues(es[1..])[i] == TrimValues(es)[i + 1];
      NewKeyLinesAreClean(es[1..], original, pretty);
    }
  }

  lemma FlushIsClean(st: LazyState, data: Structure, original: Structure, pretty: bool)
    requires AllClean(st.output) && CleanStructure(TrimAll(data))
    ensures AllClean(Flush(st, data, original, pretty).output)
  {
    hide Clean, Norm, Has, CleanStructure, Lookup, NewKeyLines, TrimAll, TrimValues, CleanKeys;
    var name := Norm(st.section);
    if Has(data, name) && Has(original, name) {
      SectionIsClean(data, name);
      NewKeyLinesAreClean(Lookup(data, name), Lookup(original, name), pretty);
    }
  }

  lemma EntryStepIsClean(st: LazyState, line: string, data: Structure, pretty: bool)
    requires AllClean(st.output) && Clean(line) && CleanStructure(TrimAll(data)) && ParseLine(line).KeyValue?
    ensures AllClean(EntryStep(st, line, data, pretty).output)
  {
    hide Clean, Norm, Has, CleanStructure, Lookup, TrimAll, ParseLine, RewriteLine, HasDelimiter;
    var name, key := Norm(st.section), Norm(ParseLine(line).key);
    EntryHasDelimiter(line);
    if Has(data, name) && Has(Lookup(data, name), key) {
      ValueIsClean(data, name, key);
      RewriteIsClean(line, Lookup(Lookup(data, name), key), pretty);
    }
  }

  lemma PlainStepsAreClean(st: LazyState, line: string, name: string, data: Structure)
    requires AllClean(st.output) && Clean(line)
    ensures AllClean(SectionStep(st, line, name, data).output) && AllClean(OtherStep(st, line).output)
  {
    hide Clean, Norm, Has, ParseLine;
  }

  lemma StepIsClean(st: LazyState, line: string, last: bool, data: Structure, original: Structure, pretty: bool)
    requires AllClean(st.output) && Clean(line) && CleanStructure(TrimAll(data))
    ensures AllClean(LazyLine(st, line, last, data, original, pretty).output)
  {
    hide Clean, AllClean, Norm, Has, CleanStructure, TrimAll, ParseLine, Flush, EntryStep, SectionStep, OtherStep;
    FlushIsClean(st, data, original, pretty);
    match ParseLine(line)
    case Section(name) =>
      var closed := if st.parsing then Flush(st, data, original, pretty).(parsing := false) else st;
      PlainStepsAreClean(closed, line, name, data);
      FlushIsClean(SectionStep(closed, line, name, data), data, original, pretty);
    case KeyValue(_, _) =>
      EntryStepIsClean(st, line, data, pretty);
      FlushIsClean(EntryStep(st, line, data, pretty), data, original, pretty);
    case _ =>
      PlainStepsAreClean(st, line, "", data);
      FlushIsClean(OtherStep(st, line), data, original, pretty);
  }

  lemma {:induction false} WalkIsClean(st: LazyState, lines: seq<string>, data: Structure, original: Structure,
                                       pretty: bool)
    requires AllClean(st.output) && AllClean(lines) && CleanStructure(TrimAll(data))
    ensures AllClean(LazyLines(st, lines, data, original, pretty).output)
    decreases |lines|
  {
    hide Clean, LazyLine, CleanStructure, TrimAll;
    if lines != [] {
      StepIsClean(st, lines[0], |lines| == 1, data, original, pretty);
      WalkIsClean(LazyLine(st, lines[0], |lines| == 1, data, original, pretty), lines[1..], data, original, pretty);
    }
  }

  lemma {:induction false} AppendIsClean(output: seq<string>, data: Structure, original: Structure, pretty: bool)
    requires AllClean(output) && CleanStructure(TrimAll(data))
    ensures AllClean(AppendSections(output, data, original, pretty))
    decreases |data|
  {
    hide Clean, CleanKeys, TrimValues, SectionLine, NewKeyLines, Norm, Has;
    if data != [] {
      assert TrimAll(data)[0] == (data[0].0, TrimValues(data[0].1));
      SectionLineIsClean(data[0].0);
      EmptyIsClean();
      NewKeyLinesAreClean(data[0].1, [], pretty);
      assert forall i :: 0 <= i < |data| - 1 ==> TrimAll(data[1..])[i] == TrimAll(data)[i + 1];
      var next := if Has(original, Norm(data[0].0)) then output
          else AppendSection(output, data[0].0, data[0].1, pretty);
      AppendIsClean(next, data[1..], original, pretty);
    }
  }

  lemma {:induction false} KeptAreClean(lines: seq<string>, inSection: bool)
    requires AllClean(lines)
    ensures AllClean(KeptLines(lines, inSection))
    decreases |lines|
  {
    hide Clean, ParseLine;
    if lines != [] {
      KeptAreClean(lines[1..], inSection || ParseLine(lines[0]).Section?);
    }
  }

  lemma FirstOfLine(line: string)
    requires ParseLine(line).Section? || ParseLine(line).Comment? || ParseLine(line).BlankLine?
    ensures !Starts(line, '\U{EF}')
  {
    hide Trim, ParseEntry;
    var before, after := TrimParts(line);
    var text := Trim(line);
    EntryIsNoSection(text);
    if line != "" {
      if before != "" {
        assert line[0] == before[0];
      } else if text != "" {
        assert line[0] == text[0];
      } else {
        assert line[0] == after[0];
      }
    }
  }

  /** The contents of a file with `content` after a lazy write of `data`. */
  function Merged(content: string, data: Structure, pretty: bool, endl: string): string {
    var lines := FileLines(content);
    Mark(BOM <= content) + Join(LazyOutput(KeptLines(lines, false), data, OriginalOf(lines), pretty), endl)
  }

  /** The contents of the file after a write of `data`; it need not have existed. */
  function Saved(file: Option<string>, data: Structure, pretty: bool, endl: string): string {
    match file
    case None => Join(GeneratedLines(data, pretty), endl)
    case Some(content) => Merged(content, data, pretty, endl)
  }

  /** Trimming the values of the structure is what reading does to its maps. */
  lemma TrimAllMeans(data: Structure)
    requires WellKeyed(data)
    ensures ToMaps(TrimAll(data)) == AsRead(ToMaps(data))
  {
    hide Trim, Normal, TrimValues, TrimAll, IndexOf;
    forall k ensures IndexOf(TrimAll(data), k) == IndexOf(data, k) {
      SameIndex(TrimAll(data), data, k);
    }
    forall i | 0 <= i < |data|
      ensures ToMap(TrimValues(data[i].1)) == (map k | k in ToMap(data[i].1) :: Trim(ToMap(data[i].1)[k])) {
      TrimValuesMean(data[i].1);
    }
  }

  lemma TrimValuesMean(es: Section)
    ensures ToMap(TrimValues(es)) == map k | k in ToMap(es) :: Trim(ToMap(es)[k])
  {
    hide Trim, TrimValues, IndexOf;
    forall k ensures IndexOf(TrimValues(es), k) == IndexOf(es, k) {
      SameIndex(TrimValues(es), es, k);
    }
  }

  lemma SavedAnew(data: Structure, pretty: bool, endl: string)
    ensures Saved(None, data, pretty, endl) == Join(GeneratedLines(data, pretty), endl)
  {
  }

  lemma SavedOver(content: string, data: Structure, pretty: bool, endl: string)
    ensures Saved(Some(content), data, pretty, endl) == Merged(content, data, pretty, endl)
  {
  }

  lemma OutputIsClean(lines: seq<string>, data: Structure, original: Structure, pretty: bool)
    requires AllClean(lines) && CleanStructure(TrimAll(data))
    ensures AllClean(LazyOutput(lines, data, original, pretty))
  {
    hide CleanStructure, TrimAll, LazyLines, AppendSections;
    assert AllClean(INIT.output);
    WalkIsClean(INIT, lines, data, original, pretty);
    AppendIsClean(LazyLines(INIT, lines, data, original, pretty).output, data, original, pretty);
  }

  /** The loop that writes the lines. */
  method WriteLines(output: seq<string>, endl: string) returns (text: string)
    ensures text == Join(output, endl)
  {
    hide Join;
    text := "";
    if |output| > 0 {
      var line := 0;
      assert output[0..] == output;
      while true
        invariant 0 <= line < |output| && text + Join(output[line..], endl) == Join(output, endl)
        decreases |output| - line
      {
        JoinFrom(output, line, endl);
        text := text + output[line];
        line := line + 1;
        if line == |output| {
          break;
        }
        text := text + endl;
      }
    } else {
      NothingJoined(endl);
    }
  }

  /** `operator<<` of the writer, from the contents of the file, if there is one, to its new contents. */
  method Save(file: Option<string>, data: INIMap<Section>, prettyPrint: bool, endl: string) returns (written: string)
    requires data.Valid()
    modifies data
    ensures data.Valid() && data.data == old(data.data)
    ensures written == Saved(file, old(data.data), prettyPrint, endl)
    ensures file.None? ==> written == IniPrinted.FileText(old(data.data), prettyPrint, endl)
    ensures file.Some? ==>
      var mark, lines := "\U{EF}\U{BB}\U{BF}", FileLines(file.value);
      written == (if mark <= file.value then mark else "")
        + Join(LazyOutput(KeptLines(lines, false), old(data.data), OriginalOf(lines), prettyPrint), endl)
  {
    hide FileLines, Join, LazyOutput, KeptLines, ReadLines, Keyed, Indexed, GeneratedLines;
    if file.None? {
      written := Generate(data.data, prettyPrint, endl);
      IniPrinted.GeneratedText(data.data, prettyPrint, endl);
      return;
    }
    var originalData := new INIMap<Section>([]);
    var fileIsBOM, lineData := Read(file.value, originalData, true);
    var output := GetLazyOutput(lineData, data, originalData, prettyPrint);
    written := "";
    if fileIsBOM {
      written := written + "\U{EF}\U{BB}\U{BF}";
    }
    var text := WriteLines(output, endl);
    written := written + text;
  }

  lemma JoinFrom(lines: seq<string>, i: nat, endl: string)
    requires i < |lines|
    ensures Join(lines[i..], endl) == if i + 1 == |lines| then lines[i]
        else lines[i] + endl + Join(lines[i + 1..], endl)
  {
    assert lines[i..][1..] == lines[i + 1..];
  }

  lemma NothingJoined(endl: string)
    ensures Join([], endl) == ""
  {
  }
}
