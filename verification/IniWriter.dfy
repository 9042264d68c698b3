/**
  `INIWriter::getLazyOutput`: existing lines are merged with a structure. The loop, with its rewinding
  iterator and its flags, is proved against a walk over the lines that never goes back.
 */
module IniWriter {
  import opened IniText
  import opened IniParser
  import opened IniLines
  import opened IniRewrite
  import opened IniMap
  import opened IniReader

  // ---------------------------------------------------------------- the walk

  /** What is printed so far, the section name last seen, and the flags. */
  datatype LazyState = LazyState(output: seq<string>, section: string, parsing: bool, skip: bool, discard: bool,
      lastKey: nat)

  const INIT := LazyState([], "", false, false, false, 0)

  /** Lines for the keys of `collection` that `original` does not have. */
  function NewKeyLines(collection: Section, original: Section, pretty: bool): seq<string>
    decreases |collection|
  {
    if collection == [] then []
    else
      var (key, value) := collection[0];
      (if Has(original, Norm(key)) then [] else [KeyLine(key, value, pretty)])
          + NewKeyLines(collection[1..], original, pretty)
  }

  function LinesToAdd(section: string, data: Structure, original: Structure, pretty: bool): seq<string> {
    var name := Norm(section);
    if Has(data, name) && Has(original, name) then NewKeyLines(Lookup(data, name), Lookup(original, name), pretty)
        else []
  }

  /** New keys go behind the last key of the section, in front of the comments and blank lines that follow it. */
  function Flush(st: LazyState, data: Structure, original: Structure, pretty: bool): LazyState {
    if st.lastKey <= |st.output| then
      st.(output := st.output[..st.lastKey] + LinesToAdd(st.section, data, original, pretty) + st.output[st.lastKey..])
    else st
  }

  function SectionStep(st: LazyState, line: string, name: string, data: Structure): LazyState {
    if Has(data, Norm(name)) then LazyState(st.output + [line], name, true, false, false, |st.output| + 1)
    else st.(section := name, skip := true, discard := true)
  }

  function EntryStep(st: LazyState, line: string, data: Structure, pretty: bool): LazyState
    requires ParseLine(line).KeyValue?
  {
    var name, key := Norm(st.section), Norm(ParseLine(line).key);
    if Has(data, name) && Has(Lookup(data, name), key) then
      var value := Lookup(Lookup(data, name), key);
      EntryHasDelimiter(line);
      var out := if ParseLine(line).value == value then line else RewriteLine(line, value, pretty);
      st.(output := st.output + [out], lastKey := |st.output| + 1)
    else st
  }

  function OtherStep(st: LazyState, line: string): LazyState {
    if st.discard && line == "" then st.(discard := false)
    else if !ParseLine(line).Unknown? then st.(output := st.output + [line])
    else st
  }

  function LazyLine(st: LazyState, line: string, last: bool, data: Structure, original: Structure,
                    pretty: bool): LazyState {
    match ParseLine(line)
    case Section(name) =>
      var closed := if st.parsing then Flush(st, data, original, pretty).(parsing := false) else st;
      var begun := SectionStep(closed, line, name, data);
      if last && Has(data, Norm(name)) then Flush(begun, data, original, pretty) else begun
    case KeyValue(_, _) =>
      if st.skip then st
      else
        var next := EntryStep(st, line, data, pretty);
        if last then Flush(next, data, original, pretty) else next
    case _ =>
      var next := OtherStep(st, line);
      if last then Flush(next, data, original, pretty) else next
  }

  function LazyLines(st: LazyState, lines: seq<string>, data: Structure, original: Structure, pretty: bool): LazyState
    decreases |lines|
  {
    if lines == [] then st
    else LazyLines(LazyLine(st, lines[0], |lines| == 1, data, original, pretty), lines[1..], data, original, pretty)
  }

  /** A whole section; pretty mode sets it off with an empty line. */
  function AppendSection(output: seq<string>, section: string, collection: Section, pretty: bool): seq<string> {
    var spaced := if pretty && output != [] && output[|output| - 1] != "" then output + [""] else output;
    spaced + [SectionLine(section)] + NewKeyLines(collection, [], pretty)
  }

  /** Sections that the file did not have go to the end. */
  function AppendSections(output: seq<string>, data: Structure, original: Structure, pretty: bool): seq<string>
    decreases |data|
  {
    if data == [] then output
    else
      var (section, collection) := data[0];
      var next := if Has(original, Norm(section)) then output else AppendSection(output, section, collection, pretty);
      AppendSections(next, data[1..], original, pretty)
  }

  function LazyOutput(lines: seq<string>, data: Structure, original: Structure, pretty: bool): seq<string> {
    AppendSections(LazyLines(INIT, lines, data, original, pretty).output, data, original, pretty)
  }

  // ---------------------------------------------------------------- the loop

  /** The inner loop over a collection. */
  method CollectNewKeys(collection: Section, original: Section, pretty: bool) returns (linesToAdd: seq<string>)
    ensures linesToAdd == NewKeyLines(collection, original, pretty)
  {
    hide Norm, KeyLine, IndexOf, Has, NewKeyLines;
    linesToAdd := [];
    var i := 0;
    assert collection[0..] == collection;
    while i < |collection|
      invariant 0 <= i <= |collection|
      invariant linesToAdd + NewKeyLines(collection[i..], original, pretty) == NewKeyLines(collection, original, pretty)
    {
      var (key, value) := collection[i];
      NewKeyLinesStep(collection, i, original, pretty, linesToAdd);
      i := i + 1;
      if Has(original, Norm(key)) {
        continue;
      }
      linesToAdd := linesToAdd + [KeyLine(key, value, pretty)];
    }
    assert collection[i..] == [];
    NoKeyLines(original, pretty);
  }

  lemma NoKeyLines(original: Section, pretty: bool)
    ensures NewKeyLines([], original, pretty) == []
  {
  }

  lemma NewKeyLinesStep(collection: Section, i: nat, original: Section, pretty: bool, lines: seq<string>)
    requires i < |collection|
    ensures var (key, value) := collection[i];
      lines + NewKeyLines(collection[i..], original, pretty)
        == (if Has(original, Norm(key)) then lines else lines + [KeyLine(key, value, pretty)])
           + NewKeyLines(collection[i + 1..], original, pretty)
  {
    hide Norm, KeyLine, IndexOf, Has;
    assert collection[i..][1..] == collection[i + 1..];
  }

  /** The second loop of `getLazyOutput`. */
  method AppendNewSections(before: seq<string>, data: INIMap<Section>, original: INIMap<Section>, pretty: bool)
    returns (output: seq<string>)
    requires data.Valid() && original.Valid()
    ensures output == AppendSections(before, data.data, original.data, pretty)
  {
    hide Norm, KeyLine, Keyed, Indexed, IndexOf, NewKeyLines;
    output := before;
    var i := 0;
    assert data.data[0..] == data.data;
    while i < |data.data|
      invariant 0 <= i <= |data.data|
      invariant AppendSections(output, data.data[i..], original.data, pretty)
        == AppendSections(before, data.data, original.data, pretty)
    {
      assert data.data[i..][1..] == data.data[i + 1..];
      var (section, collection) := data.data[i];
      i := i + 1;
      var has := original.Contains(section);
      if has {
        continue;
      }
      if pretty && |output| > 0 && output[|output| - 1] != "" {
        output := output + [""];
      }
      output := output + [SectionLine(section)];
      var keyLines := CollectNewKeys(collection, [], pretty);
      output := output + keyLines;
    }
  }

  /** The step taken with `writeNewKeys` set: new keys go in, and the section line is looked at again. */
  lemma RewindStep(st: LazyState, lines: seq<string>, data: Structure, original: Structure, pretty: bool)
    requires lines != [] && ParseLine(lines[0]).Section? && st.parsing
    ensures LazyLines(Flush(st, data, original, pretty).(parsing := false), lines, data, original, pretty)
      == LazyLines(st, lines, data, original, pretty)
  {
    hide Flush, ParseLine, SectionStep;
  }

  /** The new keys of the section last seen, put where `lastKeyLine` says. */
  method WriteNewKeys(ghost st: LazyState, output: seq<string>, section: string, lastKeyLine: nat,
                      data: INIMap<Section>, original: INIMap<Section>, pretty: bool)
    returns (output': seq<string>)
    requires data.Valid() && original.Valid() && data != original
    requires st.output == output && st.section == section && st.lastKey == lastKeyLine <= |output|
    modifies data, original
    ensures data.Valid() && original.Valid() && data.data == old(data.data) && original.data == old(original.data)
    ensures Flush(st, old(data.data), old(original.data), pretty) == st.(output := output') && |output'| >= |output|
  {
    hide Norm, Keyed, Indexed, IndexOf, NewKeyLines;
    var linesToAdd := [];
    var inData := data.Contains(section);
    var inOriginal := original.Contains(section);
    if inData && inOriginal {
      var index := data.At(section);
      var indexOriginal := original.At(section);
      linesToAdd := CollectNewKeys(data.data[index].1, original.data[indexOriginal].1, pretty);
    }
    output' := output[..lastKeyLine] + linesToAdd + output[lastKeyLine..];
  }

  /** A key line of a section that stays. */
  method WriteEntry(ghost st: LazyState, line: string, output: seq<string>, section: string, lastKeyLine: nat,
                    data: INIMap<Section>, pretty: bool)
    returns (output': seq<string>, lastKeyLine': nat)
    requires data.Valid() && ParseLine(line).KeyValue?
    requires st.output == output && st.section == section && st.lastKey == lastKeyLine <= |output|
    modifies data
    ensures data.Valid() && data.data == old(data.data) && lastKeyLine' <= |output'|
    ensures EntryStep(st, line, old(data.data), pretty) == st.(output := output', lastKey := lastKeyLine')
  {
    hide Norm, Keyed, Indexed, IndexOf, ParseLine, RewriteLine, HasDelimiter;
    output', lastKeyLine' := output, lastKeyLine;
    var parseData := ParseLine(line);
    var has := data.Contains(section);
    if has {
      var index := data.At(section);
      var collection := data.data[index].1;
      if Has(collection, Norm(parseData.key)) {
        var outputValue := Lookup(collection, Norm(parseData.key));
        if parseData.value == outputValue {
          output' := output + [line];
        } else {
          EntryHasDelimiter(line);
          output' := output + [RewriteLine(line, outputValue, pretty)];
        }
        lastKeyLine' := |output'|;
      }
    }
  }

  /**
    `getLazyOutput`. A step that the code takes by moving its iterator back stays on line `i` here. Every
    `operator[]` on the two structures is guarded by `has`, so neither of them changes.
   */
  method GetLazyOutput(lineData: seq<string>, data: INIMap<Section>, original: INIMap<Section>, prettyPrint: bool)
    returns (output: seq<string>)
    requires data.Valid() && original.Valid() && data != original
    modifies data, original
    ensures data.Valid() && original.Valid() && data.data == old(data.data) && original.data == old(original.data)
    ensures output == LazyOutput(lineData, old(data.data), old(original.data), prettyPrint)
  {
    hide Norm, Keyed, Indexed, IndexOf, ParseLine, Flush, EntryStep, AppendSections;
    ghost var D, O := data.data, original.data;
    output := [];
    var sectionCurrent, lastKeyLine: nat := "", 0;
    var parsingSection, continueToNextSection, discardNextEmpty, writeNewKeys := false, false, false, false;
    var i := 0;
    assert lineData[0..] == lineData;
    ghost var st := INIT;
    while i < |lineData|
      invariant 0 <= i <= |lineData| && lastKeyLine <= |output|
      invariant data.Valid() && original.Valid() && data.data == D && original.data == O
      invariant writeNewKeys ==> i < |lineData| && !parsingSection && ParseLine(lineData[i]).Section?
      invariant st == LazyState(output, sectionCurrent, parsingSection || writeNewKeys, continueToNextSection,
                                discardNextEmpty, lastKeyLine)
      invariant LazyLines(st, lineData[i..], D, O, prettyPrint) == LazyLines(INIT, lineData, D, O, prettyPrint)
      decreases |lineData| - i, if parsingSection then 2 else if writeNewKeys then 1 else 0
    {
      var line := lineData[i];
      ghost var before := st;
      assert lineData[i..][1..] == lineData[i + 1..];
      if !writeNewKeys {
        var parseResult := ParseLine(line);
        if parseResult.Section? {
          if parsingSection {
            writeNewKeys, parsingSection := true, false;
            continue;
          }
          sectionCurrent := parseResult.name;
          var has := data.Contains(sectionCurrent);
          if has {
            parsingSection, continueToNextSection, discardNextEmpty := true, false, false;
            output := output + [line];
            lastKeyLine := |output|;
          } else {
            continueToNextSection, discardNextEmpty := true, true;
          }
          st := SectionStep(st, line, sectionCurrent, D);
          if !has {
            i := i + 1;
            continue;
          }
        } else if parseResult.KeyValue? {
          if continueToNextSection {
            i := i + 1;
            continue;
          }
          output, lastKeyLine := WriteEntry(st, line, output, sectionCurrent, lastKeyLine, data, prettyPrint);
          st := EntryStep(st, line, D, prettyPrint);
        } else {
          if discardNextEmpty && line == "" {
            discardNextEmpty := false;
          } else if !parseResult.Unknown? {
            output := output + [line];
          }
          st := OtherStep(st, line);
        }
      }
      if writeNewKeys || i + 1 == |lineData| {
        ghost var after := st;
        output := WriteNewKeys(st, output, sectionCurrent, lastKeyLine, data, original, prettyPrint);
        st := Flush(st, D, O, prettyPrint);
        if writeNewKeys {
          RewindStep(before, lineData[i..], D, O, prettyPrint);
          writeNewKeys := false;
          st := st.(parsing := false);
          continue;
        }
      }
      assert st == LazyLine(before, line, i + 1 == |lineData|, D, O, prettyPrint);
      i := i + 1;
    }
    output := AppendNewSections(output, data, original, prettyPrint);
  }
}
