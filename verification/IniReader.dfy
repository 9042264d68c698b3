/**
  `INIReader`: from file contents to lines, and from lines to a structure, in two forms that agree:
  the ordered structure that the code builds, and the map of maps that it means.
 */
module IniReader {
  import opened IniText
  import opened IniParser
  import opened IniMap

  type Section = Entries<string>
  type Structure = Entries<Section>

  // ---------------------------------------------------------------- lines of a file

  const BOM := "\U{EF}\U{BB}\U{BF}"

  predicate Dropped(c: char) {
    c == '\0' || c == '\r'
  }

  /** The lines of `s`, the first of which has begun with `buffer`. */
  function SplitLines(s: string, buffer: string): (lines: seq<string>)
    ensures lines != []
    decreases |s|
  {
    if s == "" then [buffer]
    else if s[0] == '\n' then [buffer] + SplitLines(s[1..], "")
    else if Dropped(s[0]) then SplitLines(s[1..], buffer)
    else SplitLines(s[1..], buffer + [s[0]])
  }

  function FileLines(content: string): seq<string> {
    if content == "" then [] else SplitLines(if BOM <= content then content[3..] else content, "")
  }

  lemma {:induction false} ZeroesAreDropped(s: string, n: nat, buffer: string)
    ensures SplitLines(s + seq(n, i => '\0'), buffer) == SplitLines(s, buffer)
    decreases |s| + n
  {
    var zeroes := seq(n, i => '\0');
    if s != "" {
      assert (s + zeroes)[1..] == s[1..] + zeroes;
      if s[0] == '\n' {
        ZeroesAreDropped(s[1..], n, "");
      } else if Dropped(s[0]) {
        ZeroesAreDropped(s[1..], n, buffer);
      } else {
        ZeroesAreDropped(s[1..], n, buffer + [s[0]]);
      }
    } else if n > 0 {
      assert (s + zeroes)[1..] == "" + seq(n - 1, i => '\0');
      ZeroesAreDropped("", n - 1, buffer);
      assert "" + zeroes == zeroes;
    } else {
      assert s + zeroes == "";
    }
  }

  /**
    `readFile`. After a byte order mark the three places at the end of the buffer keep the zero they were
    filled with, and are dropped like any other zero.
   */
  method ReadFile(content: string) returns (isBOM: bool, output: seq<string>)
    ensures isBOM <==> BOM <= content
    ensures output == FileLines(content)
  {
    var fileSize := |content|;
    if fileSize >= 3 {
      isBOM := content[0] == '\U{EF}' && content[1] == '\U{BB}' && content[2] == '\U{BF}';
    } else {
      isBOM := false;
    }
    assert isBOM <==> BOM <= content by {
      assert |content| >= 3 ==> content[..3] == [content[0], content[1], content[2]];
    }
    var fileContents := if isBOM then content[3..] + seq(3, i => '\0') else content;
    output := [];
    if fileSize == 0 {
      return;
    }
    var buffer, i := "", 0;
    assert fileContents[0..] == fileContents;
    while i < fileSize
      invariant 0 <= i <= fileSize == |fileContents|
      invariant output + SplitLines(fileContents[i..], buffer) == SplitLines(fileContents, "")
    {
      var c := fileContents[i];
      assert fileContents[i..][1..] == fileContents[i + 1..];
      if c == '\n' {
        output := output + [buffer];
        buffer := "";
      } else if c != '\0' && c != '\r' {
        buffer := buffer + [c];
      }
      i := i + 1;
    }
    output := output + [buffer];
    if isBOM {
      ZeroesAreDropped(content[3..], 3, "");
    }
  }

  // ---------------------------------------------------------------- the structure of the lines

  datatype ReadState = ReadState(data: Structure, section: string, inSection: bool)

  const START := ReadState([], "", false)

  /** `data[name]` when it need not exist. */
  function Touch(data: Structure, name: string): Structure {
    if Has(data, name) then data else data + [(name, [])]
  }

  /** `data[section][key] = value` */
  function Assign(data: Structure, section: string, key: string, value: string): Structure {
    var touched := Touch(data, section);
    Put(touched, section, Put(if Has(touched, section) then Lookup(touched, section) else [], key, value))
  }

  function ReadLine(st: ReadState, line: string): ReadState {
    match ParseLine(line)
    case Section(name) => ReadState(Touch(st.data, Norm(name)), name, true)
    case KeyValue(key, value) =>
      if st.inSection then st.(data := Assign(st.data, Norm(st.section), Norm(key), value)) else st
    case _ => st
  }

  function ReadLines(st: ReadState, lines: seq<string>): ReadState
    decreases |lines|
  {
    if lines == [] then st else ReadLines(ReadLine(st, lines[0]), lines[1..])
  }

  /** Is the line kept for a later lazy write? */
  predicate IsKept(line: string, inSection: bool) {
    !ParseLine(line).Unknown? && (ParseLine(line).KeyValue? ==> inSection)
  }

  function KeptLines(lines: seq<string>, inSection: bool): seq<string>
    decreases |lines|
  {
    if lines == [] then []
    else
      var now := inSection || ParseLine(lines[0]).Section?;
      (if IsKept(lines[0], now) then [lines[0]] else []) + KeptLines(lines[1..], now)
  }

  ghost predicate InSection(lines: seq<string>) {
    exists i :: 0 <= i < |lines| && ParseLine(lines[i]).Section?
  }

  lemma {:induction false} KeptConcat(a: seq<string>, b: seq<string>, inSection: bool)
    ensures KeptLines(a + b, inSection) == KeptLines(a, inSection) + KeptLines(b, inSection || InSection(a))
    decreases |a|
  {
    hide ParseLine;
    if a == [] {
      assert a + b == b;
    } else {
      assert (a + b)[1..] == a[1..] + b;
      var now := inSection || ParseLine(a[0]).Section?;
      KeptStep(a + b, inSection);
      KeptStep(a, inSection);
      hide KeptLines, IsKept;
      KeptConcat(a[1..], b, now);
      InSectionStep(a);
      hide InSection;
    }
  }

  lemma KeptStep(lines: seq<string>, inSection: bool)
    requires lines != []
    ensures var now := inSection || ParseLine(lines[0]).Section?;
      KeptLines(lines, inSection) == (if IsKept(lines[0], now) then [lines[0]] else []) + KeptLines(lines[1..], now)
  {
    hide ParseLine, IsKept;
  }

  lemma InSectionStep(lines: seq<string>)
    requires lines != []
    ensures InSection(lines) <==> ParseLine(lines[0]).Section? || InSection(lines[1..])
  {
    hide ParseLine;
    assert forall i :: 0 < i < |lines| ==> lines[i] == lines[1..][i - 1];
  }

  lemma OneKept(line: string, inSection: bool)
    ensures KeptLines([line], inSection)
      == if ParseLine(line).Unknown? || (ParseLine(line).KeyValue? && !inSection) then [] else [line]
  {
    hide ParseLine;
    assert [line][1..] == [];
  }

  /** A line is kept unless it means nothing at all, or is an entry in front of the first section. */
  lemma LineKept(before: seq<string>, line: string, after: seq<string>)
    ensures KeptLines(before + [line] + after, false)
      == KeptLines(before, false)
         + (if ParseLine(line).Unknown? || (ParseLine(line).KeyValue? && !InSection(before)) then [] else [line])
         + KeptLines(after, InSection(before + [line]))
  {
    hide ParseLine, KeptLines, InSection;
    KeptConcat(before + [line], after, false);
    KeptConcat(before, [line], false);
    OneKept(line, InSection(before));
  }

  /** `operator>>` into `data`, keeping the lines on demand. */
  method Read(content: string, data: INIMap<Section>, keep: bool) returns (isBOM: bool, lineData: seq<string>)
    requires data.Valid() && data.blank == []
    modifies data
    ensures data.Valid() && data.data == ReadLines(START.(data := old(data.data)), FileLines(content)).data
    ensures lineData == if keep then KeptLines(FileLines(content), false) else []
    ensures isBOM <==> BOM <= content
  {
    hide Keyed, Indexed, Norm, IndexOf, ParseLine, FileLines;
    var fileLines;
    isBOM, fileLines := ReadFile(content);
    var section, inSection, i := "", false, 0;
    lineData := [];
    assert fileLines[0..] == fileLines;
    while i < |fileLines|
      invariant 0 <= i <= |fileLines| && data.Valid()
      invariant ReadLines(ReadState(data.data, section, inSection), fileLines[i..])
        == ReadLines(START.(data := old(data.data)), fileLines)
      invariant inSection ==> Has(data.data, Norm(section))
      invariant keep ==> lineData + KeptLines(fileLines[i..], inSection) == KeptLines(fileLines, false)
      invariant !keep ==> lineData == []
    {
      var line := fileLines[i];
      assert fileLines[i..][1..] == fileLines[i + 1..];
      var parseResult := ParseLine(line);
      if parseResult.Section? {
        inSection, section := true, parseResult.name;
        var index := data.At(section);
        HasHere(data.data, index);
      } else if inSection && parseResult.KeyValue? {
        var index := data.At(section);
        var inner := Put(data.data[index].1, Norm(parseResult.key), parseResult.value);
        PutKeeps(data.data, Norm(section), inner);
        data.Store(index, inner);
      }
      if keep && !parseResult.Unknown? {
        if !(parseResult.KeyValue? && !inSection) {
          lineData := lineData + [line];
        }
      }
      i := i + 1;
    }
  }

  lemma HasHere<T>(es: Entries<T>, i: nat)
    requires i < |es|
    ensures Has(es, es[i].0)
  {
  }

  lemma PutKeeps<T>(es: Entries<T>, key: string, value: T)
    ensures Has(Put(es, key, value), key)
  {
    PutIndex(es, key, value, key);
  }
}
