/**
  `INIGenerator`: a structure printed as a whole, and the file that reads back as the same structure in the
  same order.
 */
module IniGenerator {
  import opened Lines
  import opened IniLines
  import opened IniReader

  // ---------------------------------------------------------------- printing

  function KeyLines(es: Section, pretty: bool): seq<string>
    decreases |es|
  {
    if es == [] then [] else [KeyLine(es[0].0, es[0].1, pretty)] + KeyLines(es[1..], pretty)
  }

  function SectionLines(name: string, es: Section, pretty: bool): seq<string> {
    [SectionLine(name)] + KeyLines(es, pretty)
  }

  /** The lines of the file; pretty mode puts an empty one between sections. */
  function GeneratedLines(data: Structure, pretty: bool): seq<string>
    decreases |data|
  {
    if data == [] then []
    else
      SectionLines(data[0].0, data[0].1, pretty)
      + (if |data| > 1 && pretty then [""] else []) + GeneratedLines(data[1..], pretty)
  }

  /** The inner loop: what is printed of a collection behind its section line. */
  method GenerateKeys(collection: Section, pretty: bool, endl: string) returns (text: string)
    requires collection != []
    ensures text == Join(KeyLines(collection, pretty), endl)
  {
    hide KeyLine;
    text := "";
    var i := 0;
    assert collection[0..] == collection;
    while true
      invariant 0 <= i < |collection|
      invariant text + Join(KeyLines(collection[i..], pretty), endl) == Join(KeyLines(collection, pretty), endl)
      decreases |collection| - i
    {
      assert collection[i..][1..] == collection[i + 1..];
      var (key, value) := collection[i];
      ghost var rest := KeyLines(collection[i + 1..], pretty);
      assert ([KeyLine(key, value, pretty)] + rest)[1..] == rest;
      text := text + KeyLine(key, value, pretty);
      i := i + 1;
      if i == |collection| {
        break;
      }
      text := text + endl;
    }
  }

  lemma JoinGenerated(data: Structure, pretty: bool, endl: string)
    requires data != []
    ensures var own := Join(SectionLines(data[0].0, data[0].1, pretty), endl);
      Join(GeneratedLines(data, pretty), endl)
      == if |data| == 1 then own
         else own + endl + (if pretty then endl else "") + Join(GeneratedLines(data[1..], pretty), endl)
  {
    hide SectionLines, Join;
    var own := SectionLines(data[0].0, data[0].1, pretty);
    SectionLinesNonEmpty(data[0].0, data[0].1, pretty);
    if |data| == 1 {
      assert own + [] + [] == own;
    } else {
      var rest := GeneratedLines(data[1..], pretty);
      GeneratedNonEmpty(data[1..], pretty);
      if pretty {
        JoinSpaced(own, rest, endl);
      } else {
        assert own + [] == own;
        JoinConcat(own, rest, endl);
        Unspaced(Join(own, endl), Join(rest, endl), endl);
      }
    }
  }

  lemma Unspaced(a: string, b: string, endl: string)
    ensures a + endl + "" + b == a + endl + b
  {
    assert a + endl + "" == a + endl;
  }

  lemma JoinSpaced(a: seq<string>, b: seq<string>, endl: string)
    requires a != [] && b != []
    ensures Join(a + [""] + b, endl) == Join(a, endl) + endl + endl + Join(b, endl)
  {
    hide Join;
    assert a + [""] + b == a + ([""] + b);
    JoinConcat(a, [""] + b, endl);
    JoinAfterEmpty(b, endl);
    Regroup(Join(a, endl) + endl, endl, Join(b, endl));
  }

  lemma JoinAfterEmpty(b: seq<string>, endl: string)
    requires b != []
    ensures Join([""] + b, endl) == endl + Join(b, endl)
  {
    assert ([""] + b)[1..] == b;
  }

  lemma NothingGenerated(pretty: bool, endl: string)
    ensures Join(GeneratedLines([], pretty), endl) == ""
  {
  }

  lemma SectionLinesNonEmpty(name: string, es: Section, pretty: bool)
    ensures SectionLines(name, es, pretty) != []
  {
  }

  lemma GeneratedNonEmpty(data: Structure, pretty: bool)
    requires data != []
    ensures GeneratedLines(data, pretty) != []
  {
    SectionLinesNonEmpty(data[0].0, data[0].1, pretty);
  }

  /** `operator<<`, as the text it puts into the file. */
  method Generate(data: Structure, prettyPrint: bool, endl: string) returns (text: string)
    ensures text == Join(GeneratedLines(data, prettyPrint), endl)
  {
    hide KeyLines, SectionLine, SectionLines, GeneratedLines, Join;
    text := "";
    if |data| == 0 {
      NothingGenerated(prettyPrint, endl);
      return;
    }
    var i := 0;
    assert data[0..] == data;
    while true
      invariant 0 <= i < |data|
      invariant text + Join(GeneratedLines(data[i..], prettyPrint), endl)
        == Join(GeneratedLines(data, prettyPrint), endl)
      decreases |data| - i
    {
      ghost var start := text;
      assert data[i..][0] == data[i] && data[i..][1..] == data[i + 1..];
      JoinGenerated(data[i..], prettyPrint, endl);
      var (section, collection) := data[i];
      text := text + SectionLine(section);
      if |collection| > 0 {
        text := text + endl;
        var keys := GenerateKeys(collection, prettyPrint, endl);
        Regroup3(start, SectionLine(section), endl, keys);
        text := text + keys;
      }
      JoinSection(section, collection, prettyPrint, endl);
      ghost var own := Join(SectionLines(section, collection, prettyPrint), endl);
      assert text == start + own;
      i := i + 1;
      if i == |data| {
        break;
      }
      Regroup3(start, own, endl, if prettyPrint then endl else "");
      Regroup(start, own + endl + (if prettyPrint then endl else ""),
              Join(GeneratedLines(data[i..], prettyPrint), endl));
      text := text + endl;
      if prettyPrint {
        text := text + endl;
      }
    }
  }

  lemma JoinSection(name: string, es: Section, pretty: bool, endl: string)
    ensures Join(SectionLines(name, es, pretty), endl)
      == if es == [] then SectionLine(name) else SectionLine(name) + endl + Join(KeyLines(es, pretty), endl)
  {
    hide KeyLine, SectionLine;
    if es == [] {
      assert [SectionLine(name)] + [] == [SectionLine(name)];
    } else {
      JoinConcat([SectionLine(name)], KeyLines(es, pretty), endl);
    }
  }
}
