/**
  What mINI prints, character by character: the text of a generated file, the lines of a new section, and the empty
  lines of pretty mode.
 */
module IniPrinted {
  import opened Lines
  import opened IniText
  import opened IniParser
  import opened IniLines
  import opened IniGrammar
  import opened IniReader
  import opened IniWriter
  import opened IniGenerator

  /** A key with its delimiters escaped, the delimiter, and the value without the blanks around it. */
  lemma KeyLineIs(key: string, value: string)
    ensures KeyLine(key, value, false) == Backslashed(key) + "=" + Trim(value)
    ensures KeyLine(key, value, true) == Backslashed(key) + " = " + Trim(value)
  {
    hide Trim, Escape, Backslashed;
    EscapeIs(key);
  }

  // ---------------------------------------------------------------- a generated file

  /** Every key on a line of its own behind the section. */
  function KeysText(es: Section, pretty: bool, endl: string): string
    decreases |es|
  {
    if es == [] then ""
    else
      var (key, value) := es[0];
      endl + Backslashed(key) + (if pretty then " = " else "=") + Trim(value) + KeysText(es[1..], pretty, endl)
  }

  /** The sections; pretty mode leaves a line empty between two of them. */
  function FileText(data: Structure, pretty: bool, endl: string): string
    decreases |data|
  {
    if data == [] then ""
    else
      var (name, es) := data[0];
      "[" + name + "]" + KeysText(es, pretty, endl)
      + (if |data| == 1 then "" else if pretty then endl + endl else endl) + FileText(data[1..], pretty, endl)
  }

  lemma {:induction false} KeysAreText(es: Section, pretty: bool, endl: string)
    ensures KeysText(es, pretty, endl) == if es == [] then "" else endl + Join(KeyLines(es, pretty), endl)
    decreases |es|
  {
    hide Trim, Backslashed, KeyLine;
    if es != [] {
      KeyLineIs(es[0].0, es[0].1);
      KeysAreText(es[1..], pretty, endl);
      var line, rest := KeyLine(es[0].0, es[0].1, pretty), KeyLines(es[1..], pretty);
      assert ([line] + rest)[1..] == rest;
    }
  }

  lemma SectionIsText(name: string, es: Section, pretty: bool, endl: string)
    ensures Join(SectionLines(name, es, pretty), endl) == "[" + name + "]" + KeysText(es, pretty, endl)
  {
    hide KeyLines, KeysText, Join, SectionLines;
    JoinSection(name, es, pretty, endl);
    KeysAreText(es, pretty, endl);
    Regroup("[" + name + "]", endl, Join(KeyLines(es, pretty), endl));
    assert "[" + name + "]" + "" == "[" + name + "]";
  }

  lemma FileTextStep(data: Structure, pretty: bool, endl: string, own: string)
    requires data != [] && own == "[" + data[0].0 + "]" + KeysText(data[0].1, pretty, endl)
    ensures FileText(data, pretty, endl)
      == if |data| == 1 then own
         else own + endl + (if pretty then endl else "") + FileText(data[1..], pretty, endl)
  {
    hide KeysText;
    if |data| == 1 {
      assert FileText(data[1..], pretty, endl) == "" && own + "" + "" == own;
    } else {
      Regroup(own, endl, if pretty then endl else "");
      assert endl + "" == endl;
    }
  }

  /** The generator prints that text. */
  lemma {:induction false} GeneratedText(data: Structure, pretty: bool, endl: string)
    ensures Join(GeneratedLines(data, pretty), endl) == FileText(data, pretty, endl)
    decreases |data|
  {
    hide *;
    if data == [] {
      NothingGenerated(pretty, endl);
      NoText(pretty, endl);
    } else {
      JoinGenerated(data, pretty, endl);
      SectionIsText(data[0].0, data[0].1, pretty, endl);
      FileTextStep(data, pretty, endl, Join(SectionLines(data[0].0, data[0].1, pretty), endl));
      GeneratedText(data[1..], pretty, endl);
    }
  }

  lemma NoText(pretty: bool, endl: string)
    ensures FileText([], pretty, endl) == ""
  {
  }

  // ---------------------------------------------------------------- a new section in a lazy write

  function KeyTexts(es: Section, pretty: bool): seq<string>
    decreases |es|
  {
    if es == [] then []
    else
      [Backslashed(es[0].0) + (if pretty then " = " else "=") + Trim(es[0].1)] + KeyTexts(es[1..], pretty)
  }

  lemma {:induction false} NewKeysAre(es: Section, pretty: bool)
    ensures NewKeyLines(es, [], pretty) == KeyTexts(es, pretty)
    decreases |es|
  {
    hide Trim, Backslashed, KeyLine, Norm;
    if es != [] {
      KeyLineIs(es[0].0, es[0].1);
      NewKeysAre(es[1..], pretty);
    }
  }

  /**
    A new section goes to the end with all its keys. Pretty mode sets it off with an empty line, unless there is one
    already, or nothing at all.
   */
  lemma AppendedSection(output: seq<string>, name: string, es: Section)
    ensures AppendSection(output, name, es, false) == output + ["[" + name + "]"] + KeyTexts(es, false)
    ensures AppendSection([], name, es, true) == ["[" + name + "]"] + KeyTexts(es, true)
    ensures AppendSection(output + [""], name, es, true) == output + ["", "[" + name + "]"] + KeyTexts(es, true)
    ensures output != [] && output[|output| - 1] != "" ==>
      AppendSection(output, name, es, true) == output + ["", "[" + name + "]"] + KeyTexts(es, true)
  {
    hide NewKeyLines, KeyTexts;
    NewKeysAre(es, false);
    NewKeysAre(es, true);
    assert output + [""] + ["[" + name + "]"] == output + ["", "[" + name + "]"];
  }
}
