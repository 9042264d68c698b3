/**
  The lines of an INI file as a grammar, apart from the searches with which `parseLine` takes them to pieces; and the
  escapes and the lines that are printed, character by character.
 */
module IniGrammar {
  import opened IniText
  import opened IniParser
  import opened IniLines

  // ---------------------------------------------------------------- escapes

  /** A backslash in front of every delimiter. */
  function Backslashed(key: string): string {
    if key == "" then "" else (if key[0] == '=' then "\\=" else [key[0]]) + Backslashed(key[1..])
  }

  /** Without the backslashes that stand in front of a delimiter. */
  function Unbackslashed(s: string): string {
    if s == "" then ""
    else if s[0] == '\\' && |s| > 1 && s[1] == '=' then "=" + Unbackslashed(s[2..])
    else [s[0]] + Unbackslashed(s[1..])
  }

  lemma {:induction false} EscapeIs(key: string)
    ensures Escape(key) == Backslashed(key)
  {
    if key != "" {
      EscapeCons(key[0], key[1..]);
      EscapeIs(key[1..]);
      assert [key[0]] + key[1..] == key;
    }
  }

  lemma {:induction false} UnescapeIs(s: string)
    ensures Unescape(s) == Unbackslashed(s)
  {
    hide Unescape;
    if s == "" {
      UnescapeNothing();
    } else if s[0] == '\\' && |s| > 1 && s[1] == '=' {
      assert s == "\\=" + s[2..];
      UnescapeHere(s[2..]);
      UnescapeIs(s[2..]);
    } else {
      assert s == [s[0]] + s[1..];
      UnescapeSkips(s[0], s[1..]);
      UnescapeIs(s[1..]);
    }
  }

  lemma UnescapeNothing()
    ensures Unescape("") == ""
  {
  }

  // ---------------------------------------------------------------- the grammar

  /** `[inner]`, and no other closing bracket behind it, except in a comment. */
  ghost predicate SectionText(text: string, inner: string, rest: string) {
    && text == "[" + inner + "]" + rest && ';' !in inner
    && forall k :: 0 <= k < |rest| && rest[k] == ']' ==> ';' in rest[..k]
  }

  /**
    `p=q`, where the delimiter is the first one that no backslash escapes. Behind a bracket there may be a comment, and
    no closing bracket in front of it.
   */
  ghost predicate EntryText(text: string, p: string, q: string, rest: string) {
    && text == p + "=" + q + rest && NoBare(p) && !Ends(p, '\\') && !Starts(text, ';')
    && if Starts(text, '[') then ';' !in p + "=" + q && ']' !in p + "=" + q && (rest == "" || rest[0] == ';')
       else rest == ""
  }

  /** What a line without the white space around it is. */
  ghost predicate Is(text: string, parsed: Parsed) {
    match parsed
    case BlankLine => text == ""
    case Comment => Starts(text, ';')
    case Section(name) => exists inner, rest :: SectionText(text, inner, rest) && name == Trim(inner)
    case KeyValue(key, value) =>
      exists p, q, rest :: EntryText(text, p, q, rest) && key == Unbackslashed(Trim(p)) && value == Trim(q)
    case Unknown =>
      && text != "" && !Starts(text, ';') && (forall inner, rest :: !SectionText(text, inner, rest))
      && forall p, q, rest :: !EntryText(text, p, q, rest)
  }

  /** `parseLine` finds what the line is by the grammar; so every line is one thing only. */
  lemma ParseLineIff(line: string, parsed: Parsed)
    ensures ParseLine(line) == parsed <==> Is(Trim(line), parsed)
  {
    hide Trim, ParseEntry, SectionText, EntryText, Starts;
    var text := Trim(line);
    TrimmedStays(text);
    IsParsed(text);
    if Is(text, parsed) {
      match parsed
      case BlankLine =>
      case Comment => CommentParses(text);
      case Section(name) =>
        var inner, rest :| SectionText(text, inner, rest) && name == Trim(inner);
        SectionParses(text, inner, rest);
      case KeyValue(key, value) =>
        var p, q, rest :| EntryText(text, p, q, rest) && key == Unbackslashed(Trim(p)) && value == Trim(q);
        EntryParses(text, p, q, rest);
      case Unknown => UnknownParses(text);
    }
  }

  lemma CommentParses(text: string)
    requires Trimmed(text) && Starts(text, ';')
    ensures ParseLine(text) == Comment
  {
    hide Trim;
    TrimmedStays(text);
  }

  lemma SectionParses(text: string, inner: string, rest: string)
    requires Trimmed(text) && SectionText(text, inner, rest)
    ensures ParseLine(text) == Section(Trim(inner))
  {
    hide Trim, ParseEntry;
    OpenPart(text);
    var open, c := text[..Find(text, ';')], |inner| + 1;
    assert text[c] == ']' && text[1..c] == inner;
    forall k | 0 <= k <= c ensures text[k] != ';' {
      assert 0 < k < c ==> text[k] == inner[k - 1];
    }
    assert c < |open|;
    forall k | c < k < |open| ensures open[k] != ']' {
      var front := rest[..k - c - 1];
      assert open[k] == rest[k - c - 1];
      assert forall m :: 0 <= m < |front| ==> front[m] == open[c + 1 + m];
    }
    assert FindLast(open, ']') == c && open[1..c] == inner;
  }

  lemma EntryParses(text: string, p: string, q: string, rest: string)
    requires Trimmed(text) && EntryText(text, p, q, rest)
    ensures ParseLine(text) == KeyValue(Unbackslashed(Trim(p)), Trim(q))
  {
    hide Trim, ParseEntry, Unescape;
    TrimmedStays(text);
    var open := p + "=" + q;
    PrintedDelimiter(p, q);
    EntryAt(open, |p|);
    assert open[..|p|] == p && open[|p| + 1..] == q;
    UnescapeIs(Trim(p));
    if Starts(text, '[') {
      OpenPart(text);
      forall k | 0 <= k < |open| ensures text[k] == open[k] != ';' {
      }
      assert rest != "" ==> text[|open|] == ';';
      assert Find(text, ';') == |open|;
      assert text[..|open|] == open;
    } else {
      assert text == open;
    }
  }

  lemma UnknownParses(text: string)
    requires Trimmed(text) && Is(text, Unknown)
    ensures ParseLine(text) == Unknown
  {
    hide Trim, ParseEntry;
    IsParsed(text);
    TrimmedStays(text);
  }

  /** What `parseLine` finds is right. */
  lemma IsParsed(text: string)
    requires Trimmed(text)
    ensures Is(text, ParseLine(text))
  {
    hide Trim, ParseEntry, NoBare, EntryText, SectionText;
    TrimmedStays(text);
    if text != "" && text[0] == '[' {
      BracketIs(text);
    } else if text != "" && text[0] != ';' {
      forall inner, rest ensures !SectionText(text, inner, rest) {
        if SectionText(text, inner, rest) {
          SectionShows(text, inner, rest);
        }
      }
      assert text == text + "";
      EntryIs(text, text, "");
    }
  }

  /** A section has its closing bracket in front of the comment. */
  lemma SectionShows(text: string, inner: string, rest: string)
    requires SectionText(text, inner, rest)
    ensures Starts(text, '[') && FindLast(text[..Find(text, ';')], ']') >= 1
  {
    var open, c := text[..Find(text, ';')], |inner| + 1;
    assert text[c] == ']';
    forall k | 0 <= k <= c ensures text[k] != ';' {
      assert 0 < k < c ==> text[k] == inner[k - 1];
    }
    assert open[c] == ']';
  }

  lemma BracketIs(text: string)
    requires Trimmed(text) && text != "" && text[0] == '['
    ensures Is(text, ParseLine(text))
  {
    hide Trim, ParseEntry, NoBare, EntryText, SectionText;
    OpenPart(text);
    var c := Find(text, ';');
    var open := text[..c];
    var close := FindLast(open, ']');
    if close >= 1 {
      SectionIs(text, c, close);
      assert open[1..close] == text[1..close];
    } else {
      forall inner, rest ensures !SectionText(text, inner, rest) {
        if SectionText(text, inner, rest) {
          SectionShows(text, inner, rest);
        }
      }
      assert text == open + text[c..];
      EntryIs(text, open, text[c..]);
    }
  }

  lemma SectionIs(text: string, c: nat, close: nat)
    requires 1 <= close < c <= |text| && text[0] == '[' && text[close] == ']' && (c < |text| ==> text[c] == ';')
    requires ';' !in text[..c] && forall k :: close < k < c ==> text[k] != ']'
    ensures SectionText(text, text[1..close], text[close + 1..])
  {
    var inner, rest := text[1..close], text[close + 1..];
    assert text == "[" + inner + "]" + rest;
    assert forall k :: 0 <= k < |inner| ==> inner[k] == text[..c][k + 1];
    forall k | 0 <= k < |rest| && rest[k] == ']' ensures ';' in rest[..k] {
      assert rest[..k][c - close - 1] == ';';
    }
  }

  lemma EntryIs(text: string, open: string, rest: string)
    requires Trimmed(text) && text == open + rest && open != "" && text[0] != ';' && ParseLine(text) == ParseEntry(open)
    requires forall inner, rest :: !SectionText(text, inner, rest)
    requires if text[0] == '[' then ';' !in open && ']' !in open && (rest == "" || rest[0] == ';') else rest == ""
    ensures Is(text, ParseLine(text))
  {
    hide Trim, ParseEntry, Unescape, SectionText;
    if ParseEntry(open).KeyValue? {
      var k := EntryDelimiter(open);
      var p, q := open[..k], open[k + 1..];
      assert open == p + "=" + q;
      EntryTextIs(text, p, q, rest);
      UnescapeIs(Trim(p));
    } else {
      EntryOnly(open);
      forall p, q, r ensures !EntryText(text, p, q, r) {
        if EntryText(text, p, q, r) {
          EntryParses(text, p, q, r);
        }
      }
    }
  }

  lemma EntryOnly(open: string)
    ensures ParseEntry(open).KeyValue? || ParseEntry(open).Unknown?
  {
  }

  lemma EntryTextIs(text: string, p: string, q: string, rest: string)
    requires text == p + "=" + q + rest && FirstBare(p + "=" + q, |p|) && text[0] != ';'
    requires if text[0] == '[' then ';' !in p + "=" + q && ']' !in p + "=" + q && (rest == "" || rest[0] == ';')
             else rest == ""
    ensures EntryText(text, p, q, rest)
  {
    var open := p + "=" + q;
    forall i | 0 <= i < |p| ensures !Bare(p, i) {
      assert !Bare(open, i);
    }
    assert p != "" ==> open[|p| - 1] == p[|p| - 1];
  }
}
