/**
  The lines that mINI prints, and exactly when `parseLine` reads them back as what was meant.
 */
module IniLines {
  import opened IniText
  import opened IniParser

  // ---------------------------------------------------------------- entries, by their delimiter

  lemma EntryAt(s: string, k: nat)
    requires FirstBare(s, k)
    ensures ParseEntry(s) == KeyValue(Unescape(Trim(s[..k])), Trim(s[k + 1..]))
  {
    hide Unescape, Trim, LineNorm;
    DelimiterIsFirstBare(s);
    NormKeepsLength(s);
    assert Find(LineNorm(s), '=') == k;
  }

  /** An entry comes from its first bare delimiter. */
  lemma EntryDelimiter(s: string) returns (k: nat)
    requires ParseEntry(s).KeyValue?
    ensures FirstBare(s, k)
    ensures ParseEntry(s) == KeyValue(Unescape(Trim(s[..k])), Trim(s[k + 1..]))
  {
    hide Unescape, Trim, LineNorm, Bare;
    k := Find(LineNorm(s), '=');
    DelimiterIsFirstBare(s);
    NormKeepsLength(s);
  }

  /** Trimming brings no characters in. */
  lemma TrimKeepsChars(s: string, c: char)
    ensures c in Trim(s) ==> c in s
  {
    hide Trim;
    var before, after := TrimParts(s);
  }

  // ---------------------------------------------------------------- section lines

  function SectionLine(name: string): string {
    "[" + name + "]"
  }

  lemma OpenPart(text: string)
    requires Trimmed(text) && text != "" && text[0] == '['
    ensures var open := text[..Find(text, ';')];
      && open != "" && open[0] == '[' && ';' !in open && (';' !in text ==> open == text)
      && ParseLine(text) == if FindLast(open, ']') >= 1 then Section(Trim(open[1..FindLast(open, ']')]))
          else ParseEntry(open)
  {
    hide Trim, ParseEntry;
    TrimmedStays(text);
    if ';' !in text {
      FindUnique(text, ';', |text|);
      assert text[..|text|] == text;
    }
  }

  /** A section line is read back as its section exactly when the name has no semicolon. */
  lemma SectionLineReads(name: string)
    requires Trimmed(name)
    ensures ParseLine(SectionLine(name)) == Section(name) <==> ';' !in name
  {
    hide Trim, ParseEntry;
    var line := SectionLine(name);
    OpenPart(line);
    var open := line[..Find(line, ';')];
    if ';' !in name {
      assert ';' !in line;
      assert line[|line| - 1] == ']';
      assert line[1..|line| - 1] == name;
      TrimmedStays(name);
    } else {
      var c :| 0 <= c < |name| && name[c] == ';';
      assert line[c + 1] == ';';
      assert ';' in line;
      assert |open| < |line| - 1;
      EntryIsNoSection(open);
    }
  }

  /** The section read from the line of a name with a semicolon is not stored under that name. */
  lemma SectionLineFails(name: string)
    requires ';' in name
    ensures ParseLine(SectionLine(name)).Section? ==> Norm(ParseLine(SectionLine(name)).name) != name
  {
    hide Trim, ParseEntry;
    var line := SectionLine(name);
    OpenPart(line);
    var open := line[..Find(line, ';')];
    if FindLast(open, ']') >= 1 {
      var inner := open[1..FindLast(open, ']')];
      TrimKeepsChars(inner, ';');
      NormAddsNoMark(Trim(inner), ';');
    } else {
      EntryIsNoSection(open);
    }
  }

  lemma NormAddsNoMark(s: string, c: char)
    requires !('a' <= c <= 'z')
    ensures c in Norm(s) ==> c in s
  {
    hide Trim;
    TrimKeepsChars(s, c);
  }

  lemma EntryIsNoSection(s: string)
    ensures !ParseEntry(s).Section? && !ParseEntry(s).Comment? && !ParseEntry(s).BlankLine?
  {
  }

  // ---------------------------------------------------------------- key lines

  /** `key + ((prettyPrint) ? " = " : "=") + value`, with the key escaped and the value trimmed. */
  function KeyLine(key: string, value: string, pretty: bool): string {
    Escape(key) + (if pretty then " = " else "=") + Trim(value)
  }

  predicate Starts(s: string, c: char) {
    s != "" && s[0] == c
  }

  predicate Ends(s: string, c: char) {
    s != "" && s[|s| - 1] == c
  }

  /** No character that a section line gives a meaning to. */
  predicate NoSectionMarks(s: string) {
    ';' !in s && ']' !in s
  }

  /** What a caller can check before writing `key` with `value`. */
  predicate Readable(key: string, value: string, pretty: bool) {
    && !Starts(key, ';')
    && (Starts(key, '[') ==> NoSectionMarks(key) && NoSectionMarks(Trim(value)))
    && (!pretty ==> !Ends(key, '\\'))
  }

  lemma {:induction false} EscapeKeepsMarks(key: string, c: char)
    requires c != '\\' && c != '='
    ensures c in Escape(key) <==> c in key
  {
    if key != "" {
      assert key == [key[0]] + key[1..];
      EscapeCons(key[0], key[1..]);
      EscapeKeepsMarks(key[1..], c);
    }
  }

  /** An entry printed as `p`, the delimiter and `q`, without blanks around the whole. */
  ghost predicate Printed(text: string, p: string, q: string) {
    text == p + "=" + q && Trimmed(text) && NoBare(p)
  }

  lemma NoBareBefore(s: string, c: char)
    requires NoBare(s) && c != '='
    ensures NoBare(s + [c])
  {
    forall i | 0 <= i < |s + [c]| ensures !Bare(s + [c], i) {
      if i < |s| {
        assert !Bare(s, i);
      }
    }
  }

  /** The delimiter between two parts that have no blanks at the outer ends. */
  lemma TrimmedAround(p: string, q: string)
    requires p == "" || !IsBlank(p[0])
    requires q == "" || !IsBlank(q[|q| - 1])
    ensures Trimmed(p + "=" + q)
  {
  }

  lemma PrintedKeyLine(key: string, value: string, pretty: bool) returns (p: string, q: string)
    requires Trimmed(key)
    ensures Printed(Trim(KeyLine(key, value, pretty)), p, q)
    ensures p == if pretty && key != "" then Escape(key) + " " else Escape(key)
    ensures q == if pretty && Trim(value) != "" then " " + Trim(value) else Trim(value)
  {
    hide Trim, Escape;
    var e, v := Escape(key), Trim(value);
    EscapedKey(key);
    NoBareBefore(e, ' ');
    p := if pretty && key != "" then e + " " else e;
    q := if pretty && v != "" then " " + v else v;
    var before, after := if pretty && key == "" then " " else "", if pretty && v == "" then " " else "";
    assert KeyLine(key, value, pretty) == before + (p + "=" + q) + after;
    TrimmedAround(p, q);
    TrimBetween(before, p + "=" + q, after);
  }

  lemma TrimKeepsMark(s: string, c: char)
    requires !IsBlank(c)
    ensures c in Trim(s) <==> c in s
  {
    hide Trim;
    var before, after := TrimParts(s);
  }

  lemma PrintedDelimiter(p: string, q: string)
    requires NoBare(p) && !Ends(p, '\\')
    ensures FirstBare(p + "=" + q, |p|)
  {
    var text := p + "=" + q;
    forall i | 0 <= i < |p| ensures !Bare(text, i) {
      assert !Bare(p, i);
    }
  }

  lemma PrintedReads(text: string, p: string, q: string)
    requires Printed(text, p, q)
    requires !Starts(p, ';') && !Ends(p, '\\') && (Starts(p, '[') ==> NoSectionMarks(p) && NoSectionMarks(q))
    ensures ParseLine(text) == KeyValue(Unescape(Trim(p)), Trim(q))
  {
    hide Trim, Unescape, ParseEntry;
    PrintedDelimiter(p, q);
    EntryAt(text, |p|);
    assert text[..|p|] == p && text[|p| + 1..] == q;
    TrimmedStays(text);
    if Starts(p, '[') {
      OpenPart(text);
    }
  }

  /** In a beginning of a printed text a bare delimiter is not before the printed one, nor that one if it is escaped. */
  lemma BareInPrinted(open: string, p: string, q: string, k: nat)
    requires open <= p + "=" + q && NoBare(p) && Bare(open, k)
    ensures |p| <= k < |open| && (Ends(p, '\\') ==> |p| < k)
  {
    var text := p + "=" + q;
    forall i | 0 <= i < |p| && i < |open| ensures !Bare(open, i) {
      assert !Bare(p, i);
      assert open[i] == text[i] == p[i];
      assert i > 0 ==> open[i - 1] == text[i - 1] == p[i - 1];
    }
    assert |p| > 0 && |p| < |open| ==> open[|p| - 1] == text[|p| - 1] == p[|p| - 1];
  }

  lemma InPrinted(p: string, q: string, c: char)
    requires c != '='
    ensures c in p + "=" + q <==> c in p || c in q
  {
    var text := p + "=" + q;
    if c in p {
      var i :| 0 <= i < |p| && p[i] == c;
      assert text[i] == c;
    }
    if c in q {
      var i :| 0 <= i < |q| && q[i] == c;
      assert text[|p| + 1 + i] == c;
    }
  }

  lemma MarkShows(text: string, p: string, q: string)
    requires text == p + "=" + q && Starts(p, '[') && !(NoSectionMarks(p) && NoSectionMarks(q))
    ensures ';' in text || FindLast(text, ']') >= 1
  {
    InPrinted(p, q, ']');
    InPrinted(p, q, ';');
    if ']' in text {
      var j :| 0 <= j < |text| && text[j] == ']';
    }
  }

  /** A bracket in front and a mark behind: the text is a section, or it loses its end. */
  lemma MarkedFails(text: string, p: string, q: string)
    requires Printed(text, p, q) && Starts(p, '[') && !(NoSectionMarks(p) && NoSectionMarks(q))
    ensures ParseLine(text).KeyValue? ==> ';' in q && ';' !in ParseLine(text).value
  {
    hide Trim, Unescape, ParseEntry;
    OpenPart(text);
    var open := text[..Find(text, ';')];
    if FindLast(open, ']') < 1 && ParseEntry(open).KeyValue? {
      var k := EntryDelimiter(open);
      BareInPrinted(open, p, q, k);
      MarkShows(text, p, q);
      var c := Find(text, ';');
      assert text[c] == ';' && c == |open| > |p|;
      assert q[c - |p| - 1] == ';';
      TrimKeepsMark(open[k + 1..], ';');
    }
  }

  /** A backslash in front of the delimiter hides it, and the value read is too short. */
  lemma SwallowedFails(text: string, p: string, q: string, key: string)
    requires Printed(text, p, q) && Ends(p, '\\') && Trimmed(q)
    ensures ParseLine(text) != KeyValue(key, q)
  {
    hide Trim, Unescape, ParseEntry;
    TrimmedStays(text);
    var open := if Starts(text, '[') then text[..Find(text, ';')] else text;
    if Starts(text, '[') {
      OpenPart(text);
    }
    if ParseEntry(open).KeyValue? {
      var k := EntryDelimiter(open);
      BareInPrinted(open, p, q, k);
    }
  }

  /**
    A printed key line is read back as its key and trimmed value exactly when it is readable: the key does
    not begin like a comment, a bracket in front meets no section mark, and in plain mode no backslash ends it.
   */
  lemma KeyLineReads(key: string, value: string, pretty: bool)
    requires Trimmed(key)
    ensures ParseLine(KeyLine(key, value, pretty)) == KeyValue(key, Trim(value)) <==> Readable(key, value, pretty)
  {
    hide Trim, Unescape, ParseEntry, Escape, KeyLine;
    var text := Trim(KeyLine(key, value, pretty));
    TrimmedStays(text);
    assert ParseLine(KeyLine(key, value, pretty)) == ParseLine(text);
    var p, q := KeyLineShape(key, value, pretty);
    if Readable(key, value, pretty) {
      PrintedReads(text, p, q);
      UnescapeEscape(key);
    } else {
      KeyLineFails(key, value, pretty);
    }
  }

  /** A key line that is not readable is never read back with its value, whatever the key. */
  lemma KeyLineFails(key: string, value: string, pretty: bool)
    requires Trimmed(key) && !Readable(key, value, pretty)
    ensures ParseLine(KeyLine(key, value, pretty)).KeyValue? ==>
      ParseLine(KeyLine(key, value, pretty)).value != Trim(value)
  {
    hide Trim, Unescape, ParseEntry, Escape, KeyLine;
    var text := Trim(KeyLine(key, value, pretty));
    TrimmedStays(text);
    assert ParseLine(KeyLine(key, value, pretty)) == ParseLine(text);
    var p, q := KeyLineShape(key, value, pretty);
    if Starts(key, ';') {
      assert text[0] == ';';
    } else if Starts(key, '[') && !(NoSectionMarks(key) && NoSectionMarks(Trim(value))) {
      MarkedFails(text, p, q);
      TrimKeepsMark(q, ';');
    } else if ParseLine(text).KeyValue? {
      SwallowedFails(text, p, q, ParseLine(text).key);
    }
  }

  lemma KeyLineShape(key: string, value: string, pretty: bool) returns (p: string, q: string)
    requires Trimmed(key)
    ensures Printed(Trim(KeyLine(key, value, pretty)), p, q)
    ensures Trim(p) == Escape(key) && Trim(q) == Trim(value)
    ensures (Starts(p, '[') <==> Starts(key, '[')) && (Starts(p, ';') <==> Starts(key, ';'))
    ensures (NoSectionMarks(p) <==> NoSectionMarks(key)) && (NoSectionMarks(q) <==> NoSectionMarks(Trim(value)))
    ensures Ends(p, '\\') <==> !pretty && Ends(key, '\\')
    ensures !pretty ==> q == Trim(value)
  {
    hide Trim, Escape, KeyLine, NoBare;
    p, q := PrintedKeyLine(key, value, pretty);
    EscapedKey(key);
    EscapeKeepsMarks(key, ';');
    EscapeKeepsMarks(key, ']');
    EscapedTrimmed(key);
    PaddedTrims(Escape(key), Trim(value));
  }

  lemma PaddedTrims(e: string, v: string)
    requires Trimmed(e) && Trimmed(v)
    ensures Trim(e) == e && Trim(e + " ") == e && Trim(v) == v && Trim(" " + v) == v
  {
    hide Trim;
    TrimmedStays(e);
    TrimmedStays(v);
    TrimBetween("", e, " ");
    TrimBetween(" ", v, "");
    assert "" + e + " " == e + " " && " " + v + "" == " " + v;
  }

  lemma EscapedTrimmed(key: string)
    requires Trimmed(key)
    ensures Trimmed(Escape(key))
  {
    hide Escape;
    EscapedKey(key);
  }
}
