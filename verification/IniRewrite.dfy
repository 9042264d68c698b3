/**
  The line that the lazy writer prints in place of a changed entry, and exactly when it is read back.
 */
module IniRewrite {
  import opened IniText
  import opened IniParser
  import opened IniLines

  predicate HasDelimiter(line: string) {
    Find(LineNorm(line), '=') < |line|
  }

  /** Everything up to the old value, then the new one; pretty mode puts a blank where there was none. */
  function RewriteLine(line: string, value: string, pretty: bool): string
    requires HasDelimiter(line)
  {
    NormKeepsLength(line);
    var lineNorm := LineNorm(line);
    var equalsAt := Find(lineNorm, '=');
    var valueAt := FindNonBlank(lineNorm, equalsAt + 1);
    line[..valueAt] + (if pretty && equalsAt + 1 == valueAt && valueAt < |line| then " " else "") + Trim(value)
  }

  /** The old value as the reader sees it: in a line that begins with a bracket it ends at a semicolon. */
  function OldValue(p: string, tail: string): string {
    Trim(if Starts(p, '[') then tail[..Find(tail, ';')] else tail)
  }

  /** `line` is an entry of `key`: blanks, what stands before the delimiter, and the rest. */
  ghost predicate EntryLine(line: string, before: string, p: string, tail: string, key: string) {
    && line == before + p + "=" + tail && AllBlank(before)
    && (p == "" || !IsBlank(p[0])) && NoBare(p) && !Ends(p, '\\')
    && !Starts(p, ';') && (Starts(p, '[') ==> NoSectionMarks(p))
    && Unescape(Trim(p)) == key
  }

  /** Every line read as an entry has that shape. */
  lemma EntryShape(line: string) returns (before: string, p: string, tail: string)
    requires ParseLine(line).KeyValue?
    ensures EntryLine(line, before, p, tail, ParseLine(line).key)
    ensures OldValue(p, tail) == ParseLine(line).value
  {
    hide Trim, Unescape, ParseEntry, IsBlank, Find, FindLast, NoBare;
    var after;
    before, after := TrimParts(line);
    var text := Trim(line);
    TrimmedStays(text);
    var open := if text[0] == '[' then text[..Find(text, ';')] else text;
    if text[0] == '[' {
      OpenPart(text);
    }
    var k := EntryDelimiter(open);
    p, tail := open[..k], text[k + 1..] + after;
    assert text == p + "=" + text[k + 1..];
    BeforeFirstBare(open, k);
    EntryValue(text, k, after);
  }

  lemma BeforeFirstBare(s: string, k: nat)
    requires FirstBare(s, k)
    ensures k < |s| && s[k] == '=' && NoBare(s[..k]) && !Ends(s[..k], '\\')
  {
    forall i | 0 <= i < k ensures !Bare(s[..k], i) {
      assert !Bare(s, i);
    }
  }

  lemma EntryValue(text: string, k: nat, after: string)
    requires k < |text| && text != "" && AllBlank(after)
    requires text[0] == '[' ==> k < Find(text, ';')
    ensures var tail, open := text[k + 1..] + after, if text[0] == '[' then text[..Find(text, ';')] else text;
      Trim(open[k + 1..]) == Trim(if text[0] == '[' then tail[..Find(tail, ';')] else tail)
  {
    hide Trim;
    var q, c := text[k + 1..], Find(text, ';');
    var tail := q + after;
    if text[0] != '[' || c == |text| {
      TrimIgnoresAfter(q, after);
      if text[0] == '[' {
        assert text[..c] == text;
        assert ';' !in after by {
          assert forall i :: 0 <= i < |after| ==> IsBlank(after[i]);
        }
        FindUnique(tail, ';', |tail|);
        assert tail[..|tail|] == tail;
      }
    } else {
      assert tail[c - k - 1] == ';';
      assert tail[..c - k - 1] == text[..c][k + 1..];
      FindUnique(tail, ';', c - k - 1);
    }
  }

  // ---------------------------------------------------------------- what is kept in front of the new value

  /** The part of the line behind the delimiter that the writer keeps. */
  ghost function Kept(line: string): string
    requires HasDelimiter(line)
  {
    NormKeepsLength(line);
    var e := Find(LineNorm(line), '=');
    line[e + 1..FindNonBlank(LineNorm(line), e + 1)]
  }

  lemma EntryDelimited(line: string, before: string, p: string, tail: string, key: string)
    requires EntryLine(line, before, p, tail, key)
    ensures Find(LineNorm(line), '=') == |before| + |p| < |line|
  {
    hide Unescape, Trim, LineNorm;
    DelimiterIsFirstBare(line);
    var k := |before| + |p|;
    forall i | 0 <= i < k ensures !Bare(line, i) {
      if i >= |before| {
        assert !Bare(p, i - |before|);
        assert line[i] == p[i - |before|];
        assert i > |before| ==> line[i - 1] == p[i - 1 - |before|];
      } else {
        assert line[i] == before[i] && IsBlank(before[i]);
      }
    }
    assert k > 0 ==> line[k - 1] == if p == "" then before[k - 1] else p[|p| - 1];
    assert Bare(line, k);
  }

  /** A place the search for the old value passes over: a blank, or part of an escape. */
  predicate Skipped(tail: string, j: nat)
    requires j < |tail|
  {
    IsBlank(tail[j]) || Escaped(tail, j) || Escaped(tail, j + 1)
  }

  /** Behind the delimiter the normalised line is blank exactly where the tail is blank or part of an escape. */
  lemma NormTail(line: string, e: nat, j: nat)
    requires e < |line| && line[e] == '=' && e + 1 + j < |line|
    ensures |LineNorm(line)| == |line|
    ensures var tail := line[e + 1..];
      IsBlank(LineNorm(line)[e + 1 + j]) <==> Skipped(tail, j)
  {
    NormAligned(line);
    var tail, i := line[e + 1..], e + 1 + j;
    assert LineNorm(line)[i] == NormChar(line, i);
    assert Escaped(line, i) <==> Escaped(tail, j);
    assert Escaped(line, i + 1) <==> Escaped(tail, j + 1);
  }

  /** Trimmed text begins at the first character that is not blank. */
  lemma TrimFrom(s: string, j: nat)
    requires j < |s| && AllBlank(s[..j]) && !IsBlank(s[j])
    ensures Trim(s) != "" && Trim(s) <= s[j..]
    ensures Trim(s)[0] == s[j] && (|Trim(s)| >= 2 ==> Trim(s)[1] == s[j + 1])
    ensures j + 1 < |s| && !IsBlank(s[j + 1]) ==> |Trim(s)| >= 2
  {
    hide Trim, IsBlank;
    var before, after := TrimParts(s);
    var t := Trim(s);
    assert forall i :: 0 <= i < |before| ==> s[i] == before[i];
    assert forall i :: 0 <= i < |after| ==> s[|before| + |t| + i] == after[i];
    assert forall i :: 0 <= i < j ==> s[..j][i] == s[i];
    if t != "" {
      assert s[|before|] == t[0];
      assert |before| == j;
      assert s[j..] == t + after;
    }
  }

  ghost predicate StartsEscaped(s: string) {
    "\\=" <= s
  }

  /** The cut at a semicolon does not reach an escape that leads the tail. */
  lemma OldValueStarts(p: string, tail: string, j: nat)
    requires j < |tail| && AllBlank(tail[..j]) && !IsBlank(tail[j])
    ensures StartsEscaped(OldValue(p, tail)) <==> Escaped(tail, j + 1)
  {
    hide Trim;
    var cut := if Starts(p, '[') then tail[..Find(tail, ';')] else tail;
    assert forall i :: 0 <= i < j ==> IsBlank(tail[..j][i]) && tail[..j][i] == tail[i];
    if j < |cut| {
      assert cut[..j] == tail[..j];
      TrimFrom(cut, j);
      var t := Trim(cut);
      assert StartsEscaped(t) <==> |t| >= 2 && t[0] == '\\' && t[1] == '=' by {
        assert |t| >= 2 ==> t[..2] == [t[0], t[1]];
      }
      assert j + 1 < |tail| && tail[j + 1] == '=' ==> j + 1 < |cut|;
    } else {
      BlankTrims(cut);
    }
  }

  lemma BlankTrims(s: string)
    requires AllBlank(s)
    ensures Trim(s) == ""
  {
    hide Trim;
    TrimBetween("", "", s);
    assert "" + "" + s == s;
  }

  /** The writer keeps what is skipped behind the delimiter, and no more. */
  lemma KeptIsSkipped(line: string, before: string, p: string, tail: string, key: string)
    requires EntryLine(line, before, p, tail, key)
    ensures HasDelimiter(line) && Kept(line) <= tail
    ensures forall i :: 0 <= i < |Kept(line)| ==> Skipped(tail, i)
    ensures |Kept(line)| < |tail| ==> !Skipped(tail, |Kept(line)|)
  {
    hide Trim, Unescape, LineNorm, Skipped;
    EntryDelimited(line, before, p, tail, key);
    NormKeepsLength(line);
    var e, norm := |before| + |p|, LineNorm(line);
    var at := FindNonBlank(norm, e + 1);
    var m := at - e - 1;
    assert line[e + 1..] == tail;
    assert Kept(line) == line[e + 1..at] == tail[..m];
    forall i | 0 <= i < m ensures Skipped(tail, i) {
      NormTail(line, e, i);
      assert norm[e + 1..at][i] == norm[e + 1 + i];
    }
    if m < |tail| {
      NormTail(line, e, m);
    }
  }

  /**
    What is kept is blank exactly when the old value does not begin with an escaped delimiter. Otherwise that
    escape stays in front of the new value. Section marks are never kept.
   */
  lemma KeptIsBlankIff(line: string, before: string, p: string, tail: string, key: string)
    requires EntryLine(line, before, p, tail, key)
    ensures HasDelimiter(line) && Kept(line) <= tail && NoSectionMarks(Kept(line))
    ensures AllBlank(Kept(line)) <==> !StartsEscaped(OldValue(p, tail))
  {
    hide *;
    KeptIsSkipped(line, before, p, tail, key);
    SkippedIsBlankIff(p, tail, Kept(line));
  }

  lemma SkippedIsBlankIff(p: string, tail: string, kept: string)
    requires kept <= tail && forall i :: 0 <= i < |kept| ==> Skipped(tail, i)
    requires |kept| < |tail| ==> !Skipped(tail, |kept|)
    ensures NoSectionMarks(kept) && (AllBlank(kept) <==> !StartsEscaped(OldValue(p, tail)))
  {
    hide OldValue, StartsEscaped;
    assert forall i :: 0 <= i < |kept| ==> kept[i] == tail[i] && Skipped(tail, i);
    var j := FindNonBlank(tail, 0);
    assert tail[0..j] == tail[..j];
    assert forall i :: 0 <= i < j ==> tail[..j][i] == tail[i] && IsBlank(tail[..j][i]);
    if j < |tail| {
      OldValueStarts(p, tail, j);
      assert !Escaped(tail, j);
      if Escaped(tail, j + 1) {
        assert forall i :: 0 <= i <= j ==> Skipped(tail, i);
        assert |kept| > j;
      } else {
        assert !Skipped(tail, j);
        assert |kept| <= j;
      }
    } else {
      OldValueBlank(p, tail);
    }
  }

  lemma OldValueBlank(p: string, tail: string)
    requires AllBlank(tail)
    ensures OldValue(p, tail) == "" && !StartsEscaped(OldValue(p, tail))
  {
    hide Trim;
    BlankTrims(if Starts(p, '[') then tail[..Find(tail, ';')] else tail);
  }

  // ---------------------------------------------------------------- the rewritten line

  /**
    The line in both modes. Up to the first character that is neither blank nor part of an escape everything stays,
    then comes the new value; only in pretty mode, and only right behind the delimiter, is there one blank more.
   */
  lemma RewriteIs(p: string, kept: string, was: string, value: string)
    requires NoBare(p) && !Ends(p, '\\')
    requires forall i :: 0 <= i < |kept| ==> Skipped(kept + was, i)
    requires was != "" ==> !Skipped(kept + was, |kept|)
    ensures var line := p + "=" + kept + was;
      && HasDelimiter(line)
      && RewriteLine(line, value, false) == p + "=" + kept + Trim(value)
      && RewriteLine(line, value, true) == p + "=" + (if kept == "" && was != "" then " " else kept) + Trim(value)
  {
    hide Trim, LineNorm, Skipped, IsBlank;
    var line, e := p + "=" + kept + was, |p|;
    assert line == p + "=" + (kept + was);
    PrintedDelimiter(p, kept + was);
    DelimiterIsFirstBare(line);
    NormKeepsLength(line);
    assert line[e + 1..] == kept + was;
    FirstKeptBehind(line, e, kept + was, |kept|);
    assert line[..e + 1 + |kept|] == p + "=" + kept;
  }

  /** The search for the old value ends at the first place that is not skipped. */
  lemma FirstKeptBehind(line: string, e: nat, tail: string, n: nat)
    requires e < |line| && line[e] == '=' && tail == line[e + 1..] && n <= |tail| && |LineNorm(line)| == |line|
    requires forall i :: 0 <= i < n ==> Skipped(tail, i)
    requires n < |tail| ==> !Skipped(tail, n)
    ensures FindNonBlank(LineNorm(line), e + 1) == e + 1 + n
  {
    hide LineNorm, Skipped, IsBlank;
    var norm := LineNorm(line);
    forall k | e < k < e + 1 + n ensures IsBlank(norm[k]) {
      NormTail(line, e, k - e - 1);
      assert norm[k] == norm[e + 1 + (k - e - 1)];
    }
    if n < |tail| {
      NormTail(line, e, n);
    }
  }

  /**
    So an old value that is not empty and does not begin with an escape is replaced behind the blanks in front of it:
    plain mode adds none, and pretty mode adds one exactly if there is none.
   */
  lemma ChangedEntry(p: string, blanks: string, was: string, value: string)
    requires NoBare(p) && !Ends(p, '\\') && was != "" && !("\\=" <= was)
    requires forall i :: 0 <= i < |blanks| ==> blanks[i] in " \t\n\r\U{0C}\U{0B}"
    requires was[0] !in " \t\n\r\U{0C}\U{0B}"
    ensures var line := p + "=" + blanks + was;
      && HasDelimiter(line)
      && RewriteLine(line, value, false) == p + "=" + blanks + Trim(value)
      && (blanks == "" ==> RewriteLine(line, value, true) == p + "= " + Trim(value))
      && (blanks != "" ==> RewriteLine(line, value, true) == p + "=" + blanks + Trim(value))
  {
    hide Trim, LineNorm, RewriteLine, HasDelimiter;
    forall i | 0 <= i < |blanks| ensures Skipped(blanks + was, i) {
      BlankCharacters(blanks[i]);
    }
    BlankCharacters(was[0]);
    assert was[..|was|] == was;
    assert |was| >= 2 ==> was[..2] == [was[0], was[1]];
    assert blanks != "" ==> IsBlank(blanks[|blanks| - 1]) by {
      if blanks != "" {
        BlankCharacters(blanks[|blanks| - 1]);
      }
    }
    RewriteIs(p, blanks, was, value);
    assert p + "=" + " " == p + "= ";
  }

  // ---------------------------------------------------------------- reading the rewritten line

  lemma RewriteParts(line: string, before: string, p: string, tail: string, key: string, value: string, pretty: bool)
    returns (gap: string)
    requires EntryLine(line, before, p, tail, key)
    ensures HasDelimiter(line) && (gap == "" || gap == " ")
    ensures RewriteLine(line, value, pretty) == before + p + "=" + (Kept(line) + gap + Trim(value))
  {
    hide Trim, Unescape, LineNorm;
    EntryDelimited(line, before, p, tail, key);
    NormKeepsLength(line);
    var e := |before| + |p|;
    var at := FindNonBlank(LineNorm(line), e + 1);
    gap := if pretty && e + 1 == at && at < |line| then " " else "";
    assert line[..at] == before + p + "=" + Kept(line);
  }

  /** Something that is not blank in front of the value makes the value read a different one. */
  lemma KeptSpoils(kept: string, value: string)
    requires !AllBlank(kept) && Trimmed(value)
    ensures Trim(kept + value) != value
  {
    hide Trim, IsBlank;
    var s := kept + value;
    var before, after := TrimParts(s);
    var i :| 0 <= i < |kept| && !IsBlank(kept[i]);
    assert s[i] == kept[i];
    assert forall k :: 0 <= k < |before| ==> s[k] == before[k];
    assert forall k :: 0 <= k < |after| ==> s[|before| + |Trim(s)| + k] == after[k];
    assert |after| > 0 ==> IsBlank(s[|s| - 1]);
    assert value != "" ==> s[|s| - 1] == value[|value| - 1];
  }

  /** What a caller can check before changing the entry on `line` to `value`. */
  predicate Changeable(line: string, value: string)
    requires ParseLine(line).KeyValue?
  {
    && !("\\=" <= ParseLine(line).value)
    && (Starts(Trim(line), '[') ==> NoSectionMarks(Trim(value)))
  }

  /**
    A rewritten line is read back as its key with the new value exactly when the old value does not begin with an
    escaped delimiter and, behind a bracket, the new value has no section mark.
   */
  lemma RewrittenReads(line: string, value: string, pretty: bool)
    requires ParseLine(line).KeyValue?
    ensures HasDelimiter(line)
    ensures ParseLine(RewriteLine(line, value, pretty)) == KeyValue(ParseLine(line).key, Trim(value)) <==>
      Changeable(line, value)
  {
    hide Trim, Unescape, ParseEntry, ParseLine, LineNorm, RewriteLine, Kept, Find, FindLast, FindNonBlank, IsBlank,
      OldValue;
    hide HasDelimiter, NoBare, NoSectionMarks, AllBlank;
    var key := ParseLine(line).key;
    var before, p, tail := EntryShape(line);
    EntryStarts(line, before, p, tail, key);
    KeptIsBlankIff(line, before, p, tail, key);
    var gap := RewriteParts(line, before, p, tail, key, value, pretty);
    var out, front, v := RewriteLine(line, value, pretty), Kept(line) + gap, Trim(value);
    var q, after := EndParts(front + v);
    RewrittenText(out, before, p, front + v, q, after);
    RestMarks(Kept(line), gap, v, q, after);
    var text := p + "=" + q;
    if Starts(p, '[') && !NoSectionMarks(q) {
      MarkedFails(text, p, q);
    } else {
      PrintedReads(text, p, q);
    }
  }

  /** Without section marks behind a bracket a rewritten line is still an entry of its key. */
  lemma RewrittenInPlace(line: string, value: string, pretty: bool)
    requires ParseLine(line).KeyValue? && (Starts(Trim(line), '[') ==> NoSectionMarks(Trim(value)))
    ensures HasDelimiter(line) && ParseLine(RewriteLine(line, value, pretty)).KeyValue?
    ensures ParseLine(RewriteLine(line, value, pretty)).key == ParseLine(line).key
  {
    hide Trim, Unescape, ParseEntry, ParseLine, LineNorm, RewriteLine, Kept, Find, FindLast, FindNonBlank, IsBlank,
      OldValue;
    hide HasDelimiter, NoBare, NoSectionMarks, AllBlank;
    var key := ParseLine(line).key;
    var before, p, tail := EntryShape(line);
    EntryStarts(line, before, p, tail, key);
    KeptIsBlankIff(line, before, p, tail, key);
    var gap := RewriteParts(line, before, p, tail, key, value, pretty);
    var out, front, v := RewriteLine(line, value, pretty), Kept(line) + gap, Trim(value);
    var q, after := EndParts(front + v);
    RewrittenText(out, before, p, front + v, q, after);
    RestMarks(Kept(line), gap, v, q, after);
    PrintedReads(p + "=" + q, p, q);
  }

  lemma UnescapeStarts(s: string)
    ensures Starts(Unescape(s), '[') <==> Starts(s, '[')
    ensures s != "" && !IsBlank(s[0]) ==> Unescape(s) != "" && !IsBlank(Unescape(s)[0])
    ensures s == "" ==> Unescape(s) == ""
  {
    hide ReplaceAll;
    if |s| >= 2 && s[..2] == "\\=" {
      ReplaceHere(s, "\\=", "=");
      assert s[0] == s[..2][0];
    } else if s != "" {
      assert !Occurs(s, "\\=", 0) by {
        assert |s| >= 2 ==> s[0..2] == s[..2];
      }
      ReplaceSkips(s, 1, "\\=", "=");
    } else {
      ReplaceSkips(s, 0, "\\=", "=");
      NothingReplaced("\\=", "=");
    }
  }

  lemma NothingReplaced(a: string, b: string)
    requires a != ""
    ensures ReplaceAll("", a, b) == ""
  {
  }

  lemma TrimStarts(s: string, c: char)
    requires s == "" || !IsBlank(s[0])
    ensures Starts(Trim(s), c) <==> Starts(s, c)
    ensures s != "" ==> Trim(s) != "" && Trim(s)[0] == s[0]
  {
    hide Trim;
    if s == "" {
      TrimmedStays(s);
    } else {
      assert AllBlank(s[..0]);
      TrimFrom(s, 0);
    }
  }

  /** The key begins with a bracket exactly if the line does, and then the value holds no mark. */
  lemma BracketKey(line: string)
    requires ParseLine(line).KeyValue?
    ensures Starts(Norm(ParseLine(line).key), '[') <==> Starts(Trim(line), '[')
    ensures Starts(Trim(line), '[') ==> NoSectionMarks(ParseLine(line).value)
  {
    hide Trim, Unescape, ParseEntry, NoBare, NoSectionMarks, IsBlank, OldValue;
    var key := ParseLine(line).key;
    var before, p, tail := EntryShape(line);
    EntryStarts(line, before, p, tail, key);
    TrimStarts(p, '[');
    UnescapeStarts(Trim(p));
    TrimStarts(key, '[');
    LowerStarts(Trim(key));
    if Starts(Trim(line), '[') {
      BracketValue(line);
    }
  }

  lemma LowerStarts(s: string)
    ensures Starts(Lower(s), '[') <==> Starts(s, '[')
  {
  }

  lemma BracketValue(line: string)
    requires ParseLine(line).KeyValue? && Starts(Trim(line), '[')
    ensures NoSectionMarks(ParseLine(line).value)
  {
    hide Trim, Unescape, ParseEntry;
    var text := Trim(line);
    TrimmedStays(text);
    OpenPart(text);
    var open := text[..Find(text, ';')];
    var k := EntryDelimiter(open);
    assert ']' !in open;
    TrimKeepsChars(open[k + 1..], ';');
    TrimKeepsChars(open[k + 1..], ']');
  }

  /** An old value that begins with an escaped delimiter stays in front of the new one, and is read with it. */
  lemma EscapedOldValueStays()
    ensures ParseLine("k=\\=x") == KeyValue("k", "\\=x") && HasDelimiter("k=\\=x")
    ensures RewriteLine("k=\\=x", "v", false) == "k=\\=v" && ParseLine("k=\\=v") == KeyValue("k", "\\=v")
  {
    hide ParseLine, HasDelimiter, Trim, LineNorm, RewriteLine;
    PlainEntry("\\=x");
    PlainEntry("\\=v");
    assert "k=" + "\\=x" == "k=\\=x" && "k=" + "\\=v" == "k=\\=v" && "k=\\=" + "v" == "k=\\=v";
    EntryHasDelimiter("k=\\=x");
    EscapeIsKept("v");
  }

  lemma PlainEntry(value: string)
    requires Trimmed(value)
    ensures ParseLine("k=" + value) == KeyValue("k", value)
  {
    hide ParseLine, Trim;
    TrimmedStays("k");
    TrimmedStays(value);
    assert Escape("k") == "k" by {
      EscapeCons('k', "");
      assert "k" == ['k'] + "";
    }
    assert KeyLine("k", value, false) == "k=" + value by {
      assert "k" + "=" == "k=";
    }
    KeyLineReads("k", value, false);
  }

  lemma EscapeIsKept(value: string)
    requires Trimmed(value) && HasDelimiter("k=\\=x")
    ensures RewriteLine("k=\\=x", value, false) == "k=\\=" + value
  {
    hide Trim, LineNorm;
    var line := "k=\\=x";
    TrimmedStays(value);
    NormAligned(line);
    assert LineNorm(line) == "k=  x" by {
      assert NormChar(line, 2) == ' ' && NormChar(line, 3) == ' ';
    }
    FindUnique("k=  x", '=', 1);
    assert !IsBlank("k=  x"[4]) && IsBlank("k=  x"[2]) && IsBlank("k=  x"[3]);
    assert FindNonBlank("k=  x", 4) == 4 && FindNonBlank("k=  x", 3) == 4;
    assert line[..4] == "k=\\=";
  }

  lemma NotBlank(c: char)
    requires c == '=' || c == '[' || c == ']' || c == ';'
    ensures !IsBlank(c)
  {
  }

  lemma EntryHasDelimiter(line: string)
    requires ParseLine(line).KeyValue?
    ensures HasDelimiter(line)
  {
    hide *;
    var before, p, tail := EntryShape(line);
    KeptIsBlankIff(line, before, p, tail, ParseLine(line).key);
  }

  lemma EntryStarts(line: string, before: string, p: string, tail: string, key: string)
    requires EntryLine(line, before, p, tail, key)
    ensures Starts(Trim(line), '[') <==> Starts(p, '[')
    ensures !Starts(p, ';') && !Ends(p, '\\') && (Starts(p, '[') ==> NoSectionMarks(p))
  {
    hide Trim, Unescape, NoBare, NoSectionMarks, IsBlank;
    assert IsBlank('=') == false by {
      NotBlank('=');
    }
    assert line[..|before|] == before;
    assert line[|before|] == if p == "" then '=' else p[0];
    TrimFrom(line, |before|);
  }

  /** Neither what is kept nor the gap has section marks, and they decide whether the value reads back. */
  lemma RestMarks(kept: string, gap: string, v: string, q: string, after: string)
    requires NoSectionMarks(kept) && (gap == "" || gap == " ") && kept + gap + v == q + after && AllBlank(after)
    requires Trimmed(v)
    ensures NoSectionMarks(q) <==> NoSectionMarks(v)
    ensures ';' in q <==> ';' in v
    ensures Trim(kept + gap + v) == v <==> AllBlank(kept)
  {
    hide Trim;
    var front := kept + gap;
    assert forall c :: c in front + v <==> c in kept || c in gap || c in v;
    assert forall c :: c in q + after <==> c in q || c in after;
    if AllBlank(kept) {
      TrimBetween(front, v, "");
      assert front + v + "" == front + v;
    } else {
      var i :| 0 <= i < |kept| && !IsBlank(kept[i]);
      assert front[i] == kept[i];
      KeptSpoils(front, v);
    }
  }

  lemma EndParts(s: string) returns (q: string, after: string)
    ensures s == q + after && AllBlank(after) && (q == "" || !IsBlank(q[|q| - 1])) && Trim(s) == Trim(q)
  {
    hide Trim, IsBlank;
    TrimEndParts(s);
    q, after := TrimEnd(s), s[|TrimEnd(s)|..];
    TrimIgnoresAfter(q, after);
  }

  lemma RewrittenText(out: string, before: string, p: string, rest: string, q: string, after: string)
    requires out == before + p + "=" + rest && rest == q + after && AllBlank(before) && AllBlank(after)
    requires (p == "" || !IsBlank(p[0])) && (q == "" || !IsBlank(q[|q| - 1])) && NoBare(p)
    ensures Printed(p + "=" + q, p, q) && ParseLine(out) == ParseLine(p + "=" + q)
  {
    hide Trim, ParseEntry;
    TrimmedAround(p, q);
    TrimBetween(before, p + "=" + q, after);
    TrimmedStays(p + "=" + q);
    assert out == before + (p + "=" + q) + after;
  }
}
