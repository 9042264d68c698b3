/**
  `LoadMultiLineText` of SimpleIni: a multi-line value or comment is compacted in the buffer it was read into,
  every line end becoming one newline, while the text is still being scanned.
 */
module SimpleMultiLine {
  import opened Wrappers
  import opened SimpleOrder

  predicate IsNewLineChar(c: char) {
    c == '\n' || c == '\r'
  }

  predicate IsSpace(c: char) {
    c == ' ' || c == '\t' || c == '\r' || c == '\n'
  }

  predicate IsComment(c: char) {
    c == ';' || c == '#'
  }

  // ---------------------------------------------------------------- what is loaded from a text

  function LineLength(t: string): (n: nat)
    ensures n <= |t| && (n < |t| ==> IsNewLineChar(t[n])) && forall i :: 0 <= i < n ==> !IsNewLineChar(t[i])
  {
    if t == "" || IsNewLineChar(t[0]) then 0 else 1 + LineLength(t[1..])
  }

  /** The length of the line end in front. */
  function NewLineLength(t: string): (n: nat)
    requires t != ""
    ensures 1 <= n <= |t|
  {
    if t[0] == '\r' && |t| > 1 && t[1] == '\n' then 2 else 1
  }

  /** The white space in front, and how many lines end in it. */
  function Blank(t: string): (r: (nat, nat))
    ensures r.0 <= |t| && r.1 <= r.0 && (r.0 < |t| ==> !IsSpace(t[r.0]))
  {
    if t == "" || !IsSpace(t[0]) then (0, 0)
    else if IsNewLineChar(t[0]) then
      var (k, n) := Blank(t[NewLineLength(t)..]);
      (NewLineLength(t) + k, 1 + n)
    else
      var (k, n) := Blank(t[1..]);
      (1 + k, n)
  }

  function NewLines(n: nat): (s: string)
    ensures |s| == n && forall i :: 0 <= i < n ==> s[i] == '\n'
  {
    if n == 0 then "" else NewLines(n - 1) + "\n"
  }

  /** What ends the text: its tag, the end of the data, or a line that is no comment. */
  datatype Stop = Tagged | AtEnd | NoComment

  /** The lines as they are written, each with its newline, and how much of the text was passed over. */
  datatype Loading = Loading(text: string, used: nat, stop: Stop)

  function Behind(text: string, used: nat, r: Loading): Loading {
    Loading(text + r.text, used + r.used, r.stop)
  }

  /**
    With a tag the lines up to the tag; without one the comment lines, and blank lines that another comment follows.
   */
  function Load(t: string, tag: Option<string>, blanks: bool, order: Order): (r: Loading)
    ensures |r.text| <= r.used <= |t|
    decreases |t|
  {
    if tag.None? && (t == "" || !IsComment(t[0])) then
      var (k, n) := Blank(t);
      if blanks && k < |t| && IsComment(t[k]) then Behind(NewLines(n), k, Load(t[k..], tag, blanks, order))
      else Loading("", 0, NoComment)
    else
      var n := LineLength(t);
      if tag.Some? && Same(t[..n], tag.value, order) then Loading("", n, Tagged)
      else if n == |t| then Loading(t, n, AtEnd)
      else
        var next := n + NewLineLength(t[n..]);
        Behind(t[..n] + "\n", next, Load(t[next..], tag, blanks, order))
  }

  // ---------------------------------------------------------------- the buffer

  /** `out` has been written from `start` to `to`; everything from `at` on is still to be read. */
  ghost predicate Compacting(s: seq<char>, before: seq<char>, start: nat, to: nat, at: nat, out: string) {
    && |s| == |before| && start <= to <= at < |s| && to == start + |out|
    && s[..start] == before[..start] && s[start..to] == out && s[at..] == before[at..]
  }

  lemma TextLater(s: seq<char>, start: nat, at: nat)
    requires Terminated(s, start) && start <= at <= NulAt(s, start)
    ensures Terminated(s, at) && NulAt(s, at) == NulAt(s, start)
    ensures TextAt(s, at) == TextAt(s, start)[at - start..]
  {
    var t := TextAt(s, start)[at - start..];
    assert IsTextAt(s, at, t);
    TextIs(s, at, t);
  }

  /** The loop that looks for the end of the line. */
  method FindLineEnd(buf: array<char>, at: nat) returns (e: nat)
    requires Terminated(buf[..], at)
    ensures e == at + LineLength(TextAt(buf[..], at))
  {
    hide TextAt, NulAt, Terminated, IsTextAt;
    ghost var t := TextAt(buf[..], at);
    TextIsThere(buf[..], at);
    TextChars(buf[..], at, t);
    e := at;
    assert t[0..] == t;
    while buf[e] != '\0' && !IsNewLineChar(buf[e])
      invariant at <= e <= at + |t| < buf.Length
      invariant forall i :: 0 <= i < |t| ==> buf[at + i] == t[i] != '\0'
      invariant buf[at + |t|] == '\0'
      invariant (e - at) + LineLength(t[e - at..]) == LineLength(t)
      decreases at + |t| - e
    {
      assert t[e - at..][1..] == t[e + 1 - at..];
      e := e + 1;
    }
  }

  method SkipNewLine(buf: array<char>, at: nat) returns (next: nat)
    requires Terminated(buf[..], at) && TextAt(buf[..], at) != ""
    ensures next == at + NewLineLength(TextAt(buf[..], at))
  {
    ghost var t := TextAt(buf[..], at);
    TextIsThere(buf[..], at);
    assert buf[at] == t[0] && (if |t| > 1 then buf[at + 1] == t[1] else buf[at + 1] == '\0');
    next := at + if buf[at] == '\r' && buf[at + 1] == '\n' then 2 else 1;
  }

  lemma BlankStep(t: string, passed: nat, lines: nat, all: (nat, nat))
    requires t != "" && IsSpace(t[0]) && (passed + Blank(t).0, lines + Blank(t).1) == all
    ensures var n := if IsNewLineChar(t[0]) then NewLineLength(t) else 1;
      var (k, m) := Blank(t[n..]);
      (passed + n + k, (if IsNewLineChar(t[0]) then lines + 1 else lines) + m) == all
  {
    hide NewLineLength, IsNewLineChar, IsSpace;
    if IsNewLineChar(t[0]) {
      BlankNewLine(t);
    } else {
      BlankChar(t);
    }
    hide Blank;
  }

  lemma BlankNewLine(t: string)
    requires t != "" && IsNewLineChar(t[0])
    ensures var (k, m) := Blank(t[NewLineLength(t)..]);
      Blank(t) == (NewLineLength(t) + k, 1 + m)
  {
    hide NewLineLength;
  }

  lemma BlankChar(t: string)
    requires t != "" && IsSpace(t[0]) && !IsNewLineChar(t[0])
    ensures var (k, m) := Blank(t[1..]);
      Blank(t) == (1 + k, m)
  {
    hide NewLineLength;
  }

  lemma SliceLater(t: string, a: nat, b: nat)
    requires a + b <= |t|
    ensures t[a..][b..] == t[a + b..]
  {
  }

  /** The look-ahead over blank lines. */
  method ReadAhead(buf: array<char>, at: nat) returns (curr: nat, newLines: nat)
    requires Terminated(buf[..], at)
    ensures curr >= at && (curr - at, newLines) == Blank(TextAt(buf[..], at))
  {
    hide Blank, IsSpace, NulAt, Terminated, TextAt, NewLineLength, IsNewLineChar;
    ghost var t, end := TextAt(buf[..], at), NulAt(buf[..], at);
    ghost var all := Blank(t);
    TextLater(buf[..], at, at);
    curr, newLines := at, 0;
    assert t[0..] == t;
    while IsSpace(buf[curr])
      invariant at <= curr <= end < buf.Length && end == at + |t|
      invariant (curr - at + Blank(t[curr - at..]).0, newLines + Blank(t[curr - at..]).1) == all
      decreases end - curr
    {
      ghost var rest := t[curr - at..];
      TextLater(buf[..], at, curr);
      SpaceIsText(buf[..], curr);
      BlankStep(rest, curr - at, newLines, all);
      if IsNewLineChar(buf[curr]) {
        newLines := newLines + 1;
        SliceLater(t, curr - at, NewLineLength(rest));
        curr := SkipNewLine(buf, curr);
      } else {
        SliceLater(t, curr - at, 1);
        curr := curr + 1;
      }
    }
    TextLater(buf[..], at, curr);
    NoSpaceNoBlank(buf[..], curr);
  }

  lemma SpaceIsText(s: seq<char>, at: nat)
    requires Terminated(s, at) && at < |s| && IsSpace(s[at])
    ensures TextAt(s, at) != "" && TextAt(s, at)[0] == s[at]
  {
  }

  lemma NoSpaceNoBlank(s: seq<char>, at: nat)
    requires Terminated(s, at) && at < |s| && !IsSpace(s[at])
    ensures Blank(TextAt(s, at)) == (0, 0)
  {
  }

  /** `memmove` to a place in front. */
  method MoveDown(buf: array<char>, to: nat, from: nat, len: nat)
    requires to < from && from + len <= buf.Length
    modifies buf
    ensures buf[..to] == old(buf[..to]) && buf[to..to + len] == old(buf[from..from + len])
    ensures buf[from + len..] == old(buf[from + len..])
  {
    for i := 0 to len
      invariant forall k :: 0 <= k < to ==> buf[k] == old(buf[k])
      invariant buf[to..to + i] == old(buf[from..from + i])
      invariant forall k :: from + i <= k < buf.Length ==> buf[k] == old(buf[k])
    {
      buf[to + i] := buf[from + i];
    }
  }

  /** Puts the line behind what is written and ends it there, in front of what is still to be read. */
  method PlaceLine(buf: array<char>, to: nat, from: nat, len: nat) returns (cEndOfLineChar: char)
    requires to <= from && from + len < buf.Length
    modifies buf
    ensures cEndOfLineChar == old(buf[from + len])
    ensures buf[..to] == old(buf[..to]) && buf[to..to + len] == old(buf[from..from + len]) && buf[to + len] == '\0'
    ensures buf[from + len] == '\0' && buf[from + len + 1..] == old(buf[from + len + 1..])
  {
    if to < from {
      MoveDown(buf, to, from, len);
      assert buf[from + len..][0] == old(buf[from + len..])[0];
      assert buf[from + len..][1..] == old(buf[from + len..])[1..];
      ghost var moved := buf[..];
      buf[to + len] := '\0';
      assert buf[..to] == moved[..to] && buf[to..to + len] == moved[to..to + len];
      assert buf[from + len..] == moved[from + len..];
      assert buf[from + len + 1..] == moved[from + len + 1..];
    }
    cEndOfLineChar := buf[from + len];
    ghost var placed := buf[..];
    buf[from + len] := '\0';
    assert buf[..to] == placed[..to] && buf[to..to + len] == placed[to..to + len];
    assert buf[from + len + 1..] == placed[from + len + 1..];
  }

  lemma TextKept(s: seq<char>, n: nat, at: nat)
    requires n <= |s| && Terminated(s[..n], at)
    ensures Terminated(s, at) && TextAt(s, at) == TextAt(s[..n], at)
  {
    var t := TextAt(s[..n], at);
    assert s[..n][at..at + |t|] == s[at..at + |t|];
    TextIs(s, at, t);
  }

  /** The comparison with the tag, both ways. */
  method IsTag(buf: array<char>, line: nat, tagName: nat, order: Order) returns (same: bool)
    requires Terminated(buf[..], line) && Terminated(buf[..], tagName)
    ensures same <==> Same(TextAt(buf[..], line), TextAt(buf[..], tagName), order)
  {
    hide Same, Less, TextAt, NulAt, Terminated;
    var less := IsLess(buf, line, tagName, order);
    var greater := IsLess(buf, tagName, line, order);
    Trichotomy(TextAt(buf[..], line), TextAt(buf[..], tagName), order);
    same := !less && !greater;
  }

  /** The line at the front of a text in the buffer, and the character that ends it. */
  lemma LineInBuffer(s: seq<char>, at: nat, t: string, n: nat)
    requires IsTextAt(s, at, t) && n <= |t|
    ensures at + n < |s| && s[at..at + n] == t[..n] && '\0' !in t[..n]
    ensures s[at + n] == (if n < |t| then t[n] else '\0') && (s[at + n] == '\0' <==> n == |t|)
    ensures IsTextAt(s, at + n, t[n..])
  {
    assert s[at..at + |t|][..n] == s[at..at + n];
    assert n < |t| ==> s[at + n] == t[n] && t[n] in t;
  }

  /** One line is found, put in its place, and its end is zeroed. */
  method TakeLine(buf: array<char>, to: nat, at: nat) returns (e: nat, cEndOfLineChar: char)
    requires to <= at && Terminated(buf[..], at)
    modifies buf
    ensures var t := old(TextAt(buf[..], at));
      var n := LineLength(t);
      && e == at + n < buf.Length
      && cEndOfLineChar == old(buf[..])[e] && (cEndOfLineChar == '\0' <==> n == |t|)
      && buf[..to] == old(buf[..to]) && IsTextAt(buf[..], to, t[..n])
      && buf[e] == '\0' && buf[e + 1..] == old(buf[..])[e + 1..]
  {
    hide LineLength, TextAt, NulAt, Terminated;
    ghost var before := buf[..];
    ghost var t := TextAt(before, at);
    TextIsThere(before, at);
    e := FindLineEnd(buf, at);
    LineInBuffer(before, at, t, e - at);
    cEndOfLineChar := PlaceLine(buf, to, at, e - at);
    assert buf[..][to..to + (e - at)] == t[..e - at];
  }

  /** The blank lines that belong to a comment, as newlines; the text is scanned on from `curr`. */
  method WriteNewLines(buf: array<char>, to: nat, newLines: nat, ghost before: seq<char>, ghost start: nat,
                       ghost at: nat, ghost curr: nat, ghost out: string)
    returns (to': nat)
    requires Compacting(buf[..], before, start, to, at, out) && at + newLines <= curr < buf.Length
    modifies buf
    ensures Compacting(buf[..], before, start, to', curr, out + NewLines(newLines))
  {
    to' := to;
    var n := newLines;
    while n > 0
      invariant 0 <= n <= newLines && to' == to + (newLines - n)
      invariant forall k :: to <= k < to' ==> buf[k] == '\n'
      invariant forall k :: 0 <= k < to || curr <= k < buf.Length ==> buf[k] == old(buf[k])
    {
      buf[to'] := '\n';
      to', n := to' + 1, n - 1;
    }
    assert buf[..start] == old(buf[..])[..start];
    assert buf[start..to] == old(buf[..])[start..to];
    assert buf[start..to'] == buf[start..to] + NewLines(newLines);
    assert buf[curr..] == old(buf[..])[at..][curr - at..];
  }

  /**
    Behind a line that does not end the text: its newline goes behind it, and scanning goes on behind the old line
    end.
   */
  method EndLine(buf: array<char>, to: nat, e: nat, cEndOfLineChar: char, ghost before: seq<char>, ghost start: nat,
                 ghost out: string)
    returns (to': nat, at: nat)
    requires |before| == buf.Length && start <= to <= e < buf.Length && to == start + |out|
    requires buf[..start] == before[..start] && buf[start..to] == out && buf[e + 1..] == before[e + 1..]
    requires cEndOfLineChar == before[e] && Terminated(before, e) && TextAt(before, e) != ""
    modifies buf
    ensures at == e + NewLineLength(TextAt(before, e)) && at < buf.Length
    ensures Compacting(buf[..], before, start, to', at, out + "\n")
  {
    hide TextAt, NulAt, Terminated, NewLineLength;
    ghost var t := TextAt(before, e);
    TextIsThere(before, e);
    buf[e] := cEndOfLineChar;
    assert buf[e..] == before[e..];
    assert buf[..][e..e + |t|] == buf[e..][..|t|] == before[e..][..|t|] == t;
    TextIs(buf[..], e, t);
    at := SkipNewLine(buf, e);
    ghost var mid := buf[..];
    assert mid[at..] == mid[e..][at - e..] == before[at..];
    assert mid[start..to] == out && mid[..start] == before[..start];
    buf[to] := '\n';
    assert buf[..start] == mid[..start] && buf[start..to + 1] == mid[start..to] + "\n" && buf[at..] == mid[at..];
    to' := to + 1;
  }

  // ---------------------------------------------------------------- the whole method

  /** The value: the last line end is dropped, unless the data ends first. */
  function Value(r: Loading): string {
    if r.stop.AtEnd? || r.text == "" then r.text else r.text[..|r.text| - 1]
  }

  /** How far the data pointer moves: past the line end of the tag. */
  function Passed(t: string, r: Loading): nat
    requires r.used <= |t|
  {
    if r.stop.Tagged? && r.used < |t| then r.used + NewLineLength(t[r.used..]) else r.used
  }

  /** The tag is the first line, so that there is no newline to put the final NUL in place of. */
  predicate TagComesFirst(r: Loading) {
    r.stop.Tagged? && r.text == ""
  }

  /** Nothing was found: no comment, or an empty tag in an empty first line. */
  predicate NothingLoaded(r: Loading) {
    r.used == 0 && !r.stop.AtEnd?
  }

  /** What the value pointer shows: with a tag in the first line everything from that tag on. */
  function Shown(t: string, r: Loading): string {
    if TagComesFirst(r) then t else Value(r)
  }

  /** The buffer at the end: the value is in place, and what is still to be parsed is as it was. */
  ghost predicate LoadedAs(after: seq<char>, before: seq<char>, start: nat, data: nat, t: string, r: Loading)
    requires r.used <= |t|
  {
    && |after| == |before| && start <= data < |after| && data == start + Passed(t, r)
    && after[data..] == before[data..] && IsTextAt(after, start, Shown(t, r))
    && if TagComesFirst(r) then start > 0 && after[..start] == before[..start][start - 1 := '\0']
       else after[..start] == before[..start]
  }

  /** Behind a tag: the line end that was zeroed is put back and stepped over. */
  method PassTag(buf: array<char>, e: nat, tagged: bool, cEndOfLineChar: char, ghost before: seq<char>,
                 ghost rest: string)
    returns (data: nat)
    requires |before| == buf.Length && IsTextAt(before, e, rest)
    requires buf[e + 1..] == before[e + 1..]
    requires (if tagged then buf[e] == '\0' && cEndOfLineChar == before[e] else buf[e] == before[e])
    modifies buf
    ensures buf[..e] == old(buf[..e]) && buf[e..] == before[e..]
    ensures data == if tagged && rest != "" then e + NewLineLength(rest) else e
    ensures data < buf.Length && buf[data..] == before[data..]
  {
    hide NewLineLength, TextAt, NulAt, Terminated;
    data := e;
    if tagged && cEndOfLineChar != '\0' {
      buf[e] := cEndOfLineChar;
      SameRest(buf[..], before, e, rest);
      data := SkipNewLine(buf, e);
    }
    assert buf[..][e..] == before[e..];
    assert buf[..][e..][data - e..] == before[e..][data - e..];
    assert rest != "" ==> before[e] == rest[0] && rest[0] in rest;
  }

  lemma SameRest(s: seq<char>, before: seq<char>, e: nat, rest: string)
    requires |s| == |before| && IsTextAt(before, e, rest) && s[e] == before[e] && s[e + 1..] == before[e + 1..]
    ensures IsTextAt(s, e, rest) && Terminated(s, e) && TextAt(s, e) == rest && s[e..] == before[e..]
  {
    assert s[e..] == before[e..];
    assert s[e..e + |rest|] == s[e..][..|rest|] == before[e..][..|rest|] == before[e..e + |rest|];
    assert s[e + |rest|] == s[e..][|rest|] == before[e..][|rest|];
    TextIs(s, e, rest);
  }

  lemma ValueEnds(s: seq<char>, start: nat, out: string)
    requires out != "" && start + |out| <= |s| && s[start..start + |out| - 1] == out[..|out| - 1]
    requires s[start + |out| - 1] == '\0'
    requires '\0' !in out
    ensures IsTextAt(s, start, out[..|out| - 1])
  {
  }

  lemma ValueRunsOn(s: seq<char>, before: seq<char>, start: nat, t: string, n: nat)
    requires |s| == |before| && IsTextAt(before, start, t) && n <= |t|
    requires s[start..start + n] == t[..n] && s[start + n..] == before[start + n..]
    ensures IsTextAt(s, start, t)
  {
    var e := start + n;
    assert s[e..e + (|t| - n)] == s[e..][..|t| - n] == before[e..][..|t| - n] == before[start..start + |t|][n..];
    assert s[start..start + |t|] == s[start..e] + s[e..start + |t|];
    assert t == t[..n] + t[n..];
    assert s[start + |t|] == s[e..][|t| - n] == before[e..][|t| - n];
  }

  /** What one zero at `z` leaves alone. */
  lemma Zeroed(before: seq<char>, after: seq<char>, z: nat, e: nat)
    requires z < e <= |before| == |after| && after[..e] == before[..e][z := '\0']
    ensures after[z] == '\0'
    ensures forall a: nat, b: nat :: a <= b <= z ==> after[a..b] == before[a..b]
    ensures forall a: nat, b: nat :: z < a <= b <= e ==> after[a..b] == before[a..b]
  {
    assert after[..e][z] == '\0';
    assert forall k :: 0 <= k < e && k != z ==> after[k] == after[..e][k] == before[..e][k] == before[k];
  }

  /** The text has been scanned up to `e`, and `out` written; `r` says why it ended here. */
  ghost predicate Scanned(s: seq<char>, before: seq<char>, start: nat, to: nat, e: nat, out: string, t: string,
                          r: Loading) {
    && |s| == |before| && 0 < to && start <= to <= e < |s| && to == start + |out| && '\0' !in out
    && IsTextAt(before, start, t) && e == start + r.used && r.used <= |t|
    && s[..start] == before[..start] && s[start..to] == out && s[e + 1..] == before[e + 1..]
    && !r.stop.AtEnd? && r.text == out && (out == "" ==> r.stop.Tagged? && s[start..e] == t[..r.used])
    && s[e] == if r.stop.Tagged? then '\0' else before[e]
  }

  lemma ScannedIsLoaded(s: seq<char>, after: seq<char>, before: seq<char>, start: nat, to: nat, e: nat, out: string,
                        data: nat, t: string, r: Loading)
    requires Scanned(s, before, start, to, e, out, t, r)
    requires |after| == |s| && after[..e] == s[..e][to - 1 := '\0'] && after[e..] == before[e..]
    requires data == start + Passed(t, r) < |s| && after[data..] == before[data..]
    ensures LoadedAs(after, before, start, data, t, r)
  {
    hide IsTextAt, Passed;
    Zeroed(s, after, to - 1, e);
    if out == "" {
      assert after[start..e] == s[start..e];
      ValueRunsOn(after, before, start, t, r.used);
      assert after[..start - 1] == after[0..start - 1] == s[0..start - 1] == s[..start][..start - 1];
      assert before[..start - 1] == before[..start][..start - 1];
    } else {
      assert after[start..to - 1] == s[start..to - 1] == s[start..to][..|out| - 1];
      ValueEnds(after, start, out);
      assert after[..start] == after[0..start] == s[0..start] == s[..start];
    }
  }

  /** Ends the value in place of the last newline written, and moves the data pointer over the line end of the tag. */
  method Finish(buf: array<char>, to: nat, e: nat, tagged: bool, cEndOfLineChar: char, ghost before: seq<char>,
                ghost start: nat, ghost out: string, ghost t: string, ghost r: Loading)
    returns (data: nat)
    requires Scanned(buf[..], before, start, to, e, out, t, r)
    requires tagged == r.stop.Tagged? && (tagged ==> cEndOfLineChar == before[e])
    modifies buf
    ensures LoadedAs(buf[..], before, start, data, t, r)
  {
    hide NewLineLength, IsTextAt, LoadedAs;
    ghost var s := buf[..];
    LineInBuffer(before, start, t, r.used);
    buf[to - 1] := '\0';
    assert buf[e + 1..] == s[e + 1..] && buf[..e] == s[..e][to - 1 := '\0'];
    data := PassTag(buf, e, tagged, cEndOfLineChar, before, t[r.used..]);
    ScannedIsLoaded(s, buf[..], before, start, to, e, out, data, t, r);
  }

  /** The buffer once a line has been put behind `out`. */
  ghost predicate Taken(s: seq<char>, before: seq<char>, start: nat, to: nat, e: nat, out: string, line: string) {
    && |s| == |before| && start <= to && to + |line| <= e < |s| && to == start + |out|
    && s[..start] == before[..start] && s[start..to] == out && IsTextAt(s, to, line)
    && s[e] == '\0' && s[e + 1..] == before[e + 1..]
  }

  lemma LineTaken(s0: seq<char>, s: seq<char>, before: seq<char>, start: nat, to: nat, at: nat, e: nat, out: string,
                  line: string)
    requires Compacting(s0, before, start, to, at, out) && at <= e < |s0| && |s| == |s0| && e == at + |line|
    requires s[..to] == s0[..to] && IsTextAt(s, to, line) && s[e] == '\0' && s[e + 1..] == s0[e + 1..]
    ensures Taken(s, before, start, to, e, out, line) && s0[e] == before[e]
  {
    assert s[start..to] == s[..to][start..] == s0[..to][start..] == s0[start..to];
    assert s[..start] == s[..to][..start] == s0[..to][..start] == s0[..start];
    assert s0[e] == s0[at..][e - at] == before[at..][e - at];
    assert s0[e + 1..] == s0[at..][e + 1 - at..] == before[at..][e + 1 - at..];
  }

  /** At the end of the data the last line stays as it is. */
  lemma EndIsLoaded(s: seq<char>, before: seq<char>, start: nat, to: nat, e: nat, out: string, line: string,
                    t: string, r: Loading)
    requires Taken(s, before, start, to, e, out, line) && '\0' !in out
    requires r == Loading(out + line, e - start, AtEnd) && r.used == |t| && IsTextAt(before, start, t)
    ensures LoadedAs(s, before, start, e, t, r)
  {
    assert s[start..to + |line|] == s[start..to] + s[to..to + |line|];
    assert IsTextAt(s, start, out + line);
    assert before[e] == '\0';
    assert s[e..] == [s[e]] + s[e + 1..] && before[e..] == [before[e]] + before[e + 1..];
  }

  lemma LoadBlank(t: string, tag: Option<string>, blanks: bool, order: Order)
    requires tag.None? && (t == "" || !IsComment(t[0]))
    ensures var (k, n) := Blank(t);
      Load(t, tag, blanks, order)
        == if blanks && k < |t| && IsComment(t[k]) then Behind(NewLines(n), k, Load(t[k..], tag, blanks, order))
            else Loading("", 0, NoComment)
  {
  }

  lemma LoadLine(t: string, tag: Option<string>, blanks: bool, order: Order)
    requires tag.Some? || (t != "" && IsComment(t[0]))
    ensures var n := LineLength(t);
      Load(t, tag, blanks, order)
        == if tag.Some? && Same(t[..n], tag.value, order) then Loading("", n, Tagged)
           else if n == |t| then Loading(t, n, AtEnd)
           else Behind(t[..n] + "\n", n + NewLineLength(t[n..]),
               Load(t[n + NewLineLength(t[n..])..], tag, blanks, order))
  {
    hide Same, LineLength, NewLineLength, Behind, IsComment, Blank, NewLines;
  }

  lemma BehindBehind(a: string, m: nat, b: string, n: nat, r: Loading)
    ensures Behind(a, m, Behind(b, n, r)) == Behind(a + b, m + n, r)
  {
    assert a + (b + r.text) == a + b + r.text;
  }

  /** The state of the scan at the beginning of a line. */
  ghost predicate Scanning(s: seq<char>, before: seq<char>, start: nat, to: nat, at: nat, out: string, t: string,
                           r: Loading, tag: Option<string>, blanks: bool, order: Order)
  {
    && Compacting(s, before, start, to, at, out) && IsTextAt(before, start, t) && at - start <= |t| && '\0' !in out
    && Behind(out, at - start, Load(t[at - start..], tag, blanks, order)) == r
    && (out == "" && at > start ==> tag.None? && at - start < |t| && IsComment(t[at - start]))
  }

  lemma ScanHere(s: seq<char>, before: seq<char>, start: nat, to: nat, at: nat, out: string, t: string)
    requires Compacting(s, before, start, to, at, out) && IsTextAt(before, start, t) && at - start <= |t|
    ensures IsTextAt(s, at, t[at - start..]) && Terminated(s, at) && TextAt(s, at) == t[at - start..]
  {
    var rest := t[at - start..];
    LineInBuffer(before, start, t, at - start);
    assert s[at..at + |rest|] == s[at..][..|rest|] == before[at..][..|rest|] == before[at..at + |rest|];
    assert s[at + |rest|] == s[at..][|rest|] == before[at..][|rest|];
    TextIs(s, at, rest);
  }

  lemma CommentHere(s: seq<char>, at: nat, t: string, k: nat)
    requires IsTextAt(s, at, t) && k <= |t|
    ensures at + k < |s| && (IsComment(s[at + k]) <==> k < |t| && IsComment(t[k]))
  {
    assert k < |t| ==> s[at + k] == t[k];
  }

  /** What becomes of a line at `p` that is no comment, behind `out`. */
  lemma BlankGoes(out: string, t: string, p: nat, k: nat, n: nat, blanks: bool, order: Order)
    requires p <= |t| && Blank(t[p..]) == (k, n) && (p == |t| || !IsComment(t[p]))
    ensures Behind(out, p, Load(t[p..], None, blanks, order))
      == if blanks && p + k < |t| && IsComment(t[p + k])
          then Behind(out + NewLines(n), p + k, Load(t[p + k..], None, blanks, order))
         else Loading(out, p, NoComment)
  {
    hide Load, Blank, IsComment, NewLines;
    var rest := t[p..];
    LoadBlank(rest, None, blanks, order);
    SliceLater(t, p, k);
    BehindBehind(out, p, NewLines(n), k, Load(rest[k..], None, blanks, order));
    assert out + "" == out;
    assert p + k < |t| ==> rest[k] == t[p + k];
  }

  /** What the look-ahead finds at a line that is no comment. */
  lemma BlankAhead(s: seq<char>, before: seq<char>, start: nat, to: nat, at: nat, out: string, t: string, r: Loading,
                   blanks: bool, order: Order)
    requires Scanning(s, before, start, to, at, out, t, r, None, blanks, order) && !IsComment(s[at])
    ensures start <= to <= at <= start + |t| && Terminated(s, at) && TextAt(s, at) == t[at - start..]
    ensures Compacting(s, before, start, to, at, out) && IsTextAt(before, start, t) && '\0' !in out
    ensures var (k, n) := Blank(t[at - start..]);
      && n <= k && at + k < |s| && s[at + k] == before[at + k]
      && (!(blanks && IsComment(s[at + k])) ==> r == Loading(out, at - start, NoComment))
      && (blanks && IsComment(s[at + k])
          ==> r == Behind(out + NewLines(n), at - start + k, Load(t[at - start + k..], None, blanks, order)))
  {
    hide Load, IsTextAt, Blank, NulAt, Terminated, IsComment, NewLines, TextAt, Behind;
    var p := at - start;
    var (k, n) := Blank(t[p..]);
    ScanHere(s, before, start, to, at, out, t);
    CommentHere(s, at, t[p..], 0);
    CommentHere(s, at, t[p..], k);
    BlankGoes(out, t, p, k, n, blanks, order);
    assert k < |t[p..]| ==> t[p..][k] == t[p + k];
    assert s[at..][k] == before[at..][k];
  }

  lemma ScanOn(s: seq<char>, before: seq<char>, start: nat, to: nat, at: nat, out: string, t: string, r: Loading,
               blanks: bool, order: Order)
    requires Compacting(s, before, start, to, at, out) && IsTextAt(before, start, t) && at - start <= |t|
    requires '\0' !in out
    requires r == Behind(out, at - start, Load(t[at - start..], None, blanks, order)) && IsComment(before[at])
    ensures start <= to <= at <= start + |t| && at < |s|
    ensures Scanning(s, before, start, to, at, out, t, r, None, blanks, order) && IsComment(s[at])
  {
    hide Load, IsTextAt, NulAt, Terminated, IsComment;
    LineInBuffer(before, start, t, at - start);
    CommentHere(before, at, t[at - start..], 0);
    assert s[at] == s[at..][0] == before[at..][0] == before[at];
  }

  lemma CommentEnds(s: seq<char>, before: seq<char>, start: nat, to: nat, at: nat, out: string, t: string, r: Loading,
                    blanks: bool, order: Order)
    requires Scanning(s, before, start, to, at, out, t, r, None, blanks, order) && !IsComment(s[at])
    requires r == Loading(out, at - start, NoComment)
    ensures at > start ==> Scanned(s, before, start, to, at, out, t, r)
    ensures s[..start] == before[..start] && s[at..] == before[at..]
  {
    hide Load, IsTextAt, IsComment;
    LineInBuffer(before, start, t, at - start);
    CommentHere(before, at, t[at - start..], 0);
    assert s[at] == s[at..][0] == before[at..][0] == before[at];
    assert s[at + 1..] == s[at..][1..] == before[at..][1..] == before[at + 1..];
  }

  /** Without a tag, at a line that is no comment: are there blank lines that belong to one? */
  method TakeBlankLines(buf: array<char>, to: nat, at: nat, blanks: bool, ghost before: seq<char>, ghost start: nat,
                        ghost out: string, ghost t: string, ghost r: Loading, ghost order: Order)
    returns (more: bool, to': nat, at': nat, ghost out': string)
    requires at < buf.Length && Scanning(buf[..], before, start, to, at, out, t, r, None, blanks, order)
    requires !IsComment(buf[at])
    modifies buf
    ensures start <= to' <= at' && at <= at' <= start + |t|
    ensures more ==>
      at' < buf.Length && IsComment(buf[at'])
          && Scanning(buf[..], before, start, to', at', out', t, r, None, blanks, order)
    ensures !more ==> r == Loading(out', at' - start, NoComment)
    ensures !more ==> buf[..start] == before[..start] && buf[at'..] == before[at'..]
    ensures !more && at' > start ==> Scanned(buf[..], before, start, to', at', out', t, r)
  {
    hide Load, IsTextAt, Blank, NulAt, Terminated, IsComment, Scanning, Compacting, TextAt, NewLines, Scanned;
    more, to', at', out' := false, to, at, out;
    BlankAhead(buf[..], before, start, to, at, out, t, r, blanks, order);
    if blanks {
      var pCurr, nNewLines := ReadAhead(buf, at);
      if IsComment(buf[pCurr]) {
        to' := WriteNewLines(buf, to, nNewLines, before, start, at, pCurr, out);
        more, at', out' := true, pCurr, out + NewLines(nNewLines);
        CleanOut(out, nNewLines);
        ScanOn(buf[..], before, start, to', at', out', t, r, blanks, order);
      }
    }
    if !more {
      CommentEnds(buf[..], before, start, to, at, out, t, r, blanks, order);
    }
  }

  lemma CleanOut(out: string, n: nat)
    requires '\0' !in out
    ensures '\0' !in out + NewLines(n)
  {
  }

  /** What becomes of the line at `p`, behind `out`. */
  function LineLoads(out: string, t: string, p: nat, tag: Option<string>, blanks: bool, order: Order): Loading
    requires p <= |t|
  {
    var line, e := t[p..][..LineLength(t[p..])], p + LineLength(t[p..]);
    if tag.Some? && Same(line, tag.value, order) then Loading(out, e, Tagged)
    else if e == |t| then Loading(out + line, e, AtEnd)
    else Behind(out + line + "\n", e + NewLineLength(t[e..]), Load(t[e + NewLineLength(t[e..])..], tag, blanks, order))
  }

  /** The three ways it can go. */
  lemma LineGoes(out: string, t: string, p: nat, line: string, tag: Option<string>, blanks: bool, order: Order,
                 r: Loading)
    requires p <= |t| && line == t[p..][..LineLength(t[p..])] && r == LineLoads(out, t, p, tag, blanks, order)
    ensures tag.Some? && Same(line, tag.value, order) ==> r == Loading(out, p + |line|, Tagged)
    ensures !(tag.Some? && Same(line, tag.value, order)) && p + |line| == |t| ==>
      r == Loading(out + line, p + |line|, AtEnd)
    ensures !(tag.Some? && Same(line, tag.value, order)) && p + |line| < |t| ==>
      && p + |line| + NewLineLength(t[p + |line|..]) <= |t|
      && r == Behind(out + line + "\n", p + |line| + NewLineLength(t[p + |line|..]),
                     Load(t[p + |line| + NewLineLength(t[p + |line|..])..], tag, blanks, order))
  {
    hide Load, Same, LineLength, NewLineLength;
  }

  lemma LineAhead(out: string, t: string, p: nat, tag: Option<string>, blanks: bool, order: Order)
    requires p <= |t| && (tag.Some? || (p < |t| && IsComment(t[p])))
    ensures Behind(out, p, Load(t[p..], tag, blanks, order)) == LineLoads(out, t, p, tag, blanks, order)
  {
    hide Load, IsComment, Same, LineLength, NewLineLength;
    var rest := t[p..];
    LoadLine(rest, tag, blanks, order);
    var n := LineLength(rest);
    assert out + "" == out && rest[..|rest|] == rest;
    SliceLater(t, p, n);
    if n < |rest| {
      var m := n + NewLineLength(rest[n..]);
      SliceLater(t, p, m);
      BehindBehind(out, p, rest[..n] + "\n", m, Load(rest[m..], tag, blanks, order));
      assert out + (rest[..n] + "\n") == out + rest[..n] + "\n";
    }
  }

  /** What the buffer and the text say about a line that was taken. */
  lemma TakenFacts(s: seq<char>, before: seq<char>, start: nat, to: nat, e: nat, out: string, line: string, t: string)
    requires Taken(s, before, start, to, e, out, line) && IsTextAt(before, start, t) && start <= e && e - start <= |t|
    ensures start <= to && to + |line| <= e < |s| == |before| && to == start + |out|
    ensures s[..start] == before[..start] && s[start..to + |line|] == out + line && s[e + 1..] == before[e + 1..]
    ensures '\0' !in line
    ensures Terminated(before, e) && TextAt(before, e) == t[e - start..]
    ensures Terminated(s, to) && TextAt(s, to) == line
  {
    hide TextAt, NulAt, Terminated;
    assert s[start..to + |line|] == s[start..to] + s[to..to + |line|];
    LineInBuffer(before, start, t, e - start);
    TextIs(before, e, t[e - start..]);
    TextIs(s, to, line);
  }

  lemma TagScanned(s: seq<char>, before: seq<char>, start: nat, to: nat, e: nat, out: string, line: string, t: string,
                   r: Loading)
    requires Taken(s, before, start, to, e, out, line) && IsTextAt(before, start, t) && '\0' !in out && start > 0
    requires r == Loading(out, e - start, Tagged) && r.used <= |t|
    requires out == "" ==> line == t[..r.used]
    ensures Scanned(s, before, start, to, e, out, t, r)
  {
    if out == "" {
      assert s[start..e] == s[to..to + |line|] == line;
    }
  }

  lemma ScanBehindLine(s: seq<char>, before: seq<char>, start: nat, to: nat, at: nat, out: string, t: string,
                       r: Loading, tag: Option<string>, blanks: bool, order: Order)
    requires Compacting(s, before, start, to, at, out + "\n") && IsTextAt(before, start, t) && at - start <= |t|
    requires '\0' !in out
    requires r == Behind(out + "\n", at - start, Load(t[at - start..], tag, blanks, order))
    ensures Scanning(s, before, start, to, at, out + "\n", t, r, tag, blanks, order)
  {
    hide Load, IsTextAt;
  }

  /** The line that is next, put in its place. */
  method TakeTextLine(buf: array<char>, to: nat, at: nat, order: Order, ghost before: seq<char>, ghost start: nat,
                      ghost out: string, ghost t: string, ghost r: Loading, ghost tag: Option<string>,
                      ghost blanks: bool)
    returns (e: nat, cEndOfLineChar: char, ghost line: string)
    requires at < buf.Length && Scanning(buf[..], before, start, to, at, out, t, r, tag, blanks, order)
    requires tag.Some? || IsComment(buf[at])
    modifies buf
    ensures Taken(buf[..], before, start, to, e, out, line) && at <= e && e - start <= |t|
    ensures cEndOfLineChar == before[e] && (cEndOfLineChar == '\0' <==> e - start == |t|)
    ensures line == t[at - start..][..LineLength(t[at - start..])] && e == at + |line|
    ensures r == LineLoads(out, t, at - start, tag, blanks, order)
    ensures '\0' !in out && IsTextAt(before, start, t) && (out == "" && tag.Some? ==> at == start)
  {
    hide Load, IsTextAt, NulAt, Terminated, IsComment, TextAt, LineLength, LineLoads, Taken;
    ghost var s0, rest := buf[..], t[at - start..];
    ScanHere(s0, before, start, to, at, out, t);
    CommentHere(s0, at, rest, 0);
    LineAhead(out, t, at - start, tag, blanks, order);
    e, cEndOfLineChar := TakeLine(buf, to, at);
    line := rest[..e - at];
    LineTaken(s0, buf[..], before, start, to, at, e, out, line);
  }

  /** On from a line that does not end the text. */
  method NextLine(buf: array<char>, to: nat, e: nat, lineLength: nat, cEndOfLineChar: char, ghost before: seq<char>,
                  ghost start: nat, ghost at: nat, ghost out: string, ghost line: string, ghost t: string,
                  ghost r: Loading, ghost tag: Option<string>, ghost blanks: bool, ghost order: Order)
    returns (to': nat, at': nat)
    requires Taken(buf[..], before, start, to, e, out, line) && IsTextAt(before, start, t) && '\0' !in out
    requires start <= at && lineLength == |line| && e == at + |line| && e - start < |t| && cEndOfLineChar == before[e]
    requires line == t[at - start..][..LineLength(t[at - start..])]
    requires r == LineLoads(out, t, at - start, tag, blanks, order)
    requires !(tag.Some? && Same(line, tag.value, order))
    modifies buf
    ensures start <= to' <= at' <= start + |t| && at < at' < buf.Length
    ensures Scanning(buf[..], before, start, to', at', out + line + "\n", t, r, tag, blanks, order)
  {
    hide Load, LineLength, NewLineLength, TextAt, NulAt, Terminated, Same, IsTextAt, LineLoads, Behind, Scanning;
    TakenFacts(buf[..], before, start, to, e, out, line, t);
    LineGoes(out, t, at - start, line, tag, blanks, order, r);
    to', at' := EndLine(buf, to + lineLength, e, cEndOfLineChar, before, start, out + line);
    ScanBehindLine(buf[..], before, start, to', at', out + line, t, r, tag, blanks, order);
  }

  /** The tag's name stands in front of the text, where the buffer keeps it. */
  lemma TagKept(s: seq<char>, before: seq<char>, start: nat, tagName: nat)
    requires start <= |s| && start <= |before| && s[..start] == before[..start] && Terminated(before[..start], tagName)
    ensures Terminated(s, tagName) && TextAt(s, tagName) == TextAt(before[..start], tagName) && start > 0
  {
    TextKept(s, start, tagName);
  }

  /** Is the line that was put in place the tag, if there is one? */
  method IsTagLine(buf: array<char>, to: nat, tagName: Option<nat>, order: Order, ghost before: seq<char>,
                   ghost start: nat, ghost e: nat, ghost out: string, ghost line: string, ghost tag: Option<string>)
    returns (tagged: bool)
    requires Taken(buf[..], before, start, to, e, out, line)
    requires if tagName.Some? then start <= |before| && Terminated(before[..start], tagName.value)
        && tag == Some(TextAt(before[..start], tagName.value))
             else tag == None
    ensures tagged <==> tag.Some? && Same(line, tag.value, order)
    ensures tag.Some? ==> start > 0
  {
    hide TextAt, NulAt, Terminated, Same, IsTextAt;
    tagged := false;
    TextIs(buf[..], to, line);
    if tagName.Some? {
      TagKept(buf[..], before, start, tagName.value);
      tagged := IsTag(buf, to, tagName.value, order);
    }
  }

  /** One line of the scan: it is the tag, it ends the data, or scanning goes on behind it. */
  method ScanLine(buf: array<char>, to: nat, at: nat, tagName: Option<nat>, order: Order, ghost before: seq<char>,
                  ghost start: nat, ghost out: string, ghost t: string, ghost r: Loading, ghost tag: Option<string>,
                  ghost blanks: bool)
    returns (stop: Option<Stop>, to': nat, at': nat, cEndOfLineChar: char, ghost out': string)
    requires at < buf.Length && Scanning(buf[..], before, start, to, at, out, t, r, tag, blanks, order)
    requires start <= at <= start + |t| && r.used <= |t| && (tag.Some? || IsComment(buf[at]))
    requires if tagName.Some? then start <= |before| && Terminated(before[..start], tagName.value)
        && tag == Some(TextAt(before[..start], tagName.value))
             else tag == None
    modifies buf
    ensures match stop
      case None => at < at' < buf.Length && start <= to' <= at' <= start + |t|
          && Scanning(buf[..], before, start, to', at', out', t, r, tag, blanks, order)
      case Some(AtEnd) => r.stop == AtEnd && LoadedAs(buf[..], before, start, at', t, r)
      case Some(Tagged) => tagName.Some? && r.stop == Tagged && start <= at'
          && Scanned(buf[..], before, start, to', at', out', t, r) && cEndOfLineChar == before[at']
      case Some(NoComment) => false
  {
    hide *;
    ghost var line;
    stop, to', at', out' := None, to, at, out;
    var e;
    e, cEndOfLineChar, line := TakeTextLine(buf, to, at, order, before, start, out, t, r, tag, blanks);
    TakenFacts(buf[..], before, start, to, e, out, line, t);
    LineGoes(out, t, at - start, line, tag, blanks, order, r);
    var tagged := IsTagLine(buf, to, tagName, order, before, start, e, out, line, tag);
    if tagged {
      TagScanned(buf[..], before, start, to, e, out, line, t, r);
      stop, at' := Some(Tagged), e;
    } else if cEndOfLineChar == '\0' {
      EndIsLoaded(buf[..], before, start, to, e, out, line, t, r);
      stop, at' := Some(AtEnd), e;
    } else {
      to', at' := NextLine(buf, to, e, e - at, cEndOfLineChar, before, start, at, out, line, t, r, tag, blanks, order);
      out' := out + line + "\n";
    }
  }

  /** `LoadMultiLineText`: a tag name for a value, none for a comment. */
  method LoadMultiLineText(buf: array<char>, start: nat, tagName: Option<nat>, allowBlankLinesInComment: bool,
                           order: Order)
    returns (ok: bool, data: nat, val: Option<nat>)
    requires Terminated(buf[..], start) && (tagName.Some? ==> Terminated(buf[..start], tagName.value))
    modifies buf
    ensures var before := old(buf[..]);
      var t := TextAt(before, start);
      var tag := if tagName.Some? then Some(TextAt(before[..start], tagName.value)) else None;
      var r := Load(t, tag, allowBlankLinesInComment, order);
      if NothingLoaded(r) then
        && !ok && val == None && data == start < buf.Length
        && buf[..] == if tagName.Some? then before[start := '\0'] else before
      else ok && val == Some(start) && LoadedAs(buf[..], before, start, data, t, r)
  {
    hide Load, TextAt, NulAt, Terminated, IsTextAt, LoadedAs, IsComment, Scanning;
    ghost var before, t := buf[..], TextAt(buf[..], start);
    ghost var tag := if tagName.Some? then Some(TextAt(before[..start], tagName.value)) else None;
    ghost var r := Load(t, tag, allowBlankLinesInComment, order);
    ghost var out := "";
    ScanStarts(before, start, t, r, tag, allowBlankLinesInComment, order);
    var to, at, cEndOfLineChar := start, start, buf[start];
    while true
      invariant start <= to <= at <= start + |t| && at < buf.Length
      invariant Scanning(buf[..], before, start, to, at, out, t, r, tag, allowBlankLinesInComment, order)
      decreases start + |t| - at, if tag.None? && !IsComment(buf[at]) then 1 else 0
    {
      if tagName.None? && !IsComment(buf[at]) {
        var more;
        more, to, at, out := TakeBlankLines(buf, to, at, allowBlankLinesInComment, before, start, out, t, r, order);
        if more {
          continue;
        }
        break;
      }
      var stop;
      stop, to, at, cEndOfLineChar, out := ScanLine(buf, to, at, tagName, order, before, start, out, t, r, tag,
                                                    allowBlankLinesInComment);
      if stop == Some(Tagged) {
        break;
      }
      if stop == Some(AtEnd) {
        return true, at, Some(start);
      }
    }
    if at == start {
      OneChanged(buf[..], before, start, tagName.Some?);
      return false, at, None;
    }
    data := Finish(buf, to, at, tagName.Some?, cEndOfLineChar, before, start, out, t, r);
    return true, data, Some(start);
  }

  /** Nothing has been changed but the place where a tag was looked for. */
  lemma OneChanged(s: seq<char>, before: seq<char>, start: nat, tagged: bool)
    requires start < |s| == |before| && s[..start] == before[..start] && s[start + 1..] == before[start + 1..]
    requires s[start] == if tagged then '\0' else before[start]
    ensures s == if tagged then before[start := '\0'] else before
  {
    assert s == s[..start] + [s[start]] + s[start + 1..];
    assert before == before[..start] + [before[start]] + before[start + 1..];
  }

  lemma ScanStarts(before: seq<char>, start: nat, t: string, r: Loading, tag: Option<string>, blanks: bool,
                   order: Order)
    requires Terminated(before, start) && t == TextAt(before, start) && r == Load(t, tag, blanks, order)
    ensures start + |t| < |before| && Scanning(before, before, start, start, start, "", t, r, tag, blanks, order)
  {
    hide Load;
    TextIsThere(before, start);
    assert t[0..] == t && "" + r.text == r.text;
  }
}
