/**
  Multi-line values of SimpleIni: what is loaded is the lines in front of the tag, and printing a value and
  loading it again restores it, exactly when there is a line in front of the tag and no line takes it for one.
 */
module SimpleText {
  import opened Lines
  import opened Wrappers
  import opened SimpleOrder
  import opened SimpleMultiLine

  // ---------------------------------------------------------------- the lines of a text

  /** What stands behind the first line and its end. */
  function BehindLine(t: string): (rest: string)
    requires LineLength(t) < |t|
    ensures |rest| < |t|
  {
    var n := LineLength(t);
    t[n + NewLineLength(t[n..])..]
  }

  /** Split at every line end of either kind. */
  function SplitText(t: string): (lines: seq<string>)
    ensures lines != []
    decreases |t|
  {
    if LineLength(t) == |t| then [t] else [t[..LineLength(t)]] + SplitText(BehindLine(t))
  }

  /** The text with every line end made one newline: a carriage return, with or without a newline behind it. */
  function Unix(t: string): string
    decreases |t|
  {
    if t == "" then ""
    else if t[0] == '\r' && |t| > 1 && t[1] == '\n' then "\n" + Unix(t[2..])
    else (if t[0] == '\r' then "\n" else [t[0]]) + Unix(t[1..])
  }

  lemma TakeDropCons(t: string, n: nat)
    requires 0 < n <= |t|
    ensures [t[0]] + t[1..][..n - 1] == t[..n] && t[1..][n - 1..] == t[n..]
  {
  }

  lemma UnixPlain(t: string)
    requires t != "" && !IsNewLineChar(t[0])
    ensures Unix(t) == [t[0]] + Unix(t[1..])
  {
  }

  lemma {:induction false} UnixLine(t: string, n: nat)
    requires n <= |t| && forall i :: 0 <= i < n ==> !IsNewLineChar(t[i])
    ensures Unix(t) == t[..n] + Unix(t[n..])
  {
    hide NewLineLength, Unix, IsNewLineChar;
    if n == 0 {
      assert t[0..] == t;
    } else {
      UnixPlain(t);
      UnixLine(t[1..], n - 1);
      TakeDropCons(t, n);
      Regroup([t[0]], t[1..][..n - 1], Unix(t[n..]));
    }
  }

  lemma UnixNewLine(t: string)
    requires t != "" && IsNewLineChar(t[0])
    ensures Unix(t) == "\n" + Unix(t[NewLineLength(t)..])
  {
  }

  lemma UnixLineEnd(t: string, n: nat, next: nat)
    requires n == LineLength(t) < |t| && next == n + NewLineLength(t[n..])
    ensures Unix(t) == t[..n] + "\n" + Unix(t[next..])
  {
    hide *;
    var k := NewLineLength(t[n..]);
    calc {
      Unix(t);
      { UnixLine(t, n); }
      t[..n] + Unix(t[n..]);
      { UnixNewLine(t[n..]); }
      t[..n] + ("\n" + Unix(t[n..][k..]));
      { SliceLater(t, n, k); }
      t[..n] + ("\n" + Unix(t[next..]));
      { Regroup(t[..n], "\n", Unix(t[next..])); }
      t[..n] + "\n" + Unix(t[next..]);
    }
  }

  lemma {:induction false} JoinSplit(t: string)
    ensures Join(SplitText(t)) == Unix(t)
    decreases |t|
  {
    hide Unix, Join, NewLineLength;
    var n := LineLength(t);
    if n == |t| {
      UnixLine(t, n);
      assert t[n..] == "" && t[..n] == t;
      UnixEmpty();
      JoinOne(t);
    } else {
      var next := n + NewLineLength(t[n..]);
      UnixLineEnd(t, n, next);
      JoinSplit(t[next..]);
      JoinConcat([t[..n]], SplitText(t[next..]));
      JoinOne(t[..n]);
    }
  }

  lemma UnixEmpty()
    ensures Unix("") == ""
  {
  }

  /** The first line that is taken for the tag; the number of lines if none is. */
  function TagLine(lines: seq<string>, tag: string, order: Order): (i: nat)
    ensures i <= |lines| && (i < |lines| ==> Same(lines[i], tag, order))
    ensures forall j :: 0 <= j < i ==> !Same(lines[j], tag, order)
    decreases |lines|
  {
    if lines == [] || Same(lines[0], tag, order) then 0 else 1 + TagLine(lines[1..], tag, order)
  }

  /** Each line with its newline. */
  function Ended(lines: seq<string>): string
    decreases |lines|
  {
    if lines == [] then "" else lines[0] + "\n" + Ended(lines[1..])
  }

  lemma {:induction false} EndedIsJoined(lines: seq<string>)
    requires lines != []
    ensures Ended(lines) == Join(lines) + "\n"
    decreases |lines|
  {
    if |lines| == 1 {
      assert Ended(lines[1..]) == "";
      assert lines[0] + "\n" + "" == lines[0] + "\n";
    } else {
      EndedIsJoined(lines[1..]);
      assert lines[0] + "\n" + (Join(lines[1..]) + "\n") == lines[0] + "\n" + Join(lines[1..]) + "\n";
    }
  }

  // ---------------------------------------------------------------- loading up to a tag

  lemma PassedBehind(t: string, text: string, next: nat, r: Loading)
    requires next <= |t| && r.used <= |t[next..]|
    ensures Passed(t, Behind(text, next, r)) == next + Passed(t[next..], r) <= |t|
    ensures t[Passed(t, Behind(text, next, r))..] == t[next..][Passed(t[next..], r)..]
  {
    SliceLater(t, next, r.used);
    SliceLater(t, next, Passed(t[next..], r));
  }

  /** What the scan finds, in terms of the lines: which of them it keeps, and where it leaves the pointer. */
  ghost predicate LoadsLines(t: string, lines: seq<string>, i: nat, r: Loading)
    requires i <= |lines|
  {
    if i < |lines| then
      && r.stop == Tagged && r.text == Ended(lines[..i]) && r.used <= |t|
      && (if i + 1 < |lines| then SplitText(t[Passed(t, r)..]) == lines[i + 1..] else Passed(t, r) == |t|)
    else r == Loading(Join(lines), |t|, AtEnd)
  }

  lemma {:induction false} LoadLines(t: string, tag: string, blanks: bool, order: Order)
    ensures LoadsLines(t, SplitText(t), TagLine(SplitText(t), tag, order), Load(t, Some(tag), blanks, order))
    decreases |t|
  {
    hide *;
    var n := LineLength(t);
    LoadLine(t, Some(tag), blanks, order);
    SplitStep(t, n);
    if n < |t| {
      var next := n + NewLineLength(t[n..]);
      var rest := SplitText(t[next..]);
      TagLineStep(t[..n], rest, tag, order);
      if Same(t[..n], tag, order) {
        TagHere(t);
      } else {
        LoadLines(t[next..], tag, blanks, order);
        LinesBehind(t, t[..n], rest, TagLine(rest, tag, order), next, Load(t[next..], Some(tag), blanks, order));
      }
    } else {
      assert t[..n] == t && [t] + [] == [t];
      TagLineStep(t, [], tag, order);
      if Same(t, tag, order) {
        TagHere(t);
      } else {
        NoTagHere(t);
      }
    }
  }

  lemma TagLineStep(line: string, rest: seq<string>, tag: string, order: Order)
    ensures TagLine([line] + rest, tag, order) == if Same(line, tag, order) then 0 else 1 + TagLine(rest, tag, order)
    ensures TagLine([], tag, order) == 0
  {
    hide Same;
    assert ([line] + rest)[1..] == rest;
  }

  lemma SplitStep(t: string, n: nat)
    requires n == LineLength(t)
    ensures n == |t| ==> SplitText(t) == [t]
    ensures n < |t| ==> SplitText(t) == [t[..n]] + SplitText(t[n + NewLineLength(t[n..])..])
  {
    SplitBehind(t);
    hide SplitText, NewLineLength, LineLength;
    assert n < |t| ==> BehindLine(t) == t[n + NewLineLength(t[n..])..];
  }

  lemma SplitBehind(t: string)
    ensures SplitText(t) == if LineLength(t) == |t| then [t] else [t[..LineLength(t)]] + SplitText(BehindLine(t))
  {
    hide BehindLine, LineLength;
  }

  lemma TagHere(t: string)
    ensures LoadsLines(t, SplitText(t), 0, Loading("", LineLength(t), Tagged))
  {
    hide NewLineLength, LineLength, SplitText, Ended, Passed;
    var n, lines := LineLength(t), SplitText(t);
    NothingEnded(lines);
    PassedHere(t, n);
    SplitStep(t, LineLength(t));
    assert lines[0 + 1..] == lines[1..];
  }

  lemma PassedHere(t: string, n: nat)
    requires n <= |t|
    ensures Passed(t, Loading("", n, Tagged)) == if n < |t| then n + NewLineLength(t[n..]) else n
  {
  }

  lemma NothingEnded(lines: seq<string>)
    ensures Ended(lines[..0]) == ""
  {
  }

  lemma NoTagHere(t: string)
    ensures LoadsLines(t, [t], 1, Loading(t, |t|, AtEnd))
  {
  }

  /** A line in front of what is loaded. */
  lemma LinesBehind(t: string, line: string, rest: seq<string>, i: nat, next: nat, r: Loading)
    requires next <= |t| && i <= |rest| && rest != [] && LoadsLines(t[next..], rest, i, r)
    ensures LoadsLines(t, [line] + rest, i + 1, Behind(line + "\n", next, r))
  {
    hide Join, SplitText, Passed;
    var lines := [line] + rest;
    PassedBehind(t, line + "\n", next, r);
    if i < |rest| {
      assert lines[..i + 1] == [line] + rest[..i];
      assert ([line] + rest[..i])[1..] == rest[..i];
      assert lines[i + 2..] == rest[i + 1..];
    } else {
      JoinConcat([line], rest);
      JoinOne(line);
    }
  }

  /**
    The value that is loaded is the lines in front of the tag, if the first line is not the tag. If it is,
    the value is something else: everything from the tag on, or nothing at all.
   */
  lemma LoadedIffTextFirst(t: string, tag: string, blanks: bool, order: Order)
    ensures var lines, r := SplitText(t), Load(t, Some(tag), blanks, order);
      && (!NothingLoaded(r) && Shown(t, r) == Join(lines[..TagLine(lines, tag, order)])
          <==> !Same(lines[0], tag, order))
      && (!NothingLoaded(r) && Same(lines[0], tag, order) ==> Shown(t, r) == t)
  {
    hide Same, Load, SplitText, Passed, Ended, Join;
    LoadLines(t, tag, blanks, order);
    var lines, r := SplitText(t), Load(t, Some(tag), blanks, order);
    var i := TagLine(lines, tag, order);
    NothingEnded(lines);
    NothingJoined(lines);
    if 0 < i < |lines| {
      EndedIsJoined(lines[..i]);
      var front := Join(lines[..i]);
      assert (front + "\n")[..|front|] == front;
    } else if i == |lines| {
      assert lines[..i] == lines;
    }
  }

  lemma NothingJoined(lines: seq<string>)
    ensures Join(lines[..0]) == ""
  {
  }

  /** Nothing at all is loaded exactly if the tag is empty and the first line is. */
  lemma EmptyTagFails(t: string, tag: string, blanks: bool, order: Order)
    ensures NothingLoaded(Load(t, Some(tag), blanks, order)) <==> tag == "" && LineLength(t) == 0
  {
    hide Load, LineLength, NewLineLength;
    LoadLine(t, Some(tag), blanks, order);
  }

  /** A tag in the first line: the value is the tag itself and what follows. */
  lemma TagInFirstLine(order: Order)
    ensures var t := "END\nkey = 1";
      var r := Load(t, Some("END"), false, order);
      SplitText(t)[0] == "END" && !NothingLoaded(r) && Shown(t, r) == t
  {
    hide Load, SplitText, NewLineLength, Folded;
    var t := "END\nkey = 1";
    LineLengthIs(t, 3);
    assert t[..3] == "END";
    LoadLine(t, Some("END"), false, order);
    SplitStep(t, LineLength(t));
  }

  // ---------------------------------------------------------------- printing

  function LineFeedAt(t: string): (n: nat)
    ensures n <= |t| && (n < |t| ==> t[n] == '\n')
  {
    if t == "" || t[0] == '\n' then 0 else 1 + LineFeedAt(t[1..])
  }

  /** Every line, split at line feeds, with the newline of the system behind it. */
  function PrintedLines(t: string, newline: string): string
    decreases |t|
  {
    var n := LineFeedAt(t);
    t[..n] + newline + if n == |t| then "" else PrintedLines(t[n + 1..], newline)
  }

  function Printed(t: string, newline: string): string {
    if t == "" then "" else PrintedLines(t, newline)
  }

  method FindLineFeed(buf: array<char>, at: nat, ghost t: string) returns (e: nat)
    requires IsTextAt(buf[..], at, t)
    ensures e == at + LineFeedAt(t)
  {
    e := at;
    assert t[0..] == t;
    while buf[e] != '\0' && buf[e] != '\n'
      invariant at <= e <= at + |t| < buf.Length
      invariant forall i :: 0 <= i < |t| ==> buf[at + i] == t[i] != '\0'
      invariant buf[at + |t|] == '\0'
      invariant (e - at) + LineFeedAt(t[e - at..]) == LineFeedAt(t)
      decreases at + |t| - e
    {
      assert t[e - at..][1..] == t[e + 1 - at..];
      e := e + 1;
    }
  }

  /** What is printed of a text, and if the conversion of a line fails, where that line ends. */
  datatype Printing = Printing(ok: bool, text: string, used: nat)

  /** Line after line, through the conversion to the store. */
  function Print(t: string, newline: string, convert: string -> Option<string>): (r: Printing)
    ensures r.used <= |t|
    decreases |t|
  {
    var n := LineFeedAt(t);
    match convert(t[..n])
    case None => Printing(false, "", n)
    case Some(line) =>
      if n == |t| then Printing(true, line + newline, n)
      else After(line + newline, n + 1, Print(t[n + 1..], newline, convert))
  }

  function After(text: string, used: nat, r: Printing): Printing {
    Printing(r.ok, text + r.text, used + r.used)
  }

  /** The text at a pointer, on its way through the conversion. */
  method ConvertToStore(buf: array<char>, at: nat, convert: string -> Option<string>, ghost t: string)
    returns (line: Option<string>)
    requires IsTextAt(buf[..], at, t)
    ensures line == convert(t)
  {
    var s := "";
    while buf[at + |s|] != '\0'
      invariant |s| <= |t| && s == t[..|s|] && at + |t| < buf.Length
      invariant forall i :: 0 <= i < |t| ==> buf[at + i] == t[i] != '\0'
      invariant buf[at + |t|] == '\0'
      decreases |t| - |s|
    {
      s := s + [buf[at + |s|]];
    }
    assert s == t;
    line := convert(s);
  }

  lemma AfterAfter(a: string, m: nat, b: string, n: nat, r: Printing)
    ensures After(a, m, After(b, n, r)) == After(a + b, m + n, r)
  {
    Regroup(a, b, r.text);
  }

  /** `out` has been printed of the first `passed` characters, and `rest` is still to be printed. */
  ghost predicate InPrint(all: Printing, out: string, passed: nat, rest: string, newline: string,
                          convert: string -> Option<string>) {
    all == After(out, passed, Print(rest, newline, convert))
  }

  lemma PrintStep(all: Printing, out: string, passed: nat, t: string, newline: string,
                  convert: string -> Option<string>, n: nat)
    requires InPrint(all, out, passed, t, newline, convert) && n == LineFeedAt(t)
    ensures convert(t[..n]).None? ==> all == Printing(false, out, passed + n)
    ensures convert(t[..n]).Some? && n == |t| ==>
      all == Printing(true, out + (convert(t[..n]).value + newline), passed + n)
    ensures convert(t[..n]).Some? && n < |t| ==>
      InPrint(all, out + (convert(t[..n]).value + newline), passed + (n + 1), t[n + 1..], newline, convert)
  {
    hide LineFeedAt, After, Print;
    PrintOnce(t, newline, convert, n);
    if convert(t[..n]).Some? && n < |t| {
      AfterAfter(out, passed, convert(t[..n]).value + newline, n + 1, Print(t[n + 1..], newline, convert));
    } else {
      AfterIs(out, passed, Print(t, newline, convert));
    }
  }

  lemma PrintOnce(t: string, newline: string, convert: string -> Option<string>, n: nat)
    requires n == LineFeedAt(t)
    ensures convert(t[..n]).None? ==> Print(t, newline, convert) == Printing(false, "", n)
    ensures convert(t[..n]).Some? && n == |t| ==>
      Print(t, newline, convert) == Printing(true, convert(t[..n]).value + newline, n)
    ensures convert(t[..n]).Some? && n < |t| ==>
      Print(t, newline, convert) == After(convert(t[..n]).value + newline, n + 1, Print(t[n + 1..], newline, convert))
  {
    hide LineFeedAt, After;
  }

  /** Where the store holds the characters that the output has, nothing fails and every line is printed as it is. */
  lemma {:induction false} PrintsAsItIs(t: string, newline: string)
    ensures Print(t, newline, line => Some(line)) == Printing(true, PrintedLines(t, newline), |t|)
    decreases |t|
  {
    hide LineFeedAt, Print;
    var n := LineFeedAt(t);
    PrintOnce(t, newline, line => Some(line), n);
    if n < |t| {
      PrintsAsItIs(t[n + 1..], newline);
    } else {
      assert t[..n] == t && t[..n] + newline + "" == t[..n] + newline;
    }
  }

  lemma {:induction false} FeedBehind(line: string, tail: string)
    requires '\n' !in line && (tail == "" || tail[0] == '\n')
    ensures LineFeedAt(line + tail) == |line|
  {
    if line == "" {
      assert line + tail == tail;
    } else {
      assert (line + tail)[1..] == line[1..] + tail;
      FeedBehind(line[1..], tail);
    }
  }

  /** The first `n` lines, converted, each with the newline of the system behind it. */
  function ConvertedLines(lines: seq<string>, n: nat, newline: string, convert: string -> Option<string>): string
    requires n <= |lines| && forall i :: 0 <= i < n ==> convert(lines[i]).Some?
    decreases n
  {
    if n == 0 then "" else convert(lines[0]).value + newline + ConvertedLines(lines[1..], n - 1, newline, convert)
  }

  /**
    Lines with newlines between them are printed one by one up to the first that cannot be converted; printing stops
    where that one ends.
   */
  lemma {:induction false} PrintIs(lines: seq<string>, n: nat, newline: string, convert: string -> Option<string>)
    requires lines != [] && n <= |lines| && forall i :: 0 <= i < |lines| ==> '\n' !in lines[i]
    requires (forall i :: 0 <= i < n ==> convert(lines[i]).Some?) && (n < |lines| ==> convert(lines[n]).None?)
    ensures Print(Join(lines), newline, convert)
      == Printing(n == |lines|, ConvertedLines(lines, n, newline, convert),
                  |Join(if n == |lines| then lines else lines[..n + 1])|)
    decreases |lines|
  {
    hide Join, LineFeedAt, Print;
    var line, rest := lines[0], lines[1..];
    assert lines == [line] + rest;
    JoinOne(line);
    if rest == [] {
      FeedBehind(line, "");
      assert line + "" == line && line[..|line|] == line && lines[..1] == [line];
      PrintOnce(line, newline, convert, |line|);
      assert lines == [line] && Join(lines) == line;
      if n == 1 {
        var own := convert(line).value + newline;
        assert ConvertedLines(lines, 1, newline, convert) == own + "" == own;
      }
    } else {
      var t, tail := Join(lines), "\n" + Join(rest);
      JoinConcat([line], rest);
      assert t == line + tail;
      FeedBehind(line, tail);
      PrintOnce(t, newline, convert, |line|);
      assert t[..|line|] == line && t[|line| + 1..] == Join(rest);
      if n > 0 {
        PrintIs(rest, n - 1, newline, convert);
        if n < |lines| {
          assert lines[..n + 1] == [line] + rest[..n];
          JoinConcat([line], rest[..n]);
        }
      } else {
        assert lines[..1] == [line];
      }
    }
  }

  lemma AfterIs(out: string, passed: nat, r: Printing)
    ensures After(out, passed, r) == Printing(r.ok, out + r.text, passed + r.used) && out + "" == out
  {
  }

  /** A line that is ended in place, for as long as it is converted. */
  lemma LineEnded(s: seq<char>, after: seq<char>, at: nat, t: string, n: nat)
    requires IsTextAt(s, at, t) && n <= |t| && |after| == |s| && after == s[at + n := '\0']
    ensures IsTextAt(after, at, t[..n])
  {
    assert s[at..at + |t|][..n] == s[at..at + n] == after[at..at + n];
  }

  /** One line: it is ended in place, converted, and put back together unless the conversion fails. */
  method PrintLine(buf: array<char>, pText: nat, convert: string -> Option<string>, ghost rest: string)
    returns (line: Option<string>, pEndOfLine: nat, cEndOfLineChar: char)
    requires IsTextAt(buf[..], pText, rest)
    modifies buf
    ensures var n := LineFeedAt(rest);
      && pEndOfLine == pText + n < buf.Length && line == convert(rest[..n])
      && cEndOfLineChar == old(buf[..])[pEndOfLine] && (cEndOfLineChar == '\0' <==> n == |rest|)
      && buf[..] == if line.Some? then old(buf[..]) else old(buf[..])[pEndOfLine := '\0']
  {
    hide IsTextAt, LineFeedAt;
    ghost var before := buf[..];
    pEndOfLine := FindLineFeed(buf, pText, rest);
    ghost var n := LineFeedAt(rest);
    LineInBuffer(before, pText, rest, n);
    cEndOfLineChar := buf[pEndOfLine];
    buf[pEndOfLine] := '\0';
    LineEnded(before, buf[..], pText, rest, n);
    line := ConvertToStore(buf, pText, convert, rest[..n]);
    if line.Some? {
      buf[pEndOfLine] := cEndOfLineChar;
      assert buf[..] == before;
    }
  }

  /** Nothing is printed of an empty text. */
  function PrintAll(t: string, newline: string, convert: string -> Option<string>): (r: Printing)
    ensures r.used <= |t|
  {
    if t == "" then Printing(true, "", 0) else Print(t, newline, convert)
  }

  /** The buffer after printing: only where a conversion fails the line end stays zeroed. */
  ghost predicate LeftBy(after: seq<char>, before: seq<char>, start: nat, r: Printing) {
    start + r.used < |before| && after == if r.ok then before else before[start + r.used := '\0']
  }

  /** `OutputMultiLineText`. The line end that is zeroed while a line is converted is put back. */
  method OutputMultiLineText(buf: array<char>, start: nat, newline: string, convert: string -> Option<string>)
    returns (ok: bool, output: string)
    requires Terminated(buf[..], start)
    modifies buf
    ensures var r := PrintAll(old(TextAt(buf[..], start)), newline, convert);
      ok == r.ok && output == r.text && LeftBy(buf[..], old(buf[..]), start, r)
  {
    hide TextAt, NulAt, Terminated, IsTextAt, Print, PrintAll, LineFeedAt, InPrint, LeftBy;
    ghost var before, t := buf[..], TextAt(buf[..], start);
    ghost var all, rest := PrintAll(t, newline, convert), t;
    TextIsThere(before, start);
    LineInBuffer(before, start, t, 0);
    PrintStarts(t, newline, convert);
    var pText := start;
    var cEndOfLineChar := buf[pText];
    ok, output := true, "";
    while cEndOfLineChar != '\0'
      invariant buf[..] == before && start <= pText
      invariant if cEndOfLineChar == '\0' then all.ok && output == all.text
        else (pText - start <= |t| && rest == t[pText - start..]
              && InPrint(all, output, pText - start, rest, newline, convert))
      decreases if cEndOfLineChar != '\0' then start + |t| - pText + 1 else 0
    {
      ghost var passed := pText - start;
      LineInBuffer(before, start, t, passed);
      var line, pEndOfLine;
      line, pEndOfLine, cEndOfLineChar := PrintLine(buf, pText, convert, rest);
      ghost var n := pEndOfLine - pText;
      PrintStep(all, output, passed, rest, newline, convert, n);
      if line.None? {
        LeftThere(before, start, t, all);
        return false, output;
      }
      output := output + (line.value + newline);
      if cEndOfLineChar != '\0' {
        SliceLater(t, passed, n + 1);
        rest := rest[n + 1..];
      }
      pText := pText + (pEndOfLine - pText) + 1;
    }
    LeftThere(before, start, t, all);
  }

  lemma LeftThere(before: seq<char>, start: nat, t: string, r: Printing)
    requires IsTextAt(before, start, t) && r.used <= |t|
    ensures LeftBy(if r.ok then before else before[start + r.used := '\0'], before, start, r)
  {
  }

  lemma PrintStarts(t: string, newline: string, convert: string -> Option<string>)
    ensures t[0..] == t && (t == "" ==> PrintAll(t, newline, convert).ok && PrintAll(t, newline, convert).text == "")
    ensures t != "" ==> InPrint(PrintAll(t, newline, convert), "", 0, t, newline, convert)
  {
    hide Print;
    var r := Print(t, newline, convert);
    assert "" + r.text == r.text;
  }

  // ---------------------------------------------------------------- print, then load

  lemma {:induction false} LineLengthIs(t: string, n: nat)
    requires n <= |t| && (n < |t| ==> IsNewLineChar(t[n])) && forall i :: 0 <= i < n ==> !IsNewLineChar(t[i])
    ensures LineLength(t) == n
  {
  }

  lemma {:induction false} FeedEndsLine(t: string)
    requires '\r' !in t
    ensures LineLength(t) == LineFeedAt(t)
    ensures LineFeedAt(t) < |t| ==> NewLineLength(t[LineFeedAt(t)..]) == 1
  {
    if t != "" {
      assert t[0] in t;
      if t[0] != '\n' {
        FeedEndsLine(t[1..]);
        assert t[1..][LineFeedAt(t[1..])..] == t[LineFeedAt(t)..];
      }
    }
  }

  /** A line, a line end and more. */
  lemma SplitAt(line: string, newline: string, more: string)
    requires IsNewLine(newline) && forall i :: 0 <= i < |line| ==> !IsNewLineChar(line[i])
    ensures SplitText(line + newline + more) == [line] + SplitText(more)
  {
    hide SplitText;
    var t, n := line + newline + more, |line|;
    LineLengthIs(t, n);
    assert t[n..] == newline + more;
    assert NewLineLength(newline + more) == |newline|;
    assert t[n + |newline|..] == more && t[..n] == line;
    SplitStep(t, LineLength(t));
  }

  lemma {:induction false} PrintedSplits(t: string, newline: string, tail: string)
    requires IsNewLine(newline) && '\r' !in t
    ensures SplitText(PrintedLines(t, newline) + tail) == SplitText(t) + SplitText(tail)
    decreases |t|
  {
    hide SplitText, LineFeedAt, LineLength, NewLineLength, IsNewLine;
    var n := LineFeedAt(t);
    var later := if n == |t| then "" else PrintedLines(t[n + 1..], newline);
    FeedEndsLine(t);
    Regroup(t[..n] + newline, later, tail);
    SplitAt(t[..n], newline, later + tail);
    SplitStep(t, LineLength(t));
    if n < |t| {
      PrintedSplits(t[n + 1..], newline, tail);
      assert [t[..n]] + (SplitText(t[n + 1..]) + SplitText(tail)) == SplitText(t) + SplitText(tail);
    } else {
      assert later + tail == tail && t[..n] == t;
    }
  }

  lemma {:induction false} UnixIsText(t: string)
    requires '\r' !in t
    ensures Unix(t) == t
  {
    if t != "" {
      assert t == [t[0]] + t[1..];
      assert t[0] in t;
      UnixIsText(t[1..]);
    }
  }

  lemma {:induction false} SplitHasNoEnds(t: string)
    ensures forall i :: 0 <= i < |SplitText(t)| ==> '\r' !in SplitText(t)[i] && '\n' !in SplitText(t)[i]
    decreases |t|
  {
    hide NewLineLength, LineLength;
    SplitStep(t, LineLength(t));
    var n := LineLength(t);
    if n < |t| {
      SplitHasNoEnds(t[n + NewLineLength(t[n..])..]);
    }
  }

  lemma {:induction false} JoinHasNoReturn(lines: seq<string>)
    requires forall i :: 0 <= i < |lines| ==> '\r' !in lines[i]
    ensures '\r' !in Join(lines)
    decreases |lines|
  {
    if |lines| > 1 {
      JoinHasNoReturn(lines[1..]);
    }
  }

  lemma {:induction false} PrintedLonger(t: string, newline: string)
    requires newline != ""
    ensures |PrintedLines(t, newline)| > |t|
    decreases |t|
  {
    var n := LineFeedAt(t);
    if n < |t| {
      PrintedLonger(t[n + 1..], newline);
    }
  }

  // ---------------------------------------------------------------- the round trip

  /** `text` is what the value pointer shows. */
  ghost predicate Restored(text: string, t: string, r: Loading) {
    !NothingLoaded(r) && Shown(t, r) == text
  }

  /** The text and the tag line behind it, as they are printed. */
  function Written(text: string, newline: string, tag: string, after: string): string {
    Printed(text, newline) + (tag + after)
  }

  /** A tag on a line of its own. */
  lemma TagLineSplits(tag: string, after: string)
    requires '\n' !in tag && '\r' !in tag && (after == "" || IsNewLineChar(after[0]))
    ensures SplitText(tag + after)[0] == tag
    ensures after == "" ==> SplitText(tag + after) == [tag]
    ensures after != "" ==> SplitText(tag + after) == [tag] + SplitText(after[NewLineLength(after)..])
  {
    hide SplitText, LineLength, NewLineLength;
    var t, n := tag + after, |tag|;
    LineLengthIs(t, n);
    SplitStep(t, LineLength(t));
    assert t[..n] == tag && t[n..] == after;
    SliceLater(t, n, if after == "" then 0 else NewLineLength(after));
  }

  lemma TagLineConcat(a: seq<string>, b: seq<string>, tag: string, order: Order)
    requires b != [] && Same(b[0], tag, order)
    ensures TagLine(a + b, tag, order) == TagLine(a, tag, order)
  {
    hide Same;
    var i, j := TagLine(a + b, tag, order), TagLine(a, tag, order);
    assert (a + b)[|a|] == b[0];
    assert forall k :: 0 <= k < |a| ==> (a + b)[k] == a[k];
  }

  lemma FrontIsShorter(lines: seq<string>, i: nat)
    requires 0 < i < |lines|
    ensures |Join(lines[..i])| < |Join(lines)|
  {
    hide Join;
    JoinConcat(lines[..i], lines[i..]);
    assert lines[..i] + lines[i..] == lines;
  }

  /** No line of `text` is taken for the tag. */
  predicate NoTagIn(text: string, tag: string, order: Order) {
    TagLine(SplitText(text), tag, order) == |SplitText(text)|
  }

  lemma RestoredHasNoReturn(text: string, t: string, tag: string, blanks: bool, order: Order)
    requires |t| > |text| && Restored(text, t, Load(t, Some(tag), blanks, order))
    ensures '\r' !in text && text == Join(SplitText(t)[..TagLine(SplitText(t), tag, order)])
    ensures TagLine(SplitText(t), tag, order) > 0
  {
    hide Same, Load, SplitText, Passed, Ended, Join;
    var lines, i := SplitText(t), TagLine(SplitText(t), tag, order);
    LoadedIffTextFirst(t, tag, blanks, order);
    LoadLines(t, tag, blanks, order);
    NothingEnded(lines);
    SplitHasNoEnds(t);
    JoinHasNoReturn(lines[..i]);
  }

  /**
    A value that is printed in front of its tag line, with either newline, is restored when it is loaded exactly
    if it is not empty, has no carriage return, and none of its lines is taken for the tag.
   */
  lemma MultiLineRoundTrip(text: string, newline: string, tag: string, after: string, blanks: bool, order: Order)
    requires IsNewLine(newline)
    requires '\n' !in tag && '\r' !in tag && (after == "" || IsNewLineChar(after[0]))
    ensures var t := Written(text, newline, tag, after);
      Restored(text, t, Load(t, Some(tag), blanks, order)) <==> text != "" && '\r' !in text && NoTagIn(text, tag, order)
  {
    hide Same, Load, SplitText, Passed, Ended, Join, PrintedLines, Restored;
    var t := Written(text, newline, tag, after);
    TagLineSplits(tag, after);
    LoadedIffTextFirst(t, tag, blanks, order);
    if text == "" {
      assert t == tag + after;
      EmptyIsLost(t, tag, blanks, order);
    } else {
      PrintedLonger(text, newline);
      if Restored(text, t, Load(t, Some(tag), blanks, order)) {
        RestoredHasNoReturn(text, t, tag, blanks, order);
      }
      if '\r' !in text {
        CleanRoundTrip(text, t, newline, tag + after, tag, blanks, order);
      }
    }
  }

  lemma EmptyIsLost(t: string, tag: string, blanks: bool, order: Order)
    requires SplitText(t)[0] == tag
    ensures !Restored("", t, Load(t, Some(tag), blanks, order))
  {
    hide Same, Load, SplitText, Join;
    SameAsItself(tag, order);
    LoadedIffTextFirst(t, tag, blanks, order);
    NothingJoined(SplitText(t));
  }

  lemma SameAsItself(s: string, order: Order)
    ensures Same(s, s, order)
  {
  }

  lemma CleanRoundTrip(text: string, t: string, newline: string, tail: string, tag: string, blanks: bool, order: Order)
    requires IsNewLine(newline) && text != "" && '\r' !in text
    requires t == PrintedLines(text, newline) + tail && SplitText(tail)[0] == tag
    ensures Restored(text, t, Load(t, Some(tag), blanks, order)) <==> NoTagIn(text, tag, order)
  {
    hide Same, Load, SplitText, Join, PrintedLines, NothingLoaded, Shown;
    var own := SplitText(text);
    PrintedSplits(text, newline, tail);
    PrintedLonger(text, newline);
    SameAsItself(tag, order);
    TagLineConcat(own, SplitText(tail), tag, order);
    var i := TagLine(own, tag, order);
    assert SplitText(t)[..i] == own[..i];
    LoadedIffTextFirst(t, tag, blanks, order);
    JoinSplit(text);
    UnixIsText(text);
    if i == |own| {
      assert own[..i] == own;
    } else {
      if i > 0 {
        FrontIsShorter(own, i);
      }
      if Restored(text, t, Load(t, Some(tag), blanks, order)) {
        RestoredHasNoReturn(text, t, tag, blanks, order);
      }
    }
  }

  /** And parsing goes on behind the tag line. */
  lemma RoundTripGoesOn(text: string, newline: string, tag: string, after: string, blanks: bool, order: Order)
    requires IsNewLine(newline) && text != "" && '\r' !in text && NoTagIn(text, tag, order)
    requires '\n' !in tag && '\r' !in tag && (after == "" || IsNewLineChar(after[0]))
    ensures var t := Written(text, newline, tag, after);
      var r := Load(t, Some(tag), blanks, order);
      if after == "" then Passed(t, r) == |t|
      else SplitText(t[Passed(t, r)..]) == SplitText(after[NewLineLength(after)..])
  {
    hide Same, Load, SplitText, Passed, Ended, Join, PrintedLines, NewLineLength;
    var t, own := Written(text, newline, tag, after), SplitText(text);
    PrintedSplits(text, newline, tag + after);
    TagLineSplits(tag, after);
    SameAsItself(tag, order);
    TagLineConcat(own, SplitText(tag + after), tag, order);
    LoadLines(t, tag, blanks, order);
    if after != "" {
      SplitNotEmpty(after[NewLineLength(after)..]);
      assert SplitText(t)[|own| + 1..] == SplitText(after[NewLineLength(after)..]);
    }
  }

  lemma SplitNotEmpty(t: string)
    ensures SplitText(t) != []
  {
  }
}
