/**
  The bracket functions of cpplint: `CloseExpression` and `ReverseCloseExpression` scan over lines in opposite
  directions and undo each other; `_GetTextInside` keeps a stack.
 */
module CppLint {
  import opened Wrappers
  import opened Brackets

  // ---------------------------------------------------------------- one line

  /** What `FindEndOfExpressionInLine` stops behind. */
  predicate EndsBefore(line: string, startpos: int, depth: int, startchar: char, endchar: char, i: int) {
    startpos < i <= |line| && 0 <= startpos && line[i - 1] == endchar
        && depth + Net(line, startpos, i, startchar, endchar) == 0
  }

  ghost predicate NoEnd(line: string, startpos: int, depth: int, startchar: char, endchar: char, to: int) {
    forall j :: startpos < j <= to ==> !EndsBefore(line, startpos, depth, startchar, endchar, j)
  }

  method FindEndOfExpressionInLine(line: string, startpos: nat, depth: int, startchar: char, endchar: char)
    returns (endPos: int, newDepth: int)
    requires startpos <= |line| && startchar != endchar
    ensures if endPos > -1 then
        && newDepth == 0 && EndsBefore(line, startpos, depth, startchar, endchar, endPos)
        && NoEnd(line, startpos, depth, startchar, endchar, endPos - 1)
      else
        && endPos == -1 && newDepth == depth + Net(line, startpos, |line|, startchar, endchar)
        && NoEnd(line, startpos, depth, startchar, endchar, |line|)
  {
    hide Balance;
    newDepth := depth;
    NetNothing(line, startpos, startchar, endchar);
    for i := startpos to |line|
      invariant newDepth == depth + Net(line, startpos, i, startchar, endchar)
      invariant NoEnd(line, startpos, depth, startchar, endchar, i)
    {
      NetSplit(line, startpos, i, i + 1, startchar, endchar);
      NetOne(line, i, startchar, endchar);
      if line[i] == startchar {
        newDepth := newDepth + 1;
      } else if line[i] == endchar {
        newDepth := newDepth - 1;
        if newDepth == 0 {
          return i + 1, 0;
        }
      }
    }
    endPos := -1;
  }

  lemma NetNothing(t: string, i: nat, s: char, e: char)
    ensures Net(t, i, i, s, e) == 0
  {
  }

  /** What `FindStartOfExpressionInLine` stops at, when it starts in front of `end`. */
  predicate StartsAt(line: string, end: int, depth: int, startchar: char, endchar: char, i: int) {
    0 <= i < end <= |line| && line[i] == startchar && depth - Net(line, i, end, startchar, endchar) == 0
  }

  ghost predicate NoStart(line: string, end: int, depth: int, startchar: char, endchar: char, from: int) {
    forall j :: from <= j < end ==> !StartsAt(line, end, depth, startchar, endchar, j)
  }

  method FindStartOfExpressionInLine(line: string, endpos: int, depth: int, startchar: char, endchar: char)
    returns (startPos: int, newDepth: int)
    requires -1 <= endpos < |line| && startchar != endchar
    ensures if startPos > -1 then
        && newDepth == 0 && StartsAt(line, endpos + 1, depth, startchar, endchar, startPos)
        && NoStart(line, endpos + 1, depth, startchar, endchar, startPos + 1)
      else
        && startPos == -1 && newDepth == depth - Net(line, 0, endpos + 1, startchar, endchar)
        && NoStart(line, endpos + 1, depth, startchar, endchar, 0)
  {
    hide Balance;
    newDepth := depth;
    var end := endpos + 1;
    NetNothing(line, end, startchar, endchar);
    for i := end downto 0
      invariant newDepth == depth - Net(line, i, end, startchar, endchar)
      invariant NoStart(line, end, depth, startchar, endchar, i)
    {
      NetSplit(line, i, i + 1, end, startchar, endchar);
      NetOne(line, i, startchar, endchar);
      if line[i] == endchar {
        newDepth := newDepth + 1;
      } else if line[i] == startchar {
        newDepth := newDepth - 1;
        if newDepth == 0 {
          return i, 0;
        }
      }
    }
    startPos := -1;
  }

  // ---------------------------------------------------------------- lines as one text

  /** The lines one behind the other. */
  function Flat(lines: seq<string>): string
    decreases |lines|
  {
    if lines == [] then "" else lines[0] + Flat(lines[1..])
  }

  /** Where a place in a line is in that text. */
  function Offset(lines: seq<string>, linenum: nat, pos: int): int
    requires linenum <= |lines|
  {
    |Flat(lines[..linenum])| + pos
  }

  lemma {:induction false} FlatConcat(a: seq<string>, b: seq<string>)
    ensures Flat(a + b) == Flat(a) + Flat(b)
    decreases |a|
  {
    if a == [] {
      assert a + b == b;
    } else {
      assert (a + b)[1..] == a[1..] + b;
      FlatConcat(a[1..], b);
    }
  }

  lemma FlatOne(line: string)
    ensures Flat([line]) == line
  {
    assert [line][1..] == [];
  }

  /** A line within the text. */
  lemma LineInFlat(lines: seq<string>, n: nat)
    requires n < |lines|
    ensures var o := Offset(lines, n, 0);
      && 0 <= o && o + |lines[n]| == Offset(lines, n + 1, 0) <= |Flat(lines)|
      && Flat(lines)[o..o + |lines[n]|] == lines[n]
  {
    hide Flat;
    var before, line, behind := lines[..n], lines[n], lines[n + 1..];
    assert lines == before + [line] + behind;
    assert lines[..n + 1] == before + [line];
    FlatConcat(before + [line], behind);
    FlatConcat(before, [line]);
    FlatOne(line);
  }

  lemma AllFlat(lines: seq<string>)
    ensures Offset(lines, 0, 0) == 0 && Offset(lines, |lines|, 0) == |Flat(lines)|
  {
    assert lines[..|lines|] == lines;
  }

  // ---------------------------------------------------------------- scanning over lines

  /** Scanning forward from `p` the count has not come back to zero up to `to`. */
  ghost predicate StillOpen(t: string, p: nat, to: int, s: char, e: char) {
    p < |t| && t[p] == s && p <= to <= |t| && forall k :: p < k <= to ==> Net(t, p, k, s, e) != 0
  }

  /** Within the line at `o` the count of the text is the count that the line is scanned with. */
  lemma {:induction false} LineKeepsOpen(t: string, p: nat, o: nat, line: string, from: nat, depth: int, s: char,
                                         e: char, j: nat)
    requires s != e && from <= j <= |line| && o + |line| <= |t| && t[o..o + |line|] == line
    requires StillOpen(t, p, o + from, s, e) && depth == Net(t, p, o + from, s, e)
    requires NoEnd(line, from, depth, s, e, j)
    ensures StillOpen(t, p, o + j, s, e) && Net(t, p, o + j, s, e) == depth + Net(line, from, j, s, e)
    decreases j
  {
    hide Net;
    if j == from {
      NetNothing(line, from, s, e);
    } else {
      LineKeepsOpen(t, p, o, line, from, depth, s, e, j - 1);
      LineStep(t, p, o, line, from, j - 1, s, e);
      assert !EndsBefore(line, from, depth, s, e, j);
      if p < o + j - 1 {
        StaysOpen(t, p, o + j - 1, s, e);
      }
    }
  }

  /** One character more, in the line and in the text. */
  lemma LineStep(t: string, p: nat, o: nat, line: string, from: nat, j: nat, s: char, e: char)
    requires from <= j < |line| && o + |line| <= |t| && t[o..o + |line|] == line && p <= o + j
    ensures line[j] == t[o + j]
    ensures Net(t, p, o + j + 1, s, e) == Net(t, p, o + j, s, e) + Step(line[j], s, e)
    ensures Net(line, from, j + 1, s, e) == Net(line, from, j, s, e) + Step(line[j], s, e)
    ensures p == o + j ==> Net(t, p, o + j, s, e) == 0
  {
    hide Net;
    assert line[j] == t[o..o + |line|][j];
    NetSplit(t, p, o + j, o + j + 1, s, e);
    NetSplit(line, from, j, j + 1, s, e);
    NetOne(t, o + j, s, e);
    NetOne(line, j, s, e);
    NetNothing(t, p, s, e);
  }

  /** The end found in a line is where the whole scan ends. */
  lemma LineCloses(t: string, p: nat, o: nat, line: string, from: nat, depth: int, s: char, e: char, i: nat)
    requires s != e && from <= |line| && o + |line| <= |t| && t[o..o + |line|] == line
    requires StillOpen(t, p, o + from, s, e) && depth == Net(t, p, o + from, s, e)
    requires EndsBefore(line, from, depth, s, e, i) && NoEnd(line, from, depth, s, e, i - 1)
    ensures o + i - 1 > p && FirstClose(t, p, o + i - 1, s, e)
  {
    hide Net;
    LineKeepsOpen(t, p, o, line, from, depth, s, e, i - 1);
    LineStep(t, p, o, line, from, i - 1, s, e);
  }

  lemma NeverCloses(t: string, p: nat, s: char, e: char)
    requires StillOpen(t, p, |t|, s, e)
    ensures forall q: nat :: !FirstClose(t, p, q, s, e)
  {
    hide Net;
    forall q: nat ensures !FirstClose(t, p, q, s, e) {
      assert q < |t| && p < q ==> Net(t, p, q + 1, s, e) != 0;
    }
  }

  /** Scanning backward from in front of `end` the count has not come back to zero down to `from`. */
  ghost predicate StillClosed(t: string, end: int, from: int, s: char, e: char) {
    0 < end <= |t| && t[end - 1] == e && 0 <= from <= end && NotOpenBefore(t, from - 1, end, s, e)
  }

  lemma {:induction false} StaysClosed(t: string, end: int, k: int, s: char, e: char)
    requires 0 <= k < end && StillClosed(t, end, k, s, e) && s != e
    ensures Net(t, k, end, s, e) < 0
    decreases end - k
  {
    hide Net;
    NetOne(t, k, s, e);
    if k < end - 1 {
      StaysClosed(t, end, k + 1, s, e);
      NetSplit(t, k, k + 1, end, s, e);
    }
  }

  lemma {:induction false} LineKeepsClosed(t: string, end: nat, o: nat, line: string, edge: nat, depth: int, s: char,
                                           e: char, j: nat)
    requires s != e && j <= edge <= |line| && o + |line| <= |t| && t[o..o + |line|] == line
    requires StillClosed(t, end, o + edge, s, e) && depth + Net(t, o + edge, end, s, e) == 0
    requires NoStart(line, edge, depth, s, e, j)
    ensures StillClosed(t, end, o + j, s, e) && Net(t, o + j, end, s, e) == Net(line, j, edge, s, e) - depth
    decreases edge - j
  {
    hide Net;
    if j == edge {
      NetNothing(line, edge, s, e);
    } else {
      LineKeepsClosed(t, end, o, line, edge, depth, s, e, j + 1);
      LineStepBack(t, end, o, line, edge, j, s, e);
      assert !StartsAt(line, edge, depth, s, e, j);
      if o + j + 1 < end {
        StaysClosed(t, end, o + j + 1, s, e);
      }
    }
  }

  lemma LineStepBack(t: string, end: nat, o: nat, line: string, edge: nat, j: nat, s: char, e: char)
    requires j < edge <= |line| && o + |line| <= |t| && t[o..o + |line|] == line && o + j < end <= |t|
    ensures line[j] == t[o + j]
    ensures Net(t, o + j, end, s, e) == Step(line[j], s, e) + Net(t, o + j + 1, end, s, e)
    ensures Net(line, j, edge, s, e) == Step(line[j], s, e) + Net(line, j + 1, edge, s, e)
    ensures o + j + 1 == end ==> Net(t, o + j + 1, end, s, e) == 0
  {
    hide Net;
    assert line[j] == t[o..o + |line|][j];
    NetSplit(t, o + j, o + j + 1, end, s, e);
    NetSplit(line, j, j + 1, edge, s, e);
    NetOne(t, o + j, s, e);
    NetOne(line, j, s, e);
    NetNothing(t, end, s, e);
  }

  lemma LineOpens(t: string, end: nat, o: nat, line: string, edge: nat, depth: int, s: char, e: char, i: nat)
    requires s != e && edge <= |line| && o + |line| <= |t| && t[o..o + |line|] == line
    requires StillClosed(t, end, o + edge, s, e) && depth + Net(t, o + edge, end, s, e) == 0
    requires StartsAt(line, edge, depth, s, e, i) && NoStart(line, edge, depth, s, e, i + 1)
    ensures o + i < end - 1 && LastOpen(t, o + i, end - 1, s, e)
  {
    hide Net;
    LineKeepsClosed(t, end, o, line, edge, depth, s, e, i + 1);
    LineStepBack(t, end, o, line, edge, i, s, e);
  }

  lemma NeverOpens(t: string, q: nat, s: char, e: char)
    requires StillClosed(t, q + 1, 0, s, e)
    ensures forall p: nat :: !LastOpen(t, p, q, s, e)
  {
    hide Net;
    var end := q + 1;
    forall p: nat ensures !LastOpen(t, p, q, s, e) {
      assert p < end ==> Net(t, p, end, s, e) != 0;
    }
  }

  // ---------------------------------------------------------------- the two functions

  predicate Opener(c: char) {
    c == '(' || c == '{' || c == '[' || c == '<'
  }

  function CloserOf(c: char): char {
    if c == '(' then ')' else if c == '[' then ']' else if c == '{' then '}' else '>'
  }

  predicate Closer(c: char) {
    c == ')' || c == '}' || c == ']' || c == '>'
  }

  function OpenerOf(c: char): char {
    if c == ')' then '(' else if c == ']' then '[' else if c == '}' then '{' else '<'
  }

  /** There is such a place. */
  predicate Place(lines: seq<string>, linenum: int, pos: int) {
    0 <= linenum < |lines| && 0 <= pos < |lines[linenum]|
  }

  /** The opening bracket at the first place is closed at the second one. */
  ghost predicate Closes(lines: seq<string>, linenum: int, pos: int, linenum': int, pos': int)
  {
    && Place(lines, linenum, pos) && Place(lines, linenum', pos') && Opener(lines[linenum][pos])
    && FirstClose(Flat(lines), Offset(lines, linenum, pos), Offset(lines, linenum', pos'), lines[linenum][pos],
        CloserOf(lines[linenum][pos]))
  }

  /** The closing bracket at the second place is opened at the first one. */
  ghost predicate Opens(lines: seq<string>, linenum: int, pos: int, linenum': int, pos': int)
  {
    && Place(lines, linenum, pos) && Place(lines, linenum', pos') && Closer(lines[linenum'][pos'])
    && LastOpen(Flat(lines), Offset(lines, linenum, pos), Offset(lines, linenum', pos'),
        OpenerOf(lines[linenum'][pos']), lines[linenum'][pos'])
  }

  lemma CharInFlat(lines: seq<string>, linenum: nat, pos: nat)
    requires Place(lines, linenum, pos)
    ensures 0 <= Offset(lines, linenum, pos) < |Flat(lines)|
    ensures Flat(lines)[Offset(lines, linenum, pos)] == lines[linenum][pos]
  {
    LineInFlat(lines, linenum);
    var o := Offset(lines, linenum, 0);
    assert Flat(lines)[o..o + |lines[linenum]|][pos] == lines[linenum][pos];
  }

  /** `CloseExpression` and `ReverseCloseExpression` look for the same pairs. */
  lemma ClosesIffOpens(lines: seq<string>, linenum: int, pos: int, linenum': int, pos': int)
    ensures Closes(lines, linenum, pos, linenum', pos') <==> Opens(lines, linenum, pos, linenum', pos')
  {
    hide Flat, FirstClose, LastOpen;
    if Place(lines, linenum, pos) && Place(lines, linenum', pos') {
      CharInFlat(lines, linenum, pos);
      CharInFlat(lines, linenum', pos');
      SameBrackets(lines, linenum, pos, linenum', pos');
    }
  }

  lemma SameBrackets(lines: seq<string>, linenum: nat, pos: nat, linenum': nat, pos': nat)
    requires Place(lines, linenum, pos) && Place(lines, linenum', pos')
    requires 0 <= Offset(lines, linenum, pos) < |Flat(lines)|
    requires Flat(lines)[Offset(lines, linenum, pos)] == lines[linenum][pos]
    requires 0 <= Offset(lines, linenum', pos') < |Flat(lines)|
    requires Flat(lines)[Offset(lines, linenum', pos')] == lines[linenum'][pos']
    ensures Closes(lines, linenum, pos, linenum', pos') <==> Opens(lines, linenum, pos, linenum', pos')
  {
    hide Flat, Offset;
    var t, p, q := Flat(lines), Offset(lines, linenum, pos), Offset(lines, linenum', pos');
    var s, e := lines[linenum][pos], lines[linenum'][pos'];
    ScansInvert(t, p, q, s, CloserOf(s));
    ScansInvert(t, p, q, OpenerOf(e), e);
  }

  lemma CloseFound(lines: seq<string>, linenum: nat, pos: nat, n: nat, i: nat)
    requires Place(lines, linenum, pos) && Place(lines, n, i) && Opener(lines[linenum][pos])
    requires Offset(lines, n, 0) + i >= 0 && Offset(lines, linenum, pos) >= 0
    requires FirstClose(Flat(lines), Offset(lines, linenum, pos), Offset(lines, n, 0) + i, lines[linenum][pos],
        CloserOf(lines[linenum][pos]))
    ensures Closes(lines, linenum, pos, n, i)
  {
    hide FirstClose, Flat;
  }

  lemma NoCloseFound(lines: seq<string>, linenum: nat, pos: nat)
    requires Place(lines, linenum, pos) && Offset(lines, linenum, pos) >= 0
    requires StillOpen(Flat(lines), Offset(lines, linenum, pos), |Flat(lines)|, lines[linenum][pos],
        CloserOf(lines[linenum][pos]))
    ensures forall n, i :: !Closes(lines, linenum, pos, n, i)
  {
    hide FirstClose, Flat;
    NeverCloses(Flat(lines), Offset(lines, linenum, pos), lines[linenum][pos], CloserOf(lines[linenum][pos]));
  }

  lemma NoOpener(lines: seq<string>, linenum: nat, pos: nat)
    requires Place(lines, linenum, pos) && !Opener(lines[linenum][pos])
    ensures forall n, i :: !Closes(lines, linenum, pos, n, i)
  {
  }

  /** `CloseExpression` */
  method CloseExpression(elided: seq<string>, linenum: nat, pos: nat) returns (line: string, linenum': nat, pos': int)
    requires Place(elided, linenum, pos)
    ensures if pos' > -1 then linenum' < |elided| && line == elided[linenum']
        && Closes(elided, linenum, pos, linenum', pos' - 1)
      else
        && pos' == -1 && linenum' == |elided| && (forall n, i :: !Closes(elided, linenum, pos, n, i))
        && line == if elided[linenum][pos] in "([{<" then elided[|elided| - 1] else elided[linenum]
    ensures pos' > -1 ==>
      (elided[linenum][pos], line[pos' - 1]) in {('(', ')'), ('[', ']'), ('{', '}'), ('<', '>')}
  {
    hide Flat, Net, FirstClose, Offset, NoEnd, StillOpen, Closes;
    line, linenum' := elided[linenum], linenum;
    var startchar := line[pos];
    if !Opener(startchar) {
      NoOpener(elided, linenum, pos);
      return line, |elided|, -1;
    }
    var endchar := CloserOf(startchar);
    ghost var t, p := Flat(elided), Offset(elided, linenum, pos);
    ScanStarts(elided, linenum, pos, startchar, endchar);
    LineInFlat(elided, linenum);
    var endPos, numOpen := FindEndOfExpressionInLine(line, pos, 0, startchar, endchar);
    ghost var o := Offset(elided, linenum, 0);
    if endPos > -1 {
      LineCloses(t, p, o, line, pos, 0, startchar, endchar, endPos);
      CloseFound(elided, linenum, pos, linenum, endPos - 1);
      return line, linenum, endPos;
    }
    LineKeepsOpen(t, p, o, line, pos, 0, startchar, endchar, |line|);
    while linenum' < |elided| - 1
      invariant linenum <= linenum' < |elided| && line == elided[linenum']
      invariant StillOpen(t, p, Offset(elided, linenum' + 1, 0), startchar, endchar)
      invariant numOpen == Net(t, p, Offset(elided, linenum' + 1, 0), startchar, endchar)
    {
      linenum' := linenum' + 1;
      line := elided[linenum'];
      ghost var depth := numOpen;
      LineInFlat(elided, linenum');
      o := Offset(elided, linenum', 0);
      endPos, numOpen := FindEndOfExpressionInLine(line, 0, numOpen, startchar, endchar);
      if endPos > -1 {
        LineCloses(t, p, o, line, 0, depth, startchar, endchar, endPos);
        CloseFound(elided, linenum, pos, linenum', endPos - 1);
        return line, linenum', endPos;
      }
      LineKeepsOpen(t, p, o, line, 0, depth, startchar, endchar, |line|);
    }
    AllFlat(elided);
    NoCloseFound(elided, linenum, pos);
    return line, |elided|, -1;
  }

  lemma ScanStarts(lines: seq<string>, linenum: nat, pos: nat, s: char, e: char)
    requires Place(lines, linenum, pos) && lines[linenum][pos] == s
    ensures 0 <= Offset(lines, linenum, pos) == Offset(lines, linenum, 0) + pos
    ensures StillOpen(Flat(lines), Offset(lines, linenum, pos), Offset(lines, linenum, pos), s, e)
    ensures Net(Flat(lines), Offset(lines, linenum, pos), Offset(lines, linenum, pos), s, e) == 0
  {
    hide Net, Flat;
    CharInFlat(lines, linenum, pos);
    NetNothing(Flat(lines), Offset(lines, linenum, pos), s, e);
  }

  // backward

  lemma OpenFound(lines: seq<string>, linenum: nat, pos: nat, n: nat, i: nat)
    requires Place(lines, linenum, pos) && Place(lines, n, i) && Closer(lines[linenum][pos])
    requires Offset(lines, n, 0) + i >= 0 && Offset(lines, linenum, pos) >= 0
    requires LastOpen(Flat(lines), Offset(lines, n, 0) + i, Offset(lines, linenum, pos),
        OpenerOf(lines[linenum][pos]), lines[linenum][pos])
    ensures Opens(lines, n, i, linenum, pos)
  {
    hide LastOpen, Flat;
  }

  lemma NoOpenFound(lines: seq<string>, linenum: nat, pos: nat)
    requires Place(lines, linenum, pos) && Offset(lines, linenum, pos) >= 0
    requires StillClosed(Flat(lines), Offset(lines, linenum, pos) + 1, 0,
        OpenerOf(lines[linenum][pos]), lines[linenum][pos])
    ensures forall n, i :: !Opens(lines, n, i, linenum, pos)
  {
    hide LastOpen, Flat;
    NeverOpens(Flat(lines), Offset(lines, linenum, pos), OpenerOf(lines[linenum][pos]), lines[linenum][pos]);
  }

  lemma NoCloser(lines: seq<string>, linenum: nat, pos: nat)
    requires Place(lines, linenum, pos) && !Closer(lines[linenum][pos])
    ensures forall n, i :: !Opens(lines, n, i, linenum, pos)
  {
  }

  lemma ScanStartsBack(lines: seq<string>, linenum: nat, pos: nat, s: char, e: char)
    requires Place(lines, linenum, pos) && lines[linenum][pos] == e
    ensures 0 <= Offset(lines, linenum, pos) == Offset(lines, linenum, 0) + pos
    ensures var end := Offset(lines, linenum, pos) + 1;
      StillClosed(Flat(lines), end, end, s, e) && Net(Flat(lines), end, end, s, e) == 0
  {
    hide Net, Flat;
    CharInFlat(lines, linenum, pos);
    NetNothing(Flat(lines), Offset(lines, linenum, pos) + 1, s, e);
  }

  /** `ReverseCloseExpression` */
  method ReverseCloseExpression(elided: seq<string>, linenum: nat, pos: nat)
    returns (line: string, linenum': nat, pos': int)
    requires Place(elided, linenum, pos)
    ensures if pos' > -1 then linenum' < |elided| && line == elided[linenum']
        && Opens(elided, linenum', pos', linenum, pos)
      else
        && pos' == -1 && linenum' == 0 && (forall n, i :: !Opens(elided, n, i, linenum, pos))
        && line == if elided[linenum][pos] in ")]}>" then elided[0] else elided[linenum]
    ensures pos' > -1 ==>
      (line[pos'], elided[linenum][pos]) in {('(', ')'), ('[', ']'), ('{', '}'), ('<', '>')}
  {
    hide Flat, Net, LastOpen, Offset, NoStart, StillClosed, Opens;
    line, linenum' := elided[linenum], linenum;
    var endchar := line[pos];
    if !Closer(endchar) {
      NoCloser(elided, linenum, pos);
      return line, 0, -1;
    }
    var startchar := OpenerOf(endchar);
    ghost var t, end := Flat(elided), Offset(elided, linenum, pos) + 1;
    ScanStartsBack(elided, linenum, pos, startchar, endchar);
    LineInFlat(elided, linenum);
    var startPos, numOpen := FindStartOfExpressionInLine(line, pos, 0, startchar, endchar);
    ghost var o := Offset(elided, linenum, 0);
    if startPos > -1 {
      LineOpens(t, end, o, line, pos + 1, 0, startchar, endchar, startPos);
      OpenFound(elided, linenum, pos, linenum, startPos);
      return line, linenum, startPos;
    }
    LineKeepsClosed(t, end, o, line, pos + 1, 0, startchar, endchar, 0);
    while linenum' > 0
      invariant linenum' <= linenum && line == elided[linenum']
      invariant 0 <= Offset(elided, linenum', 0)
      invariant StillClosed(t, end, Offset(elided, linenum', 0), startchar, endchar)
      invariant numOpen + Net(t, Offset(elided, linenum', 0), end, startchar, endchar) == 0
    {
      linenum' := linenum' - 1;
      line := elided[linenum'];
      ghost var depth := numOpen;
      LineInFlat(elided, linenum');
      o := Offset(elided, linenum', 0);
      startPos, numOpen := FindStartOfExpressionInLine(line, |line| - 1, numOpen, startchar, endchar);
      if startPos > -1 {
        LineOpens(t, end, o, line, |line|, depth, startchar, endchar, startPos);
        OpenFound(elided, linenum, pos, linenum', startPos);
        return line, linenum', startPos;
      }
      LineKeepsClosed(t, end, o, line, |line|, depth, startchar, endchar, 0);
    }
    AllFlat(elided);
    NoOpenFound(elided, linenum, pos);
    return line, 0, -1;
  }

  // ---------------------------------------------------------------- what the two together mean

  lemma {:induction false} OffsetsGrow(lines: seq<string>, n: nat, m: nat)
    requires n <= m <= |lines|
    ensures Offset(lines, n, 0) <= Offset(lines, m, 0)
    decreases m - n
  {
    hide Offset;
    if n < m {
      LineInFlat(lines, n);
      OffsetsGrow(lines, n + 1, m);
    }
  }

  lemma OffsetPlus(lines: seq<string>, n: nat, i: int)
    requires n <= |lines|
    ensures Offset(lines, n, i) == Offset(lines, n, 0) + i
  {
  }

  /** Different places are different in the text. */
  lemma PlacesDiffer(lines: seq<string>, n: nat, i: nat, m: nat, j: nat)
    requires Place(lines, n, i) && Place(lines, m, j) && Offset(lines, n, i) == Offset(lines, m, j)
    ensures n == m && i == j
  {
    hide Offset, Flat;
    OffsetPlus(lines, n, i);
    OffsetPlus(lines, m, j);
    LineInFlat(lines, n);
    LineInFlat(lines, m);
    if n < m {
      OffsetsGrow(lines, n + 1, m);
    } else if m < n {
      OffsetsGrow(lines, m + 1, n);
    }
  }

  /**
    Each of the two undoes the other: from the bracket where `CloseExpression` ends the only place that
    `ReverseCloseExpression` can give is where it began, and it gives one; and the other way round.
   */
  lemma BracketsInvert(lines: seq<string>, linenum: int, pos: int, linenum': int, pos': int, n: int, i: int)
    ensures Closes(lines, linenum, pos, linenum', pos') <==> Opens(lines, linenum, pos, linenum', pos')
    ensures Closes(lines, linenum, pos, linenum', pos') && Opens(lines, n, i, linenum', pos') ==>
      n == linenum && i == pos
    ensures Opens(lines, linenum, pos, linenum', pos') && Closes(lines, linenum, pos, n, i) ==>
      n == linenum' && i == pos'
  {
    hide Flat, Offset, FirstClose, LastOpen;
    ClosesIffOpens(lines, linenum, pos, linenum', pos');
    if Closes(lines, linenum, pos, linenum', pos') {
      if Opens(lines, n, i, linenum', pos') {
        ClosesIffOpens(lines, n, i, linenum', pos');
        SameEnds(lines, linenum, pos, linenum', pos', n, i, linenum', pos');
      }
      if Closes(lines, linenum, pos, n, i) {
        SameEnds(lines, linenum, pos, linenum', pos', linenum, pos, n, i);
      }
    }
  }

  lemma SameEnds(lines: seq<string>, a: nat, i: nat, b: nat, j: nat, c: nat, k: nat, d: nat, l: nat)
    requires Closes(lines, a, i, b, j) && Closes(lines, c, k, d, l) && ((a == c && i == k) || (b == d && j == l))
    ensures a == c && i == k && b == d && j == l
  {
    hide Flat, Offset, FirstClose;
    CharInFlat(lines, a, i);
    CharInFlat(lines, b, j);
    CharInFlat(lines, c, k);
    CharInFlat(lines, d, l);
    EndsAgree(lines, a, i, b, j);
    EndsAgree(lines, c, k, d, l);
    OnlyOne(Flat(lines), Offset(lines, a, i), Offset(lines, b, j), Offset(lines, c, k), Offset(lines, d, l),
            lines[a][i], CloserOf(lines[a][i]));
    PlacesDiffer(lines, a, i, c, k);
    PlacesDiffer(lines, b, j, d, l);
  }

  lemma EndsAgree(lines: seq<string>, n: nat, i: nat, m: nat, j: nat)
    requires Closes(lines, n, i, m, j)
    ensures lines[m][j] == CloserOf(lines[n][i]) && Offset(lines, n, i) < Offset(lines, m, j)
  {
    hide Flat, Offset;
    CharInFlat(lines, n, i);
    CharInFlat(lines, m, j);
  }

  /** And what they find is a balanced word over that kind of bracket, between its brackets. */
  lemma ClosesIsBalanced(lines: seq<string>, linenum: nat, pos: nat, linenum': nat, pos': nat)
    requires Place(lines, linenum, pos) && Place(lines, linenum', pos')
    requires 0 <= Offset(lines, linenum, pos) < Offset(lines, linenum', pos') < |Flat(lines)|
    ensures var s, e, t := lines[linenum][pos], lines[linenum'][pos'], Flat(lines);
      Closes(lines, linenum, pos, linenum', pos') <==>
      && (s, e) in {('(', ')'), ('[', ']'), ('{', '}'), ('<', '>')}
      && Balanced(t[Offset(lines, linenum, pos) + 1..Offset(lines, linenum', pos')], map[s := e])
  {
    hide Flat, Offset, FirstClose, Balanced;
    CharInFlat(lines, linenum, pos);
    CharInFlat(lines, linenum', pos');
    var s := lines[linenum][pos];
    if Opener(s) {
      FirstCloseIsBalanced(Flat(lines), Offset(lines, linenum, pos), Offset(lines, linenum', pos'), s, CloserOf(s));
    }
  }

  // ---------------------------------------------------------------- _GetTextInside

  const MATCHING_PUNCTUATION: Kinds := map['(' := ')', '{' := '}', '[' := ']']

  /** `_GetTextInside`, from where the start pattern matched; none if it did not. */
  method GetTextInside(text: string, matchEnd: Option<nat>) returns (inside: Option<string>)
    requires matchEnd.Some? ==> 0 < matchEnd.value <= |text| && text[matchEnd.value - 1] in MATCHING_PUNCTUATION
    ensures matchEnd.None? ==> inside.None?
    ensures matchEnd.Some? ==>
      match inside
      case Some(w) => Inside(text, matchEnd.value, w, map['(' := ')', '{' := '}', '[' := ']'])
      case None => forall w :: !Inside(text, matchEnd.value, w, map['(' := ')', '{' := '}', '[' := ']'])
  {
    hide Balanced;
    if matchEnd.None? {
      return None;
    }
    var start := matchEnd.value;
    var stack := [MATCHING_PUNCTUATION[text[start - 1]]];
    var position := start;
    ghost var found := Scan(text[start..], stack, MATCHING_PUNCTUATION);
    while stack != [] && position < |text|
      invariant start <= position <= |text|
      invariant found == if Scan(text[position..], stack, MATCHING_PUNCTUATION) < 0 then -1
                         else position - start + Scan(text[position..], stack, MATCHING_PUNCTUATION)
      decreases |text| - position
    {
      assert text[position..][1..] == text[position + 1..];
      var c := text[position];
      if c == stack[|stack| - 1] {
        stack := stack[..|stack| - 1];
      } else if c in MATCHING_PUNCTUATION.Values {
        NotInside(text, start, found);
        return None;
      } else if c in MATCHING_PUNCTUATION {
        stack := stack + [MATCHING_PUNCTUATION[c]];
      }
      position := position + 1;
    }
    NotInside(text, start, found);
    if stack != [] {
      return None;
    }
    inside := Some(text[start..position - 1]);
    IsInside(text, start, found);
  }

  lemma NotInside(text: string, start: nat, found: int)
    requires 0 < start <= |text| && text[start - 1] in MATCHING_PUNCTUATION
    requires found == Scan(text[start..], [MATCHING_PUNCTUATION[text[start - 1]]], MATCHING_PUNCTUATION)
    ensures found < 0 ==> forall w :: !Inside(text, start, w, MATCHING_PUNCTUATION)
  {
    hide Balanced, Scan;
    if found < 0 {
      forall w ensures !Inside(text, start, w, MATCHING_PUNCTUATION) {
        if start + |w| < |text| && text[start..start + |w|] == w {
          ScanFindsInside(text, start, w, MATCHING_PUNCTUATION);
        }
      }
    }
  }

  lemma IsInside(text: string, start: nat, found: int)
    requires 0 < start <= |text| && text[start - 1] in MATCHING_PUNCTUATION && 0 < found
    requires found == Scan(text[start..], [MATCHING_PUNCTUATION[text[start - 1]]], MATCHING_PUNCTUATION)
    ensures Inside(text, start, text[start..start + found - 1], MATCHING_PUNCTUATION)
  {
    hide Balanced, Scan;
    ScanFindsInside(text, start, text[start..start + found - 1], MATCHING_PUNCTUATION);
  }

  /** There is at most one such word. */
  lemma InsideIsUnique(text: string, start: nat, v: string, w: string)
    requires Inside(text, start, v, MATCHING_PUNCTUATION) && Inside(text, start, w, MATCHING_PUNCTUATION)
    ensures v == w
  {
    hide Balanced, Scan;
    ScanFindsInside(text, start, v, MATCHING_PUNCTUATION);
    ScanFindsInside(text, start, w, MATCHING_PUNCTUATION);
  }
}
