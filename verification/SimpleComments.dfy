/**
  Multi-line comments of SimpleIni: without a tag, what is loaded is the block of comment lines in front, each without
  the blanks it begins with, and on demand with the blank lines between them.
 */
module SimpleComments {
  import opened Lines
  import opened Wrappers
  import opened SimpleOrder
  import opened SimpleMultiLine
  import opened SimpleText

  /** A line without the blanks it begins with. */
  function Strip(line: string): (r: string)
    ensures |r| <= |line|
  {
    if line != "" && (line[0] == ' ' || line[0] == '\t' || line[0] == '\r' || line[0] == '\n') then Strip(line[1..])
    else line
  }

  function StripAll(lines: seq<string>): (r: seq<string>)
    ensures |r| == |lines|
  {
    if lines == [] then [] else [Strip(lines[0])] + StripAll(lines[1..])
  }

  predicate BlankLine(line: string) {
    Strip(line) == ""
  }

  /** Where blank lines are allowed, a comment may be indented as well. */
  predicate CommentLine(line: string, blanks: bool) {
    var s := if blanks then Strip(line) else line;
    s != "" && (s[0] == ';' || s[0] == '#')
  }

  /** A line that the block can go on behind. */
  predicate InBlock(line: string, blanks: bool) {
    CommentLine(line, blanks) || (blanks && BlankLine(line))
  }

  /** The number of lines up to the last comment line of the block in front. */
  function Block(lines: seq<string>, blanks: bool): (i: nat)
    ensures i <= |lines|
    decreases |lines|
  {
    if lines == [] || !InBlock(lines[0], blanks) then 0
    else
      var rest := Block(lines[1..], blanks);
      if CommentLine(lines[0], blanks) || rest > 0 then 1 + rest else 0
  }

  /**
    All lines in front of `i` belong to the block, the last of them is a comment, and no other comment follows in the
    block.
   */
  ghost predicate EndsBlock(lines: seq<string>, blanks: bool, i: nat)
    requires i <= |lines|
  {
    && (i > 0 ==> CommentLine(lines[i - 1], blanks)) && (forall j :: 0 <= j < i ==> InBlock(lines[j], blanks))
    && forall j :: i <= j < |lines| && CommentLine(lines[j], blanks)
        ==> exists k :: i <= k < j && !InBlock(lines[k], blanks)
  }

  lemma {:induction false} BlockEnds(lines: seq<string>, blanks: bool)
    ensures EndsBlock(lines, blanks, Block(lines, blanks))
    decreases |lines|
  {
    hide CommentLine, BlankLine;
    if lines != [] && InBlock(lines[0], blanks) {
      BlockEnds(lines[1..], blanks);
      var i, rest := Block(lines, blanks), Block(lines[1..], blanks);
      assert forall j :: 0 < j < |lines| ==> lines[j] == lines[1..][j - 1];
      forall j | i <= j < |lines| && CommentLine(lines[j], blanks)
          ensures exists k :: i <= k < j && !InBlock(lines[k], blanks) {
        var k :| rest <= k < j - 1 && !InBlock(lines[1..][k], blanks);
        assert !InBlock(lines[k + 1], blanks);
      }
    }
  }

  /** Nothing else is the end of the block. */
  lemma BlockIs(lines: seq<string>, blanks: bool, i: nat)
    requires i <= |lines|
    ensures EndsBlock(lines, blanks, i) <==> i == Block(lines, blanks)
  {
    hide CommentLine, BlankLine, Block, InBlock;
    BlockEnds(lines, blanks);
    var b := Block(lines, blanks);
    assert b > 0 ==> CommentLine(lines[b - 1], blanks);
    assert EndsBlock(lines, blanks, i) && i > 0 ==> CommentLine(lines[i - 1], blanks);
  }

  // ---------------------------------------------------------------- the white space in front

  lemma StripCons(c: char, line: string)
    requires IsSpace(c)
    ensures Strip([c] + line) == Strip(line)
  {
    assert ([c] + line)[1..] == line;
  }

  lemma EmptyFirstLine(t: string)
    requires t != "" && IsNewLineChar(t[0])
    ensures SplitText(t) == [""] + SplitText(t[NewLineLength(t)..])
  {
    hide SplitText, NewLineLength;
    assert LineLength(t) == 0;
    assert t[0..] == t && t[..0] == "";
    SplitStep(t, 0);
  }

  lemma FirstLonger(c: char, a: string, rest: seq<string>)
    ensures [[c] + ([a] + rest)[0]] + ([a] + rest)[1..] == [[c] + a] + rest
  {
    assert ([a] + rest)[1..] == rest;
  }

  lemma TakeCons(t: string, n: nat)
    requires n < |t|
    ensures [t[0]] + t[1..][..n] == t[..n + 1] && t[1..][n..] == t[n + 1..]
  {
  }

  lemma IndentedLine(t: string)
    requires t != "" && !IsNewLineChar(t[0])
    ensures SplitText(t) == [[t[0]] + SplitText(t[1..])[0]] + SplitText(t[1..])[1..]
  {
    assert LineLength(t) == 1 + LineLength(t[1..]);
    hide *;
    var n, less := LineLength(t[1..]), t[1..];
    SplitStep(t, n + 1);
    SplitStep(less, n);
    TakeCons(t, n);
    if n + 1 < |t| {
      var k := NewLineLength(less[n..]);
      SliceLater(t, 1, n + k);
      FirstLonger(t[0], less[..n], SplitText(less[n + k..]));
    } else {
      WholeLine(t, less);
      FirstLonger(t[0], less, []);
    }
  }

  lemma WholeLine(t: string, less: string)
    requires t != "" && less == t[1..]
    ensures [t] == [[t[0]] + less] + [] && [less] == [less] + []
  {
    assert t == [t[0]] + less;
  }

  /**
    `less` are the lines of a text without the blank lines in front, and without the blanks in front of the first one
    left.
   */
  ghost predicate WithoutBlanks(lines: seq<string>, n: nat, less: seq<string>) {
    n < |lines| && (forall j :: 0 <= j < n ==> BlankLine(lines[j])) && less == [Strip(lines[n])] + lines[n + 1..]
  }

  lemma MoreBlanks(first: string, rest: seq<string>, n: nat, less: seq<string>)
    requires WithoutBlanks(rest, n, less) && BlankLine(first)
    ensures WithoutBlanks([first] + rest, n + 1, less)
  {
    hide Strip, BlankLine;
    var lines := [first] + rest;
    assert lines[n + 2..] == rest[n + 1..];
  }

  lemma MoreIndented(c: char, rest: seq<string>, n: nat, less: seq<string>)
    requires WithoutBlanks(rest, n, less) && IsSpace(c)
    ensures WithoutBlanks([[c] + rest[0]] + rest[1..], n, less)
  {
    hide Strip;
    StripCons(c, rest[0]);
    var lines := [[c] + rest[0]] + rest[1..];
    assert lines[n + 1..] == rest[n + 1..];
  }

  lemma NoBlanks(t: string)
    requires t == "" || !IsSpace(t[0])
    ensures WithoutBlanks(SplitText(t), 0, SplitText(t))
  {
    hide SplitText, NewLineLength, LineLength;
    SplitStep(t, LineLength(t));
  }

  /** What stands at the first character that is no white space is the same lines, without the blank ones in front. */
  lemma {:induction false} BlankLines(t: string)
    ensures var (k, n) := Blank(t);
      WithoutBlanks(SplitText(t), n, SplitText(t[k..]))
    decreases |t|
  {
    hide SplitText, NewLineLength, LineLength, WithoutBlanks, Strip;
    if t == "" || !IsSpace(t[0]) {
      NoBlanks(t);
      assert t[0..] == t;
    } else if IsNewLineChar(t[0]) {
      var next := NewLineLength(t);
      EmptyFirstLine(t);
      BlankLines(t[next..]);
      var (k, n) := Blank(t[next..]);
      SliceLater(t, next, k);
      MoreBlanks("", SplitText(t[next..]), n, SplitText(t[next..][k..]));
    } else {
      IndentedLine(t);
      BlankLines(t[1..]);
      var (k, n) := Blank(t[1..]);
      SliceLater(t, 1, k);
      MoreIndented(t[0], SplitText(t[1..]), n, SplitText(t[1..][k..]));
    }
  }

  // ---------------------------------------------------------------- what is loaded

  /** What the scan finds, in terms of the lines. */
  ghost predicate LoadsBlock(t: string, lines: seq<string>, i: nat, r: Loading)
    requires i <= |lines|
  {
    if i < |lines| then
      && r.stop == NoComment && r.text == Ended(StripAll(lines[..i])) && r.used <= |t| && (i == 0 <==> r.used == 0)
      && SplitText(t[r.used..]) == lines[i..]
    else r == Loading(Join(StripAll(lines)), |t|, AtEnd)
  }

  /** Lines in front of what is loaded, as they are written. */
  lemma {:induction false} LinesInFront(front: seq<string>, lines: seq<string>, t: string, i: nat, next: nat,
                                        r: Loading)
    requires next <= |t| && 0 < i <= |lines| && LoadsBlock(t[next..], lines, i, r)
    ensures LoadsBlock(t, front + lines, |front| + i, Behind(Ended(StripAll(front)), next, r))
    decreases |front|
  {
    hide Join, Ended, StripAll, SplitText;
    var all := front + lines;
    if i < |lines| {
      assert all[..|front| + i] == front + lines[..i] && all[|front| + i..] == lines[i..];
      StripConcat(front, lines[..i]);
      EndedConcat(StripAll(front), StripAll(lines[..i]));
      SliceLater(t, next, r.used);
    } else {
      StripConcat(front, lines);
      JoinBehind(StripAll(front), StripAll(lines));
    }
  }

  lemma {:induction false} StripConcat(a: seq<string>, b: seq<string>)
    ensures StripAll(a + b) == StripAll(a) + StripAll(b)
    decreases |a|
  {
    if a == [] {
      assert a + b == b;
    } else {
      assert (a + b)[1..] == a[1..] + b;
      StripConcat(a[1..], b);
    }
  }

  lemma {:induction false} EndedConcat(a: seq<string>, b: seq<string>)
    ensures Ended(a + b) == Ended(a) + Ended(b)
    decreases |a|
  {
    if a == [] {
      assert a + b == b;
    } else {
      assert (a + b)[1..] == a[1..] + b;
      EndedConcat(a[1..], b);
      Regroup(a[0] + "\n", Ended(a[1..]), Ended(b));
    }
  }

  lemma {:induction false} JoinBehind(a: seq<string>, b: seq<string>)
    requires b != []
    ensures Join(a + b) == Ended(a) + Join(b)
    decreases |a|
  {
    if a == [] {
      assert a + b == b;
    } else {
      assert (a + b)[1..] == a[1..] + b;
      JoinBehind(a[1..], b);
      Regroup(a[0] + "\n", Ended(a[1..]), Join(b));
    }
  }

  /** Blank lines are written as line ends. */
  lemma {:induction false} BlanksEnded(lines: seq<string>)
    requires forall j :: 0 <= j < |lines| ==> BlankLine(lines[j])
    ensures Ended(StripAll(lines)) == NewLines(|lines|)
    decreases |lines|
  {
    hide Strip;
    if lines != [] {
      BlanksEnded(lines[1..]);
      NewLinesCons(|lines| - 1);
    }
  }

  lemma {:induction false} NewLinesCons(n: nat)
    ensures NewLines(n + 1) == "\n" + NewLines(n)
  {
    if n > 0 {
      NewLinesCons(n - 1);
    }
  }

  /** The block does not see the blank lines in front of a comment. */
  lemma {:induction false} BlockBehind(front: seq<string>, lines: seq<string>, blanks: bool)
    requires (forall j :: 0 <= j < |front| ==> InBlock(front[j], blanks)) && Block(lines, blanks) > 0
    ensures Block(front + lines, blanks) == |front| + Block(lines, blanks)
    decreases |front|
  {
    hide InBlock, CommentLine;
    if front == [] {
      assert front + lines == lines;
    } else {
      assert (front + lines)[1..] == front[1..] + lines;
      BlockBehind(front[1..], lines, blanks);
    }
  }

  /** Without a comment behind the blank lines there is no block. */
  lemma {:induction false} NoBlock(lines: seq<string>, n: nat, blanks: bool)
    requires n < |lines| && !CommentLine(lines[n], blanks)
    requires forall j :: 0 <= j < n ==> !CommentLine(lines[j], blanks)
    requires !InBlock(lines[n], blanks) || n + 1 == |lines|
    ensures Block(lines, blanks) == 0
    decreases |lines|
  {
    hide InBlock, CommentLine;
    if n > 0 {
      NoBlock(lines[1..], n - 1, blanks);
    }
  }

  lemma BlankIsNoComment(line: string)
    requires BlankLine(line)
    ensures !CommentLine(line, true) && InBlock(line, true)
  {
  }

  lemma StripPlain(line: string)
    requires line == "" || !IsSpace(line[0])
    ensures Strip(line) == line
  {
  }

  /** A text that begins with a comment character begins with a comment line, and that is not stripped. */
  lemma CommentFirst(t: string, blanks: bool)
    requires t != "" && IsComment(t[0])
    ensures LineLength(t) > 0 && CommentLine(t[..LineLength(t)], blanks)
    ensures Strip(t[..LineLength(t)]) == t[..LineLength(t)]
  {
    StripPlain(t[..LineLength(t)]);
  }

  /**
    Without a tag the block of comment lines in front is loaded, each line stripped, and the scan goes on with the line
    behind it; if the block is all there is, everything is.
   */
  lemma {:induction false} LoadComments(t: string, blanks: bool, order: Order)
    ensures LoadsBlock(t, SplitText(t), Block(SplitText(t), blanks), Load(t, None, blanks, order))
    decreases |t|
  {
    hide SplitText, LineLength, NewLineLength, Block, Load, LoadsBlock, Blank, CommentLine, Strip, Ended, StripAll,
      WithoutBlanks;
    if t != "" && IsComment(t[0]) {
      var n := LineLength(t);
      LoadLine(t, None, blanks, order);
      CommentFirst(t, blanks);
      SplitStep(t, n);
      if n == |t| {
        assert t[..n] == t;
        OnlyComment(t, blanks);
      } else {
        var next := n + NewLineLength(t[n..]);
        LoadComments(t[next..], blanks, order);
        CommentInFront(t[..n], SplitText(t[next..]), blanks, t, next, Load(t[next..], None, blanks, order));
      }
    } else {
      var (k, n) := Blank(t);
      BlankLines(t);
      LoadBlank(t, None, blanks, order);
      if blanks && k < |t| && IsComment(t[k]) {
        BlankMoves(t);
        LoadComments(t[k..], blanks, order);
        var r := Load(t[k..], None, blanks, order);
        BlanksInFront(t, SplitText(t), n, SplitText(t[k..]), k, r);
      } else {
        NoCommentFirst(t, blanks);
      }
    }
  }

  lemma BlankMoves(t: string)
    requires t == "" || !IsComment(t[0])
    requires Blank(t).0 < |t| && IsComment(t[Blank(t).0])
    ensures 0 < Blank(t).0
  {
  }

  lemma OnlyComment(t: string, blanks: bool)
    requires CommentLine(t, blanks) && Strip(t) == t
    ensures Block([t], blanks) == 1 && LoadsBlock(t, [t], 1, Loading(t, |t|, AtEnd))
  {
    hide Strip;
    assert [t][1..] == [];
  }

  lemma CommentInFront(line: string, lines: seq<string>, blanks: bool, t: string, next: nat, r: Loading)
    requires CommentLine(line, blanks) && Strip(line) == line && lines != [] && 0 < next <= |t|
    requires LoadsBlock(t[next..], lines, Block(lines, blanks), r)
    ensures LoadsBlock(t, [line] + lines, Block([line] + lines, blanks), Behind(line + "\n", next, r))
  {
    hide CommentLine, Strip, SplitText;
    var all, i := [line] + lines, Block(lines, blanks);
    assert all[1..] == lines;
    assert StripAll([line]) == [line] by {
      assert [line][1..] == [];
    }
    assert Ended([line]) == line + "\n" by {
      assert [line][1..] == [] && line + "\n" + "" == line + "\n";
    }
    if i > 0 {
      LinesInFront([line], lines, t, i, next, r);
    } else {
      EmptyBlockInFront(line, lines, t, next, r);
    }
  }

  lemma EmptyBlockInFront(line: string, lines: seq<string>, t: string, next: nat, r: Loading)
    requires 0 < next <= |t| && lines != [] && LoadsBlock(t[next..], lines, 0, r) && Strip(line) == line
    ensures LoadsBlock(t, [line] + lines, 1, Behind(line + "\n", next, r))
  {
    hide Strip, SplitText;
    var all := [line] + lines;
    assert all[..1] == [line] && all[1..] == lines && [line][1..] == [] && lines[..0] == [] && lines[0..] == lines;
    assert line + "\n" + "" == line + "\n";
    SliceLater(t, next, r.used);
  }

  /** Neither the first character nor, where blanks are allowed, the first that is no white space begins a comment. */
  lemma NoCommentFirst(t: string, blanks: bool)
    requires t == "" || !IsComment(t[0])
    requires !(blanks && Blank(t).0 < |t| && IsComment(t[Blank(t).0]))
    ensures Block(SplitText(t), blanks) == 0 && LoadsBlock(t, SplitText(t), 0, Loading("", 0, NoComment))
  {
    hide SplitText, LineLength, NewLineLength, Strip, Blank;
    var lines := SplitText(t);
    var (k, n) := Blank(t);
    assert lines[..0] == [] && lines[0..] == lines && t[0..] == t;
    if blanks {
      BlankLines(t);
      forall j | 0 <= j < n ensures !CommentLine(lines[j], true) {
        BlankIsNoComment(lines[j]);
      }
      FirstLeft(t[k..], lines[n]);
      NoBlock(lines, n, true);
    } else {
      SplitStep(t, LineLength(t));
    }
  }

  lemma FirstLeft(t: string, line: string)
    requires t == "" || (!IsSpace(t[0]) && !IsComment(t[0]))
    requires Strip(line) == SplitText(t)[0]
    ensures !CommentLine(line, true) && (t == "" ==> SplitText(t) == [""]) && (t != "" ==> !InBlock(line, true))
  {
    hide SplitText, NewLineLength, Strip;
    SplitStep(t, LineLength(t));
    assert t != "" ==> LineLength(t) > 0;
  }

  lemma StripTwice(line: string)
    ensures Strip(Strip(line)) == Strip(line)
  {
  }

  /** Stripping the first line changes neither the block nor what is written. */
  lemma StripFirst(lines: seq<string>, less: seq<string>, i: nat)
    requires lines != [] && less == [Strip(lines[0])] + lines[1..] && 0 < i <= |lines|
    ensures StripAll(lines[..i]) == StripAll(less[..i]) && StripAll(lines) == StripAll(less) && lines[i..] == less[i..]
    ensures CommentLine(less[0], true) ==> Block(lines, true) == Block(less, true) > 0
  {
    hide Strip;
    StripTwice(lines[0]);
    assert less[1..] == lines[1..] && lines[..i][1..] == less[..i][1..];
  }

  lemma BlanksInFront(t: string, lines: seq<string>, n: nat, less: seq<string>, k: nat, r: Loading)
    requires k < |t| && IsComment(t[k]) && WithoutBlanks(lines, n, less) && less == SplitText(t[k..])
    requires LoadsBlock(t[k..], less, Block(less, true), r)
    ensures LoadsBlock(t, lines, Block(lines, true), Behind(NewLines(n), k, r))
  {
    hide SplitText, LineLength, NewLineLength, Block, StripAll, Ended, Join, Strip, CommentLine, InBlock, Behind;
    var front, rest := lines[..n], lines[n..];
    assert lines == front + rest && rest[0] == lines[n] && rest[1..] == lines[n + 1..];
    CommentFirst(t[k..], true);
    SplitStep(t[k..], LineLength(t[k..]));
    assert t[k..][..|t[k..]|] == t[k..];
    assert less[0] == t[k..][..LineLength(t[k..])];
    StripFirst(rest, less, 1);
    StripFirst(rest, less, Block(less, true));
    forall j | 0 <= j < n ensures InBlock(front[j], true) && BlankLine(front[j]) {
      BlankIsNoComment(front[j]);
    }
    BlockBehind(front, rest, true);
    BlanksEnded(front);
    LinesInFront(front, rest, t, Block(rest, true), k, r);
  }

  /**
    So nothing is found exactly if there is no such block; otherwise the value is its lines, and the data goes on
    behind it.
   */
  lemma CommentsLoaded(t: string, blanks: bool, order: Order)
    ensures var lines, r := SplitText(t), Load(t, None, blanks, order);
      var i := Block(lines, blanks);
      && (NothingLoaded(r) <==> i == 0)
      && (i > 0 ==> Shown(t, r) == Join(StripAll(lines[..i])))
      && if i < |lines| then SplitText(t[Passed(t, r)..]) == lines[i..] else Passed(t, r) == |t|
  {
    hide SplitText, Block, Load, StripAll, Ended, Join, LineLength, NewLineLength;
    LoadComments(t, blanks, order);
    var lines, r := SplitText(t), Load(t, None, blanks, order);
    var i := Block(lines, blanks);
    if i == 0 {
      assert lines[..0] == [];
      NothingStripped();
    } else {
      var block := StripAll(lines[..i]);
      EndedIsJoined(block);
      assert (Join(block) + "\n")[..|Join(block)|] == Join(block);
      assert i == |lines| ==> lines[..i] == lines;
    }
  }

  lemma NothingStripped()
    ensures Ended(StripAll([])) == ""
  {
  }
}
