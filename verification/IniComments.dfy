/**
  Comments survive every lazy write, and writing an unchanged structure back leaves the file as it is
  exactly when no key is repeated with another value.
 */
module IniComments {
  import Lines
  import opened Wrappers
  import opened IniText
  import opened IniParser
  import opened IniLines
  import opened IniRewrite
  import opened IniMap
  import opened IniReader
  import opened IniMeaning
  import opened IniWriter
  import opened IniLazy

  function OwnComment(line: string): seq<string> {
    if ParseLine(line).Comment? then [line] else []
  }

  function Comments(lines: seq<string>): seq<string>
    decreases |lines|
  {
    if lines == [] then []
    else OwnComment(lines[0]) + Comments(lines[1..])
  }

  /** `a` can be had from `b` by leaving lines out. */
  predicate Subsequence(a: seq<string>, b: seq<string>)
    decreases |b|
  {
    a == [] || (b != [] && (Subsequence(a, b[1..]) || (a[0] == b[0] && Subsequence(a[1..], b[1..]))))
  }

  lemma {:induction false} SubsequencePrepend(a: seq<string>, x: seq<string>, b: seq<string>)
    requires Subsequence(a, b)
    ensures Subsequence(a, x + b)
    decreases |x|
  {
    if x == [] {
      assert x + b == b;
    } else {
      SubsequencePrepend(a, x[1..], b);
      assert (x + b)[1..] == x[1..] + b;
    }
  }

  lemma {:induction false} SubsequenceInsert(a: seq<string>, head: seq<string>, x: seq<string>, tail: seq<string>)
    requires Subsequence(a, head + tail)
    ensures Subsequence(a, head + x + tail)
    decreases |head|
  {
    if a != [] {
      if head == [] {
        assert head + tail == tail && head + x + tail == x + tail;
        SubsequencePrepend(a, x, tail);
      } else {
        assert (head + tail)[1..] == head[1..] + tail && (head + x + tail)[1..] == head[1..] + x + tail;
        if Subsequence(a, head[1..] + tail) {
          SubsequenceInsert(a, head[1..], x, tail);
        } else {
          SubsequenceInsert(a[1..], head[1..], x, tail);
        }
      }
    }
  }

  lemma SubsequenceLonger(a: seq<string>, b: seq<string>, more: seq<string>)
    requires Subsequence(a, b)
    ensures Subsequence(a, b + more)
  {
    assert b + [] == b && b + more + [] == b + more;
    SubsequenceInsert(a, b, more, []);
  }

  lemma {:induction false} SubsequenceBoth(a: seq<string>, b: seq<string>, line: string)
    requires Subsequence(a, b)
    ensures Subsequence(a + [line], b + [line])
    decreases |b|
  {
    if b == [] {
      assert a + [line] == [line] && b + [line] == [line];
    } else {
      assert (b + [line])[1..] == b[1..] + [line];
      if Subsequence(a, b[1..]) {
        SubsequenceBoth(a, b[1..], line);
      } else {
        SubsequenceBoth(a[1..], b[1..], line);
        assert (a + [line])[1..] == a[1..] + [line];
      }
    }
  }

  lemma FlushKeeps(a: seq<string>, st: LazyState, data: Structure, original: Structure, pretty: bool)
    requires Subsequence(a, st.output)
    ensures Subsequence(a, Flush(st, data, original, pretty).output)
  {
    hide LinesToAdd;
    if st.lastKey <= |st.output| {
      var head, tail := st.output[..st.lastKey], st.output[st.lastKey..];
      assert head + tail == st.output;
      SubsequenceInsert(a, head, LinesToAdd(st.section, data, original, pretty), tail);
    }
  }

  lemma StepKeeps(a: seq<string>, st: LazyState, line: string, last: bool, data: Structure, original: Structure,
                  pretty: bool)
    requires Subsequence(a, st.output)
    ensures Subsequence(a + OwnComment(line), LazyLine(st, line, last, data, original, pretty).output)
  {
    hide ParseLine, Norm, Has, Flush, Subsequence, RewriteLine;
    var parsed := ParseLine(line);
    if parsed.Comment? {
      CommentNotEmpty(line);
      SubsequenceBoth(a, st.output, line);
      assert a + OwnComment(line) == a + [line];
      FlushKeeps(a + [line], OtherStep(st, line), data, original, pretty);
    } else {
      assert a + OwnComment(line) == a;
      FlushKeeps(a, st, data, original, pretty);
      var closed := if parsed.Section? && st.parsing then Flush(st, data, original, pretty).(parsing := false) else st;
      var next := LazyLine(st, line, false, data, original, pretty);
      if next.output != closed.output {
        assert next.output == closed.output + [next.output[|closed.output|]];
        SubsequenceLonger(a, closed.output, [next.output[|closed.output|]]);
      }
      FlushKeeps(a, next, data, original, pretty);
    }
  }

  lemma CommentNotEmpty(line: string)
    requires ParseLine(line).Comment?
    ensures line != ""
  {
    TrimmedStays("");
  }

  lemma {:induction false} WalkKeeps(a: seq<string>, st: LazyState, lines: seq<string>, data: Structure,
                                     original: Structure, pretty: bool)
    requires Subsequence(a, st.output)
    ensures Subsequence(a + Comments(lines), LazyLines(st, lines, data, original, pretty).output)
    decreases |lines|
  {
    hide LazyLine, Subsequence, Comments, OwnComment;
    CommentsHere(a, lines);
    if lines != [] {
      var last := |lines| == 1;
      StepKeeps(a, st, lines[0], last, data, original, pretty);
      WalkKeeps(a + OwnComment(lines[0]), LazyLine(st, lines[0], last, data, original, pretty), lines[1..], data,
                original, pretty);
    }
  }

  lemma CommentsHere(a: seq<string>, lines: seq<string>)
    ensures lines == [] ==> a + Comments(lines) == a
    ensures lines != [] ==> a + OwnComment(lines[0]) + Comments(lines[1..]) == a + Comments(lines)
  {
    hide OwnComment;
    if lines != [] {
      Lines.Regroup(a, OwnComment(lines[0]), Comments(lines[1..]));
    }
  }

  lemma {:induction false} AppendKeeps(a: seq<string>, output: seq<string>, data: Structure, original: Structure,
                                       pretty: bool)
    requires Subsequence(a, output)
    ensures Subsequence(a, AppendSections(output, data, original, pretty))
    decreases |data|
  {
    hide Subsequence, NewKeyLines, Has, Norm;
    if data != [] {
      var (name, es) := data[0];
      if Has(original, Norm(name)) {
        AppendKeeps(a, output, data[1..], original, pretty);
      } else {
        var next := AppendSection(output, name, es, pretty);
        assert next == output + next[|output|..];
        SubsequenceLonger(a, output, next[|output|..]);
        AppendKeeps(a, next, data[1..], original, pretty);
      }
    }
  }

  /** For every structure, however unlike the file, the comment lines come out unchanged and in order. */
  lemma CommentsSurvive(lines: seq<string>, data: Structure, original: Structure, pretty: bool)
    ensures Subsequence(Comments(lines), LazyOutput(lines, data, original, pretty))
  {
    hide Subsequence, LazyLines, AppendSections, Comments;
    EmptySubsequence();
    WalkKeeps([], INIT, lines, data, original, pretty);
    assert [] + Comments(lines) == Comments(lines);
    AppendKeeps(Comments(lines), LazyLines(INIT, lines, data, original, pretty).output, data, original, pretty);
  }

  lemma EmptySubsequence()
    ensures Subsequence([], [])
  {
  }

  // ---------------------------------------------------------------- writing back what was read

  lemma NoneMissing(maps: Maps)
    ensures NothingNew(maps, maps)
  {
  }

  /**
    Whatever a file holds, writing back the structure that was read from it prints the kept lines one for one, each
    entry with the value that its key has in the end.
   */
  lemma WriteBackUpdates(lines: seq<string>, pretty: bool)
    ensures var kept, data := KeptLines(lines, false), OriginalOf(lines);
      Known(ToMaps(data), None, kept) && LazyOutput(kept, data, data, pretty)
          == UpdatedLines(ToMaps(data), None, kept, pretty)
  {
    hide ParseLine, Norm, WellKeyed, ToMaps, LazyOutput, Known, KeptLines, AllKept, OriginalOf, NothingNew,
      UpdatedLines, MeanAll;
    var kept, data := KeptLines(lines, false), OriginalOf(lines);
    OriginalMeans(lines);
    KeptAreKept(lines, false);
    ReadIsKnown(NOTHING, kept, ToMaps(data));
    NoneMissing(ToMaps(data));
    LazyUpdates(kept, data, data, pretty);
  }

  /** The entries have the values that are wanted, or are printed as they are all the same. */
  ghost predicate Stays(maps: Maps, open: Option<string>, lines: seq<string>, pretty: bool)
    requires Known(maps, open, lines)
    decreases |lines|
  {
    lines == [] ||
    (&& (ParseLine(lines[0]).KeyValue? ==>
           var wanted := maps[open.value][Norm(ParseLine(lines[0]).key)];
           EntryHasDelimiter(lines[0]);
           ParseLine(lines[0]).value == wanted || RewriteLine(lines[0], wanted, pretty) == lines[0])
     && Stays(maps, OpenAfter(open, lines[..1]), lines[1..], pretty))
  }

  lemma {:induction false} StaysIff(maps: Maps, open: Option<string>, lines: seq<string>, pretty: bool)
    requires Known(maps, open, lines)
    ensures UpdatedLines(maps, open, lines, pretty) == lines <==> Stays(maps, open, lines, pretty)
    decreases |lines|
  {
    hide ParseLine, Norm, RewriteLine, HasDelimiter, OpenAfter;
    if lines != [] {
      var rest := UpdatedLines(maps, OpenAfter(open, lines[..1]), lines[1..], pretty);
      StaysIff(maps, OpenAfter(open, lines[..1]), lines[1..], pretty);
      assert UpdatedLines(maps, open, lines, pretty)[1..] == rest;
    }
  }

  /**
    The lines come out as they are exactly when every entry has the last value of its key, or is rewritten to itself.
   */
  lemma WriteBackIsIdentityIff(lines: seq<string>, pretty: bool)
    ensures var kept, data := KeptLines(lines, false), OriginalOf(lines);
      && Known(ToMaps(data), None, kept)
      && (LazyOutput(kept, data, data, pretty) == kept <==> Stays(ToMaps(data), None, kept, pretty))
  {
    hide *;
    WriteBackUpdates(lines, pretty);
    StaysIff(ToMaps(OriginalOf(lines)), None, KeptLines(lines, false), pretty);
  }

  // ---------------------------------------------------------------- when a repeated key shows

  /** No entry has a value that begins with an escaped delimiter. */
  ghost predicate NoEscapes(lines: seq<string>) {
    forall i :: 0 <= i < |lines| && ParseLine(lines[i]).KeyValue? ==> !("\\=" <= ParseLine(lines[i]).value)
  }

  /** So in a file without escapes at the head of a value only a different value makes a rewritten line. */
  lemma RewritingShows(line: string, value: string, pretty: bool)
    requires ParseLine(line).KeyValue? && ParseLine(line).value != value && Trim(value) == value
    requires !("\\=" <= ParseLine(line).value) && (Starts(Norm(ParseLine(line).key), '[') ==> NoSectionMarks(value))
    ensures HasDelimiter(line) && RewriteLine(line, value, pretty) != line
  {
    hide ParseLine, Norm, Trim, RewriteLine, HasDelimiter, NoSectionMarks;
    BracketKey(line);
    RewrittenReads(line, value, pretty);
  }

  lemma {:induction false} ReadValuesTrimmed(m: Meaning, lines: seq<string>)
    requires ValuesTrimmed(m.maps)
    ensures ValuesTrimmed(MeanAll(m, lines).maps)
    decreases |lines|
  {
    hide ParseLine, Norm, Trim;
    if lines != [] {
      if ParseLine(lines[0]).KeyValue? {
        ValueIsTrimmed(lines[0]);
      }
      ReadValuesTrimmed(Mean(m, lines[0]), lines[1..]);
    }
  }

  lemma {:induction false} StaysIfMatches(maps: Maps, open: Option<string>, lines: seq<string>, pretty: bool)
    requires Known(maps, open, lines) && NoEscapes(lines) && BracketsPlain(maps) && ValuesTrimmed(maps)
    ensures Stays(maps, open, lines, pretty) <==> Matches(maps, open, lines)
    decreases |lines|
  {
    hide ParseLine, Norm, RewriteLine, HasDelimiter, OpenAfter, Trim, NoSectionMarks, Starts;
    if lines != [] {
      assert NoEscapes(lines[1..]) by {
        assert forall i :: 0 <= i < |lines[1..]| ==> lines[1..][i] == lines[i + 1];
      }
      StaysIfMatches(maps, OpenAfter(open, lines[..1]), lines[1..], pretty);
      if ParseLine(lines[0]).KeyValue? {
        var wanted := maps[open.value][Norm(ParseLine(lines[0]).key)];
        if ParseLine(lines[0]).value != wanted {
          RewritingShows(lines[0], wanted, pretty);
        }
      }
    }
  }

  /** An escape in front of a value can hide that a key is repeated. */
  lemma EscapeHidesRepeat()
    ensures ParseLine("k=\\=x") == KeyValue("k", "\\=x") && HasDelimiter("k=\\=x")
    ensures RewriteLine("k=\\=x", "x", false) == "k=\\=x"
  {
    hide ParseLine, HasDelimiter, Trim, LineNorm, RewriteLine;
    EscapedOldValueStays();
    EscapeIsKept("x");
  }

  /**
    In a file where no value begins with an escaped delimiter the lines come out as they are exactly when no key of a
    section is repeated with another value.
   */
  lemma RepeatedKeyShows(lines: seq<string>, pretty: bool)
    requires NoEscapes(KeptLines(lines, false))
    ensures var kept, data := KeptLines(lines, false), OriginalOf(lines);
      LazyOutput(kept, data, data, pretty) == kept <==> Matches(ToMaps(data), None, kept)
  {
    hide ParseLine, Norm, WellKeyed, ToMaps, LazyOutput, Known, KeptLines, OriginalOf, MeanAll, NoEscapes, Stays,
      Matches, BracketsPlain, ValuesTrimmed;
    OriginalMeans(lines);
    NothingIsPlain();
    ReadValuesTrimmed(NOTHING, lines);
    BracketsStayPlain(NOTHING, lines);
    WriteBackIsIdentityIff(lines, pretty);
    StaysIfMatches(ToMaps(OriginalOf(lines)), None, KeptLines(lines, false), pretty);
  }

  lemma NothingIsPlain()
    ensures ValuesTrimmed(map[]) && BracketsPlain(map[])
  {
  }
}
