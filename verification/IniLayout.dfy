/**
  The lines of a lazy write, section by section: what the walk with its flags, its insertions and its look at the
  last line amounts to.
 */
module IniLayout {
  import opened Lines
  import opened IniText
  import opened IniParser
  import opened IniRewrite
  import opened IniMap
  import opened IniReader
  import opened IniMeaning
  import opened IniWriter
  import opened IniLazy

  // ---------------------------------------------------------------- the layout

  /** How many lines stand in front of the next section line. */
  function BodyLength(lines: seq<string>): (n: nat)
    ensures n <= |lines|
    decreases |lines|
  {
    if lines == [] || ParseLine(lines[0]).Section? then 0 else 1 + BodyLength(lines[1..])
  }

  /** Is the line an entry of a key that the section keeps? */
  predicate StaysIn(es: Section, line: string) {
    ParseLine(line).KeyValue? && Has(es, Norm(ParseLine(line).key))
  }

  /** What becomes of one line of a section that stays. */
  function Staying(es: Section, line: string, pretty: bool): seq<string> {
    if StaysIn(es, line) then
      var value := Lookup(es, Norm(ParseLine(line).key));
      EntryHasDelimiter(line);
      [if ParseLine(line).value == value then line else RewriteLine(line, value, pretty)]
    else if Quiet(line) then [line]
    else []
  }

  function StayingLines(es: Section, body: seq<string>, pretty: bool): seq<string>
    decreases |body|
  {
    if body == [] then [] else Staying(es, body[0], pretty) + StayingLines(es, body[1..], pretty)
  }

  /** How many of these stand in front of the last entry or are it; none without an entry. */
  function UpToLastKey(es: Section, body: seq<string>, pretty: bool): (n: nat)
    ensures n <= |StayingLines(es, body, pretty)|
    decreases |body|
  {
    if body == [] then 0
    else
      var later := UpToLastKey(es, body[1..], pretty);
      if later > 0 || StaysIn(es, body[0]) then |Staying(es, body[0], pretty)| + later else 0
  }

  /** `n` of what stays comes from the first `m` lines, the last of which is an entry, and no entry follows. */
  ghost predicate EndsInKey(es: Section, body: seq<string>, pretty: bool, n: nat, m: nat)
    requires n <= |StayingLines(es, body, pretty)|
  {
    var staying := StayingLines(es, body, pretty);
    && m <= |body|
    && staying[..n] == StayingLines(es, body[..m], pretty)
    && staying[n..] == StayingLines(es, body[m..], pretty)
    && (m > 0 <==> n > 0) && (m > 0 ==> StaysIn(es, body[m - 1]))
    && forall i :: m <= i < |body| ==> !StaysIn(es, body[i])
  }

  lemma {:induction false} LastKey(es: Section, body: seq<string>, pretty: bool) returns (m: nat)
    ensures EndsInKey(es, body, pretty, UpToLastKey(es, body, pretty), m)
    ensures AllQuiet(StayingLines(es, body, pretty)[UpToLastKey(es, body, pretty)..])
    decreases |body|
  {
    hide StaysIn, Quiet, EndsInKey, Staying;
    if body == [] {
      m := 0;
      NoKey(es, body, pretty);
    } else {
      var own, rest := Staying(es, body[0], pretty), StayingLines(es, body[1..], pretty);
      var n := UpToLastKey(es, body[1..], pretty);
      var later := LastKey(es, body[1..], pretty);
      OwnLine(es, body[0], pretty);
      if n > 0 || StaysIn(es, body[0]) {
        m := 1 + later;
        OneMoreKey(es, body, pretty, n, later);
        assert (own + rest)[|own| + n..] == rest[n..];
      } else {
        m := 0;
        LaterKeys(es, body, pretty, later);
        NoKey(es, body, pretty);
        assert (own + rest)[0..] == own + rest && rest[0..] == rest;
      }
    }
  }

  lemma NoKey(es: Section, body: seq<string>, pretty: bool)
    requires forall i :: 0 <= i < |body| ==> !StaysIn(es, body[i])
    ensures EndsInKey(es, body, pretty, 0, 0)
  {
    hide StaysIn, Staying;
    assert body[..0] == [] && body[0..] == body;
  }

  lemma LaterKeys(es: Section, body: seq<string>, pretty: bool, later: nat)
    requires body != [] && EndsInKey(es, body[1..], pretty, 0, later) && !StaysIn(es, body[0])
    ensures forall i :: 0 <= i < |body| ==> !StaysIn(es, body[i])
  {
    hide StaysIn, Staying;
    assert forall i :: 0 < i < |body| ==> body[i] == body[1..][i - 1];
  }

  lemma OneMoreKey(es: Section, body: seq<string>, pretty: bool, n: nat, m: nat)
    requires body != [] && n <= |StayingLines(es, body[1..], pretty)| && EndsInKey(es, body[1..], pretty, n, m)
    requires n > 0 || (StaysIn(es, body[0]) && |Staying(es, body[0], pretty)| == 1)
    ensures EndsInKey(es, body, pretty, |Staying(es, body[0], pretty)| + n, 1 + m)
  {
    hide StaysIn, Staying;
    var own, rest := Staying(es, body[0], pretty), StayingLines(es, body[1..], pretty);
    SplitBehind(own, rest, n);
    assert body[..1 + m] == [body[0]] + body[1..][..m];
    StayingCons(es, body[0], body[1..][..m], pretty);
    assert body[1 + m..] == body[1..][m..];
    assert forall i :: 0 < i < |body| ==> body[i] == body[1..][i - 1];
  }

  lemma SplitBehind(own: seq<string>, rest: seq<string>, n: nat)
    requires n <= |rest|
    ensures (own + rest)[..|own| + n] == own + rest[..n] && (own + rest)[|own| + n..] == rest[n..]
  {
  }

  lemma StayingCons(es: Section, line: string, body: seq<string>, pretty: bool)
    ensures StayingLines(es, [line] + body, pretty) == Staying(es, line, pretty) + StayingLines(es, body, pretty)
  {
    hide Staying;
    assert ([line] + body)[1..] == body;
  }

  lemma FrontOfKeys(es: Section, body: seq<string>, pretty: bool, n: nat, m: nat)
    requires n <= |StayingLines(es, body, pretty)| && EndsInKey(es, body, pretty, n, m)
    ensures m <= |body| && StayingLines(es, body, pretty)[..n] == StayingLines(es, body[..m], pretty)
  {
    hide StayingLines, StaysIn;
  }

  lemma OwnLine(es: Section, line: string, pretty: bool)
    ensures StaysIn(es, line) ==> |Staying(es, line, pretty)| == 1
    ensures !StaysIn(es, line) ==> AllQuiet(Staying(es, line, pretty))
  {
    hide ParseLine, Norm, Has, RewriteLine, HasDelimiter;
  }

  /** A section that stays: its line, what stays up to the last entry, the new keys, and the rest. */
  function KeptSection(line: string, body: seq<string>, es: Section, added: seq<string>, pretty: bool): seq<string> {
    var staying, n := StayingLines(es, body, pretty), UpToLastKey(es, body, pretty);
    [line] + staying[..n] + added + staying[n..]
  }

  /** Of a section that goes, comments and blank lines are left, but for the first empty line. */
  function Remains(body: seq<string>, discard: bool): seq<string>
    decreases |body|
  {
    if body == [] then []
    else if discard && body[0] == "" then Remains(body[1..], false)
    else (if Quiet(body[0]) then [body[0]] else []) + Remains(body[1..], discard)
  }

  /** The comments and blank lines. */
  function QuietLines(body: seq<string>): seq<string> {
    if body == [] then []
    else
      (if ParseLine(body[0]).Comment? || ParseLine(body[0]).BlankLine? then [body[0]] else []) + QuietLines(body[1..])
  }

  lemma {:induction false} AllRemain(body: seq<string>)
    ensures Remains(body, false) == QuietLines(body)
    decreases |body|
  {
    hide ParseLine;
    if body != [] {
      AllRemain(body[1..]);
    }
  }

  /** What is left of a section that goes: `gap` lines stand in front of its first empty line, which goes too. */
  lemma {:induction false} RemainsAre(body: seq<string>, gap: nat)
    requires gap <= |body| && (gap < |body| ==> body[gap] == "") && "" !in body[..gap]
    ensures Remains(body, true)
      == QuietLines(body[..gap]) + if gap < |body| then QuietLines(body[gap + 1..]) else []
    decreases gap
  {
    hide ParseLine;
    if gap == 0 {
      if body != [] {
        AllRemain(body[1..]);
      }
    } else {
      assert body[..gap][0] == body[0] && body[..gap][1..] == body[1..][..gap - 1];
      RemainsAre(body[1..], gap - 1);
    }
  }

  /** The lines of one section. */
  function SectionLayout(line: string, body: seq<string>, data: Structure, original: Structure,
                         pretty: bool): seq<string>
    requires ParseLine(line).Section?
  {
    var name := Norm(ParseLine(line).name);
    if Has(data, name) then
      KeptSection(line, body, Lookup(data, name), LinesToAdd(ParseLine(line).name, data, original, pretty), pretty)
    else Remains(body, true)
  }

  /** The lines of all sections. */
  function Layout(lines: seq<string>, data: Structure, original: Structure, pretty: bool): seq<string>
    requires lines != [] ==> ParseLine(lines[0]).Section?
    decreases |lines|
  {
    if lines == [] then []
    else
      var n := BodyLength(lines[1..]);
      NextSection(lines[1..]);
      SectionLayout(lines[0], lines[1..][..n], data, original, pretty) + Layout(lines[1..][n..], data, original, pretty)
  }

  lemma {:induction false} NextSection(lines: seq<string>)
    ensures var n := BodyLength(lines);
      && (n < |lines| ==> ParseLine(lines[n]).Section?) && forall i :: 0 <= i < n ==> !ParseLine(lines[i]).Section?
    decreases |lines|
  {
    hide ParseLine;
    if lines != [] && !ParseLine(lines[0]).Section? {
      NextSection(lines[1..]);
      assert forall i :: 0 < i < |lines| ==> lines[i] == lines[1..][i - 1];
    }
  }

  // ---------------------------------------------------------------- what the flags say

  /** What the flags say about the lines read so far; and the last key line is among those printed. */
  ghost predicate Steady(st: LazyState, read: Meaning, data: Structure) {
    FlagsRight(st, read, ToMaps(data)) && st.lastKey <= |st.output|
  }

  lemma StepSteady(st: LazyState, line: string, read: Meaning, data: Structure, original: Structure, pretty: bool)
    requires WellKeyed(data) && Steady(st, read, data) && IsKept(line, read.open.Some? || ParseLine(line).Section?)
    ensures Steady(LazyLine(st, line, false, data, original, pretty), Mean(read, line), data)
  {
    hide ParseLine, Norm, ToMaps, WellKeyed, Has, Assigned, Opened, RewriteLine, HasDelimiter, LinesToAdd;
    var parsed := ParseLine(line);
    if parsed.Section? {
      SectionFacts(data, Norm(parsed.name));
      OpenedHas(read.maps, Norm(parsed.name));
    } else if parsed.KeyValue? {
      AssignedHas(read.maps, read.open.value, Norm(parsed.key), parsed.value);
    }
  }

  /** Without an open section that stays there is nothing to put in. */
  lemma IdleFlush(st: LazyState, read: Meaning, data: Structure, original: Structure, pretty: bool)
    requires WellKeyed(data) && WellKeyed(original) && Steady(st, read, data) && read.maps == ToMaps(original)
    requires !st.parsing
    ensures Flush(st, data, original, pretty).output == st.output
  {
    hide Norm, ToMaps, WellKeyed, Has, NewKeyLines;
    SectionFacts(data, Norm(st.section));
    SectionFacts(original, Norm(st.section));
    assert st.output[..st.lastKey] + [] + st.output[st.lastKey..] == st.output;
  }

  // ---------------------------------------------------------------- the walk without its last look

  /** The walk, as if another line always followed. */
  function Walk(st: LazyState, lines: seq<string>, data: Structure, original: Structure, pretty: bool): LazyState
    decreases |lines|
  {
    if lines == [] then st
    else Walk(LazyLine(st, lines[0], false, data, original, pretty), lines[1..], data, original, pretty)
  }

  lemma {:induction false} WalkConcat(st: LazyState, a: seq<string>, b: seq<string>, data: Structure,
                                      original: Structure, pretty: bool)
    ensures Walk(st, a + b, data, original, pretty)
      == Walk(Walk(st, a, data, original, pretty), b, data, original, pretty)
    decreases |a|
  {
    hide LazyLine;
    if a == [] {
      assert a + b == b;
    } else {
      assert (a + b)[1..] == a[1..] + b;
      WalkConcat(LazyLine(st, a[0], false, data, original, pretty), a[1..], b, data, original, pretty);
    }
  }

  /** What is printed once the open section is closed. */
  function Closed(st: LazyState, data: Structure, original: Structure, pretty: bool): seq<string> {
    if st.parsing then Flush(st, data, original, pretty).output else st.output
  }

  /** The look at the last line does no more than close the section. */
  lemma {:induction false} WalkEnds(st: LazyState, lines: seq<string>, read: Meaning, data: Structure,
                                    original: Structure, pretty: bool)
    requires WellKeyed(data) && WellKeyed(original) && Steady(st, read, data) && AllKept(lines, read.open.Some?)
    requires MeanAll(read, lines).maps == ToMaps(original) && (lines == [] ==> !st.parsing)
    ensures LazyLines(st, lines, data, original, pretty).output
      == Closed(Walk(st, lines, data, original, pretty), data, original, pretty)
    decreases |lines|
  {
    hide ParseLine, Norm, ToMaps, WellKeyed, LazyLine, Mean, Steady, IsKept, Flush;
    if lines != [] {
      OpenIsOpen(read, lines[..1]);
      assert MeanAll(read, lines[..1]) == Mean(read, lines[0]) by {
        assert lines[..1] == [lines[0]];
        MeanLast(read, [], lines[0]);
      }
      StepSteady(st, lines[0], read, data, original, pretty);
      var next := LazyLine(st, lines[0], false, data, original, pretty);
      if |lines| == 1 {
        LastCloses(st, lines[0], read, data, original, pretty);
      } else {
        WalkEnds(next, lines[1..], Mean(read, lines[0]), data, original, pretty);
      }
    }
  }

  lemma LastCloses(st: LazyState, line: string, read: Meaning, data: Structure, original: Structure, pretty: bool)
    requires WellKeyed(data) && WellKeyed(original)
    requires var next := LazyLine(st, line, false, data, original, pretty);
      Steady(next, Mean(read, line), data) && Mean(read, line).maps == ToMaps(original)
    ensures LazyLine(st, line, true, data, original, pretty).output
      == Closed(LazyLine(st, line, false, data, original, pretty), data, original, pretty)
  {
    hide ParseLine, Norm, ToMaps, WellKeyed, Mean, Flush, Has, EntryStep;
    var next := LazyLine(st, line, false, data, original, pretty);
    if !next.parsing {
      IdleFlush(next, Mean(read, line), data, original, pretty);
    }
  }

  // ---------------------------------------------------------------- one section

  lemma {:induction false} WalkBody(st: LazyState, body: seq<string>, es: Section, data: Structure,
                                    original: Structure, pretty: bool)
    requires st.parsing && !st.skip && !st.discard && st.lastKey <= |st.output|
    requires Has(data, Norm(st.section)) && es == Lookup(data, Norm(st.section))
    requires forall i :: 0 <= i < |body| ==> !ParseLine(body[i]).Section?
    ensures var n := UpToLastKey(es, body, pretty);
      Walk(st, body, data, original, pretty)
        == st.(output := st.output + StayingLines(es, body, pretty),
            lastKey := if n > 0 then |st.output| + n else st.lastKey)
    decreases |body|
  {
    hide ParseLine, Norm, Has, RewriteLine, HasDelimiter, Lookup, Flush, IndexOf;
    if body == [] {
      assert st.output + [] == st.output;
    } else {
      BodyStep(st, body[0], es, data, original, pretty);
      var next := LazyLine(st, body[0], false, data, original, pretty);
      WalkBody(next, body[1..], es, data, original, pretty);
      Regroup(st.output, Staying(es, body[0], pretty), StayingLines(es, body[1..], pretty));
    }
  }

  lemma BodyStep(st: LazyState, line: string, es: Section, data: Structure, original: Structure, pretty: bool)
    requires st.parsing && !st.skip && !st.discard && !ParseLine(line).Section?
    requires Has(data, Norm(st.section)) && es == Lookup(data, Norm(st.section))
    ensures LazyLine(st, line, false, data, original, pretty)
      == st.(output := st.output + Staying(es, line, pretty),
          lastKey := if StaysIn(es, line) then |st.output| + 1 else st.lastKey)
    ensures StaysIn(es, line) ==> |Staying(es, line, pretty)| == 1
  {
    hide ParseLine, Norm, RewriteLine, HasDelimiter, IndexOf;
    assert st.output + [] == st.output;
  }

  lemma {:induction false} WalkRemains(st: LazyState, body: seq<string>, data: Structure, original: Structure,
                                       pretty: bool)
    requires !st.parsing && forall i :: 0 <= i < |body| ==> !ParseLine(body[i]).Section? && (st.skip || Quiet(body[i]))
    ensures var r := Walk(st, body, data, original, pretty);
      r.output == st.output + Remains(body, st.discard) && !r.parsing
    decreases |body|
  {
    hide ParseLine, Norm, Flush, EntryStep;
    if body == [] {
      assert st.output + [] == st.output;
    } else {
      var next := LazyLine(st, body[0], false, data, original, pretty);
      EmptyLineIsQuiet();
      WalkRemains(next, body[1..], data, original, pretty);
      if !(st.discard && body[0] == "") {
        Regroup(st.output, if Quiet(body[0]) then [body[0]] else [], Remains(body[1..], st.discard));
        assert next.output == st.output + if Quiet(body[0]) then [body[0]] else [];
      }
    }
  }

  lemma EmptyLineIsQuiet()
    ensures Quiet("")
  {
    TrimmedStays("");
  }

  lemma SectionBegins(st: LazyState, line: string, data: Structure, original: Structure, pretty: bool)
    requires ParseLine(line).Section? && st.lastKey <= |st.output|
    ensures var begun, before := LazyLine(st, line, false, data, original, pretty), Closed(st, data, original, pretty);
      && begun.section == ParseLine(line).name
      && if Has(data, Norm(begun.section)) then
           begun.parsing && !begun.skip && !begun.discard && begun.output == before + [line]
               && begun.lastKey == |begun.output|
         else !begun.parsing && begun.skip && begun.discard && begun.output == before
  {
    hide ParseLine, Norm, Has, LinesToAdd;
  }

  lemma FlushAt(st: LazyState, data: Structure, original: Structure, pretty: bool)
    requires st.parsing && st.lastKey <= |st.output|
    ensures Closed(st, data, original, pretty)
      == st.output[..st.lastKey] + LinesToAdd(st.section, data, original, pretty) + st.output[st.lastKey..]
  {
    hide LinesToAdd;
  }

  lemma KeptWalks(begun: LazyState, before: seq<string>, line: string, body: seq<string>, es: Section,
                  data: Structure, original: Structure, pretty: bool)
    requires begun.parsing && !begun.skip && !begun.discard && begun.output == before + [line]
    requires begun.lastKey == |begun.output|
    requires Has(data, Norm(begun.section)) && es == Lookup(data, Norm(begun.section))
    requires forall i :: 0 <= i < |body| ==> !ParseLine(body[i]).Section?
    ensures Closed(Walk(begun, body, data, original, pretty), data, original, pretty)
      == before + KeptSection(line, body, es, LinesToAdd(begun.section, data, original, pretty), pretty)
  {
    hide ParseLine, Norm, Has, StayingLines, UpToLastKey, LinesToAdd, Lookup, LazyLine, Flush, Walk, Closed;
    WalkBody(begun, body, es, data, original, pretty);
    FlushAt(Walk(begun, body, data, original, pretty), data, original, pretty);
    InsertBehind(before, [line], StayingLines(es, body, pretty), UpToLastKey(es, body, pretty),
                 LinesToAdd(begun.section, data, original, pretty));
  }

  /** A section line and the lines up to the next one, once they are closed. */
  lemma SectionWalks(st: LazyState, line: string, body: seq<string>, data: Structure, original: Structure, pretty: bool)
    requires ParseLine(line).Section? && st.lastKey <= |st.output|
    requires forall i :: 0 <= i < |body| ==> !ParseLine(body[i]).Section?
    ensures Closed(Walk(st, [line] + body, data, original, pretty), data, original, pretty)
      == Closed(st, data, original, pretty) + SectionLayout(line, body, data, original, pretty)
  {
    hide ParseLine, Norm, Has, StayingLines, Remains, UpToLastKey, LinesToAdd, Lookup, LazyLine, Flush;
    var name, before := Norm(ParseLine(line).name), Closed(st, data, original, pretty);
    assert ([line] + body)[1..] == body;
    SectionBegins(st, line, data, original, pretty);
    var begun := LazyLine(st, line, false, data, original, pretty);
    if Has(data, name) {
      KeptWalks(begun, before, line, body, Lookup(data, name), data, original, pretty);
    } else {
      WalkRemains(begun, body, data, original, pretty);
    }
  }

  lemma InsertBehind(before: seq<string>, line: seq<string>, staying: seq<string>, n: nat, added: seq<string>)
    requires n <= |staying|
    ensures var all, k := before + line + staying, |before + line| + n;
      all[..k] + added + all[k..] == before + (line + staying[..n] + added + staying[n..])
  {
    var all, k := before + line + staying, |before + line| + n;
    assert all[..k] == before + line + staying[..n] && all[k..] == staying[n..];
  }

  // ---------------------------------------------------------------- all of them

  lemma StepBounded(st: LazyState, line: string, data: Structure, original: Structure, pretty: bool)
    requires st.lastKey <= |st.output|
    ensures var r := LazyLine(st, line, false, data, original, pretty); r.lastKey <= |r.output|
  {
    hide ParseLine, Norm, Has, RewriteLine, HasDelimiter, LinesToAdd;
  }

  lemma {:induction false} WalkBounded(st: LazyState, lines: seq<string>, data: Structure, original: Structure,
                                       pretty: bool)
    requires st.lastKey <= |st.output|
    ensures var r := Walk(st, lines, data, original, pretty); r.lastKey <= |r.output|
    decreases |lines|
  {
    hide LazyLine;
    if lines != [] {
      StepBounded(st, lines[0], data, original, pretty);
      WalkBounded(LazyLine(st, lines[0], false, data, original, pretty), lines[1..], data, original, pretty);
    }
  }

  lemma {:induction false} SectionsWalk(st: LazyState, lines: seq<string>, data: Structure, original: Structure,
                                        pretty: bool)
    requires st.lastKey <= |st.output| && (lines != [] ==> ParseLine(lines[0]).Section?)
    ensures Closed(Walk(st, lines, data, original, pretty), data, original, pretty)
      == Closed(st, data, original, pretty) + Layout(lines, data, original, pretty)
    decreases |lines|
  {
    hide ParseLine, Closed, SectionLayout;
    var before := Closed(st, data, original, pretty);
    if lines == [] {
      assert before + [] == before;
    } else {
      var line, n := lines[0], BodyLength(lines[1..]);
      var body, rest := lines[1..][..n], lines[1..][n..];
      NextSection(lines[1..]);
      assert lines == [line] + body + rest;
      WalkConcat(st, [line] + body, rest, data, original, pretty);
      SectionWalks(st, line, body, data, original, pretty);
      WalkBounded(st, [line] + body, data, original, pretty);
      SectionsWalk(Walk(st, [line] + body, data, original, pretty), rest, data, original, pretty);
      Regroup(before, SectionLayout(line, body, data, original, pretty), Layout(rest, data, original, pretty));
    }
  }

  lemma {:induction false} NoEntriesFirst(lines: seq<string>)
    requires AllKept(lines, false)
    ensures forall i :: 0 <= i < BodyLength(lines) ==> Quiet(lines[i])
    decreases |lines|
  {
    hide ParseLine;
    if lines != [] && !ParseLine(lines[0]).Section? {
      NoEntriesFirst(lines[1..]);
      assert forall i :: 0 < i < |lines| ==> lines[i] == lines[1..][i - 1];
    }
  }

  lemma FrontIsQuiet(kept: seq<string>, n: nat)
    requires AllKept(kept, false) && n == BodyLength(kept)
    ensures AllQuiet(kept[..n])
  {
    hide ParseLine, AllKept, Quiet;
    NoEntriesFirst(kept);
  }

  lemma {:induction false} RemainsQuiet(body: seq<string>, discard: bool)
    ensures AllQuiet(Remains(body, discard))
    decreases |body|
  {
    hide ParseLine;
    if body != [] {
      RemainsQuiet(body[1..], false);
      RemainsQuiet(body[1..], discard);
    }
  }

  lemma {:induction false} QuietRemain(lines: seq<string>)
    requires AllQuiet(lines)
    ensures Remains(lines, false) == lines
    decreases |lines|
  {
    hide ParseLine;
    if lines != [] {
      assert Quiet(lines[0]);
      QuietRemain(lines[1..]);
    }
  }

  /**
    A lazy write, line for line: what stands in front of the first section, then section by section what stays, in order
    and brought up to date, with the new keys behind the last key, and at the end the new sections.
   */
  lemma LazyLayout(lines: seq<string>, data: Structure, pretty: bool)
    requires WellKeyed(data)
    ensures var kept, original := KeptLines(lines, false), OriginalOf(lines);
      var n := BodyLength(kept);
      && (n < |kept| ==> ParseLine(kept[n]).Section?)
      && LazyOutput(kept, data, original, pretty)
        == AppendSections(kept[..n] + Layout(kept[n..], data, original, pretty), data, original, pretty)
  {
    hide ParseLine, WellKeyed, OriginalOf, LazyLines, AppendSections, KeptLines, AllKept, ToMaps, MeanAll, Quiet,
      Layout, LazyLine;
    var kept, original := KeptLines(lines, false), OriginalOf(lines);
    var n := BodyLength(kept);
    OriginalMeans(lines);
    KeptAreKept(lines, false);
    NextSection(kept);
    NoEntriesFirst(kept);
    WalkEnds(INIT, kept, NOTHING, data, original, pretty);
    assert kept == kept[..n] + kept[n..];
    WalkConcat(INIT, kept[..n], kept[n..], data, original, pretty);
    WalkRemains(INIT, kept[..n], data, original, pretty);
    QuietRemain(kept[..n]);
    WalkBounded(INIT, kept[..n], data, original, pretty);
    SectionsWalk(Walk(INIT, kept[..n], data, original, pretty), kept[n..], data, original, pretty);
    assert INIT.output + kept[..n] == kept[..n];
  }
}
