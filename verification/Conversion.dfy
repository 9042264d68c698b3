/**
  One run of a conversion loop, and what every run of all six loops promises: where it stops,
  what it has written by then, and that it can be cut into pieces.
 */
module Conversion {
  import opened Unicode
  import opened Decoding

  /**
    A conversion loop: `next` reads the front of the source, `encode` writes a code point.
    An eager loop refuses a full target before it looks at the source.
   */
  datatype Converter<!S, !T> = Converter(next: seq<S> -> Unit, encode: CodePoint -> seq<T>, eager: bool)
  {
    function Written(codes: seq<CodePoint>): seq<T> {
      EncodeAll(encode, codes)
    }

    /** The first unit of a source that is not empty; it lies inside the source and is never an ending. */
    function Front(src: seq<S>): (u: Unit)
      requires src != []
      ensures u.Emit? ==> 1 <= u.used <= |src|
      ensures u.Fault? ==> u.why in {SourceExhausted, SourceIllegal}
    {
      match next(src)
      case Emit(n, codes, bad) => if 1 <= n <= |src| then Emit(n, codes, bad) else Fault(SourceIllegal)
      case Fault(why) => if why == SourceExhausted then Fault(why) else Fault(SourceIllegal)
    }
  }

  function Stepper16(flags: ConversionFlags): seq<Utf16> -> Unit {
    src => Next16(src, flags)
  }

  function UTF8toUTF16(): Converter<Utf8, Utf16> {
    Converter(Next8, Encode16, false)
  }

  function UTF8toUTF32(): Converter<Utf8, Utf32> {
    Converter(Next8, Encode32, false)
  }

  function UTF16toUTF8(flags: ConversionFlags): Converter<Utf16, Utf8> {
    Converter(Stepper16(flags), Encode8, false)
  }

  function UTF16toUTF32(flags: ConversionFlags): Converter<Utf16, Utf32> {
    Converter(Stepper16(flags), Encode32, false)
  }

  function UTF32toUTF8(flags: ConversionFlags): Converter<Utf32, Utf8> {
    Converter(src => Next32For8(src, flags), Encode8, false)
  }

  function UTF32toUTF16(flags: ConversionFlags): Converter<Utf32, Utf16> {
    Converter(src => Next32For16(src, flags), Encode16, true)
  }

  /** Once a unit is settled it does not depend on what follows; only a truncated one may change. */
  ghost predicate LawfulAt<S(!new), T>(c: Converter<S, T>, a: seq<S>, b: seq<S>) {
    a != [] && c.Front(a) != Fault(SourceExhausted) ==> c.Front(a + b) == c.Front(a)
  }

  ghost predicate Lawful<S(!new), T>(c: Converter<S, T>) {
    forall a: seq<S>, b: seq<S> {:trigger LawfulAt(c, a, b)} :: LawfulAt(c, a, b)
  }

  /** Where a run stopped: source units consumed, code points converted, and why. */
  datatype Outcome = Outcome(used: nat, codes: seq<CodePoint>, bad: bool, stop: ConversionResult)
  {
    /** The returned code: a value passed over as illegal shows only if nothing else stopped the run. */
    function Result(): ConversionResult {
      if stop == ConversionOK && bad then SourceIllegal else stop
    }

    function Then(rest: Outcome): Outcome {
      Outcome(used + rest.used, codes + rest.codes, bad || rest.bad, rest.stop)
    }
  }

  ghost function Run<S, T>(c: Converter<S, T>, src: seq<S>, room: nat): (o: Outcome)
    ensures o.used <= |src|
    decreases |src|
  {
    if src == [] then Outcome(0, [], false, ConversionOK)
    else if c.eager && room == 0 then Outcome(0, [], false, TargetExhausted)
    else match c.Front(src)
      case Fault(why) => Outcome(0, [], false, why)
      case Emit(n, codes, bad) =>
        var size := |c.Written(codes)|;
        if size > room then Outcome(0, [], false, TargetExhausted)
        else Outcome(n, codes, bad, ConversionOK).Then(Run(c, src[n..], room - size))
  }

  lemma {:induction false} RunFits<S, T>(c: Converter<S, T>, src: seq<S>, room: nat)
    ensures |c.Written(Run(c, src, room).codes)| <= room
    decreases |src|
  {
    if src != [] && !(c.eager && room == 0) && c.Front(src).Emit? {
      var Emit(n, codes, bad) := c.Front(src);
      var size := |c.Written(codes)|;
      if size <= room {
        RunFits(c, src[n..], room - size);
        EncodeAllConcat(c.encode, codes, Run(c, src[n..], room - size).codes);
      }
    }
  }

  const NOTHING_DONE := Outcome(0, [], false, ConversionOK)

  /** The ways a run ends at once. */
  lemma RunEnds<S, T>(c: Converter<S, T>, src: seq<S>, room: nat)
    requires src != []
    ensures c.eager && room == 0 ==> Run(c, src, room) == NOTHING_DONE.(stop := TargetExhausted)
    ensures !(c.eager && room == 0) && c.Front(src).Fault? ==>
      Run(c, src, room) == NOTHING_DONE.(stop := c.Front(src).why)
    ensures c.Front(src).Emit? && |c.Written(c.Front(src).codes)| > room ==>
      Run(c, src, room) == NOTHING_DONE.(stop := TargetExhausted)
  {
  }

  lemma RunOfNothing<S, T>(c: Converter<S, T>, room: nat)
    ensures Run(c, [], room) == NOTHING_DONE
  {
  }

  lemma RunStep<S, T>(c: Converter<S, T>, src: seq<S>, room: nat, n: nat, codes: seq<CodePoint>, bad: bool)
    requires src != [] && !(c.eager && room == 0)
    requires c.Front(src) == Emit(n, codes, bad) && |c.Written(codes)| <= room
    ensures Run(c, src, room) == Outcome(n, codes, bad, ConversionOK).Then(Run(c, src[n..], room - |c.Written(codes)|))
  {
  }

  lemma RunMoved<S, T>(c: Converter<S, T>, src: seq<S>, room: nat)
    requires Run(c, src, room).used > 0
    ensures src != [] && !(c.eager && room == 0)
    ensures c.Front(src).Emit? && |c.Written(c.Front(src).codes)| <= room
  {
  }

  lemma DropDrop<S>(s: seq<S>, i: nat, j: nat)
    requires i + j <= |s|
    ensures s[i..][j..] == s[i + j..]
  {
  }

  // ---------------------------------------------------------------- the six loops are lawful

  lemma Lawful8<T>(c: Converter<Utf8, T>)
    requires c.next == Next8
    ensures Lawful(c)
  {
    forall a: seq<Utf8>, b: seq<Utf8> ensures LawfulAt(c, a, b) {
      if a != [] {
        var n := TrailingBytes(a[0]) + 1;
        if n <= |a| {
          assert (a + b)[..n] == a[..n];
        }
      }
    }
  }

  lemma Lawful16<T>(c: Converter<Utf16, T>, flags: ConversionFlags)
    requires c.next == Stepper16(flags)
    ensures Lawful(c)
  {
    forall a: seq<Utf16>, b: seq<Utf16> ensures LawfulAt(c, a, b) {
      if |a| > 1 {
        assert (a + b)[0] == a[0] && (a + b)[1] == a[1];
      }
    }
  }

  lemma Front32(a: seq<Utf32>, b: seq<Utf32>, flags: ConversionFlags)
    requires a != [] && b != [] && a[0] == b[0]
    ensures UTF32toUTF8(flags).Front(a) == UTF32toUTF8(flags).Front(b)
    ensures UTF32toUTF16(flags).Front(a) == UTF32toUTF16(flags).Front(b)
  {
  }

  lemma Lawful32(flags: ConversionFlags)
    ensures Lawful(UTF32toUTF8(flags)) && Lawful(UTF32toUTF16(flags))
  {
    hide Replaced, Unit32For16, Next32For8, Next32For16;
    forall a: seq<Utf32>, b: seq<Utf32>
      ensures LawfulAt(UTF32toUTF8(flags), a, b) && LawfulAt(UTF32toUTF16(flags), a, b)
    {
      if a != [] {
        assert (a + b)[0] == a[0];
        Front32(a, a + b, flags);
      }
    }
  }

  // ---------------------------------------------------------------- the stop contract

  datatype Reading = Whole(codes: seq<CodePoint>, bad: bool) | Partial

  /** The code points of the first `k` units of `src`, if a unit ends there and each one had the room it needs. */
  ghost function ReadUpTo<S, T>(c: Converter<S, T>, src: seq<S>, room: nat, k: nat): Reading
    requires k <= |src|
    decreases k
  {
    if k == 0 then Whole([], false)
    else if c.eager && room == 0 then Partial
    else match c.Front(src)
      case Fault(_) => Partial
      case Emit(n, codes, bad) =>
        if n > k || |c.Written(codes)| > room then Partial
        else match ReadUpTo(c, src[n..], room - |c.Written(codes)|, k - n)
          case Partial => Partial
          case Whole(more, moreBad) => Whole(codes + more, bad || moreBad)
  }

  /** The header's promise about the cursors and the result, as a relation between a source and an outcome. */
  ghost predicate StopsRight<S, T>(c: Converter<S, T>, src: seq<S>, room: nat, o: Outcome) {
    && o.used <= |src|
    && ReadUpTo(c, src, room, o.used) == Whole(o.codes, o.bad)
    && |c.Written(o.codes)| <= room
    && EndsRight(c, src[o.used..], room - |c.Written(o.codes)|, o.stop)
  }

  /** Why a run may stop in front of `rest` with `left` places free. */
  ghost predicate EndsRight<S, T>(c: Converter<S, T>, rest: seq<S>, left: nat, stop: ConversionResult) {
    match stop
    case ConversionOK => rest == []
    case TargetExhausted =>
      rest != [] && ((c.eager && left == 0) || (c.Front(rest).Emit? && |c.Written(c.Front(rest).codes)| > left))
    case why => rest != [] && !(c.eager && left == 0) && c.Front(rest) == Fault(why)
  }

  lemma StopsRightStep<S, T>(c: Converter<S, T>, src: seq<S>, room: nat, n: nat, codes: seq<CodePoint>, bad: bool,
                             rest: Outcome)
    requires src != [] && !(c.eager && room == 0)
    requires c.Front(src) == Emit(n, codes, bad) && |c.Written(codes)| <= room
    requires StopsRight(c, src[n..], room - |c.Written(codes)|, rest)
    ensures StopsRight(c, src, room, Outcome(n, codes, bad, ConversionOK).Then(rest))
  {
    hide EndsRight;
    EncodeAllConcat(c.encode, codes, rest.codes);
    DropDrop(src, n, rest.used);
  }

  /** Every run stops where the contract says. */
  lemma {:induction false} RunStopsRight<S, T>(c: Converter<S, T>, src: seq<S>, room: nat)
    ensures StopsRight(c, src, room, Run(c, src, room))
    decreases |src|
  {
    if Run(c, src, room).used == 0 {
      assert src[0..] == src;
    } else {
      RunMoved(c, src, room);
      var Emit(n, codes, bad) := c.Front(src);
      RunStep(c, src, room, n, codes, bad);
      hide *;
      RunStopsRight(c, src[n..], room - |c.Written(codes)|);
      StopsRightStep(c, src, room, n, codes, bad, Run(c, src[n..], room - |c.Written(codes)|));
    }
  }

  /** The contract leaves no choice: only the outcome of the run meets it. */
  lemma {:induction false} StopsRightDetermines<S, T>(c: Converter<S, T>, src: seq<S>, room: nat, o: Outcome)
    requires StopsRight(c, src, room, o)
    ensures o == Run(c, src, room)
    decreases |src|
  {
    if o.used == 0 {
      assert src[0..] == src;
    } else {
      var Emit(n, codes, bad) := c.Front(src);
      var rest := StopsRightBehind(c, src, room, o, n, codes, bad);
      RunStep(c, src, room, n, codes, bad);
      hide Run, StopsRight;
      StopsRightDetermines(c, src[n..], room - |c.Written(codes)|, rest);
    }
  }

  lemma StopsRightBehind<S, T>(c: Converter<S, T>, src: seq<S>, room: nat, o: Outcome, n: nat, codes: seq<CodePoint>,
                               bad: bool)
    returns (rest: Outcome)
    requires StopsRight(c, src, room, o) && o.used > 0 && c.Front(src) == Emit(n, codes, bad)
    ensures |c.Written(codes)| <= room && StopsRight(c, src[n..], room - |c.Written(codes)|, rest)
    ensures o == Outcome(n, codes, bad, ConversionOK).Then(rest)
  {
    hide EndsRight, EncodeAll;
    var left := room - |c.Written(codes)|;
    var Whole(more, moreBad) := ReadUpTo(c, src[n..], left, o.used - n);
    rest := Outcome(o.used - n, more, moreBad, o.stop);
    EncodeAllConcat(c.encode, codes, more);
    DropDrop(src, n, rest.used);
  }

  // ---------------------------------------------------------------- resuming

  lemma ThenAssociates(x: Outcome, y: Outcome, z: Outcome)
    ensures x.Then(y).Then(z) == x.Then(y.Then(z))
  {
    assert x.codes + y.codes + z.codes == x.codes + (y.codes + z.codes);
  }

  lemma DropConcat<S>(a: seq<S>, b: seq<S>, n: nat)
    requires n <= |a|
    ensures (a + b)[n..] == a[n..] + b
  {
  }

  /** `a` is converted as far as `early` places allow; then `b` arrives and there is room for `room` in all. */
  ghost function InTwoRuns<S, T>(c: Converter<S, T>, a: seq<S>, b: seq<S>, early: nat, room: nat): Outcome
    requires early <= room
  {
    var first := Run(c, a, early);
    RunFits(c, a, early);
    first.Then(Run(c, a[first.used..] + b, room - |c.Written(first.codes)|))
  }

  lemma InTwoRunsStep<S, T>(c: Converter<S, T>, a: seq<S>, b: seq<S>, early: nat, room: nat, n: nat,
                            codes: seq<CodePoint>, bad: bool)
    requires early <= room && a != [] && !(c.eager && early == 0)
    requires c.Front(a) == Emit(n, codes, bad) && |c.Written(codes)| <= early
    ensures InTwoRuns(c, a, b, early, room)
      == Outcome(n, codes, bad, ConversionOK).Then(InTwoRuns(c, a[n..], b, early - |c.Written(codes)|,
          room - |c.Written(codes)|))
  {
    hide Run;
    var head, size := Outcome(n, codes, bad, ConversionOK), |c.Written(codes)|;
    RunStep(c, a, early, n, codes, bad);
    RunFits(c, a, early);
    var second := Run(c, a[n..], early - size);
    RunFits(c, a[n..], early - size);
    DropDrop(a, n, second.used);
    EncodeAllConcat(c.encode, codes, second.codes);
    ThenAssociates(head, second, Run(c, a[n..][second.used..] + b, room - size - |c.Written(second.codes)|));
  }

  lemma ResumesFromStart<S(!new), T>(c: Converter<S, T>, a: seq<S>, b: seq<S>, early: nat, room: nat)
    requires Lawful(c) && early <= room && Run(c, a, early).used == 0
    ensures InTwoRuns(c, a, b, early, room) == Run(c, a + b, room)
  {
    var first, whole := Run(c, a, early), Run(c, a + b, room);
    assert a[0..] + b == a + b;
    assert first.Then(whole) == whole by {
      assert [] + whole.codes == whole.codes;
    }
  }

  /**
    A run over `a` with little room, continued from its cursors when more source and more room have
    arrived, is the run over everything at once: for every cut of the source and of the target.
   */
  lemma {:induction false} Resumes<S(!new), T>(c: Converter<S, T>, a: seq<S>, b: seq<S>, early: nat, room: nat)
    requires Lawful(c) && early <= room
    ensures InTwoRuns(c, a, b, early, room) == Run(c, a + b, room)
    decreases |a|
  {
    hide Run, InTwoRuns;
    if Run(c, a, early).used == 0 {
      ResumesFromStart(c, a, b, early, room);
    } else {
      RunMoved(c, a, early);
      var Emit(n, codes, bad) := c.Front(a);
      var head, left := Outcome(n, codes, bad, ConversionOK), room - |c.Written(codes)|;
      calc {
        Run(c, a + b, room);
        { assert LawfulAt(c, a, b); RunStep(c, a + b, room, n, codes, bad); }
        head.Then(Run(c, (a + b)[n..], left));
        { DropConcat(a, b, n); }
        head.Then(Run(c, a[n..] + b, left));
        { Resumes(c, a[n..], b, early - |c.Written(codes)|, left); }
        head.Then(InTwoRuns(c, a[n..], b, early - |c.Written(codes)|, left));
        { InTwoRunsStep(c, a, b, early, room, n, codes, bad); }
        InTwoRuns(c, a, b, early, room);
      }
    }
  }

  /** The loop never passes over an illegal value. */
  ghost predicate NeverMarks<S(!new), T>(c: Converter<S, T>) {
    forall src: seq<S> :: src != [] && c.Front(src).Emit? ==> !c.Front(src).bad
  }

  /** Those that read UTF-8 or UTF-16 do not. */
  lemma MarksNothing<T>(c: Converter<Utf8, T>, d: Converter<Utf16, T>, flags: ConversionFlags)
    ensures c.next == Next8 ==> NeverMarks(c)
    ensures d.next == Stepper16(flags) ==> NeverMarks(d)
  {
    hide CodeOf8, Accepted8, TrailingBytes, PairCode, Widen;
  }

  lemma {:induction false} NothingMarked<S(!new), T>(c: Converter<S, T>, src: seq<S>, room: nat)
    requires NeverMarks(c)
    ensures !Run(c, src, room).bad
    decreases |src|
  {
    if src != [] && c.Front(src).Emit? && |c.Written(c.Front(src).codes)| <= room {
      NothingMarked(c, src[c.Front(src).used..], room - |c.Written(c.Front(src).codes)|);
    }
  }

  /**
    The second of two calls returns what one call would return, except in one case: a value was passed over in the
    first and nothing stops the second. Loops that read UTF-8 or UTF-16 pass over nothing.
   */
  lemma ResumesWithResult<S(!new), T>(c: Converter<S, T>, a: seq<S>, b: seq<S>, early: nat, room: nat)
    requires Lawful(c) && early <= room
    ensures var first := Run(c, a, early);
      && |c.Written(first.codes)| <= early
      && var second := Run(c, a[first.used..] + b, room - |c.Written(first.codes)|);
      && (second.Result() == Run(c, a + b, room).Result() <==> !(first.bad && second.Result() == ConversionOK))
      && (NeverMarks(c) ==> second.Result() == Run(c, a + b, room).Result())
  {
    hide Run, Lawful, NeverMarks;
    RunFits(c, a, early);
    Resumes(c, a, b, early, room);
    if NeverMarks(c) {
      NothingMarked(c, a, early);
    }
  }

  /** A value above the code space, and then no room for the next one: the second call has forgotten about it. */
  lemma MarkIsForgotten()
    ensures var c, src: seq<Utf32> := UTF32toUTF8(LenientConversion), [0x110000, 0x41];
      && Run(c, src, 3) == Outcome(1, [REPLACEMENT_CHAR], true, TargetExhausted)
      && Run(c, src[1..], 1).Result() == ConversionOK && Run(c, src, 4).Result() == SourceIllegal
  {
    var c, src: seq<Utf32> := UTF32toUTF8(LenientConversion), [0x110000, 0x41];
    EncodeAllOne(Encode8, REPLACEMENT_CHAR);
    EncodeAllOne(Encode8, 0x41);
    hide Run;
    assert src[1..] == [0x41] && src[1..][1..] == [];
    RunStep(c, src, 3, 1, [REPLACEMENT_CHAR], true);
    RunStep(c, src, 4, 1, [REPLACEMENT_CHAR], true);
    RunEnds(c, src[1..], 0);
    RunStep(c, src[1..], 1, 1, [0x41], false);
    RunOfNothing(c, 0);
  }
}
