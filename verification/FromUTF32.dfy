/**
  Conversion from UTF-32, strict and lenient, with every value accounted for: surrogates, values above 0x10FFFF, and
  where the header's account of them fails.
 */
module FromUTF32 {
  import opened Unicode
  import opened Decoding
  import opened Conversion
  import opened ConversionTheorems
  import opened SourceText

  // ---------------------------------------------------------------- strict conversion

  /** The first value that is not a scalar value, or the length. */
  ghost function FirstIllegal(src: seq<Utf32>): (k: nat)
    ensures k <= |src| && (k < |src| ==> !IsScalar(src[k])) && forall i :: 0 <= i < k ==> IsScalar(src[i])
  {
    if src == [] || !IsScalar(src[0]) then 0 else 1 + FirstIllegal(src[1..])
  }

  /**
    With room enough, strict conversion from UTF-32 to UTF-8 succeeds on scalar values only. Otherwise it
    reports sourceIllegal, and the cursor is on the first illegal value exactly when that is a surrogate.
   */
  lemma {:induction false} StrictFrom32(src: seq<Utf32>, room: nat)
    requires 4 * |src| <= room
    ensures var o, k := Run(UTF32toUTF8(StrictConversion), src, room), FirstIllegal(src);
      && (o.Result() == ConversionOK <==> k == |src|)
      && (k < |src| ==> o.Result() == SourceIllegal && (o.used == k <==> IsSurrogate(src[k])))
    decreases |src|
  {
    hide Replaced;
    var c := UTF32toUTF8(StrictConversion);
    if src != [] && !IsSurrogate(src[0]) {
      StrictStep32(src, room);
      hide Run;
      var left := room - |c.Written([Replaced(src[0])])|;
      if IsScalar(src[0]) {
        StrictFrom32(src[1..], left);
      } else {
        StrictRest32(src[1..], left);
      }
    }
  }

  lemma StrictStep32(src: seq<Utf32>, room: nat)
    requires src != [] && !IsSurrogate(src[0]) && 4 <= room
    ensures var c := UTF32toUTF8(StrictConversion);
      && |c.Written([Replaced(src[0])])| <= 4
      && Run(c, src, room) == Outcome(1, [Replaced(src[0])], src[0] > 0x10FFFF, ConversionOK)
        .Then(Run(c, src[1..], room - |c.Written([Replaced(src[0])])|))
  {
    var c := UTF32toUTF8(StrictConversion);
    EncodeAllOne(Encode8, Replaced(src[0]));
    RunStep(c, src, room, 1, [Replaced(src[0])], src[0] > 0x10FFFF);
  }

  lemma StrictRest32(src: seq<Utf32>, room: nat)
    requires 4 * |src| <= room
    ensures Run(UTF32toUTF8(StrictConversion), src, room).stop in {ConversionOK, SourceIllegal}
  {
    var c := UTF32toUTF8(StrictConversion);
    From32Affordable(StrictConversion);
    WeightBound(WEIGHT_OF_32, 4, src);
    NeverFull(c, WEIGHT_OF_32, src, room);
    RunStopsRight(c, src, room);
  }

  /** The same for UTF-16, where a value above 0x10FFFF leaves nothing behind. */
  lemma {:induction false} StrictFrom32to16(src: seq<Utf32>, room: nat)
    requires 2 * |src| <= room
    ensures var o, k := Run(UTF32toUTF16(StrictConversion), src, room), FirstIllegal(src);
      && (o.Result() == ConversionOK <==> k == |src|)
      && (k < |src| ==> o.Result() == SourceIllegal && (o.used == k <==> IsSurrogate(src[k])))
    decreases |src|
  {
    if src != [] && !IsSurrogate(src[0]) {
      StrictStep32to16(src, room);
      hide Run;
      var left := room - |UTF32toUTF16(StrictConversion).Written(Kept32(src[0]))|;
      if IsScalar(src[0]) {
        StrictFrom32to16(src[1..], left);
      } else {
        StrictRest32to16(src[1..], left);
      }
    }
  }

  /** What strict conversion to UTF-16 keeps of a value that is no surrogate. */
  function Kept32(ch: Utf32): seq<CodePoint> {
    if ch > 0x10FFFF then [] else [ch]
  }

  lemma StrictStep32to16(src: seq<Utf32>, room: nat)
    requires src != [] && !IsSurrogate(src[0]) && 2 <= room
    ensures var c := UTF32toUTF16(StrictConversion);
      && |c.Written(Kept32(src[0]))| <= 2
      && Run(c, src, room) == Outcome(1, Kept32(src[0]), src[0] > 0x10FFFF, ConversionOK)
        .Then(Run(c, src[1..], room - |c.Written(Kept32(src[0]))|))
  {
    if src[0] <= 0x10FFFF {
      EncodeAllOne(Encode16, src[0]);
    }
  }

  const WEIGHT_OF_PAIR := (u: Utf32) => 2

  lemma PairsAffordable()
    ensures Affordable(UTF32toUTF16(StrictConversion), WEIGHT_OF_PAIR)
  {
    hide HighOf, LowOf, Run;
    var c := UTF32toUTF16(StrictConversion);
    forall s: seq<Utf32> | s != [] ensures AffordableAt(c, WEIGHT_OF_PAIR, s) {
      if c.Front(s).Emit? && c.Front(s).codes != [] {
        EncodeAllOne(Encode16, c.Front(s).codes[0]);
      }
    }
  }

  lemma StrictRest32to16(src: seq<Utf32>, room: nat)
    requires 2 * |src| <= room
    ensures Run(UTF32toUTF16(StrictConversion), src, room).stop in {ConversionOK, SourceIllegal}
  {
    hide Run, Affordable, Weight, ReadUpTo;
    var c := UTF32toUTF16(StrictConversion);
    PairsAffordable();
    WeightBound(WEIGHT_OF_PAIR, 2, src);
    NeverFull(c, WEIGHT_OF_PAIR, src, room);
    RunStopsRight(c, src, room);
  }

  // ---------------------------------------------------------------- lenient conversion

  function ReplacedAll(src: seq<Utf32>): (codes: seq<CodePoint>)
    ensures |codes| == |src| && forall i :: 0 <= i < |src| ==> codes[i] == Replaced(src[i])
  {
    if src == [] then [] else [Replaced(src[0])] + ReplacedAll(src[1..])
  }

  ghost predicate AnyTooLarge(src: seq<Utf32>) {
    exists i :: 0 <= i < |src| && src[i] > 0x10FFFF
  }

  lemma AnyTooLargeStep(src: seq<Utf32>)
    requires src != []
    ensures AnyTooLarge(src) <==> src[0] > 0x10FFFF || AnyTooLarge(src[1..])
  {
    if i :| 0 < i < |src| && src[i] > 0x10FFFF {
      assert src[1..][i - 1] == src[i];
    }
    if i :| 0 <= i < |src| - 1 && src[1..][i] > 0x10FFFF {
      assert src[i + 1] == src[1..][i];
    }
  }

  /**
    With room enough, lenient conversion to UTF-8 converts everything, too large values to the replacement character.
    It still reports sourceIllegal exactly if there is such a value.
   */
  lemma {:induction false} LenientFrom32(src: seq<Utf32>, room: nat)
    requires 4 * |src| <= room
    ensures var o := Run(UTF32toUTF8(LenientConversion), src, room);
      && o == Outcome(|src|, ReplacedAll(src), AnyTooLarge(src), ConversionOK)
      && (o.Result() == ConversionOK <==> !AnyTooLarge(src)) && (AnyTooLarge(src) ==> o.Result() == SourceIllegal)
    decreases |src|
  {
    hide Run, Replaced, AnyTooLarge;
    if src == [] {
      RunOfNothing(UTF32toUTF8(LenientConversion), room);
      assert !AnyTooLarge([]) by { NoneTooLarge(); }
    } else {
      var c := UTF32toUTF8(LenientConversion);
      EncodeAllOne(Encode8, Replaced(src[0]));
      RunStep(c, src, room, 1, [Replaced(src[0])], src[0] > 0x10FFFF);
      LenientFrom32(src[1..], room - |c.Written([Replaced(src[0])])|);
      AnyTooLargeStep(src);
    }
  }

  lemma NoneTooLarge()
    ensures !AnyTooLarge([])
  {
  }

  function Substituted(ch: Utf32): CodePoint {
    if IsScalar(ch) then ch else REPLACEMENT_CHAR
  }

  function SubstitutedAll(src: seq<Utf32>): (codes: seq<CodePoint>)
    ensures |codes| == |src| && forall i :: 0 <= i < |src| ==> codes[i] == Substituted(src[i])
  {
    if src == [] then [] else [Substituted(src[0])] + SubstitutedAll(src[1..])
  }

  /** Lenient conversion to UTF-16 replaces surrogates as well, and reports nothing. */
  lemma {:induction false} LenientFrom32to16(src: seq<Utf32>, room: nat)
    requires 2 * |src| <= room
    ensures Run(UTF32toUTF16(LenientConversion), src, room) == Outcome(|src|, SubstitutedAll(src), false, ConversionOK)
    decreases |src|
  {
    hide Run, HighOf, LowOf;
    var c := UTF32toUTF16(LenientConversion);
    if src == [] {
      RunOfNothing(c, room);
    } else {
      EncodeAllOne(Encode16, Substituted(src[0]));
      RunStep(c, src, room, 1, [Substituted(src[0])], false);
      LenientFrom32to16(src[1..], room - |c.Written([Substituted(src[0])])|);
    }
  }

  /** The bytes of code points are well formed exactly if all of them are scalar values. */
  lemma {:induction false} EncodedTextIff(codes: seq<CodePoint>)
    ensures WellFormedText8(EncodeAll(Encode8, codes)) <==> AllScalars(codes)
  {
    hide Encode8, WellFormed8, IsScalar;
    if codes != [] {
      var head, rest := Encode8(codes[0]), EncodeAll(Encode8, codes[1..]);
      EncodedIsWellFormed(codes[0]);
      EncodedTextIff(codes[1..]);
      assert (head + rest)[..|head|] == head && (head + rest)[|head|..] == rest;
      forall n | 1 <= n <= |head + rest| && WellFormed8((head + rest)[..n]) ensures n == |head| {
        WellFormedIsAccepted(head + rest);
        OneCut(head + rest, n);
        EncodedLead(codes[0]);
      }
      assert AllScalars(codes) <==> IsScalar(codes[0]) && AllScalars(codes[1..]);
    }
  }

  lemma EncodedLead(ch: CodePoint)
    ensures TrailingBytes(Encode8(ch)[0]) + 1 == |Encode8(ch)|
  {
  }

  // ---------------------------------------------------------------- whatever the room

  /**
    However it ends and under either flag, conversion to UTF-8 has converted all that it consumed, too large values to
    the replacement character, and has marked it exactly if there was such a value.
   */
  lemma {:induction false} From32Consumes(src: seq<Utf32>, flags: ConversionFlags, room: nat)
    ensures var o := Run(UTF32toUTF8(flags), src, room);
      o.codes == ReplacedAll(src[..o.used]) && (o.bad <==> AnyTooLarge(src[..o.used]))
    decreases |src|
  {
    hide Run, Replaced, AnyTooLarge;
    var c := UTF32toUTF8(flags);
    var o := Run(c, src, room);
    if o.used == 0 {
      assert src[..0] == [];
      NothingConsumed32(c, src, room);
    } else {
      RunMoved(c, src, room);
      var left := room - |c.Written([Replaced(src[0])])|;
      RunStep(c, src, room, 1, [Replaced(src[0])], src[0] > 0x10FFFF);
      From32Consumes(src[1..], flags, left);
      assert src[..o.used][0] == src[0] && src[..o.used][1..] == src[1..][..o.used - 1];
      AnyTooLargeStep(src[..o.used]);
    }
  }

  lemma NothingConsumed32<T>(c: Converter<Utf32, T>, src: seq<Utf32>, room: nat)
    requires Run(c, src, room).used == 0
    ensures Run(c, src, room).codes == [] && !Run(c, src, room).bad && !AnyTooLarge([])
  {
  }

  /** What conversion to UTF-16 keeps of one value: strict drops a value above the code space. */
  function KeptFor16(ch: Utf32, flags: ConversionFlags): seq<CodePoint> {
    if flags.StrictConversion? then Kept32(ch) else [Substituted(ch)]
  }

  function AllKeptFor16(src: seq<Utf32>, flags: ConversionFlags): seq<CodePoint> {
    if src == [] then [] else KeptFor16(src[0], flags) + AllKeptFor16(src[1..], flags)
  }

  /** The same to UTF-16, where only strict conversion marks what is too large. */
  lemma {:induction false} From32to16Consumes(src: seq<Utf32>, flags: ConversionFlags, room: nat)
    ensures var o := Run(UTF32toUTF16(flags), src, room);
      && o.codes == AllKeptFor16(src[..o.used], flags)
      && (o.bad <==> flags.StrictConversion? && AnyTooLarge(src[..o.used]))
    decreases |src|
  {
    hide Run, AnyTooLarge, HighOf, LowOf, KeptFor16;
    var c := UTF32toUTF16(flags);
    var o := Run(c, src, room);
    if o.used == 0 {
      assert src[..0] == [];
      NothingConsumed32(c, src, room);
    } else {
      RunMoved(c, src, room);
      UnitKept16(src, flags);
      var left := room - |c.Written(KeptFor16(src[0], flags))|;
      RunStep(c, src, room, 1, KeptFor16(src[0], flags), flags.StrictConversion? && src[0] > 0x10FFFF);
      From32to16Consumes(src[1..], flags, left);
      assert src[..o.used][0] == src[0] && src[..o.used][1..] == src[1..][..o.used - 1];
      AnyTooLargeStep(src[..o.used]);
    }
  }

  lemma UnitKept16(src: seq<Utf32>, flags: ConversionFlags)
    requires src != [] && UTF32toUTF16(flags).Front(src).Emit?
    ensures UTF32toUTF16(flags).Front(src)
      == Emit(1, KeptFor16(src[0], flags), flags.StrictConversion? && src[0] > 0x10FFFF)
  {
  }

  /** What lenient conversion writes in UTF-8 is well formed exactly if the source has no surrogate. */
  lemma LenientOutputIsWellFormedIff(src: seq<Utf32>, room: nat)
    requires 4 * |src| <= room
    ensures var c := UTF32toUTF8(LenientConversion);
      WellFormedText8(c.Written(Run(c, src, room).codes)) <==> forall i :: 0 <= i < |src| ==> !IsSurrogate(src[i])
  {
    hide Run, WellFormedText8, AnyTooLarge;
    LenientFrom32(src, room);
    EncodedTextIff(ReplacedAll(src));
    assert forall i :: 0 <= i < |src| ==> (IsScalar(ReplacedAll(src)[i]) <==> !IsSurrogate(src[i]));
  }

  /**
    One value just above the code space. Strict conversion passes over it, where the header wants the cursor on it:
    to UTF-8 it writes the replacement character, to UTF-16 nothing. Lenient conversion replaces it, and to UTF-8
    reports it as illegal all the same.
   */
  lemma TooLargeIsPassedOver()
    ensures Run(UTF32toUTF8(StrictConversion), [0x110000], 4) == Outcome(1, [0xFFFD], true, ConversionOK)
    ensures Run(UTF32toUTF16(StrictConversion), [0x110000], 2) == Outcome(1, [], true, ConversionOK)
    ensures Run(UTF32toUTF8(LenientConversion), [0x110000], 4) == Outcome(1, [0xFFFD], true, ConversionOK)
    ensures Run(UTF32toUTF16(LenientConversion), [0x110000], 2) == Outcome(1, [0xFFFD], false, ConversionOK)
    ensures Outcome(1, [0xFFFD], true, ConversionOK).Result() == Outcome(1, [], true, ConversionOK).Result()
        == SourceIllegal
  {
    hide Run, HighOf, LowOf;
    var src: seq<Utf32> := [0x110000];
    assert src[1..] == [];
    EncodeAllOne(Encode8, REPLACEMENT_CHAR);
    EncodeAllOne(Encode16, REPLACEMENT_CHAR);
    forall flags: ConversionFlags
      ensures Run(UTF32toUTF8(flags), src, 4) == Outcome(1, [REPLACEMENT_CHAR], true, ConversionOK)
    {
      var c := UTF32toUTF8(flags);
      RunStep(c, src, 4, 1, [REPLACEMENT_CHAR], true);
      RunOfNothing(c, 4 - |c.Written([REPLACEMENT_CHAR])|);
    }
    RunStep(UTF32toUTF16(StrictConversion), src, 2, 1, [], true);
    RunOfNothing(UTF32toUTF16(StrictConversion), 2);
    RunStep(UTF32toUTF16(LenientConversion), src, 2, 1, [REPLACEMENT_CHAR], false);
    RunOfNothing(UTF32toUTF16(LenientConversion), 1);
  }
}
