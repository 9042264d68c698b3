/**
  What the six converters mean for text: round trips, agreement between the routes, the exact
  reach of the legality test, well-formed output and buffer sizes that always suffice.
 */
module ConversionTheorems {
  import opened Unicode
  import opened Decoding
  import opened Conversion

  // ---------------------------------------------------------------- encoded text is read back

  /** `c` takes the encoding of `ch` off the front of any source as one unit. */
  ghost predicate Takes<S(!new), T>(c: Converter<S, T>, form: CodePoint -> seq<S>, ch: CodePoint) {
    && form(ch) != [] && c.encode(ch) != []
    && forall rest: seq<S> :: c.Front(form(ch) + rest) == Emit(|form(ch)|, [ch], false)
  }

  lemma {:induction false} RunOnEncoded<S(!new), T>( c: Converter<S, T>, form: CodePoint -> seq<S>,
                                          codes: seq<CodePoint>, room: nat)
    requires forall i :: 0 <= i < |codes| ==> Takes(c, form, codes[i])
    requires |c.Written(codes)| <= room
    ensures Run(c, EncodeAll(form, codes), room) == Outcome(|EncodeAll(form, codes)|, codes, false, ConversionOK)
  {
    if codes != [] {
      var head, rest := form(codes[0]), EncodeAll(form, codes[1..]);
      var left := room - |c.encode(codes[0])|;
      EncodeAllOne(c.encode, codes[0]);
      assert Takes(c, form, codes[0]);
      RunStep(c, head + rest, room, |head|, [codes[0]], false);
      RunOnEncoded(c, form, codes[1..], left);
      assert (head + rest)[|head|..] == rest;
      assert [codes[0]] + codes[1..] == codes;
    }
  }

  lemma Takes8<T>(c: Converter<Utf8, T>, ch: CodePoint)
    requires c.next == Next8 && IsScalar(ch) && c.encode(ch) != []
    ensures Takes(c, Encode8, ch)
  {
    var s := Encode8(ch);
    EncodedIsWellFormed(ch);
    EncodedDecodes(ch);
    LeadTellsLength(s);
    forall rest: seq<Utf8> ensures c.Front(s + rest) == Emit(|s|, [ch], false) {
      assert (s + rest)[0] == s[0] && (s + rest)[..|s|] == s;
    }
  }

  lemma Takes16<T>(c: Converter<Utf16, T>, flags: ConversionFlags, ch: CodePoint)
    requires c.next == Stepper16(flags)
    requires IsScalar(ch) && c.encode(ch) != []
    ensures Takes(c, Encode16, ch)
  {
    var s := Encode16(ch);
    forall rest: seq<Utf16> ensures c.Front(s + rest) == Emit(|s|, [ch], false) {
      assert (s + rest)[0] == s[0];
      if ch > 0xFFFF {
        SupplementaryInverse(ch);
        assert (s + rest)[1] == s[1];
      } else {
        SingleInverse(ch);
      }
    }
  }

  lemma Takes32(flags: ConversionFlags, ch: CodePoint)
    requires IsScalar(ch)
    ensures Takes(UTF32toUTF8(flags), Encode32, ch) && Takes(UTF32toUTF16(flags), Encode32, ch)
  {
    forall rest: seq<Utf32>
      ensures UTF32toUTF8(flags).Front([ch] + rest) == Emit(1, [ch], false)
      ensures UTF32toUTF16(flags).Front([ch] + rest) == Emit(1, [ch], false)
    {
      assert ([ch] + rest)[0] == ch;
    }
  }

  // ---------------------------------------------------------------- round trips

  /** Well-formed text is the encoding of scalar values. */
  lemma {:induction false} TextSpells(s: seq<Utf8>) returns (codes: seq<CodePoint>)
    requires WellFormedText8(s)
    ensures AllScalars(codes) && EncodeAll(Encode8, codes) == s
    decreases |s|
  {
    hide WellFormed8, Encode8;
    if s == [] {
      codes := [];
    } else {
      var n :| 1 <= n <= |s| && WellFormed8(s[..n]) && WellFormedText8(s[n..]);
      var rest := TextSpells(s[n..]);
      codes := PrependSpelling(s[..n], rest);
      assert s[..n] + s[n..] == s;
    }
  }

  lemma PrependSpelling(head: seq<Utf8>, rest: seq<CodePoint>) returns (codes: seq<CodePoint>)
    requires WellFormed8(head) && AllScalars(rest)
    ensures AllScalars(codes) && EncodeAll(Encode8, codes) == head + EncodeAll(Encode8, rest)
  {
    WellFormedDecodes(head);
    codes := [CodeOf8(head)] + rest;
    assert codes[1..] == rest;
  }

  lemma AllTake(codes: seq<CodePoint>, flags: ConversionFlags)
    requires AllScalars(codes)
    ensures forall i :: 0 <= i < |codes| ==>
      && Takes(UTF8toUTF16(), Encode8, codes[i]) && Takes(UTF8toUTF32(), Encode8, codes[i])
      && Takes(UTF16toUTF8(flags), Encode16, codes[i]) && Takes(UTF16toUTF32(flags), Encode16, codes[i])
      && Takes(UTF32toUTF8(flags), Encode32, codes[i]) && Takes(UTF32toUTF16(flags), Encode32, codes[i])
  {
    forall i | 0 <= i < |codes|
      ensures Takes(UTF8toUTF16(), Encode8, codes[i]) && Takes(UTF8toUTF32(), Encode8, codes[i])
      ensures Takes(UTF16toUTF8(flags), Encode16, codes[i]) && Takes(UTF16toUTF32(flags), Encode16, codes[i])
      ensures Takes(UTF32toUTF8(flags), Encode32, codes[i]) && Takes(UTF32toUTF16(flags), Encode32, codes[i])
    {
      Takes8(UTF8toUTF16(), codes[i]);
      Takes8(UTF8toUTF32(), codes[i]);
      Takes16(UTF16toUTF8(flags), flags, codes[i]);
      Takes16(UTF16toUTF32(flags), flags, codes[i]);
      Takes32(flags, codes[i]);
    }
  }

  /**
    Scalar values written in any of the three forms are read back, whatever the flag, by every
    converter from that form: conversionOK, the whole source consumed, the same code points.
   */
  lemma ScalarsConvert(codes: seq<CodePoint>, flags: ConversionFlags, room: nat)
    requires AllScalars(codes)
    ensures var s8, s16, s32 := EncodeAll(Encode8, codes), EncodeAll(Encode16, codes), codes;
      && (|s16| <= room ==> Run(UTF8toUTF16(), s8, room) == Outcome(|s8|, codes, false, ConversionOK))
      && (|s32| <= room ==> Run(UTF8toUTF32(), s8, room) == Outcome(|s8|, codes, false, ConversionOK))
      && (|s8| <= room ==> Run(UTF16toUTF8(flags), s16, room) == Outcome(|s16|, codes, false, ConversionOK))
      && (|s32| <= room ==> Run(UTF16toUTF32(flags), s16, room) == Outcome(|s16|, codes, false, ConversionOK))
      && (|s8| <= room ==> Run(UTF32toUTF8(flags), s32, room) == Outcome(|s32|, codes, false, ConversionOK))
      && (|s16| <= room ==> Run(UTF32toUTF16(flags), s32, room) == Outcome(|s32|, codes, false, ConversionOK))
  {
    AllTake(codes, flags);
    EncodeAll32IsIdentity(codes);
    var s8, s16 := EncodeAll(Encode8, codes), EncodeAll(Encode16, codes);
    if |s16| <= room {
      RunOnEncoded(UTF8toUTF16(), Encode8, codes, room);
      RunOnEncoded(UTF32toUTF16(flags), Encode32, codes, room);
    }
    if |codes| <= room {
      RunOnEncoded(UTF8toUTF32(), Encode8, codes, room);
      RunOnEncoded(UTF16toUTF32(flags), Encode16, codes, room);
    }
    if |s8| <= room {
      RunOnEncoded(UTF16toUTF8(flags), Encode16, codes, room);
      RunOnEncoded(UTF32toUTF8(flags), Encode32, codes, room);
    }
  }

  /** Well-formed UTF-8 survives the way to UTF-16 or UTF-32 and back unchanged. */
  lemma WellFormedTextSurvives(s: seq<Utf8>, flags: ConversionFlags, room: nat)
    requires WellFormedText8(s) && |s| <= room
    ensures var via16 := Run(UTF8toUTF16(), s, room);
      var back := Run(UTF16toUTF8(flags), UTF8toUTF16().Written(via16.codes), room);
      && via16.Result() == ConversionOK && back.Result() == ConversionOK
      && UTF16toUTF8(flags).Written(back.codes) == s
    ensures var via32 := Run(UTF8toUTF32(), s, room);
      var back := Run(UTF32toUTF8(flags), UTF8toUTF32().Written(via32.codes), room);
      && via32.Result() == ConversionOK && back.Result() == ConversionOK
      && UTF32toUTF8(flags).Written(back.codes) == s
  {
    var codes := TextSpells(s);
    FormSizes(codes);
    EncodeAll32IsIdentity(codes);
    ScalarsConvert(codes, flags, room);
  }

  /** No form is longer than UTF-8. */
  lemma {:induction false} FormSizes(codes: seq<CodePoint>)
    ensures |codes| <= |EncodeAll(Encode16, codes)| <= |EncodeAll(Encode8, codes)|
  {
    if codes != [] {
      FormSizes(codes[1..]);
    }
  }

  // ---------------------------------------------------------------- room that always suffices

  function Weight<S>(weight: S -> nat, s: seq<S>): nat {
    if s == [] then 0 else weight(s[0]) + Weight(weight, s[1..])
  }

  lemma {:induction false} WeightSplit<S>(weight: S -> nat, s: seq<S>, n: nat)
    requires n <= |s|
    ensures Weight(weight, s) == Weight(weight, s[..n]) + Weight(weight, s[n..])
  {
    if n == 0 {
      assert s[0..] == s;
    } else {
      WeightSplit(weight, s[1..], n - 1);
      assert s[..n][1..] == s[1..][..n - 1] && s[1..][n - 1..] == s[n..];
    }
  }

  /** No unit is written with more places than its source units weigh; an eager loop needs some room for any unit. */
  ghost predicate Affordable<S(!new), T>(c: Converter<S, T>, weight: S -> nat) {
    forall src: seq<S> :: src != [] ==> AffordableAt(c, weight, src)
  }

  ghost predicate AffordableAt<S, T>(c: Converter<S, T>, weight: S -> nat, src: seq<S>)
    requires src != []
  {
    && weight(src[0]) > 0
    && (c.Front(src).Emit? ==> |c.Written(c.Front(src).codes)| <= Weight(weight, src[..c.Front(src).used]))
  }

  lemma {:induction false} NeverFull<S(!new), T>(c: Converter<S, T>, weight: S -> nat, src: seq<S>, room: nat)
    requires Affordable(c, weight) && Weight(weight, src) <= room
    ensures Run(c, src, room).stop != TargetExhausted
    decreases |src|
  {
    if src != [] {
      assert AffordableAt(c, weight, src);
      if c.Front(src).Emit? {
        var n := c.Front(src).used;
        WeightSplit(weight, src, n);
        NeverFull(c, weight, src[n..], room - |c.Written(c.Front(src).codes)|);
      }
    }
  }

  const WEIGHT_OF_BYTE := (b: Utf8) => 1
  const WEIGHT_OF_16 := (u: Utf16) => if u == 0 then 1 else 3
  const WEIGHT_OF_32 := (u: Utf32) => if u == 0 then 1 else 4

  lemma FromBytesAffordable()
    ensures Affordable(UTF8toUTF16(), WEIGHT_OF_BYTE) && Affordable(UTF8toUTF32(), WEIGHT_OF_BYTE)
  {
    forall src: seq<Utf8> | src != []
      ensures AffordableAt(UTF8toUTF16(), WEIGHT_OF_BYTE, src) && AffordableAt(UTF8toUTF32(), WEIGHT_OF_BYTE, src)
    {
      if Next8(src).Emit? {
        var ch, n := Next8(src).codes[0], Next8(src).used;
        EncodeAllOne(Encode16, ch);
        EncodeAllOne(Encode32, ch);
        assert n > 1 ==> Weight(WEIGHT_OF_BYTE, src[..n][1..]) >= 1;
      }
    }
  }

  lemma From16Affordable(flags: ConversionFlags)
    ensures Affordable(UTF16toUTF8(flags), WEIGHT_OF_16)
  {
    hide PairCode, Tail, Lead, EncodeAll;
    forall src: seq<Utf16> | src != [] ensures AffordableAt(UTF16toUTF8(flags), WEIGHT_OF_16, src) {
      if Next16(src, flags).Emit? {
        var ch, n := Next16(src, flags).codes[0], Next16(src, flags).used;
        EncodeAllOne(Encode8, ch);
        assert n > 1 ==> Weight(WEIGHT_OF_16, src[..n][1..]) >= 1;
      }
    }
  }

  lemma From32Affordable(flags: ConversionFlags)
    ensures Affordable(UTF32toUTF8(flags), WEIGHT_OF_32)
  {
    forall src: seq<Utf32> | src != [] ensures AffordableAt(UTF32toUTF8(flags), WEIGHT_OF_32, src) {
      if Next32For8(src, flags).Emit? {
        EncodeAllOne(Encode8, Next32For8(src, flags).codes[0]);
      }
    }
  }

  /** Reading UTF-8 into as many wide characters as there are bytes never runs out of target. */
  lemma SizeFromStoreSuffices(s: seq<Utf8>, room: nat)
    requires |s| <= room
    ensures Run(UTF8toUTF16(), s, room).stop != TargetExhausted
    ensures Run(UTF8toUTF32(), s, room).stop != TargetExhausted
  {
    FromBytesAffordable();
    WeightBound(WEIGHT_OF_BYTE, 1, s);
    NeverFull(UTF8toUTF16(), WEIGHT_OF_BYTE, s, room);
    NeverFull(UTF8toUTF32(), WEIGHT_OF_BYTE, s, room);
  }

  lemma {:induction false} WeightBound<S>(weight: S -> nat, k: nat, s: seq<S>)
    requires forall x :: x in s ==> weight(x) <= k
    ensures Weight(weight, s) <= k * |s|
  {
    if s != [] {
      WeightBound(weight, k, s[1..]);
      assert k * |s| == k + k * |s[1..]|;
    }
  }

  /** 6n+1 bytes hold every n wide characters and their terminator, for UTF-16 and for UTF-32 wide characters. */
  lemma SizeToStoreSuffices16(s: seq<Utf16>, flags: ConversionFlags, room: nat)
    requires 6 * |s| + 1 <= room
    ensures Run(UTF16toUTF8(flags), s + [0], room).stop != TargetExhausted
  {
    From16Affordable(flags);
    WeightBound(WEIGHT_OF_16, 3, s);
    WeightSplit(WEIGHT_OF_16, s + [0], |s|);
    assert (s + [0])[..|s|] == s && (s + [0])[|s|..] == [0];
    assert Weight(WEIGHT_OF_16, [0]) == 1;
    NeverFull(UTF16toUTF8(flags), WEIGHT_OF_16, s + [0], room);
  }

  lemma SizeToStoreSuffices32(s: seq<Utf32>, flags: ConversionFlags, room: nat)
    requires 6 * |s| + 1 <= room
    ensures Run(UTF32toUTF8(flags), s + [0], room).stop != TargetExhausted
  {
    From32Affordable(flags);
    WeightBound(WEIGHT_OF_32, 4, s);
    WeightSplit(WEIGHT_OF_32, s + [0], |s|);
    assert (s + [0])[..|s|] == s && (s + [0])[|s|..] == [0];
    assert Weight(WEIGHT_OF_32, [0]) == 1;
    NeverFull(UTF32toUTF8(flags), WEIGHT_OF_32, s + [0], room);
  }

  /** The scratch buffer is doubled until it has that room, and no further. */
  method GrowScratch(scratch: nat, uLen: nat) returns (size: nat)
    requires scratch > 0
    ensures uLen <= size && (if uLen <= scratch then size == scratch else size < 2 * uLen)
  {
    size := scratch;
    while uLen > size
      invariant size > 0 && (size == scratch || (scratch < uLen && size < 2 * uLen))
      decreases uLen - size
    {
      size := size * 2;
    }
  }

  // ---------------------------------------------------------------- the routes agree

  /** Loops that read alike do alike as long as neither runs out of room. */
  lemma {:induction false} SameReadingSameRun<S, T, U>(c: Converter<S, T>, d: Converter<S, U>, src: seq<S>, room: nat,
                                                       space: nat)
    requires c.next == d.next
    requires Run(c, src, room).stop != TargetExhausted && Run(d, src, space).stop != TargetExhausted
    ensures Run(c, src, room) == Run(d, src, space)
    decreases |src|
  {
    if src != [] && c.Front(src).Emit? {
      var Emit(n, codes, _) := c.Front(src);
      SameReadingSameRun(c, d, src[n..], room - |c.Written(codes)|, space - |d.Written(codes)|);
    }
  }

  /** A loop that only ever reads scalar values only ever converts scalar values. */
  lemma {:induction false} RunYieldsScalars<S(!new), T>(c: Converter<S, T>, src: seq<S>, room: nat)
    requires forall s: seq<S> :: s != [] && c.Front(s).Emit? ==> AllScalars(c.Front(s).codes)
    ensures AllScalars(Run(c, src, room).codes)
    decreases |src|
  {
    if src != [] && !(c.eager && room == 0) && c.Front(src).Emit? {
      var size := |c.Written(c.Front(src).codes)|;
      if size <= room {
        RunYieldsScalars(c, src[c.Front(src).used..], room - size);
      }
    }
  }

  /** Strict conversion to UTF-8 writes well-formed text, however it ends; from UTF-32 even past illegal values. */
  lemma StrictOutputIsWellFormed(s16: seq<Utf16>, s32: seq<Utf32>, room: nat)
    ensures WellFormedText8(UTF16toUTF8(StrictConversion).Written(Run(UTF16toUTF8(StrictConversion), s16, room).codes))
    ensures WellFormedText8(UTF32toUTF8(StrictConversion).Written(Run(UTF32toUTF8(StrictConversion), s32, room).codes))
  {
    StrictReadsScalars();
    RunYieldsScalars(UTF16toUTF8(StrictConversion), s16, room);
    RunYieldsScalars(UTF32toUTF8(StrictConversion), s32, room);
    EncodeAllIsWellFormed(Run(UTF16toUTF8(StrictConversion), s16, room).codes);
    EncodeAllIsWellFormed(Run(UTF32toUTF8(StrictConversion), s32, room).codes);
  }

  lemma StrictReadsScalars()
    ensures forall s: seq<Utf16> :: s != [] && UTF16toUTF8(StrictConversion).Front(s).Emit? ==>
      AllScalars(UTF16toUTF8(StrictConversion).Front(s).codes)
    ensures forall s: seq<Utf32> :: s != [] && UTF32toUTF8(StrictConversion).Front(s).Emit? ==>
      AllScalars(UTF32toUTF8(StrictConversion).Front(s).codes)
  {
  }

  /** Whatever the bytes, UTF-8 decoders convert scalar values only. */
  lemma BytesYieldScalars<T>(c: Converter<Utf8, T>, s: seq<Utf8>, room: nat)
    requires c.next == Next8
    ensures AllScalars(Run(c, s, room).codes)
  {
    forall src: seq<Utf8> | src != [] && c.Front(src).Emit? ensures AllScalars(c.Front(src).codes) {
      AcceptedDecodes(src[..TrailingBytes(src[0]) + 1]);
    }
    RunYieldsScalars(c, s, room);
  }

  /**
    For every byte string the two UTF-8 decoders consume the same bytes with the same result, and
    going through UTF-16 to UTF-32 is the direct way to UTF-32.
   */
  lemma Triangle(s: seq<Utf8>, flags: ConversionFlags, room: nat)
    requires |s| <= room
    ensures Run(UTF8toUTF16(), s, room) == Run(UTF8toUTF32(), s, room)
    ensures var direct, first := Run(UTF8toUTF32(), s, room), Run(UTF8toUTF16(), s, room);
      var second := Run(UTF16toUTF32(flags), UTF8toUTF16().Written(first.codes), room);
      && second.Result() == ConversionOK
      && UTF16toUTF32(flags).Written(second.codes) == UTF8toUTF32().Written(direct.codes)
  {
    SizeFromStoreSuffices(s, room);
    SameReadingSameRun(UTF8toUTF16(), UTF8toUTF32(), s, room, room);
    var codes := Run(UTF8toUTF32(), s, room).codes;
    RunFits(UTF8toUTF32(), s, room);
    EncodeAll32IsIdentity(codes);
    BytesYieldScalars(UTF8toUTF32(), s, room);
    ScalarsConvert(codes, flags, room);
  }
}
