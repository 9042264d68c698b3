/**
  What the converters accept of a source and how much of it they consume: UTF-8 with and without the loose second
  byte, where the header says that everything malformed is an error, and strict UTF-16.
 */
module SourceText {
  import opened Unicode
  import opened Decoding
  import opened Conversion
  import opened ConversionTheorems

  // ---------------------------------------------------------------- UTF-8 that is accepted

  /** A byte string that is a concatenation of accepted sequences. */
  ghost predicate AcceptedText8(s: seq<Utf8>)
    decreases |s|
  {
    s == [] || exists n :: 1 <= n <= |s| && Accepted8(s[..n]) && AcceptedText8(s[n..])
  }

  /** Behind accepted sequences there is one with the second byte that the legality test forgets to bound. */
  ghost predicate HasLooseUnit(s: seq<Utf8>)
    decreases |s|
  {
    exists n :: 1 <= n <= |s| && Accepted8(s[..n]) && (LooseSecondByte(s[..n]) || HasLooseUnit(s[n..]))
  }

  /** The first byte leaves no choice where the first sequence ends. */
  lemma OneCut(s: seq<Utf8>, n: nat)
    requires 1 <= n <= |s| && Accepted8(s[..n])
    ensures n == TrailingBytes(s[0]) + 1
  {
    hide Accepted8, TrailingBytes;
    LeadTellsLength(s[..n]);
    assert s[..n][0] == s[0];
  }

  lemma AcceptedStep(s: seq<Utf8>, n: nat)
    requires 1 <= n <= |s| && Accepted8(s[..n])
    ensures AcceptedText8(s) <==> AcceptedText8(s[n..])
    ensures HasLooseUnit(s) <==> LooseSecondByte(s[..n]) || HasLooseUnit(s[n..])
    ensures WellFormedText8(s) <==> WellFormed8(s[..n]) && WellFormedText8(s[n..])
  {
    hide Accepted8, LooseSecondByte, WellFormed8;
    forall m | 1 <= m <= |s| && Accepted8(s[..m]) ensures m == n {
      OneCut(s, m);
      OneCut(s, n);
    }
    WellFormedIsAccepted(s);
  }

  lemma WellFormedIsAccepted(s: seq<Utf8>)
    ensures forall m :: 1 <= m <= |s| && WellFormed8(s[..m]) ==> Accepted8(s[..m])
  {
  }

  /** An accepted text is malformed exactly when some unit of it is loose. */
  lemma {:induction false} ConvertedIsWellFormedIff(s: seq<Utf8>)
    requires AcceptedText8(s)
    ensures WellFormedText8(s) <==> !HasLooseUnit(s)
    decreases |s|
  {
    hide Accepted8, LooseSecondByte, WellFormed8;
    if s != [] {
      var n :| 1 <= n <= |s| && Accepted8(s[..n]) && AcceptedText8(s[n..]);
      AcceptedStep(s, n);
      ConvertedIsWellFormedIff(s[n..]);
      LooseIsMalformed(s[..n]);
    }
  }

  lemma LooseIsMalformed(s: seq<Utf8>)
    requires Accepted8(s)
    ensures WellFormed8(s) <==> !LooseSecondByte(s)
  {
  }

  /** With room enough the conversion succeeds on the accepted texts and on no other. */
  lemma {:induction false} ConversionSucceedsIff<T>(c: Converter<Utf8, T>, s: seq<Utf8>, room: nat)
    requires c.next == Next8 && Run(c, s, room).stop != TargetExhausted
    ensures Run(c, s, room).Result() == ConversionOK <==> AcceptedText8(s)
    decreases |s|
  {
    hide Accepted8, Run, CodeOf8;
    if s == [] {
      RunOfNothing(c, room);
    } else {
      Front8(c, s);
      RunEnds(c, s, room);
      if c.Front(s).Emit? {
        var Emit(n, codes, bad) := c.Front(s);
        RunStep(c, s, room, n, codes, bad);
        AcceptedStep(s, n);
        ConversionSucceedsIff(c, s[n..], room - |c.Written(codes)|);
      }
    }
  }

  /** The unit at the front is an accepted sequence, or none begins here. */
  lemma Front8<T>(c: Converter<Utf8, T>, s: seq<Utf8>)
    requires c.next == Next8 && s != []
    ensures c.Front(s).Emit? ==>
      c.Front(s) == Emit(c.Front(s).used, [CodeOf8(s[..c.Front(s).used])], false) && Accepted8(s[..c.Front(s).used])
    ensures c.Front(s).Fault? ==> !AcceptedText8(s)
  {
    hide Accepted8, TrailingBytes, CodeOf8;
    forall m | 1 <= m <= |s| && Accepted8(s[..m]) ensures m == TrailingBytes(s[0]) + 1 {
      OneCut(s, m);
    }
  }

  /**
    The header says that all malformed UTF-8 causes an error. The texts for which that fails: those that are
    accepted and have a loose unit; both UTF-8 decoders convert them without an error.
   */
  lemma MalformedConvertedIff(s: seq<Utf8>, room: nat)
    requires |s| <= room
    ensures Run(UTF8toUTF32(), s, room).Result() == ConversionOK && !WellFormedText8(s) <==>
      AcceptedText8(s) && HasLooseUnit(s)
    ensures Run(UTF8toUTF16(), s, room) == Run(UTF8toUTF32(), s, room)
  {
    hide Run, AcceptedText8, HasLooseUnit, WellFormedText8;
    Triangle(s, StrictConversion, room);
    SizeFromStoreSuffices(s, room);
    ConversionSucceedsIff(UTF8toUTF32(), s, room);
    if AcceptedText8(s) {
      ConvertedIsWellFormedIff(s);
    }
  }

  /** Not every malformed sequence causes an error: ED 41 80 is converted to U+C040. */
  lemma MalformedButConverted()
    ensures var s: seq<Utf8> := [0xED, 0x41, 0x80];
      !WellFormedText8(s) && Run(UTF8toUTF32(), s, 3) == Outcome(3, [0xC040], false, ConversionOK)
  {
    var s: seq<Utf8> := [0xED, 0x41, 0x80];
    assert s[..3] == s && s[3..] == [];
    forall n | 1 <= n <= |s| ensures !WellFormed8(s[..n]) {
    }
    EncodeAllOne(Encode32, 0xC040);
  }

  // ---------------------------------------------------------------- what has been consumed

  /**
    However it ends, conversion from UTF-8 has consumed an accepted text, and that text is the encoding of what was
    converted exactly if it has no loose unit.
   */
  lemma {:induction false} ConsumesAccepted<T>(c: Converter<Utf8, T>, s: seq<Utf8>, room: nat)
    requires c.next == Next8
    ensures var o := Run(c, s, room);
      && AcceptedText8(s[..o.used])
      && (EncodeAll(Encode8, o.codes) == s[..o.used] <==> !HasLooseUnit(s[..o.used]))
    decreases |s|
  {
    hide Run, AcceptedText8, HasLooseUnit, Accepted8, EncodeAll, CodeOf8, Encode8;
    if Run(c, s, room).used == 0 {
      assert s[..0] == [];
      NothingConsumed(c, s, room);
    } else {
      RunMoved(c, s, room);
      Front8(c, s);
      var Emit(n, codes, bad) := c.Front(s);
      AcceptedDecodes(s[..n]);
      RunStep(c, s, room, n, codes, bad);
      var rest := Run(c, s[n..], room - |c.Written(codes)|);
      ConsumesAccepted(c, s[n..], room - |c.Written(codes)|);
      UnitConsumed(s, n, n + rest.used, rest.codes);
    }
  }

  lemma NothingConsumed<T>(c: Converter<Utf8, T>, s: seq<Utf8>, room: nat)
    requires Run(c, s, room).used == 0
    ensures Run(c, s, room).codes == [] && EncodeAll(Encode8, []) == [] && AcceptedText8([]) && !HasLooseUnit([])
  {
  }

  /** One accepted sequence in front of a consumed text. */
  lemma UnitConsumed(s: seq<Utf8>, n: nat, k: nat, more: seq<CodePoint>)
    requires 1 <= n <= k <= |s| && Accepted8(s[..n]) && IsScalar(CodeOf8(s[..n])) && AcceptedText8(s[n..][..k - n])
    requires EncodeAll(Encode8, more) == s[n..][..k - n] <==> !HasLooseUnit(s[n..][..k - n])
    ensures AcceptedText8(s[..k])
    ensures EncodeAll(Encode8, [CodeOf8(s[..n])] + more) == s[..k] <==> !HasLooseUnit(s[..k])
  {
    hide Accepted8, LooseSecondByte, WellFormed8, CodeOf8, EncodeAll, AcceptedText8, HasLooseUnit;
    var unit, rest := s[..n], s[n..][..k - n];
    assert s[..k][..n] == unit && s[..k][n..] == rest && s[..k] == unit + rest;
    AcceptedStep(s[..k], n);
    AcceptedDecodes(unit);
    LooseIsMalformed(unit);
    EncodeAllCons(CodeOf8(unit), more);
    SameLength(unit);
    if EncodeAll(Encode8, [CodeOf8(unit)] + more) == s[..k] {
      assert (Encode8(CodeOf8(unit)) + EncodeAll(Encode8, more))[..n] == Encode8(CodeOf8(unit));
      assert (Encode8(CodeOf8(unit)) + EncodeAll(Encode8, more))[n..] == EncodeAll(Encode8, more);
    }
  }

  lemma EncodeAllCons(ch: CodePoint, more: seq<CodePoint>)
    ensures EncodeAll(Encode8, [ch] + more) == Encode8(ch) + EncodeAll(Encode8, more)
  {
    hide Encode8;
    assert ([ch] + more)[1..] == more;
  }

  /** Also a loose sequence is as long as the encoding of its code point. */
  lemma SameLength(s: seq<Utf8>)
    requires Accepted8(s)
    ensures IsScalar(CodeOf8(s)) && |Encode8(CodeOf8(s))| == |s|
  {
    hide Code3, Code4;
    if WellFormed8(s) {
      WellFormedDecodes(s);
    } else if |s| == 3 {
      LooseBits3(s[0], s[1], s[2]);
    } else {
      LooseBits4(s[0], s[1], s[2], s[3]);
    }
  }

  /**
    However it ends, conversion from UTF-16 has consumed exactly the encoding of what it converted; with the strict flag
    that is scalar values only.
   */
  lemma {:induction false} Consumes16<T>(c: Converter<Utf16, T>, flags: ConversionFlags, src: seq<Utf16>, room: nat)
    requires c.next == Stepper16(flags)
    ensures var o := Run(c, src, room);
      && EncodeAll(Encode16, o.codes) == src[..o.used]
      && (flags == StrictConversion ==> AllScalars(o.codes))
    decreases |src|
  {
    hide *;
    if Run(c, src, room).used == 0 {
      assert src[..0] == [];
      NothingConsumed16(c, src, room);
    } else {
      RunMoved(c, src, room);
      Unit16(c, flags, src);
      var Emit(n, codes, bad) := c.Front(src);
      RunStep(c, src, room, n, codes, bad);
      var rest := Run(c, src[n..], room - |c.Written(codes)|);
      Consumes16(c, flags, src[n..], room - |c.Written(codes)|);
      SplicePrefix(Outcome(n, codes, bad, ConversionOK), rest, src);
    }
  }

  lemma SplicePrefix(head: Outcome, rest: Outcome, src: seq<Utf16>)
    requires head.used + rest.used <= |src| && |head.codes| == 1
    requires Encode16(head.codes[0]) == src[..head.used]
    requires EncodeAll(Encode16, rest.codes) == src[head.used..][..rest.used]
    ensures var o := head.Then(rest);
      EncodeAll(Encode16, o.codes) == src[..o.used]
          && (AllScalars(o.codes) <==> IsScalar(head.codes[0]) && AllScalars(rest.codes))
  {
    hide Encode16, IsScalar;
    assert (head.codes + rest.codes)[1..] == rest.codes;
    assert forall i :: 0 <= i < |rest.codes| ==> (head.codes + rest.codes)[i + 1] == rest.codes[i];
    assert src[..head.used + rest.used] == src[..head.used] + src[head.used..][..rest.used];
  }

  lemma NothingConsumed16<T>(c: Converter<Utf16, T>, src: seq<Utf16>, room: nat)
    requires Run(c, src, room).used == 0
    ensures Run(c, src, room).codes == [] && AllScalars([]) && EncodeAll(Encode16, []) == []
  {
  }

  lemma Unit16<T>(c: Converter<Utf16, T>, flags: ConversionFlags, src: seq<Utf16>)
    requires c.next == Stepper16(flags) && src != [] && c.Front(src).Emit?
    ensures var u := c.Front(src);
      && |u.codes| == 1 && u.used <= |src| && Encode16(u.codes[0]) == src[..u.used]
      && (flags == StrictConversion ==> IsScalar(u.codes[0]))
  {
    hide PairCode, Widen, HighOf, LowOf;
    WidenInverse(src[0]);
    assert src[..1] == [src[0]];
    if IsHigh(src[0]) && |src| > 1 && IsLow(src[1]) {
      PairInverse(src[0], src[1]);
      assert src[..2] == [src[0], src[1]];
    }
  }
}
