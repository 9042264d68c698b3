/**
  Why each conversion stops, in ranges of source units and places of the target, for every source, room and flag; and
  where conversion from UTF-16 stops when the target is large enough.
 */
module StopReasons {
  import opened Unicode
  import opened Decoding
  import opened Conversion
  import opened SourceText
  import opened FromUTF32

  // ---------------------------------------------------------------- from UTF-8

  /** How many bytes a first byte calls for; those from F8 on call for more than any accepted sequence has. */
  function CalledFor(lead: Utf8): nat {
    if lead < 0xC0 then 1
    else if lead < 0xE0 then 2
    else if lead < 0xF0 then 3
    else if lead < 0xF8 then 4
    else if lead < 0xFC then 5
    else 6
  }

  /** With `left` places free in front of `rest`, when a sequence of `n` bytes takes `places(n)` of them. */
  ghost predicate Utf8StopsFor(rest: seq<Utf8>, left: nat, places: nat -> nat, result: ConversionResult) {
    match result
    case ConversionOK => rest == []
    case SourceExhausted => rest != [] && |rest| < CalledFor(rest[0])
    case SourceIllegal =>
      rest != [] && CalledFor(rest[0]) <= |rest| && forall n :: 1 <= n <= |rest| ==> !Accepted8(rest[..n])
    case TargetExhausted => exists n :: 1 <= n <= |rest| && Accepted8(rest[..n]) && places(n) > left
  }

  /** The result is a reason to stop, and no other one is there. */
  ghost predicate ForItsReason8<T>(c: Converter<Utf8, T>, s: seq<Utf8>, room: nat, places: nat -> nat) {
    var o := Run(c, s, room);
    var rest, left := s[o.used..], room - |c.Written(o.codes)|;
    left >= 0 && forall result :: Utf8StopsFor(rest, left, places, result) <==> result == o.Result()
  }

  const PLACES_IN_UTF16 := (n: nat) => if n == 4 then 2 else 1
  const ONE_PLACE := (n: nat) => 1

  /** Both conversions from UTF-8 stop for the one reason there is, and return it. */
  lemma Utf8Stops(s: seq<Utf8>, room: nat)
    ensures ForItsReason8(UTF8toUTF16(), s, room, PLACES_IN_UTF16)
    ensures ForItsReason8(UTF8toUTF32(), s, room, ONE_PLACE)
  {
    hide Accepted8, CodeOf8, Run, ForItsReason8;
    forall s | Accepted8(s)
      ensures 1 <= |s| <= 4 && IsScalar(CodeOf8(s)) && |Encode16(CodeOf8(s))| == PLACES_IN_UTF16(|s|)
    {
      AcceptedPlaces(s);
    }
    Stops8(UTF8toUTF16(), s, room, PLACES_IN_UTF16);
    Stops8(UTF8toUTF32(), s, room, ONE_PLACE);
  }

  lemma AcceptedPlaces(s: seq<Utf8>)
    requires Accepted8(s)
    ensures 1 <= |s| <= 4 && IsScalar(CodeOf8(s)) && |Encode16(CodeOf8(s))| == if |s| == 4 then 2 else 1
  {
    hide CodeOf8, Lead, Tail;
    SameLength(s);
  }

  ghost predicate Takes<T>(c: Converter<Utf8, T>, places: nat -> nat) {
    forall s :: Accepted8(s) ==> 1 <= |s| <= 4 && IsScalar(CodeOf8(s)) && |c.encode(CodeOf8(s))| == places(|s|)
  }

  lemma Stops8<T>(c: Converter<Utf8, T>, s: seq<Utf8>, room: nat, places: nat -> nat)
    requires c.next == Next8 && !c.eager && Takes(c, places)
    ensures ForItsReason8(c, s, room, places)
  {
    hide Accepted8, CodeOf8, Run, TrailingBytes, ReadUpTo, Takes, Utf8StopsFor;
    RunStopsRight(c, s, room);
    MarksNothing(c, Converter(Stepper16(StrictConversion), c.encode, false), StrictConversion);
    NothingMarked(c, s, room);
    var o := Run(c, s, room);
    StopIs8(c, s[o.used..], room - |c.Written(o.codes)|, places, o.stop);
  }

  lemma StopIs8<T>(c: Converter<Utf8, T>, rest: seq<Utf8>, left: nat, places: nat -> nat, stop: ConversionResult)
    requires c.next == Next8 && !c.eager && EndsRight(c, rest, left, stop) && Takes(c, places)
    ensures forall result :: Utf8StopsFor(rest, left, places, result) <==> result == stop
  {
    hide Accepted8, CodeOf8, TrailingBytes;
    if rest != [] {
      CalledForIs(rest[0]);
      forall m | 1 <= m <= |rest| && Accepted8(rest[..m]) ensures m == CalledFor(rest[0]) {
        OneCut(rest, m);
      }
      if c.Front(rest).Emit? {
        EncodeAllOne(c.encode, CodeOf8(rest[..c.Front(rest).used]));
      }
    }
  }

  lemma CalledForIs(lead: Utf8)
    ensures CalledFor(lead) == TrailingBytes(lead) + 1
  {
  }

  // ---------------------------------------------------------------- from UTF-16

  /** A surrogate at `i` that is not half of a pair. */
  predicate Unpaired(s: seq<Utf16>, i: nat)
    requires i < |s|
  {
    || (0xD800 <= s[i] <= 0xDBFF && !(i + 1 < |s| && 0xDC00 <= s[i + 1] <= 0xDFFF))
    || (0xDC00 <= s[i] <= 0xDFFF && !(i > 0 && 0xD800 <= s[i - 1] <= 0xDBFF))
  }

  predicate EndsInHigh(s: seq<Utf16>) {
    s != [] && 0xD800 <= s[|s| - 1] <= 0xDBFF
  }

  /** The bytes that the first code point takes; an unpaired surrogate takes as many as any other code point. */
  function BytesOfFirst(rest: seq<Utf16>): nat {
    if rest == [] then 0
    else if rest[0] < 0x80 then 1
    else if rest[0] < 0x800 then 2
    else if 0xD800 <= rest[0] <= 0xDBFF && !Unpaired(rest, 0) then 4
    else 3
  }

  /** With `left` places free in front of `rest`, when its first code point takes `places` of them. */
  ghost predicate Utf16StopsFor(rest: seq<Utf16>, flags: ConversionFlags, left: nat, places: nat,
                                result: ConversionResult) {
    match result
    case ConversionOK => rest == []
    case SourceExhausted => |rest| == 1 && EndsInHigh(rest)
    case SourceIllegal =>
      rest != [] && !(|rest| == 1 && EndsInHigh(rest)) && Unpaired(rest, 0) && flags == StrictConversion
    case TargetExhausted =>
      rest != [] && !(|rest| == 1 && EndsInHigh(rest)) && (Unpaired(rest, 0) ==> flags == LenientConversion)
      && places > left
  }

  /** Conversion from UTF-16 returns the one reason there is to stop. */
  lemma Utf16Stops(s: seq<Utf16>, flags: ConversionFlags, room: nat)
    ensures var o := Run(UTF16toUTF8(flags), s, room);
      var rest, left := s[o.used..], room - |EncodeAll(Encode8, o.codes)|;
      && left >= 0
      && forall result :: Utf16StopsFor(rest, flags, left, BytesOfFirst(rest), result) <==> result == o.Result()
    ensures var o := Run(UTF16toUTF32(flags), s, room);
      var rest, left := s[o.used..], room - |o.codes|;
      left >= 0 && forall result :: Utf16StopsFor(rest, flags, left, 1, result) <==> result == o.Result()
  {
    hide Run, ReadUpTo, Utf16StopsFor;
    MarksNothing(Converter(Next8, Encode8, false), UTF16toUTF8(flags), flags);
    MarksNothing(UTF8toUTF32(), UTF16toUTF32(flags), flags);
    NothingMarked(UTF16toUTF8(flags), s, room);
    NothingMarked(UTF16toUTF32(flags), s, room);
    RunStopsRight(UTF16toUTF8(flags), s, room);
    RunStopsRight(UTF16toUTF32(flags), s, room);
    var o, p := Run(UTF16toUTF8(flags), s, room), Run(UTF16toUTF32(flags), s, room);
    assert o.Result() == o.stop && p.Result() == p.stop;
    hide EndsRight, BytesOfFirst;
    Stop16For8(s[o.used..], flags, room - |EncodeAll(Encode8, o.codes)|, o.stop);
    EncodeAll32IsIdentity(p.codes);
    Stop16For32(s[p.used..], flags, room - |p.codes|, p.stop);
  }

  lemma Stop16For8(rest: seq<Utf16>, flags: ConversionFlags, left: nat, stop: ConversionResult)
    requires EndsRight(UTF16toUTF8(flags), rest, left, stop)
    ensures forall result :: Utf16StopsFor(rest, flags, left, BytesOfFirst(rest), result) <==> result == stop
  {
    hide Lead, Tail;
    if rest != [] && Next16(rest, flags).Emit? {
      EncodeAllOne(Encode8, Next16(rest, flags).codes[0]);
    }
  }

  lemma Stop16For32(rest: seq<Utf16>, flags: ConversionFlags, left: nat, stop: ConversionResult)
    requires EndsRight(UTF16toUTF32(flags), rest, left, stop)
    ensures forall result :: Utf16StopsFor(rest, flags, left, 1, result) <==> result == stop
  {
    hide PairCode;
    if rest != [] && Next16(rest, flags).Emit? {
      EncodeAllOne(Encode32, Next16(rest, flags).codes[0]);
    }
  }

  /**
    With room enough, lenient conversion converts everything, unpaired surrogates too, but for a high surrogate at the
    end: in front of that it stops with sourceExhausted.
   */
  lemma {:induction false} LenientFrom16<T>(c: Converter<Utf16, T>, s: seq<Utf16>, room: nat)
    requires c.next == Stepper16(LenientConversion) && Run(c, s, room).stop != TargetExhausted
    ensures var o := Run(c, s, room);
      && (o.Result() == ConversionOK && o.used == |s| <==> !EndsInHigh(s))
      && (EndsInHigh(s) ==> o.Result() == SourceExhausted && o.used == |s| - 1)
    decreases |s|
  {
    hide Run, PairCode, Widen;
    if s == [] {
      RunOfNothing(c, room);
    } else {
      RunEnds(c, s, room);
      if c.Front(s).Emit? {
        var Emit(n, codes, bad) := c.Front(s);
        RunStep(c, s, room, n, codes, bad);
        LenientFrom16(c, s[n..], room - |c.Written(codes)|);
      }
    }
  }

  /** The first surrogate that is not half of a pair, or the length. */
  ghost predicate FirstUnpaired(s: seq<Utf16>, k: nat) {
    k <= |s| && (k < |s| ==> Unpaired(s, k)) && forall i :: 0 <= i < k ==> !Unpaired(s, i)
  }

  lemma UnpairedBehind(s: seq<Utf16>, n: nat, k: nat)
    requires 1 <= n <= k <= |s| && !(0xD800 <= s[n - 1] <= 0xDBFF)
    ensures FirstUnpaired(s, k) ==> FirstUnpaired(s[n..], k - n)
  {
    forall i | 0 <= i < |s| - n ensures Unpaired(s[n..], i) == Unpaired(s, i + n) {
    }
  }

  /**
    With room enough, strict conversion stops in front of the first unpaired surrogate: with sourceExhausted if that is
    a high surrogate at the end, and otherwise with sourceIllegal.
   */
  lemma {:induction false} StrictFrom16<T>(c: Converter<Utf16, T>, s: seq<Utf16>, room: nat, k: nat)
    requires c.next == Stepper16(StrictConversion) && Run(c, s, room).stop != TargetExhausted && FirstUnpaired(s, k)
    ensures var o := Run(c, s, room);
      && o.used == k
      && o.Result() == if k == |s| then ConversionOK
                       else if k == |s| - 1 && EndsInHigh(s) then SourceExhausted
                       else SourceIllegal
    decreases |s|
  {
    hide Run, PairCode, Widen;
    if s == [] {
      RunOfNothing(c, room);
    } else {
      RunEnds(c, s, room);
      assert k == 0 <==> Unpaired(s, 0);
      if c.Front(s).Emit? {
        var Emit(n, codes, bad) := c.Front(s);
        assert n == 2 ==> !Unpaired(s, 1);
        UnpairedBehind(s, n, k);
        RunStep(c, s, room, n, codes, bad);
        StrictFrom16(c, s[n..], room - |c.Written(codes)|, k - n);
      }
    }
  }

  // ---------------------------------------------------------------- from UTF-32

  function BytesOf(ch: Utf32): nat {
    if ch < 0x80 then 1 else if ch < 0x800 then 2 else if ch < 0x10000 || ch > 0x10FFFF then 3 else 4
  }

  /** A surrogate that strict conversion does not take. */
  predicate Refused(rest: seq<Utf32>, flags: ConversionFlags) {
    rest != [] && flags == StrictConversion && 0xD800 <= rest[0] <= 0xDFFF
  }

  /** Conversion from UTF-32 to UTF-8: the result, and why it does not go on. */
  lemma Utf32StopsFor8(s: seq<Utf32>, flags: ConversionFlags, room: nat)
    ensures var o := Run(UTF32toUTF8(flags), s, room);
      var rest, left := s[o.used..], room - |EncodeAll(Encode8, o.codes)|;
      var refused := Refused(rest, flags);
      && left >= 0
      && o.Result() == (if refused || (rest == [] && AnyTooLarge(s)) then SourceIllegal
                        else if rest != [] then TargetExhausted
                        else ConversionOK)
      && (rest != [] && !refused ==> BytesOf(rest[0]) > left)
  {
    hide Run, ReadUpTo, EndsRight, AnyTooLarge, ReplacedAll, EncodeAll, BytesOf, Refused;
    var c := UTF32toUTF8(flags);
    var o := Run(c, s, room);
    From32Consumes(s, flags, room);
    RunStopsRight(c, s, room);
    assert |c.Written(o.codes)| == |EncodeAll(Encode8, o.codes)|;
    Stop32For8(s[o.used..], flags, room - |EncodeAll(Encode8, o.codes)|, o.stop);
    assert o.used == |s| ==> s[..o.used] == s;
  }

  lemma Stop32For8(rest: seq<Utf32>, flags: ConversionFlags, left: nat, stop: ConversionResult)
    requires EndsRight(UTF32toUTF8(flags), rest, left, stop)
    ensures var refused := Refused(rest, flags);
      && stop == (if refused then SourceIllegal else if rest != [] then TargetExhausted else ConversionOK)
      && (rest != [] && !refused ==> BytesOf(rest[0]) > left)
  {
    hide Encode8, BytesOf, Replaced;
    if rest != [] {
      Bytes32(rest[0]);
    }
  }

  lemma Bytes32(ch: Utf32)
    ensures |EncodeAll(Encode8, [Replaced(ch)])| == BytesOf(ch)
  {
    hide Lead, Tail;
    EncodeAllOne(Encode8, Replaced(ch));
  }

  /** To UTF-16 a full target is looked at first. */
  lemma Utf32StopsFor16(s: seq<Utf32>, flags: ConversionFlags, room: nat)
    ensures var o := Run(UTF32toUTF16(flags), s, room);
      var rest, left := s[o.used..], room - |EncodeAll(Encode16, o.codes)|;
      var refused := left > 0 && Refused(rest, flags);
      && left >= 0
      && o.Result() == (if refused || (rest == [] && flags == StrictConversion && AnyTooLarge(s)) then SourceIllegal
                        else if rest != [] then TargetExhausted
                        else ConversionOK)
      && (rest != [] && left > 0 && !refused ==> left == 1 && 0x10000 <= rest[0] <= 0x10FFFF)
  {
    hide Run, ReadUpTo, EndsRight, AnyTooLarge, AllKeptFor16, EncodeAll, Refused;
    var c := UTF32toUTF16(flags);
    var o := Run(c, s, room);
    From32to16Consumes(s, flags, room);
    RunStopsRight(c, s, room);
    assert |c.Written(o.codes)| == |EncodeAll(Encode16, o.codes)|;
    Stop32For16(s[o.used..], flags, room - |EncodeAll(Encode16, o.codes)|, o.stop);
    assert o.used == |s| ==> s[..o.used] == s;
  }

  lemma Stop32For16(rest: seq<Utf32>, flags: ConversionFlags, left: nat, stop: ConversionResult)
    requires EndsRight(UTF32toUTF16(flags), rest, left, stop)
    ensures var refused := left > 0 && Refused(rest, flags);
      && stop == (if refused then SourceIllegal else if rest != [] then TargetExhausted else ConversionOK)
      && (rest != [] && left > 0 && !refused ==> left == 1 && 0x10000 <= rest[0] <= 0x10FFFF)
  {
    hide HighOf, LowOf;
    if rest != [] && Unit32For16(rest[0], flags).Emit? && Unit32For16(rest[0], flags).codes != [] {
      EncodeAllOne(Encode16, Unit32For16(rest[0], flags).codes[0]);
    }
  }
}
