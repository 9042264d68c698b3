/**
  What one turn of each conversion loop reads: the tables of ConvertUTF.c, the legality test
  and the rule that takes the next unit off the front of a source.
 */
module Decoding {
  import opened Unicode

  datatype ConversionResult = ConversionOK | SourceExhausted | TargetExhausted | SourceIllegal

  datatype ConversionFlags = StrictConversion | LenientConversion

  /** `Emit(n, codes, bad)`: n source units stand for `codes`; `bad` marks a value passed over as illegal. */
  datatype Unit =
    | Emit(used: nat, codes: seq<CodePoint>, bad: bool)
    | Fault(why: ConversionResult)

  // ---------------------------------------------------------------- UTF-8

  function TrailingBytes(lead: Utf8): (n: nat) {
    if lead < 0xC0 then 0
    else if lead < 0xE0 then 1
    else if lead < 0xF0 then 2
    else if lead < 0xF8 then 3
    else if lead < 0xFC then 4
    else 5
  }

  /** The magic value that removes the marker bits of a sequence with `extra` trailing bytes. */
  function OffsetFromUtf8(extra: nat): Utf32
    requires extra <= 5
  {
    match extra
    case 0 => 0
    case 1 => 0x3080
    case 2 => 0xE2080
    case 3 => 0x3C82080
    case 4 => 0xFA082080
    case _ => 0x82082080
  }

  /** The sum so far and the next byte, modulo 2^32. */
  function Plus(ch: Utf32, b: Utf8): Utf32 {
    ch + b as Utf32
  }

  function MakeRoom(sum: Utf32): Utf32 {
    sum << 6
  }

  /** One fall-through case of the decoder: add the byte, make room for the next. */
  function Gather(ch: Utf32, b: Utf8): Utf32 {
    MakeRoom(Plus(ch, b))
  }

  /** The last case: add the byte and take the magic value away. */
  function Finish(ch: Utf32, b: Utf8, offset: Utf32): Utf32 {
    Plus(ch, b) - offset
  }

  predicate Loose3(a: Utf8, b: Utf8, c: Utf8) {
    a == 0xED && b < 0x80 && IsTail(c)
  }

  predicate Loose4(a: Utf8, b: Utf8, c: Utf8, d: Utf8) {
    a == 0xF4 && b < 0x80 && IsTail(c) && IsTail(d)
  }

  /** Sequences led by ED or F4 whose second byte escapes the lower bound that Table 3-7 demands. */
  predicate LooseSecondByte(s: seq<Utf8>) {
    || (|s| == 3 && Loose3(s[0], s[1], s[2]))
    || (|s| == 4 && Loose4(s[0], s[1], s[2], s[3]))
  }

  predicate Accepted8(s: seq<Utf8>) {
    WellFormed8(s) || LooseSecondByte(s)
  }

  function Code2(a: Utf8, b: Utf8): Utf32 {
    Finish(Gather(0, a), b, 0x3080)
  }

  function Code3(a: Utf8, b: Utf8, c: Utf8): Utf32 {
    Finish(Gather(Gather(0, a), b), c, 0xE2080)
  }

  function Code4(a: Utf8, b: Utf8, c: Utf8, d: Utf8): Utf32 {
    Finish(Gather(Gather(Gather(0, a), b), c), d, 0x3C82080)
  }

  /** The code point the accumulate-and-subtract decoder makes of a sequence. */
  function CodeOf8(s: seq<Utf8>): (ch: Utf32)
    requires 1 <= |s| <= 4
  {
    if |s| == 1 then Finish(0, s[0], 0)
    else if |s| == 2 then Code2(s[0], s[1])
    else if |s| == 3 then Code3(s[0], s[1], s[2])
    else Code4(s[0], s[1], s[2], s[3])
  }

  lemma Bits2(a: Utf8, b: Utf8)
    requires Row2(a, b)
    ensures 0x80 <= Code2(a, b) < 0x800
    ensures Lead(0xC0, Code2(a, b) >> 6) == a && Tail(Code2(a, b)) == b
  {
  }

  lemma Range3(a: Utf8, b: Utf8, c: Utf8)
    requires Row3(a, b, c)
    ensures 0x800 <= Code3(a, b, c) < 0x10000 && !IsSurrogate(Code3(a, b, c))
  {
  }

  lemma Bits3(a: Utf8, b: Utf8, c: Utf8)
    requires Row3(a, b, c)
    ensures 0x800 <= Code3(a, b, c) < 0x10000
    ensures Lead(0xE0, Code3(a, b, c) >> 12) == a && Tail(Code3(a, b, c) >> 6) == b && Tail(Code3(a, b, c)) == c
  {
  }

  /** The rows of four bytes by their lead: F0, then F1 to F3, then F4. */
  lemma RangeF0(b: Utf8, c: Utf8, d: Utf8)
    requires 0x90 <= b <= 0xBF && IsTail(c) && IsTail(d)
    ensures 0x10000 <= Code4(0xF0, b, c, d) < 0x40000
  {
  }

  lemma RangeF1(a: Utf8, b: Utf8, c: Utf8, d: Utf8)
    requires 0xF1 <= a <= 0xF3 && IsTail(b) && IsTail(c) && IsTail(d)
    ensures 0x40000 <= Code4(a, b, c, d) < 0x100000
  {
  }

  lemma RangeF4(b: Utf8, c: Utf8, d: Utf8)
    requires 0x80 <= b <= 0x8F && IsTail(c) && IsTail(d)
    ensures 0x100000 <= Code4(0xF4, b, c, d) <= 0x10FFFF
  {
  }

  lemma Range4(a: Utf8, b: Utf8, c: Utf8, d: Utf8)
    requires Row4(a, b, c, d)
    ensures 0x10000 <= Code4(a, b, c, d) <= 0x10FFFF
  {
    hide Code4;
    if a == 0xF0 {
      RangeF0(b, c, d);
    } else if a == 0xF4 {
      RangeF4(b, c, d);
    } else {
      RangeF1(a, b, c, d);
    }
  }

  lemma Bits4(a: Utf8, b: Utf8, c: Utf8, d: Utf8)
    requires Row4(a, b, c, d)
    ensures Code4(a, b, c, d) <= 0x10FFFF
    ensures Lead(0xF0, Code4(a, b, c, d) >> 18) == a && Tail(Code4(a, b, c, d) >> 12) == b
    ensures Tail(Code4(a, b, c, d) >> 6) == c && Tail(Code4(a, b, c, d)) == d
  {
  }

  lemma LooseBits3(a: Utf8, b: Utf8, c: Utf8)
    requires Loose3(a, b, c)
    ensures 0xB000 <= Code3(a, b, c) < 0xD000
  {
  }

  lemma LooseBits4(a: Utf8, b: Utf8, c: Utf8, d: Utf8)
    requires Loose4(a, b, c, d)
    ensures 0x80000 <= Code4(a, b, c, d) < 0x100000
  {
  }

  lemma Fields3(s: seq<Utf8>) returns (ch: Utf32)
    requires |s| == 3 && WellFormed8(s)
    ensures ch == CodeOf8(s) && 0x800 <= ch < 0x10000 && !IsSurrogate(ch)
    ensures Lead(0xE0, ch >> 12) == s[0] && Tail(ch >> 6) == s[1] && Tail(ch) == s[2]
  {
    ch := CodeOf8(s);
    Range3(s[0], s[1], s[2]);
    Bits3(s[0], s[1], s[2]);
  }

  lemma Fields4(a: Utf8, b: Utf8, c: Utf8, d: Utf8) returns (ch: Utf32)
    requires Row4(a, b, c, d)
    ensures ch == Code4(a, b, c, d) && 0x10000 <= ch <= 0x10FFFF
    ensures Lead(0xF0, ch >> 18) == a && Tail(ch >> 12) == b && Tail(ch >> 6) == c && Tail(ch) == d
  {
    ch := Code4(a, b, c, d);
    Range4(a, b, c, d);
    Bits4(a, b, c, d);
  }

  lemma Layout3(ch: CodePoint, s: seq<Utf8>)
    requires 0x800 <= ch < 0x10000 && |s| == 3
    requires Lead(0xE0, ch >> 12) == s[0] && Tail(ch >> 6) == s[1] && Tail(ch) == s[2]
    ensures Encode8(ch) == s
  {
  }

  lemma Layout4(ch: CodePoint, s: seq<Utf8>)
    requires 0x10000 <= ch && |s| == 4
    requires Lead(0xF0, ch >> 18) == s[0] && Tail(ch >> 12) == s[1] && Tail(ch >> 6) == s[2] && Tail(ch) == s[3]
    ensures Encode8(ch) == s
  {
  }

  lemma WellFormedDecodes(s: seq<Utf8>)
    requires WellFormed8(s)
    ensures IsScalar(CodeOf8(s)) && Encode8(CodeOf8(s)) == s
  {
    if |s| == 2 {
        Bits2(s[0], s[1]);
    } else if |s| == 3 {
      var ch := Fields3(s);
      Layout3(ch, s);
    } else if |s| == 4 {
      var ch := Fields4(s[0], s[1], s[2], s[3]);
      Layout4(ch, s);
    }
  }

  lemma Inverse2(ch: CodePoint)
    requires 0x80 <= ch < 0x800
    ensures Code2(Lead(0xC0, ch >> 6), Tail(ch)) == ch
  {
  }

  lemma Inverse3(ch: CodePoint)
    requires 0x800 <= ch < 0x10000
    ensures Code3(Lead(0xE0, ch >> 12), Tail(ch >> 6), Tail(ch)) == ch
  {
  }

  lemma Inverse4(ch: CodePoint)
    requires 0x10000 <= ch
    ensures Code4(Lead(0xF0, ch >> 18), Tail(ch >> 12), Tail(ch >> 6), Tail(ch)) == ch
  {
  }

  lemma EncodedDecodes(ch: CodePoint)
    ensures CodeOf8(Encode8(ch)) == ch
  {
    if 0x80 <= ch < 0x800 {
      Inverse2(ch);
    } else if 0x800 <= ch < 0x10000 {
      Inverse3(ch);
    } else if 0x10000 <= ch {
      Inverse4(ch);
    }
  }

  lemma LooseDecodes(s: seq<Utf8>)
    requires LooseSecondByte(s)
    ensures IsScalar(CodeOf8(s)) && !WellFormed8(s) && Encode8(CodeOf8(s)) != s
  {
    if |s| == 3 {
      LooseBits3(s[0], s[1], s[2]);
    } else {
      LooseBits4(s[0], s[1], s[2], s[3]);
    }
    hide WellFormed8, Encode8, CodeOf8;
    EncodedIsWellFormed(CodeOf8(s));
  }

  // ---------------------------------------------------------------- no wrap-around

  predicate KeepsBits(sum: Utf32) {
    MakeRoom(sum) >> 6 == sum
  }

  /** The step neither carries out of the sum nor shifts a bit out. */
  predicate GathersExactly(ch: Utf32, b: Utf8) {
    ch <= Plus(ch, b) && KeepsBits(Plus(ch, b))
  }

  /** The last step neither carries out of the sum nor goes below zero. */
  predicate FinishesExactly(ch: Utf32, b: Utf8, offset: Utf32) {
    ch <= Plus(ch, b) && offset <= Plus(ch, b)
  }

  predicate Exact2(a: Utf8, b: Utf8) {
    GathersExactly(0, a) && FinishesExactly(Gather(0, a), b, 0x3080)
  }

  predicate Exact3(a: Utf8, b: Utf8, c: Utf8) {
    && GathersExactly(0, a) && GathersExactly(Gather(0, a), b)
    && FinishesExactly(Gather(Gather(0, a), b), c, 0xE2080)
  }

  predicate Exact4(a: Utf8, b: Utf8, c: Utf8, d: Utf8) {
    && GathersExactly(0, a) && GathersExactly(Gather(0, a), b) && GathersExactly(Gather(Gather(0, a), b), c)
    && FinishesExactly(Gather(Gather(Gather(0, a), b), c), d, 0x3C82080)
  }

  /** Nothing wraps around while the sequence is decoded: arithmetic modulo 2^32 is plain arithmetic. */
  predicate DecodesExactly(s: seq<Utf8>) {
    || (|s| == 1 && FinishesExactly(0, s[0], 0))
    || (|s| == 2 && Exact2(s[0], s[1]))
    || (|s| == 3 && Exact3(s[0], s[1], s[2]))
    || (|s| == 4 && Exact4(s[0], s[1], s[2], s[3]))
  }

  // How large the sum gets from one byte to the next, and what shifting it by six bits makes of it.

  lemma Sum1(ch: Utf32, b: Utf8)
    requires ch <= 0
    ensures ch <= Plus(ch, b) <= 0xFF
  {
  }

  lemma Sum2(ch: Utf32, b: Utf8)
    requires ch <= 0x3FC0
    ensures ch <= Plus(ch, b) <= 0x40BF
  {
  }

  lemma Sum3(ch: Utf32, b: Utf8)
    requires ch <= 0x102FC0
    ensures ch <= Plus(ch, b) <= 0x1030BF
  {
  }

  lemma Sum4(ch: Utf32, b: Utf8)
    requires ch <= 0x40C2FC0
    ensures ch <= Plus(ch, b) <= 0x40C30BF
  {
  }

  lemma Shift1(sum: Utf32)
    requires sum <= 0xFF
    ensures KeepsBits(sum) && MakeRoom(sum) <= 0x3FC0
  {
  }

  lemma Shift2(sum: Utf32)
    requires sum <= 0x40BF
    ensures KeepsBits(sum) && MakeRoom(sum) <= 0x102FC0
  {
  }

  lemma Shift3(sum: Utf32)
    requires sum <= 0x1030BF
    ensures KeepsBits(sum) && MakeRoom(sum) <= 0x40C2FC0
  {
  }

  lemma Gather1(ch: Utf32, b: Utf8)
    requires ch <= 0
    ensures GathersExactly(ch, b) && Gather(ch, b) <= 0x3FC0
  {
    hide Plus, MakeRoom, KeepsBits;
    Sum1(ch, b);
    Shift1(Plus(ch, b));
  }

  lemma Gather2(ch: Utf32, b: Utf8)
    requires ch <= 0x3FC0
    ensures GathersExactly(ch, b) && Gather(ch, b) <= 0x102FC0
  {
    hide Plus, MakeRoom, KeepsBits;
    Sum2(ch, b);
    Shift2(Plus(ch, b));
  }

  lemma Gather3(ch: Utf32, b: Utf8)
    requires ch <= 0x102FC0
    ensures GathersExactly(ch, b) && Gather(ch, b) <= 0x40C2FC0
  {
    hide Plus, MakeRoom, KeepsBits;
    Sum3(ch, b);
    Shift3(Plus(ch, b));
  }

  /** A result in the code space did not come from below zero. */
  lemma NotBelowZero(sum: Utf32)
    requires sum <= 0x40C30BF
    ensures sum - 0x3080 <= 0x10FFFF ==> 0x3080 <= sum
    ensures sum - 0xE2080 <= 0x10FFFF ==> 0xE2080 <= sum
    ensures sum - 0x3C82080 <= 0x10FFFF ==> 0x3C82080 <= sum
  {
  }

  lemma FinishBounds(ch: Utf32, b: Utf8, offset: Utf32)
    requires ch <= 0x40C2FC0 && offset in {0x3080, 0xE2080, 0x3C82080} && Finish(ch, b, offset) <= 0x10FFFF
    ensures FinishesExactly(ch, b, offset)
  {
    hide Plus;
    Sum4(ch, b);
    NotBelowZero(Plus(ch, b));
  }

  lemma Growing(ch: Utf32)
    ensures ch <= 0x3FC0 ==> ch <= 0x40C2FC0
    ensures ch <= 0x102FC0 ==> ch <= 0x40C2FC0
  {
  }

  lemma AcceptedExact2(a: Utf8, b: Utf8)
    requires Row2(a, b)
    ensures Exact2(a, b)
  {
    hide Gather, Finish, GathersExactly, FinishesExactly;
    Bits2(a, b);
    Gather1(0, a);
    Growing(Gather(0, a));
    FinishBounds(Gather(0, a), b, 0x3080);
  }

  lemma AcceptedExact3(a: Utf8, b: Utf8, c: Utf8)
    requires Row3(a, b, c) || Loose3(a, b, c)
    ensures Exact3(a, b, c)
  {
    hide Gather, Finish, GathersExactly, FinishesExactly, Row3, Loose3;
    if Row3(a, b, c) {
      Range3(a, b, c);
    } else {
      LooseBits3(a, b, c);
    }
    Gather1(0, a);
    Gather2(Gather(0, a), b);
    Growing(Gather(Gather(0, a), b));
    FinishBounds(Gather(Gather(0, a), b), c, 0xE2080);
  }

  lemma AcceptedExact4(a: Utf8, b: Utf8, c: Utf8, d: Utf8)
    requires Row4(a, b, c, d) || Loose4(a, b, c, d)
    ensures Exact4(a, b, c, d)
  {
    hide Gather, Finish, GathersExactly, FinishesExactly, Row4, Loose4;
    if Row4(a, b, c, d) {
      Range4(a, b, c, d);
    } else {
      LooseBits4(a, b, c, d);
    }
    Gather1(0, a);
    Gather2(Gather(0, a), b);
    Gather3(Gather(Gather(0, a), b), c);
    FinishBounds(Gather(Gather(Gather(0, a), b), c), d, 0x3C82080);
  }

  lemma AcceptedDecodesExactly(s: seq<Utf8>)
    requires Accepted8(s)
    ensures DecodesExactly(s)
  {
    hide Exact2, Exact3, Exact4;
    if |s| == 2 {
      AcceptedExact2(s[0], s[1]);
    } else if |s| == 3 {
      AcceptedExact3(s[0], s[1], s[2]);
    } else if |s| == 4 {
      AcceptedExact4(s[0], s[1], s[2], s[3]);
    }
  }

  /**
    On everything the legality test lets through, the accumulate-and-subtract decoder never wraps around and
    yields a scalar value; it inverts Table 3-6 exactly on the sequences of Table 3-7.
   */
  lemma AcceptedDecodes(s: seq<Utf8>)
    requires Accepted8(s)
    ensures IsScalar(CodeOf8(s)) && DecodesExactly(s)
    ensures Encode8(CodeOf8(s)) == s <==> WellFormed8(s)
  {
    hide DecodesExactly;
    AcceptedDecodesExactly(s);
    if WellFormed8(s) {
      WellFormedDecodes(s);
    } else {
      LooseDecodes(s);
      EncodedIsWellFormed(CodeOf8(s));
    }
  }

  lemma LeadTellsLength(s: seq<Utf8>)
    requires Accepted8(s)
    ensures TrailingBytes(s[0]) + 1 == |s|
  {
  }

  function Next8(src: seq<Utf8>): Unit {
    if src == [] then Fault(SourceExhausted)
    else
      var n := TrailingBytes(src[0]) + 1;
      if |src| < n then Fault(SourceExhausted)
      else if !Accepted8(src[..n]) then Fault(SourceIllegal)
      else
        AcceptedDecodes(src[..n]);
        Emit(n, [CodeOf8(src[..n])], false)
  }

  // ---------------------------------------------------------------- UTF-16

  function PairCode(high: Utf16, low: Utf16): (ch: Utf32)
    requires IsHigh(high) && IsLow(low)
    ensures 0x10000 <= ch <= 0x10FFFF
  {
    ((high as Utf32 - 0xD800) << 10) + (low as Utf32 - 0xDC00) + 0x10000
  }

  /** Table 3-5 and the surrogate arithmetic invert each other. */
  lemma PairInverse(high: Utf16, low: Utf16)
    requires IsHigh(high) && IsLow(low)
    ensures HighOf(PairCode(high, low)) == high && LowOf(PairCode(high, low)) == low
  {
  }

  lemma SingleInverse(ch: CodePoint)
    requires ch <= 0xFFFF && IsScalar(ch)
    ensures !IsHigh(ch as Utf16) && !IsLow(ch as Utf16) && (ch as Utf16) as Utf32 == ch
  {
  }

  lemma SupplementaryInverse(ch: CodePoint)
    requires ch > 0xFFFF
    ensures PairCode(HighOf(ch), LowOf(ch)) == ch
  {
  }

  function Widen(u: Utf16): (ch: Utf32)
    ensures ch <= 0xFFFF
  {
    u as Utf32
  }

  lemma WidenInverse(u: Utf16)
    ensures Encode16(Widen(u)) == [u] && (IsScalar(Widen(u)) <==> !IsHigh(u) && !IsLow(u))
  {
  }

  function Next16(src: seq<Utf16>, flags: ConversionFlags): Unit {
    if src == [] then Fault(SourceExhausted)
    else if IsHigh(src[0]) then
      if |src| == 1 then Fault(SourceExhausted)
      else if IsLow(src[1]) then Emit(2, [PairCode(src[0], src[1])], false)
      else if flags.StrictConversion? then Fault(SourceIllegal)
      else Emit(1, [Widen(src[0])], false)
    else if flags.StrictConversion? && IsLow(src[0]) then Fault(SourceIllegal)
    else Emit(1, [Widen(src[0])], false)
  }

  // ---------------------------------------------------------------- UTF-32

  function Replaced(ch: Utf32): CodePoint {
    if ch > 0x10FFFF then REPLACEMENT_CHAR else ch
  }

  /** What ConvertUTF32toUTF8 makes of one value: too large a value is replaced under either flag. */
  function Next32For8(src: seq<Utf32>, flags: ConversionFlags): Unit {
    if src == [] then Fault(SourceExhausted)
    else if flags.StrictConversion? && IsSurrogate(src[0]) then Fault(SourceIllegal)
    else Emit(1, [Replaced(src[0])], src[0] > 0x10FFFF)
  }

  /** What ConvertUTF32toUTF16 makes of one value: too large a value is dropped when strict. */
  function Unit32For16(value: Utf32, flags: ConversionFlags): Unit {
    if IsSurrogate(value) then
      if flags.StrictConversion? then Fault(SourceIllegal) else Emit(1, [REPLACEMENT_CHAR], false)
    else if value <= 0x10FFFF then Emit(1, [value], false)
    else if flags.StrictConversion? then Emit(1, [], true)
    else Emit(1, [REPLACEMENT_CHAR], false)
  }

  function Next32For16(src: seq<Utf32>, flags: ConversionFlags): Unit {
    if src == [] then Fault(SourceExhausted) else Unit32For16(src[0], flags)
  }
}
