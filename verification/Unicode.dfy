/**
  The encoding forms of section 3.9 of the Unicode Standard: how a code point is laid out
  as UTF-8, UTF-16 and UTF-32 code units, and which byte sequences are well formed.
  Nothing here mentions a converter; the converters are proved against these definitions.
 */
module Unicode {

  type Utf8 = bv8
  type Utf16 = bv16
  type Utf32 = bv32

  /** A value of the code space, surrogates included. */
  type CodePoint = ch: Utf32 | ch <= 0x10FFFF

  const REPLACEMENT_CHAR: CodePoint := 0xFFFD

  predicate IsSurrogate(ch: Utf32) {
    0xD800 <= ch <= 0xDFFF
  }

  predicate IsScalar(ch: Utf32) {
    ch <= 0x10FFFF && !IsSurrogate(ch)
  }

  ghost predicate AllScalars(codes: seq<CodePoint>) {
    forall i :: 0 <= i < |codes| ==> IsScalar(codes[i])
  }

  /** The first byte of a sequence: `mark` says how long it is, `bits` are the top bits of the code point. */
  function Lead(mark: Utf32, bits: Utf32): Utf8
    requires mark in {0xC0, 0xE0, 0xF0} && bits < 0x20
  {
    (mark | bits) as Utf8
  }

  /** A trailing byte: the low six bits of `bits` behind the marker 10. */
  function Tail(bits: Utf32): Utf8 {
    (0x80 | (bits & 0x3F)) as Utf8
  }

  /** Table 3-6. Surrogate code points get the three-byte layout, which only lenient conversion uses. */
  function Encode8(ch: CodePoint): (s: seq<Utf8>)
    ensures 1 <= |s| <= 4
  {
    if ch < 0x80 then [ch as Utf8]
    else if ch < 0x800 then [Lead(0xC0, ch >> 6), Tail(ch)]
    else if ch < 0x10000 then [Lead(0xE0, ch >> 12), Tail(ch >> 6), Tail(ch)]
    else [Lead(0xF0, ch >> 18), Tail(ch >> 12), Tail(ch >> 6), Tail(ch)]
  }

  predicate IsHigh(u: Utf16) {
    0xD800 <= u <= 0xDBFF
  }

  predicate IsLow(u: Utf16) {
    0xDC00 <= u <= 0xDFFF
  }

  function HighOf(ch: CodePoint): (u: Utf16)
    requires ch > 0xFFFF
    ensures IsHigh(u)
  {
    (0xD7C0 + (ch >> 10)) as Utf16
  }

  function LowOf(ch: CodePoint): (u: Utf16)
    ensures IsLow(u)
  {
    (0xDC00 | (ch & 0x3FF)) as Utf16
  }

  /** Table 3-5. */
  function Encode16(ch: CodePoint): (s: seq<Utf16>)
    ensures 1 <= |s| <= 2
  {
    if ch <= 0xFFFF then [ch as Utf16] else [HighOf(ch), LowOf(ch)]
  }

  function Encode32(ch: CodePoint): (s: seq<Utf32>) {
    [ch]
  }

  function EncodeAll<T>(encode: CodePoint -> seq<T>, codes: seq<CodePoint>): seq<T> {
    if codes == [] then [] else encode(codes[0]) + EncodeAll(encode, codes[1..])
  }

  lemma {:induction false} EncodeAllConcat<T>(encode: CodePoint -> seq<T>, a: seq<CodePoint>, b: seq<CodePoint>)
    ensures EncodeAll(encode, a + b) == EncodeAll(encode, a) + EncodeAll(encode, b)
  {
    if a == [] {
      assert a + b == b;
    } else {
      EncodeAllConcat(encode, a[1..], b);
      assert (a + b)[1..] == a[1..] + b;
      assert (a + b)[0] == a[0];
    }
  }

  lemma EncodeAllOne<T>(encode: CodePoint -> seq<T>, ch: CodePoint)
    ensures EncodeAll(encode, [ch]) == encode(ch)
  {
    assert encode(ch) + [] == encode(ch);
  }

  /** A byte that may follow a lead byte. */
  predicate IsTail(b: Utf8) {
    0x80 <= b <= 0xBF
  }

  /** The rows of Table 3-7, by length. */
  predicate Row2(a: Utf8, b: Utf8) {
    0xC2 <= a <= 0xDF && IsTail(b)
  }

  predicate Row3(a: Utf8, b: Utf8, c: Utf8) {
    && IsTail(c)
    && (|| (a == 0xE0 && 0xA0 <= b <= 0xBF)
        || (0xE1 <= a <= 0xEC && IsTail(b))
        || (a == 0xED && 0x80 <= b <= 0x9F)
        || (0xEE <= a <= 0xEF && IsTail(b)))
  }

  predicate Row4(a: Utf8, b: Utf8, c: Utf8, d: Utf8) {
    && IsTail(c) && IsTail(d)
    && (|| (a == 0xF0 && 0x90 <= b <= 0xBF)
        || (0xF1 <= a <= 0xF3 && IsTail(b))
        || (a == 0xF4 && 0x80 <= b <= 0x8F))
  }

  /** Table 3-7: the well-formed UTF-8 byte sequences of one code point. */
  predicate WellFormed8(s: seq<Utf8>) {
    || (|s| == 1 && s[0] <= 0x7F)
    || (|s| == 2 && Row2(s[0], s[1]))
    || (|s| == 3 && Row3(s[0], s[1], s[2]))
    || (|s| == 4 && Row4(s[0], s[1], s[2], s[3]))
  }

  /** A byte string that is a concatenation of sequences from Table 3-7. */
  predicate WellFormedText8(s: seq<Utf8>)
  {
    s == [] || exists n :: 1 <= n <= |s| && WellFormed8(s[..n]) && WellFormedText8(s[n..])
  }

  /** Table 3-7 lists exactly what Table 3-6 produces from scalar values. */
  lemma EncodedIsWellFormed(ch: CodePoint)
    ensures WellFormed8(Encode8(ch)) <==> IsScalar(ch)
  {
  }

  /** The bits of a code point, laid out in each form: the four examples of Table 3-4, and the ends of the planes. */
  lemma Table34()
    ensures Encode8(0x4D) == [0x4D] && Encode16(0x4D) == [0x4D]
    ensures Encode8(0x430) == [0xD0, 0xB0] && Encode16(0x430) == [0x430]
    ensures Encode8(0x4E8C) == [0xE4, 0xBA, 0x8C] && Encode16(0x4E8C) == [0x4E8C]
    ensures Encode8(0x10302) == [0xF0, 0x90, 0x8C, 0x82] && Encode16(0x10302) == [0xD800, 0xDF02]
    ensures Encode8(0xFFFF) == [0xEF, 0xBF, 0xBF] && Encode16(0x10000) == [0xD800, 0xDC00]
    ensures Encode8(0x10FFFF) == [0xF4, 0x8F, 0xBF, 0xBF] && Encode16(0x10FFFF) == [0xDBFF, 0xDFFF]
  {
  }

  lemma {:induction false} EncodeAllIsWellFormed(codes: seq<CodePoint>)
    requires AllScalars(codes)
    ensures WellFormedText8(EncodeAll(Encode8, codes))
  {
    if codes != [] {
      var head, rest := Encode8(codes[0]), EncodeAll(Encode8, codes[1..]);
      EncodedIsWellFormed(codes[0]);
      EncodeAllIsWellFormed(codes[1..]);
      assert (head + rest)[..|head|] == head && (head + rest)[|head|..] == rest;
    }
  }

  lemma {:induction false} EncodeAll32IsIdentity(codes: seq<CodePoint>)
    ensures EncodeAll(Encode32, codes) == codes
  {
    if codes != [] {
      EncodeAll32IsIdentity(codes[1..]);
      assert [codes[0]] + codes[1..] == codes;
    }
  }
}
