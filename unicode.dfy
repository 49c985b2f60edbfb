/**
 * Code points, UTF-16 code units and the UTF-8 encoding of a code point.
 *
 * UTF-16 follows section 2.1 of RFC 2781; UTF-8 follows section 3 of RFC 3629.
 * The encoder here is the reference the decoder's classifier is proved against.
 */
module Unicode {

  /** An octet of the input. */
  type byte = x: int | 0 <= x < 0x100

  /** A UTF-16 code unit: what a .NET `char` holds (lone surrogates included). */
  type CodeUnit = x: int | 0 <= x < 0x1_0000

  /** A Unicode scalar value: a code point that is not a surrogate. */
  predicate IsScalarValue(c: int) {
    0 <= c < 0xD800 || 0xE000 <= c <= 0x10_FFFF
  }

  predicate IsHighSurrogate(u: CodeUnit) { 0xD800 <= u <= 0xDBFF }
  predicate IsLowSurrogate(u: CodeUnit) { 0xDC00 <= u <= 0xDFFF }

  /** The UTF-16 form of a scalar value (section 2.1 of RFC 2781). */
  function ToUtf16(c: int): (u: seq<CodeUnit>)
    requires IsScalarValue(c)
  {
    if c < 0x1_0000 then [c]
    else [0xD800 + (c - 0x1_0000) / 0x400, 0xDC00 + (c - 0x1_0000) % 0x400]
  }

  /** Decoding of one UTF-16 character (section 2.2 of RFC 2781). */
  function FromUtf16(u: seq<CodeUnit>): int
    requires |u| == 1 || |u| == 2
  {
    if |u| == 1 then u[0] as int
    else 0x1_0000 + (u[0] as int - 0xD800) * 0x400 + (u[1] as int - 0xDC00)
  }

  /** A well-formed UTF-16 character: one non-surrogate unit or a surrogate pair. */
  predicate IsUtf16Character(u: seq<CodeUnit>) {
    (|u| == 1 && !IsHighSurrogate(u[0]) && !IsLowSurrogate(u[0])) ||
    (|u| == 2 && IsHighSurrogate(u[0]) && IsLowSurrogate(u[1]))
  }

  /** A scalar value becomes one unit below U+10000 and a surrogate pair above,
      and decoding the units gives the scalar value back. */
  lemma Utf16RoundTrip(c: int)
    requires IsScalarValue(c)
    ensures IsUtf16Character(ToUtf16(c))
    ensures |ToUtf16(c)| == (if c < 0x1_0000 then 1 else 2)
    ensures FromUtf16(ToUtf16(c)) == c
  {
  }

  /** Every well-formed UTF-16 character is the encoding of exactly one scalar value. */
  lemma Utf16Onto(u: seq<CodeUnit>)
    requires IsUtf16Character(u)
    ensures IsScalarValue(FromUtf16(u)) && ToUtf16(FromUtf16(u)) == u
  {
  }

  /** The UTF-8 form of a scalar value, per the table in section 3 of RFC 3629. */
  function Utf8Encode(c: int): (b: seq<byte>)
    requires IsScalarValue(c)
  {
    if c < 0x80 then [c]
    else if c < 0x800 then [0xC0 + c / 64, 0x80 + c % 64]
    else if c < 0x1_0000 then [0xE0 + c / 64 / 64, 0x80 + c / 64 % 64, 0x80 + c % 64]
    else [0xF0 + c / 64 / 64 / 64, 0x80 + c / 64 / 64 % 64, 0x80 + c / 64 % 64, 0x80 + c % 64]
  }

  /** `t` is an initial subsequence of the UTF-8 form of `c`. */
  predicate StartsEncoding(t: seq<byte>, c: int)
    requires IsScalarValue(c)
  {
    |t| <= |Utf8Encode(c)| && Utf8Encode(c)[..|t|] == t
  }

  /** `t` is an initial subsequence of some well-formed UTF-8 sequence. */
  ghost predicate IsEncodingPrefix(t: seq<byte>) {
    exists c :: IsScalarValue(c) && StartsEncoding(t, c)
  }

  /** `t` is an initial subsequence of some well-formed UTF-8 sequence, and shorter than it. */
  ghost predicate IsProperEncodingPrefix(t: seq<byte>) {
    exists c :: IsScalarValue(c) && StartsEncoding(t, c) && |t| < |Utf8Encode(c)|
  }
}
