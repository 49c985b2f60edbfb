/**
 * The decoder test suite's scenarios, stated on the model.
 *
 * The generic lemmas first say what a call does when its first decision settles
 * everything (it waits on all the bytes, rejects at once, emits everything at once,
 * or finds no room at once); each scenario then names the decisions on its bytes and
 * reads off the call's result. The methods at the end drive the classes themselves.
 */
module Scenarios {
  import opened Wrappers
  import opened Unicode
  import opened Classifier
  import opened Fallbacks
  import opened DecodeLoop
  import opened Decoding
  import opened Decoders

  /** A call whose bytes are all waited on writes nothing and carries them all. */
  lemma WaitsOnAll(d: Decider, pending: seq<byte>, input: seq<byte>, cap: nat)
    requires pending + input != [] && d(pending + input).Stash?
    ensures ConvertSpec(d, pending, input, cap) ==
      Ok(Conversion(Converted(|input|, 0, true), [], pending + input))
    ensures GetCharsSpec(d, pending, input, cap) == Ok(Written([], pending + input))
    ensures Call(d, pending, input) == Done([], pending + input)
  {
    var t := pending + input;
    assert t[0..] == t;
    assert t[0..|t|] == t;
  }

  /** A call whose first decision rejects raises at the start of the carried bytes. */
  lemma RejectsAtOnce(d: Decider, pending: seq<byte>, input: seq<byte>, cap: nat)
    requires pending + input != [] && d(pending + input).Reject?
    ensures var f := Fault(-|pending|, d(pending + input).bytes);
      ConvertSpec(d, pending, input, cap) == Err(DecoderFallbackException(f)) &&
      GetCharsSpec(d, pending, input, cap) == Err(DecoderFallbackException(f)) &&
      Call(d, pending, input) == Raised(f)
  {
    var t := pending + input;
    assert t[0..] == t;
  }

  /** A call whose first decision takes all the bytes and fits writes its units and
      carries nothing. */
  lemma EmitsAtOnce(d: Decider, pending: seq<byte>, input: seq<byte>, cap: nat, u: seq<CodeUnit>)
    requires d(pending + input) == Emit(u, |pending + input|) && |u| <= cap
    ensures ConvertSpec(d, pending, input, cap) == Ok(Conversion(Converted(|input|, |u|, true), u, []))
    ensures GetCharsSpec(d, pending, input, cap) == Ok(Written(u, []))
    ensures Call(d, pending, input) == Done(u, [])
  {
    var t := pending + input;
    assert t[0..] == t;
    assert t[|t|..] == [] && t[|t|..|t|] == [];
    assert u + [] == u;
    assert RunBounded(d, t, |t|, |pending|, cap - |u|) == Progress([], |t|, |t|, false);
    assert RunBounded(d, t, 0, |pending|, cap) == Progress(u, |t|, |t|, false);
    assert Run(d, t, |t|, |pending|) == Decoded([], |t|);
    assert Run(d, t, 0, |pending|) == Decoded(u, |t|);
  }

  /** A call whose first character does not fit is refused. */
  lemma NoRoomAtOnce(d: Decider, pending: seq<byte>, input: seq<byte>, cap: nat)
    requires pending + input != [] && d(pending + input).Emit? && |d(pending + input).units| > cap
    ensures ConvertSpec(d, pending, input, cap) == Err(Argument("chars"))
    ensures GetCharsSpec(d, pending, input, cap) == Err(Argument("chars"))
  {
    var t := pending + input;
    assert t[0..] == t;
  }

  /** A call whose first decision fits, and whose second takes the remaining bytes
      and fits too. */
  lemma EmitsTwice(d: Decider, pending: seq<byte>, input: seq<byte>, cap: nat, u1: seq<CodeUnit>, n1: nat, u2: seq<CodeUnit>)
    requires n1 < |pending + input| && d(pending + input) == Emit(u1, n1)
    requires d((pending + input)[n1..]) == Emit(u2, |pending + input| - n1)
    requires |u1| + |u2| <= cap
    ensures ConvertSpec(d, pending, input, cap) ==
      Ok(Conversion(Converted(|input|, |u1 + u2|, true), u1 + u2, []))
    ensures GetCharsSpec(d, pending, input, cap) == Ok(Written(u1 + u2, []))
    ensures Call(d, pending, input) == Done(u1 + u2, [])
  {
    var t := pending + input;
    assert t[0..] == t;
    assert t[|t|..] == [] && t[|t|..|t|] == [];
    assert u2 + [] == u2;
    assert RunBounded(d, t, |t|, |pending|, cap - |u1| - |u2|) == Progress([], |t|, |t|, false);
    assert RunBounded(d, t, n1, |pending|, cap - |u1|) == Progress(u2, |t|, |t|, false);
    assert Run(d, t, |t|, |pending|) == Decoded([], |t|);
    assert Run(d, t, n1, |pending|) == Decoded(u2, |t|);
  }

  /** A call whose first decision fits and whose second does not: `Convert` stops
      between them, `GetChars` is refused. */
  lemma EmitsThenNoRoom(d: Decider, pending: seq<byte>, input: seq<byte>, cap: nat, u: seq<CodeUnit>, n: nat)
    requires n < |pending + input| && d(pending + input) == Emit(u, n) && 0 < |u| <= cap
    requires d((pending + input)[n..]).Emit? && |d((pending + input)[n..]).units| > cap - |u|
    ensures ConvertSpec(d, pending, input, cap) == Ok(Conversion(Converted(n - |pending|, |u|, false), u, []))
    ensures GetCharsSpec(d, pending, input, cap) == Err(Argument("chars"))
  {
    var t := pending + input;
    assert t[0..] == t;
    assert u + [] == u;
    assert RunBounded(d, t, n, |pending|, cap - |u|) == Progress([], n, n, true);
    assert RunBounded(d, t, 0, |pending|, cap) == Progress(u, n, n, true);
    assert t[n..n] == [];
  }

  /** A call whose first decision fits and whose second rejects raises at the
      second. */
  lemma EmitsThenRejects(d: Decider, pending: seq<byte>, input: seq<byte>, cap: nat, u: seq<CodeUnit>, n: nat)
    requires n < |pending + input| && d(pending + input) == Emit(u, n) && |u| <= cap
    requires d((pending + input)[n..]).Reject?
    ensures var f := Fault(n - |pending|, d((pending + input)[n..]).bytes);
      ConvertSpec(d, pending, input, cap) == Err(DecoderFallbackException(f)) &&
      GetCharsSpec(d, pending, input, cap) == Err(DecoderFallbackException(f)) &&
      Call(d, pending, input) == Raised(f)
  {
    var t := pending + input;
    assert t[0..] == t;
    assert RunBounded(d, t, n, |pending|, cap - |u|).Stopped?;
    assert Run(d, t, n, |pending|).Failed?;
  }

  /** The decoder `Encoding.UTF8.GetDecoder()` returns. */
  function Utf8Replacing(flush: bool): Decider {
    DeciderOf(Utf8, ReplacementFallback(ReplacementCharacter), flush)
  }

  /** The decoder of `UTF8Encoding(throwOnInvalidBytes: true)`. */
  function Utf8Throwing(flush: bool): Decider {
    DeciderOf(Utf8, ExceptionFallback, flush)
  }

  /** The decoder of US-ASCII with `DecoderExceptionFallback`. */
  function AsciiThrowing(flush: bool): Decider {
    DeciderOf(Ascii, ExceptionFallback, flush)
  }

  /** F0 90 80 80 is the UTF-8 form of U+10000. */
  lemma ClassifiesU10000(rest: seq<byte>)
    ensures ClassifyUtf8([0xF0, 0x90, 0x80, 0x80] + rest) == Complete(4, 0x10000)
  {
    var t := [0xF0, 0x90, 0x80, 0x80] + rest;
    assert t[0] == 0xF0 && t[1] == 0x90 && t[2] == 0x80 && t[3] == 0x80;
    assert Matched(t, 4, 3) == 4;
    assert Matched(t, 4, 1) == 4;
  }

  /** U+10000 is a surrogate pair in UTF-16, and C8 80 is U+0200. */
  lemma DecidesPairThenU0200()
    ensures Utf8Replacing(true)([0xF0, 0x90, 0x80, 0x80, 0xC8, 0x80]) == Emit([0xD800, 0xDC00], 4)
    ensures Utf8Replacing(true)([0xC8, 0x80]) == Emit([0x200], 2)
  {
    ClassifiesU10000([0xC8, 0x80]);
    assert [0xF0, 0x90, 0x80, 0x80] + [0xC8, 0x80] == [0xF0, 0x90, 0x80, 0x80, 0xC8, 0x80];
    assert ToUtf16(0x10000) == [0xD800, 0xDC00];
    assert Matched([0xC8, 0x80], 2, 1) == 2;
  }

  /** "\uD800\uDC00\u0200" in UTF-8, and with room for just two chars: `Convert`
      writes the surrogate pair and stops before U+0200; called again on the two
      bytes left, with room for one char, it writes U+0200 and completes. */
  lemma ConvertWithTooLittleRoom()
    ensures ConvertSpec(Utf8Replacing(true), [], [0xF0, 0x90, 0x80, 0x80, 0xC8, 0x80], 2) ==
      Ok(Conversion(Converted(4, 2, false), [0xD800, 0xDC00], []))
    ensures ConvertSpec(Utf8Replacing(true), [], [0xC8, 0x80], 1) ==
      Ok(Conversion(Converted(2, 1, true), [0x200], []))
  {
    StopsBeforeU0200();
    ConvertsU0200();
  }

  lemma StopsBeforeU0200()
    ensures ConvertSpec(Utf8Replacing(true), [], [0xF0, 0x90, 0x80, 0x80, 0xC8, 0x80], 2) ==
      Ok(Conversion(Converted(4, 2, false), [0xD800, 0xDC00], []))
  {
    var t: seq<byte> := [0xF0, 0x90, 0x80, 0x80, 0xC8, 0x80];
    DecidesPairThenU0200();
    assert [] + t == t && t[4..] == [0xC8, 0x80];
    EmitsThenNoRoom(Utf8Replacing(true), [], t, 2, [0xD800, 0xDC00], 4);
  }

  lemma ConvertsU0200()
    ensures ConvertSpec(Utf8Replacing(true), [], [0xC8, 0x80], 1) ==
      Ok(Conversion(Converted(2, 1, true), [0x200], []))
  {
    DecidesPairThenU0200();
    assert [] + [0xC8, 0x80] == [0xC8, 0x80];
    EmitsAtOnce(Utf8Replacing(true), [], [0xC8, 0x80], 1, [0x200]);
  }

  /** "\u0D800\uDC00" in UTF-8: U+0D80, '0', and U+FFFD for the lone surrogate. */
  const MalformedSurrogateText: seq<byte> := [0xE0, 0xB6, 0x80, 0x30, 0xEF, 0xBF, 0xBD]

  lemma DecidesU0D80ThenDigit()
    ensures Utf8Replacing(true)(MalformedSurrogateText) == Emit([0x0D80], 3)
    ensures Utf8Replacing(true)(MalformedSurrogateText[3..]) == Emit([0x30], 1)
  {
    var t := MalformedSurrogateText;
    assert Matched(t, 3, 1) == 3;
    assert Utf8Scalar(t, 3) == 0x0D80;
    assert t[3..] == [0x30, 0xEF, 0xBF, 0xBD];
  }

  /** `Convert` with no room at all for chars is refused. */
  lemma ConvertWithNoRoom()
    ensures ConvertSpec(Utf8Replacing(true), [], MalformedSurrogateText, 0) == Err(Argument("chars"))
  {
    DecidesU0D80ThenDigit();
    assert [] + MalformedSurrogateText == MalformedSurrogateText;
    NoRoomAtOnce(Utf8Replacing(true), [], MalformedSurrogateText, 0);
  }

  /** `GetChars` with room for only the first of three chars is refused. */
  lemma GetCharsWithTooLittleRoom()
    ensures GetCharsSpec(Utf8Replacing(true), [], MalformedSurrogateText, 1) == Err(Argument("chars"))
  {
    DecidesU0D80ThenDigit();
    assert [] + MalformedSurrogateText == MalformedSurrogateText;
    EmitsThenNoRoom(Utf8Replacing(true), [], MalformedSurrogateText, 1, [0x0D80], 3);
  }

  /** US-ASCII with the exception fallback raises on FF FF, at index 0, for the first
      FF alone: `Convert`, `GetChars` and `GetCharCount` alike, whatever the room. */
  lemma AsciiRaisesOnFF(flush: bool, cap: nat)
    ensures var f := DecoderFallbackException(Fault(0, [0xFF]));
      ConvertSpec(AsciiThrowing(flush), [], [0xFF, 0xFF], cap) == Err(f) &&
      GetCharsSpec(AsciiThrowing(flush), [], [0xFF, 0xFF], cap) == Err(f) &&
      Decode(Ascii, ExceptionFallback, [], [0xFF, 0xFF], flush) == Raised(Fault(0, [0xFF]))
  {
    assert AsciiThrowing(flush)([0xFF, 0xFF]) == Reject([0xFF]);
    assert [] + [0xFF, 0xFF] == [0xFF, 0xFF];
    RejectsAtOnce(AsciiThrowing(flush), [], [0xFF, 0xFF], cap);
  }

  /** The first `GetChars` of an index test carries an incomplete `first` and writes
      nothing; the second, flushing, rejects at the start of the carried bytes, and
      `GetCharCount` does the same. */
  lemma CarriedThenRejected(first: seq<byte>, second: seq<byte>, run: seq<byte>)
    requires first != [] && ClassifyUtf8(first).Incomplete?
    requires Decide(Utf8, ExceptionFallback, true, first + second) == Reject(run)
    ensures GetCharsSpec(Utf8Throwing(false), [], first, 0) == Ok(Written([], first))
    ensures GetCharsSpec(Utf8Throwing(true), first, second, 8) ==
      Err(DecoderFallbackException(Fault(-|first|, run)))
    ensures Decode(Utf8, ExceptionFallback, first, second, true) == Raised(Fault(-|first|, run))
  {
    assert [] + first == first;
    WaitsOnAll(Utf8Throwing(false), [], first, 0);
    RejectsAtOnce(Utf8Throwing(true), first, second, 8);
  }

  lemma IndexAfterF1ThenF1()
    ensures GetCharsSpec(Utf8Throwing(false), [], [0xF1], 0) == Ok(Written([], [0xF1]))
    ensures GetCharsSpec(Utf8Throwing(true), [0xF1], [0xF1], 8) == Err(DecoderFallbackException(Fault(-1, [0xF1])))
    ensures Decode(Utf8, ExceptionFallback, [0xF1], [0xF1], true) == Raised(Fault(-1, [0xF1]))
  {
    assert [0xF1] + [0xF1] == [0xF1, 0xF1];
    assert ClassifyUtf8([0xF1, 0xF1]) == Invalid(1);
    CarriedThenRejected([0xF1], [0xF1], [0xF1]);
  }

  lemma IndexAfterF1Then80()
    ensures GetCharsSpec(Utf8Throwing(true), [0xF1], [0x80], 8) == Err(DecoderFallbackException(Fault(-1, [0xF1, 0x80])))
    ensures Decode(Utf8, ExceptionFallback, [0xF1], [0x80], true) == Raised(Fault(-1, [0xF1, 0x80]))
  {
    assert [0xF1] + [0x80] == [0xF1, 0x80];
    assert ClassifyUtf8([0xF1, 0x80]) == Incomplete;
    CarriedThenRejected([0xF1], [0x80], [0xF1, 0x80]);
  }

  lemma IndexAfterF180ThenNothing()
    ensures GetCharsSpec(Utf8Throwing(false), [], [0xF1, 0x80], 0) == Ok(Written([], [0xF1, 0x80]))
    ensures GetCharsSpec(Utf8Throwing(true), [0xF1, 0x80], [], 8) == Err(DecoderFallbackException(Fault(-2, [0xF1, 0x80])))
    ensures Decode(Utf8, ExceptionFallback, [0xF1, 0x80], [], true) == Raised(Fault(-2, [0xF1, 0x80]))
  {
    assert [0xF1, 0x80] + [] == [0xF1, 0x80];
    assert ClassifyUtf8([0xF1, 0x80]) == Incomplete;
    CarriedThenRejected([0xF1, 0x80], [], [0xF1, 0x80]);
  }

  lemma IndexAfterF180Then60()
    ensures GetCharsSpec(Utf8Throwing(true), [0xF1, 0x80], [0x60], 8) == Err(DecoderFallbackException(Fault(-2, [0xF1, 0x80])))
    ensures Decode(Utf8, ExceptionFallback, [0xF1, 0x80], [0x60], true) == Raised(Fault(-2, [0xF1, 0x80]))
  {
    assert [0xF1, 0x80] + [0x60] == [0xF1, 0x80, 0x60];
    assert ClassifyUtf8([0xF1, 0x80]) == Incomplete;
    assert Matched([0xF1, 0x80, 0x60], 4, 2) == 2;
    assert ClassifyUtf8([0xF1, 0x80, 0x60]) == Invalid(2);
    assert [0xF1, 0x80, 0x60][..2] == [0xF1, 0x80];
    CarriedThenRejected([0xF1, 0x80], [0x60], [0xF1, 0x80]);
  }

  lemma IndexAfterF180Then80()
    ensures GetCharsSpec(Utf8Throwing(true), [0xF1, 0x80], [0x80], 8) == Err(DecoderFallbackException(Fault(-2, [0xF1, 0x80, 0x80])))
    ensures Decode(Utf8, ExceptionFallback, [0xF1, 0x80], [0x80], true) == Raised(Fault(-2, [0xF1, 0x80, 0x80]))
  {
    assert [0xF1, 0x80] + [0x80] == [0xF1, 0x80, 0x80];
    assert ClassifyUtf8([0xF1, 0x80]) == Incomplete;
    assert Matched([0xF1, 0x80, 0x80], 4, 3) == 3;
    assert ClassifyUtf8([0xF1, 0x80, 0x80]) == Incomplete;
    CarriedThenRejected([0xF1, 0x80], [0x80], [0xF1, 0x80, 0x80]);
  }

  lemma IndexAfterF18080Then60()
    ensures GetCharsSpec(Utf8Throwing(false), [], [0xF1, 0x80, 0x80], 0) == Ok(Written([], [0xF1, 0x80, 0x80]))
    ensures GetCharsSpec(Utf8Throwing(true), [0xF1, 0x80, 0x80], [0x60], 8) ==
      Err(DecoderFallbackException(Fault(-3, [0xF1, 0x80, 0x80])))
    ensures Decode(Utf8, ExceptionFallback, [0xF1, 0x80, 0x80], [0x60], true) == Raised(Fault(-3, [0xF1, 0x80, 0x80]))
  {
    assert [0xF1, 0x80, 0x80] + [0x60] == [0xF1, 0x80, 0x80, 0x60];
    assert Matched([0xF1, 0x80, 0x80], 4, 3) == 3;
    assert ClassifyUtf8([0xF1, 0x80, 0x80]) == Incomplete;
    assert ClassifyUtf8([0xF1, 0x80, 0x80, 0x60]) == Invalid(3);
    assert [0xF1, 0x80, 0x80, 0x60][..3] == [0xF1, 0x80, 0x80];
    CarriedThenRejected([0xF1, 0x80, 0x80], [0x60], [0xF1, 0x80, 0x80]);
  }

  /** F1 80 80 80 is U+40000; the 81 after it cannot start a character. */
  lemma DecidesU40000Then81()
    ensures Utf8Throwing(true)([0xF1, 0x80, 0x80, 0x80, 0x81]) == Emit([0xD8C0, 0xDC00], 4)
    ensures Utf8Throwing(true)([0x81]) == Reject([0x81])
  {
    var t: seq<byte> := [0xF1, 0x80, 0x80, 0x80, 0x81];
    assert Matched(t, 4, 3) == 4;
    assert Matched(t, 4, 1) == 4;
    assert Utf8Scalar(t, 4) == 0x40000;
    assert ToUtf16(0x40000) == [0xD8C0, 0xDC00];
    assert ClassifyUtf8([0x81]) == Invalid(1);
  }

  /** The one index test whose fault lies in the new input: the carried bytes complete
      a character and the next byte is invalid, at index 1. */
  lemma IndexAfterF18080Then8081()
    ensures GetCharsSpec(Utf8Throwing(true), [0xF1, 0x80, 0x80], [0x80, 0x81], 8) ==
      Err(DecoderFallbackException(Fault(1, [0x81])))
    ensures Decode(Utf8, ExceptionFallback, [0xF1, 0x80, 0x80], [0x80, 0x81], true) == Raised(Fault(1, [0x81]))
  {
    var t: seq<byte> := [0xF1, 0x80, 0x80] + [0x80, 0x81];
    assert t == [0xF1, 0x80, 0x80, 0x80, 0x81] && t[4..] == [0x81];
    DecidesU40000Then81();
    EmitsThenRejects(Utf8Throwing(true), [0xF1, 0x80, 0x80], [0x80, 0x81], 8, [0xD8C0, 0xDC00], 4);
  }

  /** C2 waits for a follower; X is none, so C2 becomes U+FFFD and X decodes; Y and Z
      are ASCII. */
  lemma DecidesSplitInput()
    ensures Utf8Replacing(false)([0xC2]) == Stash
    ensures Utf8Replacing(false)([0xC2, 0x58]) == Emit(ReplacementCharacter, 1)
    ensures Utf8Replacing(false)([0x58]) == Emit([0x58], 1)
    ensures Utf8Replacing(false)([0x59]) == Emit([0x59], 1)
    ensures Utf8Replacing(true)([0x5A]) == Emit([0x5A], 1)
  {
    assert ClassifyUtf8([0xC2]) == Incomplete;
    assert ClassifyUtf8([0xC2, 0x58]) == Invalid(1);
  }

  /** C2 | X | Y | Z fed to `Convert` one byte at a time; the invalid C2 is replaced
      once X shows it is not followed. */
  lemma ConvertSplitAcrossInvalidSequence()
    ensures ConvertSpec(Utf8Replacing(false), [], [0xC2], 100) == Ok(Conversion(Converted(1, 0, true), [], [0xC2]))
    ensures ConvertSpec(Utf8Replacing(false), [0xC2], [0x58], 100) ==
      Ok(Conversion(Converted(1, 2, true), [0xFFFD, 0x58], []))
    ensures ConvertSpec(Utf8Replacing(false), [], [0x59], 100) == Ok(Conversion(Converted(1, 1, true), [0x59], []))
    ensures ConvertSpec(Utf8Replacing(true), [], [0x5A], 100) == Ok(Conversion(Converted(1, 1, true), [0x5A], []))
  {
    SplitFirstCall(100);
    SplitSecondCall(100);
    SplitThirdCall(100);
    SplitFourthCall(100);
  }

  /** The same input through `GetCharCount` and `GetChars`. */
  lemma GetCharsSplitAcrossInvalidSequence()
    ensures Decode(Utf8, ReplacementFallback(ReplacementCharacter), [], [0xC2], false) == Done([], [0xC2])
    ensures GetCharsSpec(Utf8Replacing(false), [], [0xC2], 100) == Ok(Written([], [0xC2]))
    ensures Decode(Utf8, ReplacementFallback(ReplacementCharacter), [0xC2], [0x58], false) == Done([0xFFFD, 0x58], [])
    ensures GetCharsSpec(Utf8Replacing(false), [0xC2], [0x58], 100) == Ok(Written([0xFFFD, 0x58], []))
    ensures Decode(Utf8, ReplacementFallback(ReplacementCharacter), [], [0x59], false) == Done([0x59], [])
    ensures GetCharsSpec(Utf8Replacing(false), [], [0x59], 100) == Ok(Written([0x59], []))
    ensures Decode(Utf8, ReplacementFallback(ReplacementCharacter), [], [0x5A], true) == Done([0x5A], [])
    ensures GetCharsSpec(Utf8Replacing(true), [], [0x5A], 100) == Ok(Written([0x5A], []))
  {
    SplitFirstCall(100);
    SplitSecondCall(100);
    SplitThirdCall(100);
    SplitFourthCall(100);
  }

  lemma SplitFirstCall(cap: nat)
    ensures ConvertSpec(Utf8Replacing(false), [], [0xC2], cap) == Ok(Conversion(Converted(1, 0, true), [], [0xC2]))
    ensures GetCharsSpec(Utf8Replacing(false), [], [0xC2], cap) == Ok(Written([], [0xC2]))
    ensures Call(Utf8Replacing(false), [], [0xC2]) == Done([], [0xC2])
  {
    DecidesSplitInput();
    var e: seq<byte> := [];
    assert e + [0xC2] == [0xC2];
    WaitsOnAll(Utf8Replacing(false), [], [0xC2], cap);
  }

  lemma SplitSecondCall(cap: nat)
    requires 2 <= cap
    ensures ConvertSpec(Utf8Replacing(false), [0xC2], [0x58], cap) ==
      Ok(Conversion(Converted(1, 2, true), [0xFFFD, 0x58], []))
    ensures GetCharsSpec(Utf8Replacing(false), [0xC2], [0x58], cap) == Ok(Written([0xFFFD, 0x58], []))
    ensures Call(Utf8Replacing(false), [0xC2], [0x58]) == Done([0xFFFD, 0x58], [])
  {
    DecidesSplitInput();
    assert [0xC2] + [0x58] == [0xC2, 0x58] && [0xC2, 0x58][1..] == [0x58];
    assert ReplacementCharacter + [0x58] == [0xFFFD, 0x58];
    EmitsTwice(Utf8Replacing(false), [0xC2], [0x58], cap, ReplacementCharacter, 1, [0x58]);
  }

  lemma SplitThirdCall(cap: nat)
    requires 1 <= cap
    ensures ConvertSpec(Utf8Replacing(false), [], [0x59], cap) == Ok(Conversion(Converted(1, 1, true), [0x59], []))
    ensures GetCharsSpec(Utf8Replacing(false), [], [0x59], cap) == Ok(Written([0x59], []))
    ensures Call(Utf8Replacing(false), [], [0x59]) == Done([0x59], [])
  {
    DecidesSplitInput();
    var e: seq<byte> := [];
    assert e + [0x59] == [0x59];
    EmitsAtOnce(Utf8Replacing(false), [], [0x59], cap, [0x59]);
  }

  lemma SplitFourthCall(cap: nat)
    requires 1 <= cap
    ensures ConvertSpec(Utf8Replacing(true), [], [0x5A], cap) == Ok(Conversion(Converted(1, 1, true), [0x5A], []))
    ensures GetCharsSpec(Utf8Replacing(true), [], [0x5A], cap) == Ok(Written([0x5A], []))
    ensures Call(Utf8Replacing(true), [], [0x5A]) == Done([0x5A], [])
  {
    DecidesSplitInput();
    var e: seq<byte> := [];
    assert e + [0x5A] == [0x5A];
    EmitsAtOnce(Utf8Replacing(true), [], [0x5A], cap, [0x5A]);
  }

  /** A fresh array holding `s`. */
  method ArrayOf(s: seq<byte>) returns (a: array<byte>)
    ensures fresh(a) && a[..] == s
  {
    a := new byte[|s|](i requires 0 <= i < |s| => s[i]);
  }

  /** One `Convert` of `input` into the first `cap` chars of `dest`, whose result the
      model has already worked out as `expected`. */
  method ConvertStep(decoder: Decoder, input: seq<byte>, dest: array<CodeUnit>, cap: nat, flush: bool,
                     ghost expected: Result<Conversion, DecoderError>)
    returns (r: Result<Converted, DecoderError>)
    requires decoder.Valid() && decoder.fallbackBuffer.Remaining() == 0 && cap <= dest.Length
    requires ConvertSpec(DeciderOf(decoder.encoding, decoder.fallback, flush), decoder.pending, input, cap) == expected
    modifies decoder, dest
    ensures decoder.Valid() && decoder.fallbackBuffer.Remaining() == 0
    ensures expected.Err? ==> r == Err(expected.error) && decoder.pending == old(decoder.pending)
    ensures expected.Ok? ==>
      r == Ok(expected.value.used) && decoder.pending == expected.value.pending &&
      |expected.value.chars| <= dest.Length && dest[..|expected.value.chars|] == expected.value.chars
  {
    var bytes := ArrayOf(input);
    assert bytes[..|input|] == input;
    r := decoder.Convert(bytes, |input|, dest, cap, flush);
  }

  /** One `GetChars` of `input` into the first `cap` chars of `dest`, whose result the
      model has already worked out as `expected`. */
  method GetCharsStep(decoder: Decoder, input: seq<byte>, dest: array<CodeUnit>, cap: nat, flush: bool,
                      ghost expected: Result<Written, DecoderError>)
    returns (r: Result<nat, DecoderError>)
    requires decoder.Valid() && cap <= dest.Length
    requires GetCharsSpec(DeciderOf(decoder.encoding, decoder.fallback, flush), decoder.pending, input, cap) == expected
    modifies decoder, dest
    ensures decoder.Valid()
    ensures expected.Err? ==> r == Err(expected.error) && decoder.pending == old(decoder.pending)
    ensures expected.Ok? ==>
      r == Ok(|expected.value.chars|) && decoder.pending == expected.value.pending &&
      |expected.value.chars| <= dest.Length && dest[..|expected.value.chars|] == expected.value.chars
  {
    var bytes := ArrayOf(input);
    assert bytes[..|input|] == input;
    r := decoder.GetChars(bytes, |input|, dest, cap, flush);
  }

  /** One `Convert` of the split tests: the single byte `b` into `dest`, whose result
      the model has already worked out as `expected`. */
  method ConvertByte(decoder: Decoder, b: byte, dest: array<CodeUnit>, flush: bool, ghost expected: Conversion)
    returns (r: Result<Converted, DecoderError>)
    requires decoder.Valid() && decoder.fallbackBuffer.Remaining() == 0
    requires ConvertSpec(DeciderOf(decoder.encoding, decoder.fallback, flush), decoder.pending, [b], dest.Length) == Ok(expected)
    modifies decoder, dest
    ensures decoder.Valid() && decoder.fallbackBuffer.Remaining() == 0 && decoder.pending == expected.pending
    ensures r == Ok(expected.used) && |expected.chars| <= dest.Length && dest[..|expected.chars|] == expected.chars
  {
    var bytes := new byte[1] [b];
    assert bytes[..] == [b];
    r := decoder.ConvertSpans(bytes, dest, flush);
  }

  /** One `GetCharCount` and then one `GetChars` of the single byte `b` into `dest`,
      whose results the model has already worked out. */
  method CountAndGetByte(decoder: Decoder, b: byte, dest: array<CodeUnit>, flush: bool, ghost expected: Written)
    returns (count: Result<nat, DecoderError>, r: Result<nat, DecoderError>)
    requires decoder.Valid()
    requires Decode(decoder.encoding, decoder.fallback, decoder.pending, [b], flush) == Done(expected.chars, expected.pending)
    requires GetCharsSpec(DeciderOf(decoder.encoding, decoder.fallback, flush), decoder.pending, [b], dest.Length) == Ok(expected)
    modifies decoder, dest
    ensures decoder.Valid() && decoder.pending == expected.pending
    ensures count == Ok(|expected.chars|) && r == Ok(|expected.chars|)
    ensures |expected.chars| <= dest.Length && dest[..|expected.chars|] == expected.chars
  {
    var bytes := new byte[1] [b];
    assert bytes[..] == [b];
    count := decoder.GetCharCountSpans(bytes, flush);
    r := decoder.GetCharsSpans(bytes, dest, flush);
  }

  /** `Decoder.Convert` on C2 | X | Y | Z, one single-byte array at a time, into a
      100-char buffer, as `Encoding.UTF8.GetDecoder()` does it. */
  method ConvertOneByteAtATime() returns (reports: seq<Result<Converted, DecoderError>>, written: seq<seq<CodeUnit>>)
    ensures reports == [Ok(Converted(1, 0, true)), Ok(Converted(1, 2, true)), Ok(Converted(1, 1, true)), Ok(Converted(1, 1, true))]
    ensures written == [[], [0xFFFD, 0x58], [0x59], [0x5A]]
  {
    var decoder := new Decoder(Utf8, ReplacementFallback(ReplacementCharacter));
    var dest := new CodeUnit[100];
    SplitFirstCall(100);
    var r1 := ConvertByte(decoder, 0xC2, dest, false, Conversion(Converted(1, 0, true), [], [0xC2]));
    SplitSecondCall(100);
    var r2 := ConvertByte(decoder, 0x58, dest, false, Conversion(Converted(1, 2, true), [0xFFFD, 0x58], []));
    var w2 := dest[..2];
    SplitThirdCall(100);
    var r3 := ConvertByte(decoder, 0x59, dest, false, Conversion(Converted(1, 1, true), [0x59], []));
    var w3 := dest[..1];
    SplitFourthCall(100);
    var r4 := ConvertByte(decoder, 0x5A, dest, true, Conversion(Converted(1, 1, true), [0x5A], []));
    var w4 := dest[..1];
    reports := [r1, r2, r3, r4];
    written := [[], w2, w3, w4];
  }

  /** `GetCharCount` and `GetChars` on C2 | X | Y | Z, one single-byte array at a time. */
  method GetCharsOneByteAtATime()
    returns (counts: seq<Result<nat, DecoderError>>, results: seq<Result<nat, DecoderError>>, written: seq<seq<CodeUnit>>)
    ensures counts == [Ok(0), Ok(2), Ok(1), Ok(1)] && results == counts
    ensures written == [[], [0xFFFD, 0x58], [0x59], [0x5A]]
  {
    var decoder := new Decoder(Utf8, ReplacementFallback(ReplacementCharacter));
    var dest := new CodeUnit[100];
    SplitFirstCall(100);
    var c1, r1 := CountAndGetByte(decoder, 0xC2, dest, false, Written([], [0xC2]));
    SplitSecondCall(100);
    var c2, r2 := CountAndGetByte(decoder, 0x58, dest, false, Written([0xFFFD, 0x58], []));
    var w2 := dest[..2];
    SplitThirdCall(100);
    var c3, r3 := CountAndGetByte(decoder, 0x59, dest, false, Written([0x59], []));
    var w3 := dest[..1];
    SplitFourthCall(100);
    var c4, r4 := CountAndGetByte(decoder, 0x5A, dest, true, Written([0x5A], []));
    var w4 := dest[..1];
    counts, results := [c1, c2, c3, c4], [r1, r2, r3, r4];
    written := [[], w2, w3, w4];
  }

  /** `Convert` of "\uD800\uDC00\u0200" with room for two chars writes the surrogate
      pair and stops; the bytes it did not use, converted into room for one char,
      give U+0200 and complete the call. */
  method ConvertInTwoSteps()
    returns (first: Result<Converted, DecoderError>, pair: seq<CodeUnit>, second: Result<Converted, DecoderError>, last: CodeUnit)
    ensures first == Ok(Converted(4, 2, false)) && pair == [0xD800, 0xDC00]
    ensures second == Ok(Converted(2, 1, true)) && last == 0x200
  {
    var decoder := new Decoder(Utf8, ReplacementFallback(ReplacementCharacter));
    var chars := new CodeUnit[200];
    ConvertWithTooLittleRoom();
    first := ConvertStep(decoder, [0xF0, 0x90, 0x80, 0x80, 0xC8, 0x80], chars, 2, true,
                         Ok(Conversion(Converted(4, 2, false), [0xD800, 0xDC00], [])));
    pair := chars[..2];
    second := ConvertStep(decoder, [0xC8, 0x80], chars, 1, true, Ok(Conversion(Converted(2, 1, true), [0x200], [])));
    last := chars[0];
    assert last == chars[..1][0];
  }

  /** `Convert` of well-formed text with room for all of it, on a decoder carrying
      nothing: it consumes every byte, writes the text's UTF-16 form and completes. */
  method ConvertText(decoder: Decoder, cs: seq<int>, chars: array<CodeUnit>, flush: bool) returns (r: Result<Converted, DecoderError>)
    requires decoder.Valid() && decoder.pending == [] && decoder.fallbackBuffer.Remaining() == 0
    requires forall i :: 0 <= i < |cs| ==> IsScalarValue(cs[i]) && (decoder.encoding == Ascii ==> cs[i] < 0x80)
    requires |Flatten(Utf16Forms(cs))| <= chars.Length
    modifies decoder, chars
    ensures decoder.Valid() && decoder.pending == []
    ensures var bytes, units := Flatten(Utf8Forms(cs)), Flatten(Utf16Forms(cs));
      r == Ok(Converted(|bytes|, |units|, true)) && chars[..|units|] == units
  {
    var bytes := ArrayOf(Flatten(Utf8Forms(cs)));
    assert bytes[..bytes.Length] == Flatten(Utf8Forms(cs));
    ConvertEncodedForm(decoder.encoding, decoder.fallback, flush, cs, chars.Length);
    r := decoder.Convert(bytes, bytes.Length, chars, chars.Length, flush);
  }

  /** `GetChars` and `GetCharCount` of well-formed text with room for all of it agree:
      both give the length of its UTF-16 form, which `GetChars` writes. */
  method GetCharsText(decoder: Decoder, cs: seq<int>, chars: array<CodeUnit>, flush: bool)
    returns (r: Result<nat, DecoderError>, count: Result<nat, DecoderError>)
    requires decoder.Valid() && decoder.pending == []
    requires forall i :: 0 <= i < |cs| ==> IsScalarValue(cs[i]) && (decoder.encoding == Ascii ==> cs[i] < 0x80)
    requires |Flatten(Utf16Forms(cs))| <= chars.Length
    modifies decoder, chars
    ensures decoder.Valid() && decoder.pending == []
    ensures var units := Flatten(Utf16Forms(cs));
      r == Ok(|units|) && count == Ok(|units|) && chars[..|units|] == units
  {
    var bytes := ArrayOf(Flatten(Utf8Forms(cs)));
    assert bytes[..bytes.Length] == Flatten(Utf8Forms(cs));
    GetCharsEncodedForm(decoder.encoding, decoder.fallback, flush, cs, chars.Length);
    DecodesEncodedForm(decoder.encoding, decoder.fallback, flush, cs);
    r := decoder.GetChars(bytes, bytes.Length, chars, chars.Length, flush);
    count := decoder.GetCharCount(bytes, bytes.Length, flush);
  }

  /** The argument errors of `Convert`, in the order it checks them. */
  method ConvertArgumentErrors() returns (errors: seq<Result<Converted, DecoderError>>)
    ensures errors == [Err(ArgumentNull("chars")), Err(ArgumentNull("bytes")), Err(ArgumentOutOfRange("byteCount")),
                       Err(ArgumentOutOfRange("charCount"))]
  {
    var decoder := new Decoder(Utf8, ReplacementFallback(ReplacementCharacter));
    var bytes := ArrayOf(MalformedSurrogateText);
    var chars := new CodeUnit[1];
    var e1 := decoder.Convert(bytes, 7, null, 1, true);
    var e2 := decoder.Convert(null, 7, chars, 1, true);
    var e3 := decoder.Convert(bytes, -1, chars, 1, true);
    var e4 := decoder.Convert(bytes, 7, chars, -1, true);
    errors := [e1, e2, e3, e4];
  }

  /** `Convert` with no room for the first char, and a fault of US-ASCII with the
      exception fallback. */
  method ConvertRefusals() returns (noRoom: Result<Converted, DecoderError>, fault: Result<Converted, DecoderError>)
    ensures noRoom == Err(Argument("chars")) && fault == Err(DecoderFallbackException(Fault(0, [0xFF])))
  {
    var decoder := new Decoder(Utf8, ReplacementFallback(ReplacementCharacter));
    var chars := new CodeUnit[1];
    ConvertWithNoRoom();
    noRoom := ConvertStep(decoder, MalformedSurrogateText, chars, 0, true, Err(Argument("chars")));
    var ascii := new Decoder(Ascii, ExceptionFallback);
    var two := new CodeUnit[2];
    AsciiRaisesOnFF(true, 2);
    fault := ConvertStep(ascii, [0xFF, 0xFF], two, 2, true, Err(DecoderFallbackException(Fault(0, [0xFF]))));
  }

  /** The argument errors of `GetChars`, in the order it checks them. */
  method GetCharsArgumentErrors() returns (errors: seq<Result<nat, DecoderError>>)
    ensures errors == [Err(ArgumentNull("chars")), Err(ArgumentNull("bytes")),
                       Err(ArgumentOutOfRange("byteCount")), Err(ArgumentOutOfRange("charCount"))]
  {
    var decoder := new Decoder(Utf8, ReplacementFallback(ReplacementCharacter));
    var bytes := ArrayOf(MalformedSurrogateText);
    var chars := new CodeUnit[1];
    var e1 := decoder.GetChars(bytes, 7, null, 1, true);
    var e2 := decoder.GetChars(null, 7, chars, 1, true);
    var e3 := decoder.GetChars(bytes, -1, chars, 1, true);
    var e4 := decoder.GetChars(bytes, 7, chars, -1, true);
    errors := [e1, e2, e3, e4];
  }

  /** The argument errors of `GetCharCount`. */
  method GetCharCountArgumentErrors() returns (errors: seq<Result<nat, DecoderError>>)
    ensures errors == [Err(ArgumentNull("bytes")), Err(ArgumentOutOfRange("count"))]
  {
    var decoder := new Decoder(Utf8, ReplacementFallback(ReplacementCharacter));
    var bytes := ArrayOf(MalformedSurrogateText);
    var e1 := decoder.GetCharCount(null, 7, true);
    var e2 := decoder.GetCharCount(bytes, -1, true);
    errors := [e1, e2];
  }

  /** `GetChars` with too little room for what the input decodes to. */
  method GetCharsTooLittleRoom() returns (r: Result<nat, DecoderError>)
    ensures r == Err(Argument("chars"))
  {
    var decoder := new Decoder(Utf8, ReplacementFallback(ReplacementCharacter));
    var chars := new CodeUnit[1];
    GetCharsWithTooLittleRoom();
    r := GetCharsStep(decoder, MalformedSurrogateText, chars, 1, true, Err(Argument("chars")));
  }

  /** A fault of US-ASCII with the exception fallback, which `GetChars` and
      `GetCharCount` raise alike. */
  method GetCharsFault() returns (fault: Result<nat, DecoderError>, countFault: Result<nat, DecoderError>)
    ensures fault == Err(DecoderFallbackException(Fault(0, [0xFF]))) && countFault == fault
  {
    var ascii := new Decoder(Ascii, ExceptionFallback);
    var two := new CodeUnit[2];
    AsciiRaisesOnFF(true, 2);
    fault := GetCharsStep(ascii, [0xFF, 0xFF], two, 2, true, Err(DecoderFallbackException(Fault(0, [0xFF]))));
    var ff := ArrayOf([0xFF, 0xFF]);
    assert ff[..2] == [0xFF, 0xFF];
    countFault := ascii.GetCharCount(ff, 2, true);
  }

  /** The fallback buffer of US-ASCII with the exception fallback, after a `GetChars`
      that raised: it raises on every fallback, holds nothing, returns U+0000 and
      cannot move back, before and after `Reset`. */
  method ExceptionFallbackBuffer()
    returns (thrown: Result<nat, DecoderError>, kind: FallbackPolicy,
             f1: Result<bool, DecoderError>, f2: Result<bool, DecoderError>,
             remaining: nat, next: CodeUnit, moved: bool, remainingAfterReset: nat, nextAfterReset: CodeUnit)
    ensures thrown == Err(DecoderFallbackException(Fault(0, [0xFF]))) && kind == ExceptionFallback
    ensures f1 == Err(DecoderFallbackException(Fault(0, [0xFF, 0xFF])))
    ensures f2 == Err(DecoderFallbackException(Fault(0, [0x40, 0x60])))
    ensures remaining == 0 && next == 0 && !moved && remainingAfterReset == 0 && nextAfterReset == 0
  {
    var decoder := new Decoder(Ascii, ExceptionFallback);
    // `GetChars(bytes, 0, 2, chars, 2)` writes from index 2 of a two-char array: no room.
    var past := new CodeUnit[0];
    AsciiRaisesOnFF(false, 0);
    thrown := GetCharsStep(decoder, [0xFF, 0xFF], past, 0, false, Err(DecoderFallbackException(Fault(0, [0xFF]))));
    var buffer := decoder.fallbackBuffer;
    kind := buffer.policy;
    f1 := buffer.Fallback([0xFF, 0xFF], 0);
    f2 := buffer.Fallback([0x40, 0x60], 0);
    remaining := buffer.Remaining();
    next := buffer.GetNextChar();
    moved := buffer.MovePrevious();
    buffer.Reset();
    remainingAfterReset := buffer.Remaining();
    nextAfterReset := buffer.GetNextChar();
  }

  /** The fallback buffer of US-ASCII with a default `DecoderReplacementFallback`:
      one fallback loads "?", which can be read, stepped back over and read again;
      `Reset` empties it. */
  method ReplacementFallbackBuffer()
    returns (kind: FallbackPolicy, loaded: Result<bool, DecoderError>, remaining: nat,
             movedAtStart: bool, c1: CodeUnit, movedBack: bool, c2: CodeUnit,
             remainingAfterReset: nat, nextAfterReset: CodeUnit, movedAfterReset: bool)
    ensures kind == ReplacementFallback(QuestionMark) && loaded == Ok(true) && remaining == 1
    ensures !movedAtStart && c1 == '?' as CodeUnit && movedBack && c2 == '?' as CodeUnit
    ensures remainingAfterReset == 0 && nextAfterReset == 0 && !movedAfterReset
  {
    var decoder := new Decoder(Ascii, ReplacementFallback(QuestionMark));
    var buffer := decoder.fallbackBuffer;
    kind := buffer.policy;
    loaded := buffer.Fallback([0xFF, 0xFF], 0);
    remaining := buffer.Remaining();
    movedAtStart := buffer.MovePrevious();
    c1 := buffer.GetNextChar();
    movedBack := buffer.MovePrevious();
    c2 := buffer.GetNextChar();
    buffer.Reset();
    remainingAfterReset := buffer.Remaining();
    nextAfterReset := buffer.GetNextChar();
    movedAfterReset := buffer.MovePrevious();
  }
}
