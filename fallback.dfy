/**
 * Decoder fallbacks: what happens to bytes that do not decode.
 *
 * A replacement fallback substitutes a fixed string for each invalid run (U+FFFD for
 * `Encoding.UTF8`, "?" for a default `DecoderReplacementFallback`); an exception
 * fallback raises `DecoderFallbackException`, which carries the index of the run and
 * the run itself. The fallback buffer is the small rewindable cursor over the
 * substitution string that `Decoder.FallbackBuffer` exposes.
 */
module Fallbacks {
  import opened Wrappers
  import opened Unicode

  datatype FallbackPolicy =
    | ReplacementFallback(replacement: seq<CodeUnit>)
    | ExceptionFallback

  /** The payload of a `DecoderFallbackException`: where the invalid run starts,
      relative to the current call's input, and the bytes of the run. */
  datatype Fault = Fault(index: int, bytesUnknown: seq<byte>)

  /** The exceptions the decoder and its fallback buffer raise. */
  datatype DecoderError =
    | ArgumentNull(paramName: string)
    | ArgumentOutOfRange(paramName: string)
    | Argument(paramName: string)
    | DecoderFallbackException(fault: Fault)

  /** The replacement string in UTF-16 code units. */
  const QuestionMark: seq<CodeUnit> := ['?' as CodeUnit]
  const ReplacementCharacter: seq<CodeUnit> := [0xFFFD]

  /**
   * One fallback buffer type, parameterized by the policy that fills it. For a
   * replacement policy the cursor is kept as two counters: `fallbackCount` counts
   * down the characters not yet returned (it goes below zero once the string is
   * exhausted) and `fallbackIndex` is the position of the last character returned.
   * For an exception policy both stay at -1: it never holds anything.
   */
  class FallbackBuffer {
    const policy: FallbackPolicy
    var fallbackCount: int
    var fallbackIndex: int

    ghost predicate Valid()
      reads this
    {
      fallbackIndex >= -1 &&
      (fallbackCount + fallbackIndex == -2 ||
       (policy.ReplacementFallback? && |policy.replacement| >= 1 &&
        fallbackCount + fallbackIndex == |policy.replacement| - 1)) &&
      (policy.ExceptionFallback? ==> fallbackCount == -1 && fallbackIndex == -1)
    }

    /** The substitution characters not yet returned by `GetNextChar`. */
    ghost function Unread(): seq<CodeUnit>
      reads this
      requires Valid()
    {
      if fallbackCount >= 0 && policy.ReplacementFallback? then policy.replacement[fallbackIndex + 1..] else []
    }

    /** How many consecutive `MovePrevious` calls can succeed from here. */
    ghost function Rewinds(): nat
      reads this
      requires Valid()
    {
      if fallbackCount >= -1 then fallbackIndex + 1 else 0
    }

    constructor (policy: FallbackPolicy)
      ensures this.policy == policy
      ensures Valid() && Unread() == [] && Rewinds() == 0
      ensures fallbackCount == -1 && fallbackIndex == -1
    {
      this.policy := policy;
      fallbackCount, fallbackIndex := -1, -1;
    }

    /** The number of substitution characters still to be returned. */
    function Remaining(): (n: nat)
      reads this
      requires Valid()
      ensures n == |Unread()|
    {
      if fallbackCount < 0 then 0 else fallbackCount
    }

    /** Prepare the substitution for the invalid run `bytesUnknown` found at `index`.
        The exception policy always throws; the replacement policy refuses a second
        fallback while characters of the first are still unread, returns false for
        an empty replacement and otherwise loads the whole replacement string. */
    method Fallback(bytesUnknown: seq<byte>, index: int) returns (r: Result<bool, DecoderError>)
      requires Valid()
      modifies this
      ensures Valid()
      ensures policy.ExceptionFallback? ==>
        r == Err(DecoderFallbackException(Fault(index, bytesUnknown)))
      ensures policy.ReplacementFallback? && old(fallbackCount) >= 1 ==>
        r == Err(Argument("bytesUnknown"))
      ensures policy.ReplacementFallback? && old(fallbackCount) < 1 ==>
        r == Ok(policy.replacement != [])
      ensures r == Ok(true) ==>
        fallbackCount == |policy.replacement| && fallbackIndex == -1 &&
        Unread() == policy.replacement && Rewinds() == 0
      ensures r != Ok(true) ==>
        fallbackCount == old(fallbackCount) && fallbackIndex == old(fallbackIndex)
    {
      match policy
      case ExceptionFallback =>
        r := Err(DecoderFallbackException(Fault(index, bytesUnknown)));
      case ReplacementFallback(s) =>
        if fallbackCount >= 1 {
          r := Err(Argument("bytesUnknown"));
        } else if |s| == 0 {
          r := Ok(false);
        } else {
          fallbackCount, fallbackIndex := |s|, -1;
          r := Ok(true);
        }
    }

    /** Return the next substitution character, or U+0000 once there is none. */
    method GetNextChar() returns (c: CodeUnit)
      requires Valid()
      modifies this
      ensures Valid()
      ensures old(Unread()) != [] ==> c == old(Unread())[0] && Unread() == old(Unread())[1..]
      ensures old(Unread()) == [] ==> c == 0 && Unread() == []
      ensures old(fallbackCount) >= 0 ==> Rewinds() == old(Rewinds()) + 1
      ensures old(fallbackCount) < 0 ==> Rewinds() == 0
      ensures policy.ReplacementFallback? ==>
        fallbackCount == old(fallbackCount) - 1 && fallbackIndex == old(fallbackIndex) + 1
      ensures policy.ExceptionFallback? ==>
        fallbackCount == old(fallbackCount) && fallbackIndex == old(fallbackIndex)
    {
      match policy
      case ExceptionFallback =>
        c := 0;
      case ReplacementFallback(s) =>
        fallbackCount, fallbackIndex := fallbackCount - 1, fallbackIndex + 1;
        if fallbackCount < 0 {
          c := 0;
        } else {
          c := s[fallbackIndex];
        }
    }

    /** Step the cursor back over the last character returned; false when the buffer
        is at its start or was reset. */
    method MovePrevious() returns (moved: bool)
      requires Valid()
      modifies this
      ensures Valid()
      ensures moved <==> old(Rewinds()) > 0
      ensures moved ==>
        Rewinds() == old(Rewinds()) - 1 &&
        fallbackCount == old(fallbackCount) + 1 && fallbackIndex == old(fallbackIndex) - 1
      ensures moved && old(fallbackCount) >= 0 ==>
        Unread() == [policy.replacement[fallbackIndex + 1]] + old(Unread())
      ensures !moved ==> fallbackCount == old(fallbackCount) && fallbackIndex == old(fallbackIndex)
    {
      if fallbackCount >= -1 && fallbackIndex >= 0 {
        fallbackCount, fallbackIndex := fallbackCount + 1, fallbackIndex - 1;
        moved := true;
      } else {
        moved := false;
      }
    }

    /** Discard the substitution: nothing is left to return and nothing to rewind. */
    method Reset()
      requires Valid()
      modifies this
      ensures Valid() && Unread() == [] && Rewinds() == 0
      ensures fallbackCount == -1 && fallbackIndex == -1
    {
      fallbackCount, fallbackIndex := -1, -1;
    }
  }
}
