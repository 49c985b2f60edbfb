# Streaming decoder model

This project models the stateful byte-to-char `System.Text.Decoder` of .NET. Its behaviour is taken from the decoder tests in
`src/libraries/System.Text.Encoding/tests/Decoder/Decoder.cs`. The model covers decoders for UTF-8 and for US-ASCII. Each has one of two decoder fallbacks:

- a replacement fallback, which substitutes a fixed string such as U+FFFD or `?`;
- an exception fallback, which raises `DecoderFallbackException`.

A decoder carries the bytes of an incomplete multi-byte sequence from one call to the next. So a stream split into arbitrary chunks decodes exactly as the whole stream would.

The decoder's own implementation is not part of this model. Its behaviour is reconstructed from the observable contract the tests pin down.

Modules and files:

- `unicode.dfy` (`Unicode`): scalar values, the UTF-16 form of a scalar value (one code unit or a surrogate pair), and the reference UTF-8 encoder `Utf8Encode`.
- `classifier.dfy` (`Classifier`): what the bytes at the read position are. It distinguishes
  - a complete well-formed sequence with its scalar value;
  - an incomplete prefix of a well-formed sequence, which waits for more bytes;
  - an invalid run, which is the maximal subpart of an ill-formed sequence.
- `fallback.dfy` (`Fallbacks`): the fallback policies, the error kinds, and the class `FallbackBuffer`. The buffer has the .NET cursor (`fallbackCount`, `fallbackIndex`) and the methods `Fallback`, `GetNextChar`, `MovePrevious`, `Remaining` and `Reset`.
- `loop.dfy` (`DecodeLoop`): the decoding loop, independent of the encoding. It works over the carried bytes followed by the call's bytes.
  - `Run` decodes without an output bound.
  - `RunBounded` stops before the first character or substitution that would not fit.
  - `CharCount` only counts.
  - `Call` is one call described in terms of the bytes it carries.
  - A fault's index is relative to the call's own bytes, so it is negative when the invalid run began in carried bytes.
- `decoding.dfy` (`Decoding`): the decision for UTF-8 and US-ASCII with a fallback policy and a flush flag, and the properties of a whole decode.
- `decoder.dfy` (`Decoders`): the reference results of `Convert` (`ConvertSpec`) and `GetChars` (`GetCharsSpec`), and the method `DecodeInto`, which fills a caller's `char[]` in place. It also holds the class `Decoder`, whose `pending` field survives across calls. Its methods are
  - `Convert` and `GetChars`, for pointer plus count;
  - `ConvertSpans` and `GetCharsSpans`, for whole buffers;
  - `GetCharCount` and `GetCharCountSpans`.

  When a call has several bad arguments, the order in which they are checked is the model's choice; every refused call in the tests has exactly one bad argument.
- `scenarios.dfy` (`Scenarios`): the test cases of `Decoder.cs`, each replayed on the model with the exact results the tests assert.

`wrappers.dfy` holds the `Result` datatype.

## Model

| member | source | states |
|---|---|---|
| Unicode.Utf16RoundTrip | src/libraries/System.Text.Encoding/tests/Decoder/Decoder.cs:17 | a scalar value below U+10000 becomes one code unit and one above becomes a surrogate pair; reading the units back gives the same scalar value |
| Unicode.Utf16Onto | src/libraries/System.Text.Encoding/tests/Decoder/Decoder.cs:17 | every single non-surrogate unit or well-formed surrogate pair is the UTF-16 form of exactly one scalar value |
| Classifier.ClassifyUtf8 | src/libraries/System.Text.Encoding/tests/Decoder/Decoder.cs:37-63 | a complete UTF-8 sequence is 1 to 4 bytes long and yields a scalar value; an invalid run is 1 to 3 bytes; only 1 to 3 bytes can be incomplete |
| Classifier.ClassifyAscii | src/libraries/System.Text.Encoding/tests/Decoder/Decoder.cs:106-114 | a US-ASCII byte decodes iff it is below 0x80, to itself; every other byte is an invalid run of one byte |
| Classifier.Classify | src/libraries/System.Text.Encoding/tests/Decoder/Decoder.cs:37-63 | the same bounds for either encoding; only UTF-8 ever waits for more bytes |
| Classifier.CompleteIsEncoding | src/libraries/System.Text.Encoding/tests/Decoder/Decoder.cs:37-63 | the bytes of a complete sequence are exactly the UTF-8 form of the scalar value decoded from them |
| Classifier.EncodingClassifies | src/libraries/System.Text.Encoding/tests/Decoder/Decoder.cs:37-63 | the UTF-8 form of any scalar value, followed by anything, is read back as that scalar value over exactly its own length |
| Classifier.EncodeInjective | src/libraries/System.Text.Encoding/tests/Decoder/Decoder.cs:37-63 | two scalar values with the same UTF-8 form are equal |
| Classifier.WellFormedDecodes | src/libraries/System.Text.Encoding/tests/Decoder/Decoder.cs:65-70 | a lead byte followed by the right number of matching continuation bytes decodes to a scalar value whose UTF-8 form is exactly those bytes |
| Classifier.ClassifyExtension | src/libraries/System.Text.Encoding/tests/Decoder/Decoder.cs:283-313 | once a prefix is complete or invalid, more bytes after it do not change how it is read |
| Classifier.PendingIsNotSplit | src/libraries/System.Text.Encoding/tests/Decoder/Decoder.cs:292-301 | a sequence or invalid run that starts in incomplete carried bytes covers all of them |
| Classifier.IncompleteIsProperPrefix | src/libraries/System.Text.Encoding/tests/Decoder/Decoder.cs:292-295 | bytes that wait for more input are a proper prefix of the UTF-8 form of some scalar value |
| Classifier.ProperPrefixIsIncomplete | src/libraries/System.Text.Encoding/tests/Decoder/Decoder.cs:292-295 | conversely, every non-empty proper prefix of the UTF-8 form of a scalar value waits for more input |
| Classifier.Utf8InvalidIsMaximalSubpart | src/libraries/System.Text.Encoding/tests/Decoder/Decoder.cs:297-301 | an invalid run is the maximal subpart: a lone byte when the first byte starts no encoding, and otherwise the longest proper prefix of an encoding, which the next byte cannot extend |
| Fallbacks.FallbackBuffer.constructor | src/libraries/System.Text.Encoding/tests/Decoder/Decoder.cs:265-266 | a new buffer has the decoder's policy, holds nothing and cannot move back |
| Fallbacks.FallbackBuffer.Remaining | src/libraries/System.Text.Encoding/tests/Decoder/Decoder.cs:268-275 | the number of substitution characters not yet read |
| Fallbacks.FallbackBuffer.Fallback | src/libraries/System.Text.Encoding/tests/Decoder/Decoder.cs:212-213 | the exception policy always raises `DecoderFallbackException` with the given bytes and index; the replacement policy loads its whole string and reports whether it is non-empty, refuses a second fallback while characters are still unread, and changes nothing when it fails |
| Fallbacks.FallbackBuffer.GetNextChar | src/libraries/System.Text.Encoding/tests/Decoder/Decoder.cs:270-276 | returns the next unread substitution character and advances past it, or `'\0'` when none is left |
| Fallbacks.FallbackBuffer.MovePrevious | src/libraries/System.Text.Encoding/tests/Decoder/Decoder.cs:269-277 | succeeds iff a character of the current substitution has been read; a successful move makes that character unread again |
| Fallbacks.FallbackBuffer.Reset | src/libraries/System.Text.Encoding/tests/Decoder/Decoder.cs:274-277 | afterwards nothing is left to read and nothing can be moved back |
| DecodeLoop.CountAgrees | src/libraries/System.Text.Encoding/tests/Decoder/Decoder.cs:250-254 | counting gives the number of code units the decode produces, or the very fault that stops it |
| DecodeLoop.NoRejectNoFault | src/libraries/System.Text.Encoding/tests/Decoder/Decoder.cs:283-313 | a loop whose decisions never reject never stops with a fault |
| DecodeLoop.FaultIsARejection | src/libraries/System.Text.Encoding/tests/Decoder/Decoder.cs:243-245 | a fault reports the position and the bytes of a rejected run inside the stream |
| DecodeLoop.BoundedWithRoom | src/libraries/System.Text.Encoding/tests/Decoder/Decoder.cs:37-63 | with room for the whole result, the bounded decode equals the unbounded one and is not blocked |
| DecodeLoop.BlockedIffTooSmall | src/libraries/System.Text.Encoding/tests/Decoder/Decoder.cs:65-70 | a bounded decode of a faultless stream is blocked iff the full result does not fit |
| DecodeLoop.BlockedThenRest | src/libraries/System.Text.Encoding/tests/Decoder/Decoder.cs:65-77 | a call blocked by the output bound, resumed without carried bytes on the rest of its input, produces what the unbounded call would |
| DecodeLoop.TwoCalls | src/libraries/System.Text.Encoding/tests/Decoder/Decoder.cs:292-313 | a call on b1 followed by a call on b2 with the bytes left pending gives exactly what one call on b1 + b2 gives, with fault indices moved by the length of b1 |
| DecodeLoop.FaultStaysWithMoreInput | src/libraries/System.Text.Encoding/tests/Decoder/Decoder.cs:243-245 | a fault raised on b1 is raised unchanged when b1 is followed by further input |
| DecodeLoop.CallFault | src/libraries/System.Text.Encoding/tests/Decoder/Decoder.cs:243-245 | a fault index lies between minus the number of carried bytes and the end of the input, and the decision there rejects the reported bytes |
| Decoding.DecisionMeaning | src/libraries/System.Text.Encoding/tests/Decoder/Decoder.cs:292-301 | without flush, the decoder waits iff the remaining bytes are an incomplete prefix; a complete sequence emits the UTF-16 form of its scalar value; anything else is substituted by the fallback over the invalid run; only the exception fallback rejects |
| Decoding.DecisionsAreFinal | src/libraries/System.Text.Encoding/tests/Decoder/Decoder.cs:292-313 | every decision taken without flush is also taken with or without flush once more bytes follow |
| Decoding.PendingIsConsumedWhole | src/libraries/System.Text.Encoding/tests/Decoder/Decoder.cs:297-301 | the first character emitted after carried bytes consumes all of them |
| Decoding.PendingLeft | src/libraries/System.Text.Encoding/tests/Decoder/Decoder.cs:292-313 | what a decode leaves pending is a tail of the stream that is empty or incomplete, and it is empty after a flush |
| Decoding.RejectionMeaning | src/libraries/System.Text.Encoding/tests/Decoder/Decoder.cs:227-233 | a rejection happens only with the exception fallback and reports the invalid run, or the whole incomplete tail when flushing |
| Decoding.FaultLocated | src/libraries/System.Text.Encoding/tests/Decoder/Decoder.cs:226-255 | a fault's index is the position of its bytes relative to the call's input, at least minus the carried length; the reported bytes are the rejected run found there |
| Decoding.NegativeIndexIsCarriedBytes | src/libraries/System.Text.Encoding/tests/Decoder/Decoder.cs:227-232 | a negative fault index is minus the number of carried bytes, and the reported bytes include all of them |
| Decoding.ReplacementNeverRaises | src/libraries/System.Text.Encoding/tests/Decoder/Decoder.cs:283-313 | a decoder with a replacement fallback never raises a fallback fault |
| Decoding.ChunksDecodeAsOne | src/libraries/System.Text.Encoding/tests/Decoder/Decoder.cs:283-351 | decoding b1 and then b2, carrying the pending bytes, equals decoding b1 + b2 at once |
| Decoding.FaultIgnoresLaterInput | src/libraries/System.Text.Encoding/tests/Decoder/Decoder.cs:243-245 | once b1 raises, appending more input and flushing raises the same fault |
| Decoding.DecidesScalars | src/libraries/System.Text.Encoding/tests/Decoder/Decoder.cs:37-63 | the UTF-8 form of a scalar value (below 0x80 for US-ASCII) is emitted as its UTF-16 form |
| Decoding.DecodesEncodedForm | src/libraries/System.Text.Encoding/tests/Decoder/Decoder.cs:37-63 | decoding the UTF-8 form of any text gives back its UTF-16 form, with nothing pending |
| Decoding.CountMatchesDecode | src/libraries/System.Text.Encoding/tests/Decoder/Decoder.cs:138-160 | the char count succeeds iff the decode does, with the same number of code units; when it fails, it fails with the same fault |
| Decoding.BoundedCoversPending | src/libraries/System.Text.Encoding/tests/Decoder/Decoder.cs:103 | a bounded decode either gets past all the carried bytes or stops before its first character, having written nothing |
| Decoders.ConvertLeavesWaiting | src/libraries/System.Text.Encoding/tests/Decoder/Decoder.cs:292-295 | whatever `Convert` leaves pending is bytes the decoder would wait on |
| Decoders.ConvertOf | src/libraries/System.Text.Encoding/tests/Decoder/Decoder.cs:37-63 | the outcome of `Convert` read off one bounded run: its fault, the refusal when nothing fits, or its report, characters and kept bytes |
| Decoders.GetCharsOf | src/libraries/System.Text.Encoding/tests/Decoder/Decoder.cs:138-196 | the outcome of `GetChars` read off one bounded run: its fault, the refusal when the input does not fit, or its characters and kept bytes |
| Decoders.ConvertKeepsPendingAt | src/libraries/System.Text.Encoding/tests/Decoder/Decoder.cs:292-295 | the bytes a bounded run keeps are empty or an incomplete sequence |
| Decoders.ConvertKeepsPending | src/libraries/System.Text.Encoding/tests/Decoder/Decoder.cs:292-295 | after `Convert` the carried bytes are empty or an incomplete sequence |
| Decoders.ConvertReport | src/libraries/System.Text.Encoding/tests/Decoder/Decoder.cs:37-77 | bytesUsed is between 0 and the input length, charsUsed is the number of units written and at most charCount, and completed holds iff all input was used |
| Decoders.ConvertCompleted | src/libraries/System.Text.Encoding/tests/Decoder/Decoder.cs:37-63 | a completed `Convert` produced exactly the unbounded decode's characters and left its pending bytes |
| Decoders.ConvertResumes | src/libraries/System.Text.Encoding/tests/Decoder/Decoder.cs:65-77 | an incomplete `Convert` leaves nothing pending, and calling again on the unused bytes yields the rest of the unbounded decode |
| Decoders.ConvertWithRoom | src/libraries/System.Text.Encoding/tests/Decoder/Decoder.cs:37-63 | a successful decode that fits in charCount is reported as all bytes used, all characters written, completed |
| Decoders.ConvertFault | src/libraries/System.Text.Encoding/tests/Decoder/Decoder.cs:114 | `Convert` raises a fallback fault only when the unbounded decode raises that fault |
| Decoders.GetCharsMatchesDecode | src/libraries/System.Text.Encoding/tests/Decoder/Decoder.cs:138-160 | `GetChars` succeeds iff the decode succeeds and fits, with the same characters and pending bytes; otherwise it raises `ArgumentException("chars")` or the decode's fault |
| Decoders.GetCharsKeepsPending | src/libraries/System.Text.Encoding/tests/Decoder/Decoder.cs:328-329 | after `GetChars` the carried bytes are empty or an incomplete sequence |
| Decoders.ConvertEncodedForm | src/libraries/System.Text.Encoding/tests/Decoder/Decoder.cs:37-63 | `Convert` of the UTF-8 form of any text, given room, uses every byte, writes its UTF-16 form and completes |
| Decoders.GetCharsEncodedForm | src/libraries/System.Text.Encoding/tests/Decoder/Decoder.cs:138-160 | `GetChars` of the UTF-8 form of any text, given room, writes its UTF-16 form and leaves nothing pending |
| Decoders.WriteUnits | src/libraries/System.Text.Encoding/tests/Decoder/Decoder.cs:287 | writes the units at the write position of the caller's array and leaves every later element unchanged |
| Decoders.DecodeInto | src/libraries/System.Text.Encoding/tests/Decoder/Decoder.cs:287-301 | the loop that fills the caller's array computes the bounded decode, the array then begins with its characters, and nothing beyond the bound is touched |
| Decoders.Decoder.constructor | src/libraries/System.Text.Encoding/tests/Decoder/Decoder.cs:286 | a new decoder has the given encoding and fallback, carries nothing, and its fallback buffer is empty |
| Decoders.Decoder.Convert | src/libraries/System.Text.Encoding/tests/Decoder/Decoder.cs:37-114 | null chars, then null bytes, then a negative byteCount, then a negative charCount are refused as ArgumentNull or ArgumentOutOfRange; otherwise the report, the written characters and the new pending bytes are those of `ConvertSpec`, except that completed also needs the fallback buffer to hold nothing unread; an error leaves the pending bytes as they were; nothing past charCount is written |
| Decoders.Decoder.ConvertInto | src/libraries/System.Text.Encoding/tests/Decoder/Decoder.cs:65-77 | one decode run over the pending bytes and the input, writing into the array: its report, characters and new pending bytes are those of `ConvertSpec`, and the pending bytes stay valid |
| Decoders.Decoder.GetChars | src/libraries/System.Text.Encoding/tests/Decoder/Decoder.cs:138-196 | the same argument checks with bytes checked first; otherwise the result, the characters and the pending bytes are those of `GetCharsSpec`; an error leaves the pending bytes as they were |
| Decoders.Decoder.ConvertSpans | src/libraries/System.Text.Encoding/tests/Decoder/Decoder.cs:292-313 | `Convert` over whole buffers, with the whole output array as room |
| Decoders.Decoder.GetCharsSpans | src/libraries/System.Text.Encoding/tests/Decoder/Decoder.cs:328-350 | `GetChars` over whole buffers, with the whole output array as room |
| Decoders.Decoder.GetCharCount | src/libraries/System.Text.Encoding/tests/Decoder/Decoder.cs:141-160 | refuses null bytes, then a negative count; otherwise it gives the number of characters the decode would produce, or raises its fault, without changing the decoder |
| Decoders.Decoder.GetCharCountSpans | src/libraries/System.Text.Encoding/tests/Decoder/Decoder.cs:325-346 | the count for a whole buffer, without changing the decoder |
| Scenarios.ClassifiesU10000 | src/libraries/System.Text.Encoding/tests/Decoder/Decoder.cs:17 | F0 90 80 80 is read as U+10000 whatever follows |
| Scenarios.DecidesPairThenU0200 | src/libraries/System.Text.Encoding/tests/Decoder/Decoder.cs:65-77 | the bytes of s2 decode as the pair D800 DC00 from four bytes, then U+0200 from two |
| Scenarios.ConvertWithTooLittleRoom | src/libraries/System.Text.Encoding/tests/Decoder/Decoder.cs:65-77 | with room for 2 chars, s2 converts as 4 bytes used, 2 chars, not completed; the rest, with room for 1, as 2 bytes, 1 char, completed |
| Scenarios.StopsBeforeU0200 | src/libraries/System.Text.Encoding/tests/Decoder/Decoder.cs:65-70 | the first of the two conversions above |
| Scenarios.ConvertsU0200 | src/libraries/System.Text.Encoding/tests/Decoder/Decoder.cs:72-77 | the second of the two conversions above |
| Scenarios.ConvertInTwoSteps | src/libraries/System.Text.Encoding/tests/Decoder/Decoder.cs:65-77 | one decoder instance reports (4, 2, false) and writes D800 DC00, then reports (2, 1, true) and writes U+0200 |
| Scenarios.DecidesU0D80ThenDigit | src/libraries/System.Text.Encoding/tests/Decoder/Decoder.cs:89 | the UTF-8 form of U+0D80, "0", U+FFFD (the encoder's substitute for the lone U+DC00) decodes first as U+0D80 from three bytes, then as '0' |
| Scenarios.ConvertWithNoRoom | src/libraries/System.Text.Encoding/tests/Decoder/Decoder.cs:103 | `Convert` with no room raises `ArgumentException("chars")` |
| Scenarios.GetCharsWithTooLittleRoom | src/libraries/System.Text.Encoding/tests/Decoder/Decoder.cs:184 | `GetChars` with room for one char, on text that needs three, raises `ArgumentException("chars")` |
| Scenarios.AsciiRaisesOnFF | src/libraries/System.Text.Encoding/tests/Decoder/Decoder.cs:106-114 | US-ASCII with the exception fallback rejects FF FF with a fault at index 0 for the single byte FF, in `Convert`, `GetChars` and counting |
| Scenarios.ConvertArgumentErrors | src/libraries/System.Text.Encoding/tests/Decoder/Decoder.cs:97-101 | the four refused argument lists give ArgumentNull chars, ArgumentNull bytes, ArgumentOutOfRange byteCount and ArgumentOutOfRange charCount |
| Scenarios.ConvertRefusals | src/libraries/System.Text.Encoding/tests/Decoder/Decoder.cs:103-114 | the decoder object refuses no room with `ArgumentException("chars")` and FF FF in US-ASCII with a fallback fault |
| Scenarios.GetCharsArgumentErrors | src/libraries/System.Text.Encoding/tests/Decoder/Decoder.cs:176-181 | `GetChars` gives ArgumentNull chars, ArgumentNull bytes, ArgumentOutOfRange byteCount and ArgumentOutOfRange charCount |
| Scenarios.GetCharCountArgumentErrors | src/libraries/System.Text.Encoding/tests/Decoder/Decoder.cs:178-182 | `GetCharCount` gives ArgumentNull bytes and ArgumentOutOfRange count |
| Scenarios.GetCharsTooLittleRoom | src/libraries/System.Text.Encoding/tests/Decoder/Decoder.cs:184 | the decoder object raises `ArgumentException("chars")` |
| Scenarios.GetCharsFault | src/libraries/System.Text.Encoding/tests/Decoder/Decoder.cs:195-196 | `GetChars` and `GetCharCount` of FF FF in US-ASCII both raise the same fault |
| Scenarios.ConvertText | src/libraries/System.Text.Encoding/tests/Decoder/Decoder.cs:37-63 | the decoder object converts the UTF-8 form of any text completely into its UTF-16 form, leaving nothing pending |
| Scenarios.GetCharsText | src/libraries/System.Text.Encoding/tests/Decoder/Decoder.cs:138-160 | the decoder object writes the UTF-16 form of any text, and the count agrees with the number written |
| Scenarios.CarriedThenRejected | src/libraries/System.Text.Encoding/tests/Decoder/Decoder.cs:240-254 | incomplete first bytes are kept with nothing written; the flushing second call raises at minus their length, in `GetChars` and in counting |
| Scenarios.IndexAfterF1ThenF1 | src/libraries/System.Text.Encoding/tests/Decoder/Decoder.cs:227 | F1 then F1: index -1 |
| Scenarios.IndexAfterF1Then80 | src/libraries/System.Text.Encoding/tests/Decoder/Decoder.cs:228 | F1 then 80: index -1 |
| Scenarios.IndexAfterF180ThenNothing | src/libraries/System.Text.Encoding/tests/Decoder/Decoder.cs:229 | F1 80 then nothing: index -2 |
| Scenarios.IndexAfterF180Then60 | src/libraries/System.Text.Encoding/tests/Decoder/Decoder.cs:230 | F1 80 then 60: index -2 |
| Scenarios.IndexAfterF180Then80 | src/libraries/System.Text.Encoding/tests/Decoder/Decoder.cs:231 | F1 80 then 80: index -2 |
| Scenarios.IndexAfterF18080Then60 | src/libraries/System.Text.Encoding/tests/Decoder/Decoder.cs:232 | F1 80 80 then 60: index -3 |
| Scenarios.DecidesU40000Then81 | src/libraries/System.Text.Encoding/tests/Decoder/Decoder.cs:233 | F1 80 80 80 is U+40000 as a surrogate pair, and a lone 81 is rejected |
| Scenarios.IndexAfterF18080Then8081 | src/libraries/System.Text.Encoding/tests/Decoder/Decoder.cs:233 | F1 80 80 then 80 81: the carried bytes complete a character and 81 faults at index 1 |
| Scenarios.DecidesSplitInput | src/libraries/System.Text.Encoding/tests/Decoder/Decoder.cs:283-284 | C2 waits, C2 X becomes U+FFFD for C2 alone, and X, Y, Z decode as themselves |
| Scenarios.ConvertSplitAcrossInvalidSequence | src/libraries/System.Text.Encoding/tests/Decoder/Decoder.cs:292-313 | the four conversions report (1, 0, true), (1, 2, true), (1, 1, true) and (1, 1, true) with U+FFFD X, Y and Z |
| Scenarios.SplitFirstCall | src/libraries/System.Text.Encoding/tests/Decoder/Decoder.cs:292-295 | C2 alone is used, keeping C2 pending and writing nothing |
| Scenarios.SplitSecondCall | src/libraries/System.Text.Encoding/tests/Decoder/Decoder.cs:297-301 | X after carried C2 writes U+FFFD X and leaves nothing pending |
| Scenarios.SplitThirdCall | src/libraries/System.Text.Encoding/tests/Decoder/Decoder.cs:303-307 | Y writes Y |
| Scenarios.SplitFourthCall | src/libraries/System.Text.Encoding/tests/Decoder/Decoder.cs:309-313 | Z with flush writes Z |
| Scenarios.GetCharsSplitAcrossInvalidSequence | src/libraries/System.Text.Encoding/tests/Decoder/Decoder.cs:325-350 | the four counts and writes produce nothing, U+FFFD X, Y and Z |
| Scenarios.ConvertOneByteAtATime | src/libraries/System.Text.Encoding/tests/Decoder/Decoder.cs:281-314 | one decoder object fed C2, X, Y, Z reports and writes what the test asserts |
| Scenarios.GetCharsOneByteAtATime | src/libraries/System.Text.Encoding/tests/Decoder/Decoder.cs:316-351 | one decoder object counts 0, 2, 1, 1 and writes the same numbers of chars, with the asserted contents |
| Scenarios.ExceptionFallbackBuffer | src/libraries/System.Text.Encoding/tests/Decoder/Decoder.cs:201-224 | the exception buffer raises for any bytes, holds nothing, returns '\0', cannot move back, and is the same after `Reset` |
| Scenarios.ReplacementFallbackBuffer | src/libraries/System.Text.Encoding/tests/Decoder/Decoder.cs:258-278 | the "?" buffer loads one char, cannot move back before reading it, returns '?' twice around one successful move back, and after `Reset` is empty and cannot move back |

## Left out

- Pointers and `fixed`: a pointer plus count becomes an array plus count. The test's pointer to the middle of `bytes3` (lines 58-63 and 156-160) becomes a separate array holding that sub-range, which `Scenarios.ConvertText` and `Scenarios.GetCharsText` cover for any text.
- `Decoders.Decoder.Convert` and `Decoders.Decoder.GetChars` require that the counts do not exceed the arrays. A pointer call with a count larger than its buffer is undefined behaviour, and the tests in `Decoder.cs` never make one.
- The encoder side (`Encoding.GetBytes`): the UTF-8 form of text is the reference function `Utf8Encode`, and the US-ASCII inputs are written out as bytes.
- Encodings other than UTF-8 and US-ASCII, custom fallbacks, and the byte-order mark.
- Thread safety: the decoder is modelled as single-threaded.
- The 32-bit range of counts and indices: counts and indices are unbounded integers.
- What `Convert` or `GetChars` leaves in the output array before an error: the model states the array's contents only on success, plus that nothing is written past charCount.
- In the model, decoding does not pass substitutions through `Decoder.fallbackBuffer`, and it does not drain characters a caller left unread there (.NET does both). The buffer object is modelled on its own, with the behaviour the tests assert. Only the completed flag of `Decoders.Decoder.Convert` takes it into account.
- Decoders.ConvertCompleted: the completed flag of `ConvertSpec` leaves out the condition that the fallback buffer holds nothing unread. `Decoders.Decoder.Convert` and `Decoders.Decoder.ConvertSpans` add it.
- `BytesUnknown` of a fault is not asserted by the tests. The model reports the maximal invalid subpart, or the whole incomplete tail when flushing.
- The `GetChars(bytes, 0, 2, chars, 2)` call at line 208 starts writing at the end of `chars`. It is modelled as a call with no room.
- `Decoder.Reset`: the tests in `Decoder.cs` never call it on a decoder.
- `Decoders.ConvertResumes`: requires bytesUsed >= 0 because it holds for any decision function. `Decoders.ConvertReport` proves that precondition for the UTF-8 and US-ASCII decoders.
