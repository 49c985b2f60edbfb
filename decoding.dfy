/**
 * The decision a UTF-8 or US-ASCII decoder takes at its read position, and what the
 * decoding loop then does with it.
 *
 * A complete character becomes its UTF-16 code units. An invalid run, the maximal
 * subpart the classifier reports, goes to the fallback: the replacement string
 * once per run, or a fault. An incomplete sequence at the end of the bytes waits
 * for the next call, unless the call flushes, in which case it is an invalid run
 * too.
 */
module Decoding {
  import opened Unicode
  import opened Classifier
  import opened Fallbacks
  import opened DecodeLoop

  /** What the fallback makes of the invalid run `run`, which spans `len` bytes. */
  function Substitute(fb: FallbackPolicy, run: seq<byte>, len: nat): Action {
    match fb
    case ReplacementFallback(s) => Emit(s, len)
    case ExceptionFallback => Reject(run)
  }

  /** The decision for the remaining bytes `u`. */
  function Decide(enc: Encoding, fb: FallbackPolicy, flush: bool, u: seq<byte>): (a: Action)
    ensures a.Emit? ==> 1 <= a.len <= |u|
  {
    if |u| == 0 then Stash
    else
      match Classify(enc, u)
      case Complete(n, c) => Emit(ToUtf16(c), n)
      case Invalid(n) => Substitute(fb, u[..n], n)
      case Incomplete => if flush then Substitute(fb, u, |u|) else Stash
  }

  function DeciderOf(enc: Encoding, fb: FallbackPolicy, flush: bool): Decider {
    u => Decide(enc, fb, flush, u)
  }

  /** One call of a decoder with unbounded output. */
  function Decode(enc: Encoding, fb: FallbackPolicy, pending: seq<byte>, input: seq<byte>, flush: bool): Outcome {
    Call(DeciderOf(enc, fb, flush), pending, input)
  }

  /** The bytes a decoder may carry between calls: nothing, or the start of a
      character that is still incomplete. */
  predicate IsPending(enc: Encoding, p: seq<byte>) {
    |p| == 0 || Classify(enc, p).Incomplete?
  }

  /** The meaning of a decision, stated against the classifier. */
  lemma DecisionMeaning(enc: Encoding, fb: FallbackPolicy, flush: bool, u: seq<byte>)
    ensures var a := DeciderOf(enc, fb, flush)(u);
      (a.Stash? <==> |u| == 0 || (!flush && Classify(enc, u).Incomplete?)) &&
      (a.Reject? ==> fb.ExceptionFallback?) &&
      (a.Emit? && |u| > 0 && Classify(enc, u).Complete? ==>
         a.len == Classify(enc, u).len && u[..a.len] == Utf8Encode(Classify(enc, u).scalar) &&
         a.units == ToUtf16(Classify(enc, u).scalar)) &&
      (!a.Stash? && !(|u| > 0 && Classify(enc, u).Complete?) ==>
         Substitute(fb, u[..InvalidLength(enc, u)], InvalidLength(enc, u)) == a)
  {
    if |u| > 0 && Classify(enc, u).Complete? {
      CompleteIsEncoding(enc, u);
    }
  }

  /** The length of the invalid run at the start of `u`: the maximal subpart, or the
      whole of an incomplete sequence that is flushed. */
  function InvalidLength(enc: Encoding, u: seq<byte>): (n: nat)
    ensures n <= |u|
  {
    if |u| > 0 && Classify(enc, u).Invalid? then Classify(enc, u).len else |u|
  }

  /** A decision taken without flushing is final: more bytes, and a flush, do not
      change it. */
  lemma DecisionsAreFinal(enc: Encoding, fb: FallbackPolicy, flush: bool)
    ensures Final(DeciderOf(enc, fb, false), DeciderOf(enc, fb, flush))
  {
    var d1, d2 := DeciderOf(enc, fb, false), DeciderOf(enc, fb, flush);
    forall u: seq<byte>, v: seq<byte> | !d1(u).Stash?
      ensures d2(u + v) == d1(u)
    {
      assert (u + v)[..|u|] == u;
      ClassifyExtension(enc, u, u + v);
      if Classify(enc, u).Invalid? {
        assert (u + v)[..Classify(enc, u).len] == u[..Classify(enc, u).len];
      }
    }
  }

  /** The bytes a decision waits on are bytes a decoder may carry. */
  lemma WaitingIsPending(enc: Encoding, fb: FallbackPolicy, flush: bool, u: seq<byte>)
    requires u == [] || DeciderOf(enc, fb, flush)(u).Stash?
    ensures IsPending(enc, u)
  {
  }

  /** Bytes carried over are never split: the first decision of the next call takes
      all of them as part of one character or one invalid run, or waits. */
  lemma PendingIsConsumedWhole(enc: Encoding, fb: FallbackPolicy, flush: bool, p: seq<byte>, input: seq<byte>)
    requires IsPending(enc, p)
    ensures var a := DeciderOf(enc, fb, flush)(p + input);
      a.Emit? ==> a.len >= |p|
  {
    var t := p + input;
    if |p| > 0 {
      assert t[..|p|] == p;
      PendingIsNotSplit(enc, p, t);
    }
  }

  /** After a call, the decoder carries only the start of an incomplete character, the
      final bytes of what it was given; and a flushing call carries nothing. */
  lemma PendingLeft(enc: Encoding, fb: FallbackPolicy, pending: seq<byte>, input: seq<byte>, flush: bool)
    requires Decode(enc, fb, pending, input, flush).Done?
    ensures var left := Decode(enc, fb, pending, input, flush).pending;
      IsPending(enc, left) && |left| <= |pending + input| &&
      left == (pending + input)[|pending + input| - |left|..] &&
      (flush ==> left == [])
  {
    var d := DeciderOf(enc, fb, flush);
    var t := pending + input;
    RunShape(d, t, 0, |pending|);
  }

  /** A rejection comes only from the exception fallback, and it rejects the first
      bytes of `u`: the maximal subpart, or, on a flush, an incomplete sequence that
      runs to the end. */
  lemma RejectionMeaning(enc: Encoding, fb: FallbackPolicy, flush: bool, u: seq<byte>)
    requires DeciderOf(enc, fb, flush)(u).Reject?
    ensures var b := DeciderOf(enc, fb, flush)(u).bytes;
      fb.ExceptionFallback? && 1 <= |b| <= |u| && b == u[..|b|] &&
      (Classify(enc, u).Invalid? ==> |b| == Classify(enc, u).len) &&
      (!Classify(enc, u).Invalid? ==> flush && Classify(enc, u).Incomplete? && |b| == |u|)
  {
  }

  lemma TakeOfDrop(t: seq<byte>, j: nat, n: nat)
    requires j + n <= |t|
    ensures t[j..][..n] == t[j..j + n]
  {
  }

  /** A fault is raised only by the exception fallback. It reports an invalid run
      exactly as it stands in the stream, at its index relative to the call's input,
      and it is the run the decision at that position rejects (which
      `RejectionMeaning` describes). */
  lemma FaultLocated(enc: Encoding, fb: FallbackPolicy, pending: seq<byte>, input: seq<byte>, flush: bool)
    requires Decode(enc, fb, pending, input, flush).Raised?
    ensures var f := Decode(enc, fb, pending, input, flush).fault;
      var t := pending + input;
      var j := f.index + |pending|;
      fb.ExceptionFallback? &&
      -|pending| <= f.index < |input| &&
      1 <= |f.bytesUnknown| <= |t| - j &&
      f.bytesUnknown == t[j..j + |f.bytesUnknown|] &&
      DeciderOf(enc, fb, flush)(t[j..]) == Reject(f.bytesUnknown)
  {
    var d := DeciderOf(enc, fb, flush);
    var t := pending + input;
    var f := Decode(enc, fb, pending, input, flush).fault;
    CallFault(d, pending, input);
    var j := f.index + |pending|;
    RejectionMeaning(enc, fb, flush, t[j..]);
    TakeOfDrop(t, j, |f.bytesUnknown|);
  }

  /** A fault whose index is negative lies in carried-over bytes, and then it reports
      all of them: the index is minus the number of bytes carried in. */
  lemma NegativeIndexIsCarriedBytes(enc: Encoding, fb: FallbackPolicy, pending: seq<byte>, input: seq<byte>, flush: bool)
    requires IsPending(enc, pending)
    requires Decode(enc, fb, pending, input, flush).Raised?
    ensures var f := Decode(enc, fb, pending, input, flush).fault;
      f.index < 0 ==> f.index == -|pending| && |f.bytesUnknown| >= |pending|
  {
    var d := DeciderOf(enc, fb, flush);
    var t := pending + input;
    PendingIsConsumedWhole(enc, fb, flush, pending, input);
    FaultLocated(enc, fb, pending, input, flush);
    assert t[0..] == t;
    var a := d(t);
    if a.Emit? {
      FaultIsARejection(d, t, a.len, |pending|);
    } else if |pending| > 0 {
      assert t[..|pending|] == pending;
      PendingIsNotSplit(enc, pending, t);
    }
  }

  /** Under a replacement fallback a decode never raises. */
  lemma ReplacementNeverRaises(enc: Encoding, s: seq<CodeUnit>, pending: seq<byte>, input: seq<byte>, flush: bool)
    ensures Decode(enc, ReplacementFallback(s), pending, input, flush).Done?
  {
    var d := DeciderOf(enc, ReplacementFallback(s), flush);
    NoRejectNoFault(d, pending + input, 0, |pending|);
  }

  /** Feeding a decoder one chunk without flushing and then another is feeding it both
      at once; a fault of the second call is reported relative to its own input. */
  lemma ChunksDecodeAsOne(enc: Encoding, fb: FallbackPolicy, pending: seq<byte>, b1: seq<byte>, b2: seq<byte>, flush: bool)
    requires Decode(enc, fb, pending, b1, false).Done?
    ensures var o1 := Decode(enc, fb, pending, b1, false);
      Decode(enc, fb, pending, b1 + b2, flush) == Continue(o1.chars, Decode(enc, fb, o1.pending, b2, flush), |b1|)
  {
    DecisionsAreFinal(enc, fb, flush);
    TwoCalls(DeciderOf(enc, fb, false), DeciderOf(enc, fb, flush), pending, b1, b2);
  }

  /** A fault raised without flushing is raised at the same index, with the same
      bytes, whatever follows in the same call. */
  lemma FaultIgnoresLaterInput(enc: Encoding, fb: FallbackPolicy, pending: seq<byte>, b1: seq<byte>, b2: seq<byte>, flush: bool)
    requires Decode(enc, fb, pending, b1, false).Raised?
    ensures Decode(enc, fb, pending, b1 + b2, flush) == Decode(enc, fb, pending, b1, false)
  {
    DecisionsAreFinal(enc, fb, flush);
    FaultStaysWithMoreInput(DeciderOf(enc, fb, false), DeciderOf(enc, fb, flush), pending, b1, b2);
  }

  /** The UTF-8 form of each of a sequence of scalar values, per section 3 of RFC 3629
      (for values below 0x80 this is also their US-ASCII form). */
  function Utf8Forms(cs: seq<int>): seq<seq<byte>>
    requires forall i :: 0 <= i < |cs| ==> IsScalarValue(cs[i])
  {
    seq(|cs|, i requires 0 <= i < |cs| => Utf8Encode(cs[i]))
  }

  /** The UTF-16 form of each of a sequence of scalar values, per section 2.1 of
      RFC 2781. */
  function Utf16Forms(cs: seq<int>): seq<seq<CodeUnit>>
    requires forall i :: 0 <= i < |cs| ==> IsScalarValue(cs[i])
  {
    seq(|cs|, i requires 0 <= i < |cs| => ToUtf16(cs[i]))
  }

  /** The decoder's decisions take every encoded character whole. */
  lemma DecidesScalars(enc: Encoding, fb: FallbackPolicy, flush: bool, c: int, rest: seq<byte>)
    requires IsScalarValue(c) && (enc == Ascii ==> c < 0x80)
    ensures DeciderOf(enc, fb, flush)(Utf8Encode(c) + rest) == Emit(ToUtf16(c), |Utf8Encode(c)|)
  {
    if enc == Utf8 {
      EncodingClassifies(c, rest);
    }
  }

  /** A call given well-formed input with nothing pending returns its UTF-16 form and
      carries nothing, whatever the fallback: UTF-8 round-trips every scalar value,
      and US-ASCII every byte below 0x80. */
  lemma DecodesEncodedForm(enc: Encoding, fb: FallbackPolicy, flush: bool, cs: seq<int>)
    requires forall i :: 0 <= i < |cs| ==> IsScalarValue(cs[i]) && (enc == Ascii ==> cs[i] < 0x80)
    ensures Decode(enc, fb, [], Flatten(Utf8Forms(cs)), flush) == Done(Flatten(Utf16Forms(cs)), [])
  {
    var d := DeciderOf(enc, fb, flush);
    var es, us := Utf8Forms(cs), Utf16Forms(cs);
    forall i, rest | 0 <= i < |es| ensures d(es[i] + rest) == Emit(us[i], |es[i]|) {
      DecidesScalars(enc, fb, flush, cs[i], rest);
    }
    RunPieces(d, es, us, 0);
    CallWithNothingPending(d, Flatten(es));
  }

  /** Counting the code units of a call agrees with the call: the same number, or the
      same fault at the same index. */
  lemma CountMatchesDecode(enc: Encoding, fb: FallbackPolicy, pending: seq<byte>, input: seq<byte>, flush: bool)
    ensures var d := DeciderOf(enc, fb, flush);
      var o := Decode(enc, fb, pending, input, flush);
      var c := CharCount(d, pending + input, 0, |pending|);
      (o.Done? <==> c.Counted?) &&
      (o.Done? ==> c.n == |o.chars|) &&
      (o.Raised? ==> c.fault == o.fault)
  {
    CountAgrees(DeciderOf(enc, fb, flush), pending + input, 0, |pending|);
  }

  /** A bounded decode over carried-over bytes either gets past all of them or is
      blocked before writing anything. */
  lemma BoundedCoversPending(enc: Encoding, fb: FallbackPolicy, flush: bool, pending: seq<byte>, input: seq<byte>, cap: nat)
    requires IsPending(enc, pending)
    requires RunBounded(DeciderOf(enc, fb, flush), pending + input, 0, |pending|, cap).Progress?
    ensures var p := RunBounded(DeciderOf(enc, fb, flush), pending + input, 0, |pending|, cap);
      |pending| <= p.next || (p.next == 0 && p.chars == [] && p.blocked)
  {
    var t := pending + input;
    assert t[0..] == t;
    PendingIsConsumedWhole(enc, fb, flush, pending, input);
    BoundedStartsPast(DeciderOf(enc, fb, flush), t, |pending|, cap, |pending|);
  }
}
