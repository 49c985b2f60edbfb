/**
 * The stateful decoder object: `System.Text.Decoder` as `Encoding.GetDecoder()`
 * returns it for UTF-8 and US-ASCII.
 *
 * Between calls it carries the first bytes of a character that has not been
 * completed yet. `Convert` and `GetChars` write into a caller-owned array; a
 * pointer with a count is modelled as an array with a count, the array being `null`
 * where the pointer is. `GetCharCount` is a dry run and changes nothing.
 */
module Decoders {
  import opened Wrappers
  import opened Unicode
  import opened Classifier
  import opened Fallbacks
  import opened DecodeLoop
  import opened Decoding

  /** What `Convert` reports: bytes consumed from the input, chars written, and
      whether all the input was consumed. */
  datatype Converted = Converted(bytesUsed: int, charsUsed: int, completed: bool)

  /** What `Convert` produces once its arguments are checked: its report, the chars
      it writes and the bytes the decoder then carries. */
  datatype Conversion = Conversion(used: Converted, chars: seq<CodeUnit>, pending: seq<byte>)

  /** `Convert` with decider `d`, carrying `pending` in, given `input` and room for
      `cap` chars. It decodes as much as fits; a fault stops it, and so does having no
      room for even the first character. */
  function ConvertSpec(d: Decider, pending: seq<byte>, input: seq<byte>, cap: nat): Result<Conversion, DecoderError> {
    var t := pending + input;
    match RunBounded(d, t, 0, |pending|, cap)
    case Stopped(f) => Err(DecoderFallbackException(f))
    case Progress(c, next, kept, blocked) =>
      if blocked && c == [] then Err(Argument("chars"))
      else
        BoundedShape(d, t, 0, |pending|, cap);
        Ok(Conversion(Converted(next - |pending|, |c|, !blocked), c, t[kept..next]))
  }

  /** What `GetChars` produces once its arguments are checked: the chars it writes and
      the bytes the decoder then carries. */
  datatype Written = Written(chars: seq<CodeUnit>, pending: seq<byte>)

  /** `GetChars` with decider `d`: the same bounded decode as `Convert`, but output
      that does not all fit is an error. */
  function GetCharsSpec(d: Decider, pending: seq<byte>, input: seq<byte>, cap: nat): Result<Written, DecoderError> {
    var t := pending + input;
    match RunBounded(d, t, 0, |pending|, cap)
    case Stopped(f) => Err(DecoderFallbackException(f))
    case Progress(c, next, kept, blocked) =>
      if blocked then Err(Argument("chars"))
      else
        BoundedShape(d, t, 0, |pending|, cap);
        Ok(Written(c, t[kept..]))
  }

  /** `Convert` leaves carried only bytes its decider keeps waiting on. */
  lemma ConvertLeavesWaiting(d: Decider, pending: seq<byte>, input: seq<byte>, cap: nat)
    requires ConvertSpec(d, pending, input, cap).Ok?
    ensures var left := ConvertSpec(d, pending, input, cap).value.pending;
      left == [] || d(left).Stash?
  {
    var t := pending + input;
    var p := RunBounded(d, t, 0, |pending|, cap);
    BoundedShape(d, t, 0, |pending|, cap);
    if !p.blocked {
      BoundedComplete(d, t, 0, |pending|, cap);
      RunShape(d, t, 0, |pending|);
      assert t[p.kept..p.next] == t[p.kept..];
    }
  }

  /** The bytes `Convert` leaves carried are bytes a decoder may carry. */
  lemma ConvertKeepsPending(enc: Encoding, fb: FallbackPolicy, flush: bool, pending: seq<byte>, input: seq<byte>, cap: nat)
    requires ConvertSpec(DeciderOf(enc, fb, flush), pending, input, cap).Ok?
    ensures IsPending(enc, ConvertSpec(DeciderOf(enc, fb, flush), pending, input, cap).value.pending)
  {
    var left := ConvertSpec(DeciderOf(enc, fb, flush), pending, input, cap).value.pending;
    ConvertLeavesWaiting(DeciderOf(enc, fb, flush), pending, input, cap);
    WaitingIsPending(enc, fb, flush, left);
  }

  /** What `Convert` reports: it consumes some of its input and writes at most `cap`
      chars, and it has completed exactly when it consumed all of its input. */
  lemma ConvertReport(enc: Encoding, fb: FallbackPolicy, flush: bool, pending: seq<byte>, input: seq<byte>, cap: nat)
    requires IsPending(enc, pending)
    requires ConvertSpec(DeciderOf(enc, fb, flush), pending, input, cap).Ok?
    ensures var c := ConvertSpec(DeciderOf(enc, fb, flush), pending, input, cap).value;
      0 <= c.used.bytesUsed <= |input| && c.used.charsUsed == |c.chars| <= cap &&
      (c.used.completed <==> c.used.bytesUsed == |input|)
  {
    var d := DeciderOf(enc, fb, flush);
    BoundedShape(d, pending + input, 0, |pending|, cap);
    BoundedCoversPending(enc, fb, flush, pending, input, cap);
  }

  /** A completed `Convert` is the whole call: the chars and the carried bytes of
      decoding with unbounded output. */
  lemma ConvertCompleted(d: Decider, pending: seq<byte>, input: seq<byte>, cap: nat)
    requires ConvertSpec(d, pending, input, cap).Ok? && ConvertSpec(d, pending, input, cap).value.used.completed
    ensures var c := ConvertSpec(d, pending, input, cap).value;
      Call(d, pending, input) == Done(c.chars, c.pending)
  {
    var t := pending + input;
    var p := RunBounded(d, t, 0, |pending|, cap);
    BoundedShape(d, t, 0, |pending|, cap);
    BoundedComplete(d, t, 0, |pending|, cap);
    RunShape(d, t, 0, |pending|);
    assert t[p.kept..p.next] == t[p.kept..];
  }

  /** A `Convert` stopped by the room left carries nothing; calling again on the bytes
      it did not consume decodes the rest of the input, as if the input had been
      decoded at once. (That it consumed no fewer than zero bytes is part of
      `ConvertReport`.) */
  lemma ConvertResumes(d: Decider, pending: seq<byte>, input: seq<byte>, cap: nat)
    requires ConvertSpec(d, pending, input, cap).Ok?
    requires !ConvertSpec(d, pending, input, cap).value.used.completed
    requires ConvertSpec(d, pending, input, cap).value.used.bytesUsed >= 0
    ensures var c := ConvertSpec(d, pending, input, cap).value;
      c.used.bytesUsed < |input| && c.pending == [] &&
      Call(d, pending, input) ==
        Continue(c.chars, Call(d, [], input[c.used.bytesUsed..]), c.used.bytesUsed)
  {
    var t := pending + input;
    var p := RunBounded(d, t, 0, |pending|, cap);
    BoundedShape(d, t, 0, |pending|, cap);
    assert t[p.kept..p.next] == [];
    BlockedThenRest(d, pending, input, cap);
  }

  /** With room for the whole result, `Convert` consumes all of its input and writes
      the chars of the whole call. */
  lemma ConvertWithRoom(d: Decider, pending: seq<byte>, input: seq<byte>, cap: nat)
    requires Call(d, pending, input).Done? && |Call(d, pending, input).chars| <= cap
    ensures var o := Call(d, pending, input);
      ConvertSpec(d, pending, input, cap) == Ok(Conversion(Converted(|input|, |o.chars|, true), o.chars, o.pending))
  {
    var t := pending + input;
    BoundedWithRoom(d, t, 0, |pending|, cap);
    BoundedShape(d, t, 0, |pending|, cap);
    RunShape(d, t, 0, |pending|);
    var p := RunBounded(d, t, 0, |pending|, cap);
    assert t[p.kept..p.next] == t[p.kept..];
  }

  /** The fault `Convert` raises is the fault of the whole call. */
  lemma ConvertFault(d: Decider, pending: seq<byte>, input: seq<byte>, cap: nat)
    requires ConvertSpec(d, pending, input, cap).Err? && ConvertSpec(d, pending, input, cap).error.DecoderFallbackException?
    ensures Call(d, pending, input) == Raised(ConvertSpec(d, pending, input, cap).error.fault)
  {
    BoundedFault(d, pending + input, 0, |pending|, cap);
  }

  /** `ConvertSpec` read off the bounded decode `p` it is made of. */
  lemma ConvertOf(d: Decider, pending: seq<byte>, input: seq<byte>, cap: nat, t: seq<byte>, p: Progress)
    requires t == pending + input && p == RunBounded(d, t, 0, |pending|, cap)
    ensures p.Stopped? ==> ConvertSpec(d, pending, input, cap) == Err(DecoderFallbackException(p.fault))
    ensures p.Progress? && p.blocked && p.chars == [] ==> ConvertSpec(d, pending, input, cap) == Err(Argument("chars"))
    ensures p.Progress? && !(p.blocked && p.chars == []) ==>
      p.kept <= p.next <= |t| &&
      ConvertSpec(d, pending, input, cap) ==
        Ok(Conversion(Converted(p.next - |pending|, |p.chars|, !p.blocked), p.chars, t[p.kept..p.next]))
  {
    if p.Progress? {
      BoundedShape(d, t, 0, |pending|, cap);
    }
  }

  /** What `Convert` carries on, read off the bounded decode `p`, is pending. */
  lemma ConvertKeepsPendingAt(enc: Encoding, fb: FallbackPolicy, flush: bool, pending: seq<byte>, input: seq<byte>,
                              cap: nat, t: seq<byte>, p: Progress)
    requires t == pending + input && p == RunBounded(DeciderOf(enc, fb, flush), t, 0, |pending|, cap)
    requires p.Progress? && !(p.blocked && p.chars == [])
    ensures p.kept <= p.next <= |t| && IsPending(enc, t[p.kept..p.next])
  {
    ConvertOf(DeciderOf(enc, fb, flush), pending, input, cap, t, p);
    ConvertKeepsPending(enc, fb, flush, pending, input, cap);
  }

  /** `GetCharsSpec` read off the bounded decode `p` it is made of. */
  lemma GetCharsOf(d: Decider, pending: seq<byte>, input: seq<byte>, cap: nat, t: seq<byte>, p: Progress)
    requires t == pending + input && p == RunBounded(d, t, 0, |pending|, cap)
    ensures p.Stopped? ==> GetCharsSpec(d, pending, input, cap) == Err(DecoderFallbackException(p.fault))
    ensures p.Progress? && p.blocked ==> GetCharsSpec(d, pending, input, cap) == Err(Argument("chars"))
    ensures p.Progress? && !p.blocked ==>
      p.kept <= |t| && GetCharsSpec(d, pending, input, cap) == Ok(Written(p.chars, t[p.kept..]))
  {
    if p.Progress? {
      BoundedShape(d, t, 0, |pending|, cap);
    }
  }

  /** `GetChars` succeeds exactly when the whole call succeeds and its chars fit, and
      then it writes those chars and carries the same bytes; a fault it raises is
      the fault of the whole call, and its only other error is having too little
      room. */
  lemma GetCharsMatchesDecode(d: Decider, pending: seq<byte>, input: seq<byte>, cap: nat)
    ensures var g := GetCharsSpec(d, pending, input, cap);
      var o := Call(d, pending, input);
      (g.Ok? <==> o.Done? && |o.chars| <= cap) &&
      (g.Ok? ==> g.value == Written(o.chars, o.pending)) &&
      (g.Err? ==> g.error == Argument("chars") || g.error.DecoderFallbackException?) &&
      (g.Err? && g.error.DecoderFallbackException? ==> o == Raised(g.error.fault))
  {
    var t := pending + input;
    var p := RunBounded(d, t, 0, |pending|, cap);
    if p.Stopped? {
      BoundedFault(d, t, 0, |pending|, cap);
    } else if p.blocked {
      BoundedBlocked(d, t, 0, |pending|, cap);
      if Run(d, t, 0, |pending|).Decoded? {
        BlockedIffTooSmall(d, t, 0, |pending|, cap);
      }
    } else {
      BoundedShape(d, t, 0, |pending|, cap);
      BoundedComplete(d, t, 0, |pending|, cap);
      RunShape(d, t, 0, |pending|);
    }
  }

  /** The bytes `GetChars` leaves carried are bytes a decoder may carry. */
  lemma GetCharsKeepsPending(enc: Encoding, fb: FallbackPolicy, flush: bool, pending: seq<byte>, input: seq<byte>, cap: nat)
    requires GetCharsSpec(DeciderOf(enc, fb, flush), pending, input, cap).Ok?
    ensures IsPending(enc, GetCharsSpec(DeciderOf(enc, fb, flush), pending, input, cap).value.pending)
  {
    var left := GetCharsSpec(DeciderOf(enc, fb, flush), pending, input, cap).value.pending;
    GetCharsMatchesDecode(DeciderOf(enc, fb, flush), pending, input, cap);
    PendingLeft(enc, fb, pending, input, flush);
  }

  /** `Convert` with room for the result round-trips well-formed input: it consumes
      all of it, writes its UTF-16 form and carries nothing. */
  lemma ConvertEncodedForm(enc: Encoding, fb: FallbackPolicy, flush: bool, cs: seq<int>, cap: nat)
    requires forall i :: 0 <= i < |cs| ==> IsScalarValue(cs[i]) && (enc == Ascii ==> cs[i] < 0x80)
    requires |Flatten(Utf16Forms(cs))| <= cap
    ensures var bytes, units := Flatten(Utf8Forms(cs)), Flatten(Utf16Forms(cs));
      ConvertSpec(DeciderOf(enc, fb, flush), [], bytes, cap) ==
        Ok(Conversion(Converted(|bytes|, |units|, true), units, []))
  {
    DecodesEncodedForm(enc, fb, flush, cs);
    ConvertWithRoom(DeciderOf(enc, fb, flush), [], Flatten(Utf8Forms(cs)), cap);
  }

  /** `GetChars` with room for the result round-trips well-formed input the same way. */
  lemma GetCharsEncodedForm(enc: Encoding, fb: FallbackPolicy, flush: bool, cs: seq<int>, cap: nat)
    requires forall i :: 0 <= i < |cs| ==> IsScalarValue(cs[i]) && (enc == Ascii ==> cs[i] < 0x80)
    requires |Flatten(Utf16Forms(cs))| <= cap
    ensures GetCharsSpec(DeciderOf(enc, fb, flush), [], Flatten(Utf8Forms(cs)), cap) ==
      Ok(Written(Flatten(Utf16Forms(cs)), []))
  {
    DecodesEncodedForm(enc, fb, flush, cs);
    GetCharsMatchesDecode(DeciderOf(enc, fb, flush), [], Flatten(Utf8Forms(cs)), cap);
  }

  /** Write `units` into `chars` from position `w` on. */
  method WriteUnits(chars: array<CodeUnit>, w: nat, units: seq<CodeUnit>)
    requires w + |units| <= chars.Length
    modifies chars
    ensures chars[..w + |units|] == old(chars[..w]) + units
    ensures forall k :: w + |units| <= k < chars.Length ==> chars[k] == old(chars[k])
  {
    forall j | 0 <= j < |units| {
      chars[w + j] := units[j];
    }
    assert chars[..w + |units|] == old(chars[..w]) + units;
  }

  /** Decode stream `t` into `chars[0..cap)`, one decision at a time, writing the
      units of each decision that fits. */
  method DecodeInto(d: Decider, t: seq<byte>, origin: int, chars: array<CodeUnit>, cap: nat) returns (p: Progress)
    requires cap <= chars.Length
    modifies chars
    ensures p == RunBounded(d, t, 0, origin, cap)
    ensures p.Progress? ==> |p.chars| <= cap && chars[..|p.chars|] == p.chars
    ensures forall k :: cap <= k < chars.Length ==> chars[k] == old(chars[k])
  {
    var i: nat := 0;
    var w: nat := 0;
    ghost var written: seq<CodeUnit> := [];
    WroteStart(d, t, origin, cap);
    while true
      invariant i <= |t| && w == |written| <= cap
      invariant chars[..w] == written
      invariant Wrote(d, t, origin, cap, i, written)
      invariant forall k :: cap <= k < chars.Length ==> chars[k] == old(chars[k])
      decreases |t| - i
    {
      if i == |t| {
        WroteStops(d, t, origin, cap, i, written);
        return Progress(chars[..w], i, i, false);
      }
      var a := d(t[i..]);
      if a.Reject? {
        WroteStops(d, t, origin, cap, i, written);
        return Stopped(Fault(i - origin, a.bytes));
      }
      if a.Stash? {
        WroteStops(d, t, origin, cap, i, written);
        return Progress(chars[..w], |t|, i, false);
      }
      if |a.units| > cap - w {
        WroteStops(d, t, origin, cap, i, written);
        return Progress(chars[..w], i, i, true);
      }
      var u, n := a.units, a.len;
      WrittenStep(d, t, i, origin, cap, written, u, n);
      WriteUnits(chars, w, u);
      i, w, written := i + n, w + |u|, written + u;
    }
  }

  class Decoder {
    const encoding: Encoding
    const fallback: FallbackPolicy
    /** What `Decoder.FallbackBuffer` returns. */
    const fallbackBuffer: FallbackBuffer
    /** The bytes carried over from earlier calls. */
    var pending: seq<byte>

    ghost predicate Valid()
      reads this, fallbackBuffer
    {
      IsPending(encoding, pending) && fallbackBuffer.policy == fallback && fallbackBuffer.Valid()
    }

    /** `Encoding.GetDecoder()`: a decoder with nothing carried over. */
    constructor (encoding: Encoding, fallback: FallbackPolicy)
      ensures Valid() && fresh(fallbackBuffer)
      ensures this.encoding == encoding && this.fallback == fallback && pending == []
      ensures fallbackBuffer.Remaining() == 0
    {
      this.encoding := encoding;
      this.fallback := fallback;
      pending := [];
      fallbackBuffer := new FallbackBuffer(fallback);
    }

    /** Decode `bytes[0..byteCount)` into at most `charCount` chars of `chars`,
        consuming only as many bytes as fit; the result is `(bytesUsed, charsUsed,
        completed)`, where completed also needs `FallbackBuffer` to hold nothing unread. */
    method Convert(bytes: array?<byte>, byteCount: int, chars: array?<CodeUnit>, charCount: int, flush: bool)
      returns (r: Result<Converted, DecoderError>)
      requires Valid()
      requires bytes != null && byteCount >= 0 ==> byteCount <= bytes.Length
      requires chars != null && charCount >= 0 ==> charCount <= chars.Length
      modifies this, chars
      ensures Valid()
      ensures chars == null ==> r == Err(ArgumentNull("chars"))
      ensures chars != null && bytes == null ==> r == Err(ArgumentNull("bytes"))
      ensures chars != null && bytes != null && byteCount < 0 ==> r == Err(ArgumentOutOfRange("byteCount"))
      ensures chars != null && bytes != null && byteCount >= 0 && charCount < 0 ==>
        r == Err(ArgumentOutOfRange("charCount"))
      ensures chars != null && bytes != null && byteCount >= 0 && charCount >= 0 ==>
        var c := ConvertSpec(DeciderOf(encoding, fallback, flush), old(pending), old(bytes[..byteCount]), charCount);
        (c.Err? ==> r == Err(c.error)) &&
        (c.Ok? ==> r == Ok(c.value.used.(completed := c.value.used.completed && fallbackBuffer.Remaining() == 0)) &&
                   |c.value.chars| <= chars.Length &&
                   chars[..|c.value.chars|] == c.value.chars && pending == c.value.pending)
      ensures r.Err? ==> pending == old(pending)
      ensures chars != null && charCount >= 0 ==> forall k :: charCount <= k < chars.Length ==> chars[k] == old(chars[k])
    {
      if chars == null {
        return Err(ArgumentNull("chars"));
      }
      if bytes == null {
        return Err(ArgumentNull("bytes"));
      }
      if byteCount < 0 {
        return Err(ArgumentOutOfRange("byteCount"));
      }
      if charCount < 0 {
        return Err(ArgumentOutOfRange("charCount"));
      }
      r := ConvertInto(bytes[..byteCount], chars, charCount, flush);
    }

    /** `Convert` once its arguments are checked: the loop fills `chars` and the
        report and the carried bytes are read off where it stopped. */
    method ConvertInto(input: seq<byte>, chars: array<CodeUnit>, charCount: nat, flush: bool)
      returns (r: Result<Converted, DecoderError>)
      requires Valid() && charCount <= chars.Length
      modifies this, chars
      ensures Valid()
      ensures var c := ConvertSpec(DeciderOf(encoding, fallback, flush), old(pending), input, charCount);
        (c.Err? ==> r == Err(c.error) && pending == old(pending)) &&
        (c.Ok? ==> r == Ok(c.value.used.(completed := c.value.used.completed && fallbackBuffer.Remaining() == 0)) &&
                   |c.value.chars| <= chars.Length &&
                   chars[..|c.value.chars|] == c.value.chars && pending == c.value.pending)
      ensures forall k :: charCount <= k < chars.Length ==> chars[k] == old(chars[k])
    {
      var d := DeciderOf(encoding, fallback, flush);
      var t := pending + input;
      var p := DecodeInto(d, t, |pending|, chars, charCount);
      ConvertOf(d, pending, input, charCount, t, p);
      match p
      case Stopped(f) =>
        r := Err(DecoderFallbackException(f));
      case Progress(written, next, kept, blocked) =>
        if blocked && written == [] {
          r := Err(Argument("chars"));
        } else {
          ConvertKeepsPendingAt(encoding, fallback, flush, pending, input, charCount, t, p);
          r := Ok(Converted(next - |pending|, |written|, !blocked && fallbackBuffer.Remaining() == 0));
          pending := t[kept..next];
        }
    }

    /** Decode `bytes[0..byteCount)` into `chars`, all of it or nothing: there is no
        resuming, so output that does not fit is an error. */
    method GetChars(bytes: array?<byte>, byteCount: int, chars: array?<CodeUnit>, charCount: int, flush: bool)
      returns (r: Result<nat, DecoderError>)
      requires Valid()
      requires bytes != null && byteCount >= 0 ==> byteCount <= bytes.Length
      requires chars != null && charCount >= 0 ==> charCount <= chars.Length
      modifies this, chars
      ensures Valid()
      ensures bytes == null ==> r == Err(ArgumentNull("bytes"))
      ensures bytes != null && chars == null ==> r == Err(ArgumentNull("chars"))
      ensures bytes != null && chars != null && byteCount < 0 ==> r == Err(ArgumentOutOfRange("byteCount"))
      ensures bytes != null && chars != null && byteCount >= 0 && charCount < 0 ==>
        r == Err(ArgumentOutOfRange("charCount"))
      ensures bytes != null && chars != null && byteCount >= 0 && charCount >= 0 ==>
        var g := GetCharsSpec(DeciderOf(encoding, fallback, flush), old(pending), old(bytes[..byteCount]), charCount);
        (g.Err? ==> r == Err(g.error)) &&
        (g.Ok? ==> r == Ok(|g.value.chars|) && |g.value.chars| <= chars.Length &&
                   chars[..|g.value.chars|] == g.value.chars && pending == g.value.pending)
      ensures r.Err? ==> pending == old(pending)
      ensures chars != null && charCount >= 0 ==> forall k :: charCount <= k < chars.Length ==> chars[k] == old(chars[k])
    {
      if bytes == null {
        return Err(ArgumentNull("bytes"));
      }
      if chars == null {
        return Err(ArgumentNull("chars"));
      }
      if byteCount < 0 {
        return Err(ArgumentOutOfRange("byteCount"));
      }
      if charCount < 0 {
        return Err(ArgumentOutOfRange("charCount"));
      }
      var input := bytes[..byteCount];
      var d := DeciderOf(encoding, fallback, flush);
      var t := pending + input;
      var p := DecodeInto(d, t, |pending|, chars, charCount);
      GetCharsOf(d, pending, input, charCount, t, p);
      if p.Stopped? {
        return Err(DecoderFallbackException(p.fault));
      }
      if p.blocked {
        return Err(Argument("chars"));
      }
      GetCharsKeepsPending(encoding, fallback, flush, pending, input, charCount);
      r := Ok(|p.chars|);
      pending := t[p.kept..];
    }

    /** The overload taking whole buffers: all of `bytes`, and `chars` as the room. */
    method ConvertSpans(bytes: array<byte>, chars: array<CodeUnit>, flush: bool) returns (r: Result<Converted, DecoderError>)
      requires Valid()
      modifies this, chars
      ensures Valid()
      ensures var c := ConvertSpec(DeciderOf(encoding, fallback, flush), old(pending), old(bytes[..]), chars.Length);
        (c.Err? ==> r == Err(c.error) && pending == old(pending)) &&
        (c.Ok? ==> r == Ok(c.value.used.(completed := c.value.used.completed && fallbackBuffer.Remaining() == 0)) &&
                   |c.value.chars| <= chars.Length &&
                   chars[..|c.value.chars|] == c.value.chars && pending == c.value.pending)
    {
      assert bytes[..bytes.Length] == bytes[..];
      r := Convert(bytes, bytes.Length, chars, chars.Length, flush);
    }

    /** The overload of `GetChars` taking whole buffers. */
    method GetCharsSpans(bytes: array<byte>, chars: array<CodeUnit>, flush: bool) returns (r: Result<nat, DecoderError>)
      requires Valid()
      modifies this, chars
      ensures Valid()
      ensures var g := GetCharsSpec(DeciderOf(encoding, fallback, flush), old(pending), old(bytes[..]), chars.Length);
        (g.Err? ==> r == Err(g.error) && pending == old(pending)) &&
        (g.Ok? ==> r == Ok(|g.value.chars|) && |g.value.chars| <= chars.Length &&
                   chars[..|g.value.chars|] == g.value.chars && pending == g.value.pending)
    {
      assert bytes[..bytes.Length] == bytes[..];
      r := GetChars(bytes, bytes.Length, chars, chars.Length, flush);
    }

    /** The number of chars `GetChars` would produce for `bytes[0..count)`; the decoder
        is left as it is. */
    function GetCharCount(bytes: array?<byte>, count: int, flush: bool): (r: Result<nat, DecoderError>)
      reads this, bytes
      requires bytes != null && count >= 0 ==> count <= bytes.Length
      ensures bytes == null ==> r == Err(ArgumentNull("bytes"))
      ensures bytes != null && count < 0 ==> r == Err(ArgumentOutOfRange("count"))
      ensures bytes != null && count >= 0 ==>
        var o := Decode(encoding, fallback, pending, bytes[..count], flush);
        (o.Done? ==> r == Ok(|o.chars|)) &&
        (o.Raised? ==> r == Err(DecoderFallbackException(o.fault)))
    {
      if bytes == null then Err(ArgumentNull("bytes"))
      else if count < 0 then Err(ArgumentOutOfRange("count"))
      else
        CountMatchesDecode(encoding, fallback, pending, bytes[..count], flush);
        match CharCount(DeciderOf(encoding, fallback, flush), pending + bytes[..count], 0, |pending|)
        case Counted(n) => Ok(n)
        case Uncountable(f) => Err(DecoderFallbackException(f))
    }

    /** The overload of `GetCharCount` taking a whole buffer. */
    function GetCharCountSpans(bytes: array<byte>, flush: bool): (r: Result<nat, DecoderError>)
      reads this, bytes
      ensures var o := Decode(encoding, fallback, pending, bytes[..], flush);
        (o.Done? ==> r == Ok(|o.chars|)) &&
        (o.Raised? ==> r == Err(DecoderFallbackException(o.fault)))
    {
      assert bytes[..bytes.Length] == bytes[..];
      GetCharCount(bytes, bytes.Length, flush)
    }
  }
}
