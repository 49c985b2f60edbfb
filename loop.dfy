/**
 * The decoding loop, independent of the encoding. A decoder's behaviour at its read
 * position depends only on the bytes from there on; a `Decider` is that dependency:
 * given the bytes that remain, it emits the code units of the bytes it consumes,
 * keeps the rest pending (an incomplete sequence waiting for more bytes), or rejects
 * an invalid run of bytes.
 *
 * The loop walks a stream, the bytes carried over from earlier calls followed by the
 * bytes of the call, one decision at a time. `origin` is where the call's own bytes
 * begin, so a rejection at position `i` raises a fault at index `i - origin`, which
 * is negative exactly when the invalid run began in carried bytes.
 *
 *   - `Run` decodes the whole stream with unbounded output;
 *   - `RunBounded` stops before the first decision whose code units do not fit in the
 *     room left in the output, so it never writes part of a character or part of a
 *     substitution;
 *   - `CharCount` only counts;
 *   - `Call` is one call of a decoder in terms of the bytes it carries.
 */
module DecodeLoop {
  import opened Unicode
  import opened Fallbacks

  /** One decision: emit the code units of `len` consumed bytes, keep the remaining
      bytes pending, or reject the invalid run `bytes`. */
  datatype Action =
    | Emit(units: seq<CodeUnit>, len: nat)
    | Stash
    | Reject(bytes: seq<byte>)

  /** Every emit consumes at least one byte and no more bytes than remain. */
  ghost predicate Advances(d: seq<byte> -> Action) {
    forall u :: d(u).Emit? ==> 1 <= d(u).len <= |u|
  }

  type Decider = d: seq<byte> -> Action | Advances(d) witness (u: seq<byte>) => Stash

  /** The result of decoding a stream: the code units, and the position where the
      pending bytes begin (the end of the stream when nothing is pending); or the
      fault that stopped it. */
  datatype Decoded =
    | Decoded(chars: seq<CodeUnit>, kept: nat)
    | Failed(fault: Fault)

  function Prepend(u: seq<CodeUnit>, r: Decoded): Decoded {
    if r.Failed? then r else Decoded(u + r.chars, r.kept)
  }

  /** Decode stream `t` from position `i` on. */
  function Run(d: Decider, t: seq<byte>, i: nat, origin: int): Decoded
    requires i <= |t|
    decreases |t| - i
  {
    if i == |t| then Decoded([], i)
    else
      var a := d(t[i..]);
      if a.Reject? then Failed(Fault(i - origin, a.bytes))
      else if a.Stash? then Decoded([], i)
      else Prepend(a.units, Run(d, t, i + a.len, origin))
  }

  /** How far a bounded decode got: the code units written, the position it stopped
      at, the position where the pending bytes begin (equal to `next` when nothing
      is pending), and whether the output bound stopped it; or the fault that
      stopped it. */
  datatype Progress =
    | Progress(chars: seq<CodeUnit>, next: nat, kept: nat, blocked: bool)
    | Stopped(fault: Fault)

  /** `p` preceded by the units `u`. */
  function After(u: seq<CodeUnit>, p: Progress): Progress {
    if p.Stopped? then p else Progress(u + p.chars, p.next, p.kept, p.blocked)
  }

  lemma AfterAfter(a: seq<CodeUnit>, b: seq<CodeUnit>, p: Progress)
    ensures After(a, After(b, p)) == After(a + b, p)
  {
    if p.Progress? {
      assert a + (b + p.chars) == (a + b) + p.chars;
    }
  }

  /** Decode from position `i` into at most `cap` code units. */
  function RunBounded(d: Decider, t: seq<byte>, i: nat, origin: int, cap: nat): Progress
    requires i <= |t|
    decreases |t| - i
  {
    if i == |t| then Progress([], i, i, false)
    else
      var a := d(t[i..]);
      if a.Reject? then Stopped(Fault(i - origin, a.bytes))
      else if a.Stash? then Progress([], |t|, i, false)
      else if |a.units| > cap then Progress([], i, i, true)
      else After(a.units, RunBounded(d, t, i + a.len, origin, cap - |a.units|))
  }

  /** One step of a bounded decode whose next decision emits units that fit. */
  lemma BoundedStep(d: Decider, t: seq<byte>, i: nat, origin: int, cap: nat)
    requires i < |t| && d(t[i..]).Emit? && |d(t[i..]).units| <= cap
    ensures RunBounded(d, t, i, origin, cap) ==
      After(d(t[i..]).units, RunBounded(d, t, i + d(t[i..]).len, origin, cap - |d(t[i..]).units|))
  {
  }

  /** A bounded decode with room `cap` that has written `written` stands at `i`:
      what is left to do from `i` in the room left completes it. */
  predicate Wrote(d: Decider, t: seq<byte>, origin: int, cap: nat, i: nat, written: seq<CodeUnit>)
    requires i <= |t| && |written| <= cap
  {
    RunBounded(d, t, 0, origin, cap) == After(written, RunBounded(d, t, i, origin, cap - |written|))
  }

  /** A bounded decode that has written nothing stands at the start. */
  lemma WroteStart(d: Decider, t: seq<byte>, origin: int, cap: nat)
    ensures Wrote(d, t, origin, cap, 0, [])
  {
    var p := RunBounded(d, t, 0, origin, cap);
    if p.Progress? {
      assert [] + p.chars == p.chars;
    }
  }

  /** Taking one more decision that fits writes that decision's units too. */
  lemma WrittenStep(d: Decider, t: seq<byte>, i: nat, origin: int, cap: nat, written: seq<CodeUnit>, u: seq<CodeUnit>, n: nat)
    requires i < |t| && d(t[i..]) == Emit(u, n) && |written| + |u| <= cap
    requires Wrote(d, t, origin, cap, i, written)
    ensures i + n <= |t| && Wrote(d, t, origin, cap, i + n, written + u)
  {
    BoundedStep(d, t, i, origin, cap - |written|);
    AfterAfter(written, u, RunBounded(d, t, i + n, origin, cap - (|written| + |u|)));
  }

  /** A bounded decode that has written `written` and stands at `i` stops there: at
      the end of the stream, at a rejection, at bytes kept pending, or at a decision
      whose units do not fit. */
  lemma WroteStops(d: Decider, t: seq<byte>, origin: int, cap: nat, i: nat, written: seq<CodeUnit>)
    requires i <= |t| && |written| <= cap && Wrote(d, t, origin, cap, i, written)
    requires i < |t| ==> !d(t[i..]).Emit? || |d(t[i..]).units| > cap - |written|
    ensures RunBounded(d, t, 0, origin, cap) ==
      if i == |t| then Progress(written, i, i, false)
      else if d(t[i..]).Reject? then Stopped(Fault(i - origin, d(t[i..]).bytes))
      else if d(t[i..]).Stash? then Progress(written, |t|, i, false)
      else Progress(written, i, i, true)
  {
    assert written + [] == written;
  }

  /** A count of code units, or the fault that stopped counting. */
  datatype Count = Counted(n: nat) | Uncountable(fault: Fault)

  /** Count the code units decoding from position `i` produces. */
  function CharCount(d: Decider, t: seq<byte>, i: nat, origin: int): Count
    requires i <= |t|
    decreases |t| - i
  {
    if i == |t| then Counted(0)
    else
      var a := d(t[i..]);
      if a.Reject? then Uncountable(Fault(i - origin, a.bytes))
      else if a.Stash? then Counted(0)
      else
        var rest := CharCount(d, t, i + a.len, origin);
        if rest.Uncountable? then rest else Counted(|a.units| + rest.n)
  }

  /** A count agrees with a decode: the same number of units, or the same fault. */
  predicate Agree(r: Decoded, c: Count) {
    match r
    case Decoded(chars, _) => c == Counted(|chars|)
    case Failed(f) => c == Uncountable(f)
  }

  /** Counting agrees with decoding. */
  lemma {:induction false} CountAgrees(d: Decider, t: seq<byte>, i: nat, origin: int)
    requires i <= |t|
    ensures Agree(Run(d, t, i, origin), CharCount(d, t, i, origin))
    decreases |t| - i
  {
    if i < |t| && d(t[i..]).Emit? {
      CountAgrees(d, t, i + d(t[i..]).len, origin);
    }
  }

  /** A decode keeps bytes pending only from a decision to keep them. */
  lemma {:induction false} RunShape(d: Decider, t: seq<byte>, i: nat, origin: int)
    requires i <= |t|
    requires Run(d, t, i, origin).Decoded?
    ensures i <= Run(d, t, i, origin).kept <= |t|
    ensures Run(d, t, i, origin).kept < |t| ==> d(t[Run(d, t, i, origin).kept..]).Stash?
    decreases |t| - i
  {
    if i < |t| && d(t[i..]).Emit? {
      RunShape(d, t, i + d(t[i..]).len, origin);
    }
  }

  /** A decider that never rejects never stops a decode with a fault. */
  lemma {:induction false} NoRejectNoFault(d: Decider, t: seq<byte>, i: nat, origin: int)
    requires i <= |t|
    requires forall u :: !d(u).Reject?
    ensures Run(d, t, i, origin).Decoded?
    decreases |t| - i
  {
    if i < |t| && d(t[i..]).Emit? {
      NoRejectNoFault(d, t, i + d(t[i..]).len, origin);
    }
  }

  /** A fault ends a decode only where a decision rejects the bytes it reports, at the
      index it reports. */
  lemma {:induction false} FaultIsARejection(d: Decider, t: seq<byte>, i: nat, origin: int)
    requires i <= |t|
    requires Run(d, t, i, origin).Failed?
    ensures var f := Run(d, t, i, origin).fault;
      i <= f.index + origin < |t| && d(t[f.index + origin..]) == Reject(f.bytesUnknown)
    decreases |t| - i
  {
    if d(t[i..]).Emit? {
      FaultIsARejection(d, t, i + d(t[i..]).len, origin);
    }
  }

  /** The shape of a bounded decode: it stays within the stream and within `cap`; it
      reaches the end of the stream unless blocked; and a blocked decode keeps
      nothing pending. */
  lemma {:induction false} BoundedShape(d: Decider, t: seq<byte>, i: nat, origin: int, cap: nat)
    requires i <= |t|
    requires RunBounded(d, t, i, origin, cap).Progress?
    ensures var p := RunBounded(d, t, i, origin, cap);
      i <= p.kept <= p.next <= |t| && |p.chars| <= cap &&
      (p.blocked <==> p.next < |t|) && (p.blocked ==> p.kept == p.next)
    decreases |t| - i
  {
    if i < |t| {
      var a := d(t[i..]);
      if a.Emit? && |a.units| <= cap {
        BoundedShape(d, t, i + a.len, origin, cap - |a.units|);
      }
    }
  }

  /** A bounded decode produced exactly the units and pending bytes of decode `r`. */
  predicate Same(p: Progress, r: Decoded) {
    p.Progress? && r == Decoded(p.chars, p.kept)
  }

  /** A bounded decode that is not blocked is the full decode. */
  lemma {:induction false} BoundedComplete(d: Decider, t: seq<byte>, i: nat, origin: int, cap: nat)
    requires i <= |t|
    requires RunBounded(d, t, i, origin, cap).Progress? && !RunBounded(d, t, i, origin, cap).blocked
    ensures Same(RunBounded(d, t, i, origin, cap), Run(d, t, i, origin))
    decreases |t| - i
  {
    if i < |t| {
      var a := d(t[i..]);
      if a.Emit? && |a.units| <= cap {
        BoundedComplete(d, t, i + a.len, origin, cap - |a.units|);
      }
    }
  }

  /** `p`, a decode blocked with room `cap`, is the start of the full decode `r`: `r`
      is the units of `p` followed by the full decode from where `p` stopped, and the
      decision there emits more units than the room that was left. */
  predicate Resumes(d: Decider, t: seq<byte>, origin: int, cap: nat, p: Progress, r: Decoded) {
    p.Progress? && p.next < |t| && |p.chars| <= cap &&
    r == Prepend(p.chars, Run(d, t, p.next, origin)) &&
    d(t[p.next..]).Emit? && |d(t[p.next..]).units| > cap - |p.chars|
  }

  lemma AppendAssoc(a: seq<CodeUnit>, b: seq<CodeUnit>, c: seq<CodeUnit>)
    ensures a + (b + c) == (a + b) + c
  {
  }

  lemma BytesAssoc(a: seq<byte>, b: seq<byte>, c: seq<byte>)
    ensures a + (b + c) == (a + b) + c
  {
  }

  /** A bounded decode whose first decision, if it emits, consumes at least `m` bytes
      either gets at least `m` bytes in or is blocked at once, with nothing written. */
  lemma BoundedStartsPast(d: Decider, t: seq<byte>, origin: int, cap: nat, m: nat)
    requires m <= |t|
    requires d(t[0..]).Emit? ==> d(t[0..]).len >= m
    requires RunBounded(d, t, 0, origin, cap).Progress?
    ensures var p := RunBounded(d, t, 0, origin, cap);
      m <= p.next || (p.next == 0 && p.chars == [] && p.blocked)
  {
    if 0 < |t| {
      var a := d(t[0..]);
      if a.Emit? && |a.units| <= cap {
        BoundedShape(d, t, a.len, origin, cap - |a.units|);
      }
    }
  }

  /** A blocked decode is a prefix of the full decode, cut between decisions. */
  lemma {:induction false} BoundedBlocked(d: Decider, t: seq<byte>, i: nat, origin: int, cap: nat)
    requires i <= |t|
    requires RunBounded(d, t, i, origin, cap).Progress? && RunBounded(d, t, i, origin, cap).blocked
    ensures Resumes(d, t, origin, cap, RunBounded(d, t, i, origin, cap), Run(d, t, i, origin))
    decreases |t| - i
  {
    BoundedShape(d, t, i, origin, cap);
    var a := d(t[i..]);
    if |a.units| <= cap {
      var p := RunBounded(d, t, i + a.len, origin, cap - |a.units|);
      BoundedBlocked(d, t, i + a.len, origin, cap - |a.units|);
      var r := Run(d, t, p.next, origin);
      if r.Decoded? {
        AppendAssoc(a.units, p.chars, r.chars);
      }
    }
  }

  /** A fault met by a bounded decode is the fault of the full decode. */
  lemma {:induction false} BoundedFault(d: Decider, t: seq<byte>, i: nat, origin: int, cap: nat)
    requires i <= |t|
    requires RunBounded(d, t, i, origin, cap).Stopped?
    ensures Run(d, t, i, origin) == Failed(RunBounded(d, t, i, origin, cap).fault)
    decreases |t| - i
  {
    var a := d(t[i..]);
    if a.Emit? {
      BoundedFault(d, t, i + a.len, origin, cap - |a.units|);
    }
  }

  /** With room for the whole result, a bounded decode is the full decode. */
  lemma {:induction false} BoundedWithRoom(d: Decider, t: seq<byte>, i: nat, origin: int, cap: nat)
    requires i <= |t|
    requires Run(d, t, i, origin).Decoded? && |Run(d, t, i, origin).chars| <= cap
    ensures Same(RunBounded(d, t, i, origin, cap), Run(d, t, i, origin)) && !RunBounded(d, t, i, origin, cap).blocked
    decreases |t| - i
  {
    if i < |t| {
      var a := d(t[i..]);
      if a.Emit? {
        BoundedWithRoom(d, t, i + a.len, origin, cap - |a.units|);
      }
    }
  }

  /** When the full decode succeeds, a bounded decode succeeds too, and it is blocked
      exactly when the full result does not fit. */
  lemma BlockedIffTooSmall(d: Decider, t: seq<byte>, i: nat, origin: int, cap: nat)
    requires i <= |t|
    requires Run(d, t, i, origin).Decoded?
    ensures RunBounded(d, t, i, origin, cap).Progress?
    ensures RunBounded(d, t, i, origin, cap).blocked <==> |Run(d, t, i, origin).chars| > cap
  {
    var p := RunBounded(d, t, i, origin, cap);
    if |Run(d, t, i, origin).chars| <= cap {
      BoundedWithRoom(d, t, i, origin, cap);
    } else if p.Stopped? {
      BoundedFault(d, t, i, origin, cap);
    } else if !p.blocked {
      BoundedComplete(d, t, i, origin, cap);
      BoundedShape(d, t, i, origin, cap);
    }
  }

  lemma DropAppend(a: seq<byte>, b: seq<byte>, k: nat)
    requires k <= |a|
    ensures (a + b)[k..] == a[k..] + b
  {
  }

  lemma DropPast(a: seq<byte>, b: seq<byte>, k: nat)
    requires |a| <= k <= |a| + |b|
    ensures (a + b)[k..] == b[k - |a|..]
  {
  }

  lemma DropDrop(a: seq<byte>, k: nat, i: nat)
    requires k + i <= |a|
    ensures a[k..][i..] == a[k + i..]
  {
  }

  /** Decider `d2` takes every decision `d1` takes without waiting, whatever bytes
      follow: `d1` decides without flushing, and a decision it has taken is final. */
  ghost predicate Final(d1: Decider, d2: Decider) {
    forall u, v {:trigger d2(u + v)} :: !d1(u).Stash? ==> d2(u + v) == d1(u)
  }

  lemma FinalAt(d1: Decider, d2: Decider, u: seq<byte>, v: seq<byte>)
    requires Final(d1, d2)
    ensures !d1(u).Stash? ==> d2(u + v) == d1(u)
  {
  }

  /** Decoding the longer stream from `i` goes on from where decode `r` of the shorter
      one stopped: the same fault, or the units of `r` followed by the decode of the
      longer stream from the first byte `r` kept pending. */
  predicate Continues(d: Decider, t: seq<byte>, i: nat, origin: int, r: Decoded)
    requires i <= |t|
  {
    match r
    case Failed(_) => Run(d, t, i, origin) == r
    case Decoded(c, k) => k <= |t| && Run(d, t, i, origin) == Prepend(c, Run(d, t, k, origin))
  }

  /** Decoding a stream and then more bytes, where the first decode does not flush,
      is decoding the whole stream. */
  lemma {:induction false} SplitAt(d1: Decider, d2: Decider, t1: seq<byte>, u: seq<byte>, i: nat, origin: int)
    requires i <= |t1| && Final(d1, d2)
    ensures Continues(d2, t1 + u, i, origin, Run(d1, t1, i, origin))
    decreases |t1| - i
  {
    if i < |t1| {
      var a := d1(t1[i..]);
      DropAppend(t1, u, i);
      FinalAt(d1, d2, t1[i..], u);
      if a.Emit? {
        SplitAt(d1, d2, t1, u, i + a.len, origin);
        var r := Run(d1, t1, i + a.len, origin);
        if r.Decoded? {
          RunShape(d1, t1, i + a.len, origin);
          var q := Run(d2, t1 + u, r.kept, origin);
          if q.Decoded? {
            AppendAssoc(a.units, r.chars, q.chars);
          }
        }
      }
    }
  }

  /** Decode `r` of a suffix seen from the whole stream: pending bytes `k` positions
      further on. */
  function Later(r: Decoded, k: nat): Decoded {
    if r.Failed? then r else Decoded(r.chars, r.kept + k)
  }

  /** Decoding the suffix of a stream that starts at `k`, with the origin moved with it,
      is decoding the stream from `k`. */
  lemma {:induction false} Rebase(d: Decider, t: seq<byte>, k: nat, i: nat, origin: int)
    requires k + i <= |t|
    ensures Run(d, t, k + i, origin) == Later(Run(d, t[k..], i, origin - k), k)
    decreases |t| - k - i
  {
    if k + i < |t| {
      DropDrop(t, k, i);
      var a := d(t[k + i..]);
      if a.Emit? {
        Rebase(d, t, k, i + a.len, origin);
      }
    }
  }

  /** A decode that starts with a decision emitting `u` for all of `e` goes on with
      the decode of what follows `e`. */
  lemma RunAfterEmit(d: Decider, e: seq<byte>, u: seq<CodeUnit>, rest: seq<byte>, origin: int)
    requires d(e + rest) == Emit(u, |e|)
    ensures Run(d, e + rest, 0, origin) == Prepend(u, Later(Run(d, rest, 0, origin - |e|), |e|))
  {
    var t := e + rest;
    assert t[0..] == t;
    SuffixRun(d, t, |e|, origin);
    assert t[|e|..] == rest;
  }

  /** The concatenation of a sequence of pieces. */
  function Flatten<T>(ss: seq<seq<T>>): seq<T> {
    if |ss| == 0 then [] else ss[0] + Flatten(ss[1..])
  }

  /** A stream made of pieces that decider `d` takes whole, each as the units paired
      with it, decodes to the units of all the pieces and leaves nothing pending. */
  lemma {:induction false} RunPieces(d: Decider, es: seq<seq<byte>>, us: seq<seq<CodeUnit>>, origin: int)
    requires |es| == |us|
    requires forall i, rest {:trigger d(es[i] + rest)} :: 0 <= i < |es| ==> d(es[i] + rest) == Emit(us[i], |es[i]|)
    ensures Run(d, Flatten(es), 0, origin) == Decoded(Flatten(us), |Flatten(es)|)
    decreases |es|
  {
    if |es| > 0 {
      var rest := Flatten(es[1..]);
      assert d(es[0] + rest) == Emit(us[0], |es[0]|);
      forall i, r | 0 <= i < |es[1..]| ensures d(es[1..][i] + r) == Emit(us[1..][i], |es[1..][i]|) {
        assert d(es[i + 1] + r) == Emit(us[i + 1], |es[i + 1]|);
      }
      RunPieces(d, es[1..], us[1..], origin - |es[0]|);
      RunAfterEmit(d, es[0], us[0], rest, origin);
    }
  }

  /** Decode `r` with its fault index moved by `n`. */
  function Moved(r: Decoded, n: int): Decoded {
    if r.Failed? then Failed(Fault(r.fault.index + n, r.fault.bytesUnknown)) else r
  }

  /** Moving the origin from `o1` to `o2` moves every fault index by `o1 - o2`. */
  lemma {:induction false} Reorigin(d: Decider, t: seq<byte>, i: nat, o1: int, o2: int)
    requires i <= |t|
    ensures Run(d, t, i, o2) == Moved(Run(d, t, i, o1), o1 - o2)
    decreases |t| - i
  {
    if i < |t| && d(t[i..]).Emit? {
      Reorigin(d, t, i + d(t[i..]).len, o1, o2);
    }
  }

  /** The outcome of one call: the code units and the bytes left pending, or the fault
      raised. */
  datatype Outcome =
    | Done(chars: seq<CodeUnit>, pending: seq<byte>)
    | Raised(fault: Fault)

  /** The outcome of decode `r` of stream `t`. */
  function OutcomeOf(r: Decoded, t: seq<byte>): Outcome {
    match r
    case Decoded(c, k) => if k <= |t| then Done(c, t[k..]) else Done(c, [])
    case Failed(f) => Raised(f)
  }

  /** One call of a decoder with unbounded output, carrying `pending` in. */
  function Call(d: Decider, pending: seq<byte>, input: seq<byte>): Outcome {
    OutcomeOf(Run(d, pending + input, 0, |pending|), pending + input)
  }

  /** A call that carries nothing in decodes its input as the stream. */
  lemma CallWithNothingPending(d: Decider, input: seq<byte>)
    ensures Call(d, [], input) == OutcomeOf(Run(d, input, 0, 0), input)
  {
    assert [] + input == input;
  }

  /** A fault raised by a call is a rejection at its index, which lies in the carried
      bytes or in the call's input. */
  lemma CallFault(d: Decider, pending: seq<byte>, input: seq<byte>)
    requires Call(d, pending, input).Raised?
    ensures var f := Call(d, pending, input).fault;
      -|pending| <= f.index < |input| &&
      d((pending + input)[f.index + |pending|..]) == Reject(f.bytesUnknown)
  {
    FaultIsARejection(d, pending + input, 0, |pending|);
  }

  /** A bounded decode blocked at `next`: the full decode is its units followed by the
      decode of the bytes from `next` on, as a stream of its own whose origin is its
      start, faults moved back to count from `origin`. */
  lemma BlockedRun(d: Decider, t: seq<byte>, origin: int, cap: nat)
    requires RunBounded(d, t, 0, origin, cap).Progress? && RunBounded(d, t, 0, origin, cap).blocked
    ensures var p := RunBounded(d, t, 0, origin, cap);
      p.next < |t| &&
      Run(d, t, 0, origin) == Prepend(p.chars, Later(Moved(Run(d, t[p.next..], 0, 0), p.next - origin), p.next))
  {
    var p := RunBounded(d, t, 0, origin, cap);
    BoundedShape(d, t, 0, origin, cap);
    BoundedBlocked(d, t, 0, origin, cap);
    SuffixRun(d, t, p.next, origin);
    Reorigin(d, t[p.next..], 0, 0, origin - p.next);
  }

  /** A bounded call blocked after getting past the carried bytes: the full call is
      the units written so far followed by a call, with nothing carried, on the input
      from where it stopped, its faults counted from the start of the input. */
  lemma BlockedThenRest(d: Decider, pending: seq<byte>, input: seq<byte>, cap: nat)
    requires RunBounded(d, pending + input, 0, |pending|, cap).Progress?
    requires RunBounded(d, pending + input, 0, |pending|, cap).blocked
    requires |pending| <= RunBounded(d, pending + input, 0, |pending|, cap).next
    ensures var p := RunBounded(d, pending + input, 0, |pending|, cap);
      p.next - |pending| < |input| &&
      Call(d, pending, input) ==
        Continue(p.chars, Call(d, [], input[p.next - |pending|..]), p.next - |pending|)
  {
    var p := RunBounded(d, pending + input, 0, |pending|, cap);
    BlockedRun(d, pending + input, |pending|, cap);
    ResumeAt(d, pending, input, p.chars, p.next);
  }

  /** A call whose decode writes `c` and then goes on as a decode of the stream from
      `k`, past the carried bytes, with its own origin. */
  lemma ResumeAt(d: Decider, pending: seq<byte>, input: seq<byte>, c: seq<CodeUnit>, k: nat)
    requires |pending| <= k < |pending + input|
    requires Run(d, pending + input, 0, |pending|) ==
      Prepend(c, Later(Moved(Run(d, (pending + input)[k..], 0, 0), k - |pending|), k))
    ensures Call(d, pending, input) == Continue(c, Call(d, [], input[k - |pending|..]), k - |pending|)
  {
    var t := pending + input;
    var s := input[k - |pending|..];
    DropPast(pending, input, k);
    CallWithNothingPending(d, s);
    if Run(d, s, 0, 0).Decoded? {
      RunShape(d, s, 0, 0);
    }
    OutcomeOfLater(c, Run(d, s, 0, 0), k - |pending|, k, t);
    CallAs(d, pending, input, t);
  }

  /** Outcome `o` of a second call, after the units `c` of a first call whose input
      had `n` bytes: a fault index then counts from the first call's input. */
  function Continue(c: seq<CodeUnit>, o: Outcome, n: nat): Outcome {
    if o.Raised? then Raised(Fault(o.fault.index + n, o.fault.bytesUnknown))
    else Done(c + o.chars, o.pending)
  }

  /** Decoding stream `t` from `k` is decoding its suffix from `k` on, with the origin
      moved with it. */
  lemma SuffixRun(d: Decider, t: seq<byte>, k: nat, origin: int)
    requires k <= |t|
    ensures Run(d, t, k, origin) == Later(Run(d, t[k..], 0, origin - k), k)
  {
    Rebase(d, t, k, 0, origin);
  }

  /** Decoding `t1 + b2` is decoding `t1` without flushing, then decoding the bytes it
      kept pending followed by `b2`, with an origin at the end of `t1`. */
  predicate DecodesInTwo(d1: Decider, d2: Decider, t1: seq<byte>, b2: seq<byte>, origin: int)
    requires Run(d1, t1, 0, origin).Decoded?
  {
    var r1 := Run(d1, t1, 0, origin);
    r1.kept <= |t1| &&
    Run(d2, t1 + b2, 0, origin) ==
      Prepend(r1.chars, Later(Moved(Run(d2, t1[r1.kept..] + b2, 0, |t1| - r1.kept), |t1| - origin), r1.kept))
  }

  lemma RunInTwo(d1: Decider, d2: Decider, t1: seq<byte>, b2: seq<byte>, origin: int)
    requires Final(d1, d2) && Run(d1, t1, 0, origin).Decoded?
    ensures DecodesInTwo(d1, d2, t1, b2, origin)
  {
    var r1 := Run(d1, t1, 0, origin);
    RunShape(d1, t1, 0, origin);
    SplitAt(d1, d2, t1, b2, 0, origin);
    SplitTail(d2, t1, b2, origin, r1.chars, r1.kept);
  }

  /** A decode of `t1 + b2` that writes `c` and goes on from `k` within `t1` goes on
      as the decode of the suffix from `k`, faults moved back to `origin`. */
  lemma SplitTail(d: Decider, t1: seq<byte>, b2: seq<byte>, origin: int, c: seq<CodeUnit>, k: nat)
    requires k <= |t1|
    requires Run(d, t1 + b2, 0, origin) == Prepend(c, Run(d, t1 + b2, k, origin))
    ensures Run(d, t1 + b2, 0, origin) ==
      Prepend(c, Later(Moved(Run(d, t1[k..] + b2, 0, |t1| - k), |t1| - origin), k))
  {
    var t := t1 + b2;
    var p := t1[k..] + b2;
    SuffixRun(d, t, k, origin);
    DropAppend(t1, b2, k);
    Reorigin(d, p, 0, |t1| - k, origin - k);
  }

  /** The outcome of decoding a stream whose decode from `k` on is `r`, with faults
      moved by `n`, after the units `c`: the outcome of `r` on the suffix, continued. */
  lemma OutcomeOfLater(c: seq<CodeUnit>, r: Decoded, n: nat, k: nat, t: seq<byte>)
    requires k <= |t|
    requires r.Decoded? ==> r.kept <= |t| - k
    ensures OutcomeOf(Prepend(c, Later(Moved(r, n), k)), t) == Continue(c, OutcomeOf(r, t[k..]), n)
  {
    if r.Decoded? {
      DropDrop(t, k, r.kept);
    }
  }

  /** A call is the outcome of decoding its stream `t`. */
  lemma CallAs(d: Decider, pending: seq<byte>, input: seq<byte>, t: seq<byte>)
    requires t == pending + input
    ensures Call(d, pending, input) == OutcomeOf(Run(d, t, 0, |pending|), t)
  {
  }

  /** A decode of `t1 + b2` that begins with `c1` and then goes on as `r2` from the
      first kept byte `k`, read as outcomes. */
  lemma JoinOutcomes(c1: seq<CodeUnit>, k: nat, t1: seq<byte>, b2: seq<byte>, n: nat, r2: Decoded)
    requires k <= |t1|
    requires r2.Decoded? ==> r2.kept <= |t1[k..] + b2|
    ensures OutcomeOf(Prepend(c1, Later(Moved(r2, n), k)), t1 + b2) == Continue(c1, OutcomeOf(r2, t1[k..] + b2), n)
  {
    DropAppend(t1, b2, k);
    OutcomeOfLater(c1, r2, n, k, t1 + b2);
  }

  /** The longer call, read through the shape `RunInTwo` gives its decode. */
  lemma JoinFirst(d2: Decider, p0: seq<byte>, b1: seq<byte>, b2: seq<byte>, c1: seq<CodeUnit>, k: nat, r2: Decoded)
    requires k <= |p0 + b1|
    requires r2.Decoded? ==> r2.kept <= |(p0 + b1)[k..] + b2|
    requires Run(d2, (p0 + b1) + b2, 0, |p0|) == Prepend(c1, Later(Moved(r2, |b1|), k))
    ensures Call(d2, p0, b1 + b2) == Continue(c1, OutcomeOf(r2, (p0 + b1)[k..] + b2), |b1|)
  {
    BytesAssoc(p0, b1, b2);
    CallAs(d2, p0, b1 + b2, (p0 + b1) + b2);
    JoinOutcomes(c1, k, p0 + b1, b2, |b1|, r2);
  }

  /** The first call and the second, which carries the bytes the first kept. */
  lemma JoinSecond(d1: Decider, d2: Decider, p0: seq<byte>, b1: seq<byte>, b2: seq<byte>, k: nat)
    requires Run(d1, p0 + b1, 0, |p0|).Decoded? && k == Run(d1, p0 + b1, 0, |p0|).kept <= |p0 + b1|
    ensures Call(d1, p0, b1) == Done(Run(d1, p0 + b1, 0, |p0|).chars, (p0 + b1)[k..])
    ensures Call(d2, (p0 + b1)[k..], b2) ==
      OutcomeOf(Run(d2, (p0 + b1)[k..] + b2, 0, |p0 + b1| - k), (p0 + b1)[k..] + b2)
  {
    CallAs(d1, p0, b1, p0 + b1);
    CallAs(d2, (p0 + b1)[k..], b2, (p0 + b1)[k..] + b2);
  }

  /** Feeding a decoder `b1` without flushing and then `b2` is feeding it `b1 + b2` at
      once: the first call's units followed by the second's, the second call's
      pending bytes, and a fault of the second call at its index moved by the length
      of `b1`. */
  lemma TwoCalls(d1: Decider, d2: Decider, p0: seq<byte>, b1: seq<byte>, b2: seq<byte>)
    requires Final(d1, d2) && Call(d1, p0, b1).Done?
    ensures Call(d2, p0, b1 + b2) == Continue(Call(d1, p0, b1).chars, Call(d2, Call(d1, p0, b1).pending, b2), |b1|)
  {
    var t1 := p0 + b1;
    var r1 := Run(d1, t1, 0, |p0|);
    assert r1.Decoded?;
    RunInTwo(d1, d2, t1, b2, |p0|);
    var k := r1.kept;
    var r2 := Run(d2, t1[k..] + b2, 0, |t1| - k);
    if r2.Decoded? {
      RunShape(d2, t1[k..] + b2, 0, |t1| - k);
    }
    assert |t1| - |p0| == |b1|;
    JoinFirst(d2, p0, b1, b2, r1.chars, k, r2);
    JoinSecond(d1, d2, p0, b1, b2, k);
  }

  /** A fault in a call that does not flush is raised again, at the same index, when
      more bytes follow in the same call. */
  lemma FaultStaysWithMoreInput(d1: Decider, d2: Decider, p0: seq<byte>, b1: seq<byte>, b2: seq<byte>)
    requires Final(d1, d2) && Call(d1, p0, b1).Raised?
    ensures Call(d2, p0, b1 + b2) == Call(d1, p0, b1)
  {
    BytesAssoc(p0, b1, b2);
    SplitAt(d1, d2, p0 + b1, b2, 0, |p0|);
  }
}
