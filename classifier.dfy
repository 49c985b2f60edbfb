/**
 * The byte-sequence classifier the decoder consumes: given the bytes that start at
 * the decoder's read position, it reports a complete character, a sequence that
 * needs more bytes, or an ill-formed sequence together with the length of its
 * maximal subpart.
 *
 * UTF-8 follows the well-formed byte ranges of section 4 of RFC 3629; the length of
 * an invalid run is the maximal subpart of section 3.9 of the Unicode Standard
 * (one U+FFFD per maximal subpart). US-ASCII accepts 0x00-0x7F and rejects every
 * other byte on its own.
 */
module Classifier {
  import opened Unicode

  /** The encodings whose decoders are modelled. */
  datatype Encoding = Utf8 | Ascii

  /** What the bytes at the read position hold. */
  datatype Scan =
    | Complete(len: nat, scalar: int)  // a whole character of `len` bytes
    | Incomplete                       // every byte so far fits, and more are needed
    | Invalid(len: nat)                // an ill-formed run of `len` bytes

  /** Total length of the UTF-8 sequence that `lead` starts; 0 when it cannot start one. */
  function SequenceLength(lead: byte): nat {
    if lead < 0x80 then 1
    else if lead < 0xC2 then 0
    else if lead < 0xE0 then 2
    else if lead < 0xF0 then 3
    else if lead < 0xF5 then 4
    else 0
  }

  /** Lowest and highest byte allowed at position `k` (k >= 1) after `lead`. */
  function FollowerLow(lead: byte, k: nat): byte {
    if k == 1 && lead == 0xE0 then 0xA0
    else if k == 1 && lead == 0xF0 then 0x90
    else 0x80
  }

  function FollowerHigh(lead: byte, k: nat): byte {
    if k == 1 && lead == 0xED then 0x9F
    else if k == 1 && lead == 0xF4 then 0x8F
    else 0xBF
  }

  predicate IsFollower(lead: byte, k: nat, b: byte) {
    FollowerLow(lead, k) <= b <= FollowerHigh(lead, k)
  }

  /** How far, from position `k` on, `s` follows the pattern of an `n`-byte sequence. */
  function Matched(s: seq<byte>, n: nat, k: nat): (m: nat)
    requires 1 <= k <= n && k <= |s|
    ensures k <= m <= n && m <= |s|
    decreases n - k
  {
    if k < n && k < |s| && IsFollower(s[0], k, s[k]) then Matched(s, n, k + 1) else k
  }

  /** The bytes matched are followers, and the match stops only at the end of the
      pattern, at the end of `s`, or at a byte that is not a follower. */
  lemma {:induction false} MatchedFollowers(s: seq<byte>, n: nat, k: nat)
    requires 1 <= k <= n && k <= |s|
    ensures forall j :: k <= j < Matched(s, n, k) ==> IsFollower(s[0], j, s[j])
    ensures Matched(s, n, k) < n && Matched(s, n, k) < |s| ==> !IsFollower(s[0], Matched(s, n, k), s[Matched(s, n, k)])
    decreases n - k
  {
    if k < n && k < |s| && IsFollower(s[0], k, s[k]) {
      MatchedFollowers(s, n, k + 1);
    }
  }

  /** A whole run of followers is matched to its end. */
  lemma {:induction false} MatchedAll(s: seq<byte>, n: nat, k: nat)
    requires 1 <= k <= n <= |s|
    requires forall j :: k <= j < n ==> IsFollower(s[0], j, s[j])
    ensures Matched(s, n, k) == n
    decreases n - k
  {
    if k < n {
      MatchedAll(s, n, k + 1);
    }
  }

  /** The scalar value carried by the first `n` bytes of a well-formed sequence. */
  function Utf8Scalar(s: seq<byte>, n: nat): int
    requires 1 <= n <= 4 && n <= |s|
  {
    if n == 1 then s[0] as int
    else if n == 2 then (s[0] as int - 0xC0) * 64 + (s[1] as int - 0x80)
    else if n == 3 then ((s[0] as int - 0xE0) * 64 + (s[1] as int - 0x80)) * 64 + (s[2] as int - 0x80)
    else (((s[0] as int - 0xF0) * 64 + (s[1] as int - 0x80)) * 64 + (s[2] as int - 0x80)) * 64 + (s[3] as int - 0x80)
  }

  /** `s` starts with a whole well-formed sequence of `n >= 2` bytes. */
  predicate WellFormedMultiByte(s: seq<byte>, n: nat) {
    2 <= n <= |s| && SequenceLength(s[0]) == n &&
    forall j :: 1 <= j < n ==> IsFollower(s[0], j, s[j])
  }

  lemma DivMod64(q: int, r: int)
    requires 0 <= r < 64
    ensures (q * 64 + r) / 64 == q && (q * 64 + r) % 64 == r
  {
  }

  /** A well-formed multi-byte sequence carries a scalar value and is its UTF-8 form. */
  lemma WellFormedDecodes(s: seq<byte>, n: nat)
    requires WellFormedMultiByte(s, n)
    ensures IsScalarValue(Utf8Scalar(s, n)) && Utf8Encode(Utf8Scalar(s, n)) == s[..n]
  {
    assert IsFollower(s[0], 1, s[1]);
    if n == 2 {
      WellFormedTwo(s);
    } else if n == 3 {
      WellFormedThree(s);
    } else {
      WellFormedFour(s);
    }
  }

  lemma WellFormedTwo(s: seq<byte>)
    requires WellFormedMultiByte(s, 2)
    ensures IsScalarValue(Utf8Scalar(s, 2)) && Utf8Encode(Utf8Scalar(s, 2)) == s[..2]
  {
    assert IsFollower(s[0], 1, s[1]);
    DivMod64(s[0] as int - 0xC0, s[1] as int - 0x80);
  }

  lemma WellFormedThree(s: seq<byte>)
    requires WellFormedMultiByte(s, 3)
    ensures IsScalarValue(Utf8Scalar(s, 3)) && Utf8Encode(Utf8Scalar(s, 3)) == s[..3]
  {
    assert IsFollower(s[0], 1, s[1]) && IsFollower(s[0], 2, s[2]);
    var hi := (s[0] as int - 0xE0) * 64 + (s[1] as int - 0x80);
    DivMod64(hi, s[2] as int - 0x80);
    DivMod64(s[0] as int - 0xE0, s[1] as int - 0x80);
  }

  lemma WellFormedFour(s: seq<byte>)
    requires WellFormedMultiByte(s, 4)
    ensures IsScalarValue(Utf8Scalar(s, 4)) && Utf8Encode(Utf8Scalar(s, 4)) == s[..4]
  {
    assert IsFollower(s[0], 1, s[1]) && IsFollower(s[0], 2, s[2]) && IsFollower(s[0], 3, s[3]);
    var top := (s[0] as int - 0xF0) * 64 + (s[1] as int - 0x80);
    var mid := top * 64 + (s[2] as int - 0x80);
    DivMod64(mid, s[3] as int - 0x80);
    DivMod64(top, s[2] as int - 0x80);
    DivMod64(s[0] as int - 0xF0, s[1] as int - 0x80);
  }

  function ClassifyUtf8(s: seq<byte>): (r: Scan)
    requires |s| > 0
    ensures r.Complete? ==> 1 <= r.len <= |s| && r.len <= 4 && IsScalarValue(r.scalar)
    ensures r.Invalid? ==> 1 <= r.len <= |s| && r.len <= 3
    ensures r.Incomplete? ==> 1 <= |s| <= 3
  {
    var n := SequenceLength(s[0]);
    if n == 0 then Invalid(1)
    else if n == 1 then Complete(1, s[0] as int)
    else
      var m := Matched(s, n, 1);
      if m == n then
        MatchedFollowers(s, n, 1);
        WellFormedDecodes(s, n);
        Complete(n, Utf8Scalar(s, n))
      else if m == |s| then Incomplete
      else Invalid(m)
  }

  function ClassifyAscii(s: seq<byte>): (r: Scan)
    requires |s| > 0
    ensures r.Complete? <==> s[0] < 0x80
    ensures r.Complete? ==> r.len == 1 && r.scalar == s[0] as int
    ensures !r.Complete? ==> r == Invalid(1)
  {
    if s[0] < 0x80 then Complete(1, s[0] as int) else Invalid(1)
  }

  /** Classify the bytes at the read position. */
  function Classify(enc: Encoding, s: seq<byte>): (r: Scan)
    requires |s| > 0
    ensures r.Complete? ==> 1 <= r.len <= |s| && r.len <= 4 && IsScalarValue(r.scalar)
    ensures r.Invalid? ==> 1 <= r.len <= |s| && r.len <= 3
    ensures r.Incomplete? ==> enc == Utf8 && 1 <= |s| <= 3
  {
    match enc
    case Utf8 => ClassifyUtf8(s)
    case Ascii => ClassifyAscii(s)
  }

  /** A complete character is always the RFC 3629 form of its scalar value (US-ASCII
      being the one-byte part of UTF-8). */
  lemma CompleteIsEncoding(enc: Encoding, s: seq<byte>)
    requires |s| > 0 && Classify(enc, s).Complete?
    ensures s[..Classify(enc, s).len] == Utf8Encode(Classify(enc, s).scalar)
  {
    var n := SequenceLength(s[0]);
    if enc == Utf8 && n >= 2 {
      MatchedFollowers(s, n, 1);
      WellFormedDecodes(s, n);
    }
  }

  /** The UTF-8 form of every scalar value is classified back as that scalar value,
      whatever bytes follow it: the classifier inverts the RFC 3629 encoder. */
  lemma EncodingClassifies(c: int, rest: seq<byte>)
    requires IsScalarValue(c)
    ensures Classify(Utf8, Utf8Encode(c) + rest) == Complete(|Utf8Encode(c)|, c)
  {
    var e := Utf8Encode(c);
    var s := e + rest;
    var n := |e|;
    assert s[..n] == e;
    if n > 1 {
      assert SequenceLength(s[0]) == n;
      assert forall j :: 1 <= j < n ==> IsFollower(s[0], j, s[j]) by {
        forall j | 1 <= j < n ensures IsFollower(s[0], j, s[j]) {
          assert s[j] == e[j];
          if j == 1 && n == 3 {
            assert c / 64 / 64 == c / 4096;
          } else if j == 1 && n == 4 {
            assert c / 64 / 64 / 64 == c / 262144;
            assert c / 64 / 64 == c / 4096;
          }
        }
      }
      MatchedAll(s, n, 1);
      WellFormedDecodes(s, n);
      assert Utf8Encode(Utf8Scalar(s, n)) == Utf8Encode(c);
      EncodeInjective(Utf8Scalar(s, n), c);
    }
  }

  /** Distinct scalar values have distinct UTF-8 forms. */
  lemma EncodeInjective(a: int, b: int)
    requires IsScalarValue(a) && IsScalarValue(b) && Utf8Encode(a) == Utf8Encode(b)
    ensures a == b
  {
    var e := Utf8Encode(a);
    if |e| == 2 {
      assert a == a / 64 * 64 + a % 64;
      assert b == b / 64 * 64 + b % 64;
    } else if |e| == 3 {
      assert a == (a / 64 / 64 * 64 + a / 64 % 64) * 64 + a % 64;
      assert b == (b / 64 / 64 * 64 + b / 64 % 64) * 64 + b % 64;
    } else if |e| == 4 {
      assert a == ((a / 64 / 64 / 64 * 64 + a / 64 / 64 % 64) * 64 + a / 64 % 64) * 64 + a % 64;
      assert b == ((b / 64 / 64 / 64 * 64 + b / 64 / 64 % 64) * 64 + b / 64 % 64) * 64 + b % 64;
    }
  }

  /** Matching a sequence pattern on an extension of `s` goes at least as far, and
      exactly as far once the match on `s` has stopped inside `s` or is whole. */
  lemma {:induction false} MatchedOnExtension(s: seq<byte>, t: seq<byte>, n: nat, k: nat)
    requires 1 <= k <= n && k <= |s| <= |t| && t[..|s|] == s
    ensures Matched(s, n, k) <= Matched(t, n, k)
    ensures Matched(s, n, k) < |s| || Matched(s, n, k) == n ==> Matched(t, n, k) == Matched(s, n, k)
    decreases n - k
  {
    assert t[0] == s[0];
    if k < n && k < |s| {
      assert t[k] == s[k];
      if IsFollower(s[0], k, s[k]) {
        MatchedOnExtension(s, t, n, k + 1);
      }
    }
  }

  /** Once the classifier has decided (a complete character or an invalid run), more
      input bytes do not change its decision: only `Incomplete` waits for the future. */
  lemma {:induction false} ClassifyExtension(enc: Encoding, s: seq<byte>, t: seq<byte>)
    requires 1 <= |s| <= |t| && t[..|s|] == s
    requires !Classify(enc, s).Incomplete?
    ensures Classify(enc, t) == Classify(enc, s)
  {
    assert t[0] == s[0];
    var n := SequenceLength(s[0]);
    if enc == Utf8 && n >= 2 {
      MatchedOnExtension(s, t, n, 1);
      if Matched(s, n, 1) == n {
        assert t[..n] == s[..n];
      }
    }
  }

  /** Bytes carried over as pending (an incomplete sequence) are never split by the
      next decision: a character completed from them is longer than they are, and an
      invalid run starting at them covers all of them. */
  lemma {:induction false} PendingIsNotSplit(enc: Encoding, p: seq<byte>, t: seq<byte>)
    requires 1 <= |p| <= |t| && t[..|p|] == p
    requires Classify(enc, p).Incomplete?
    ensures Classify(enc, t).Complete? ==> Classify(enc, t).len > |p|
    ensures Classify(enc, t).Invalid? ==> Classify(enc, t).len >= |p|
  {
    assert t[0] == p[0];
    var n := SequenceLength(p[0]);
    MatchedOnExtension(p, t, n, 1);
  }

  /** The lowest allowed bytes for positions `from` to `n - 1` after `lead`. */
  function Padding(lead: byte, from: nat, n: nat): seq<byte>
    decreases n - from
  {
    if from >= n then [] else [FollowerLow(lead, from)] + Padding(lead, from + 1, n)
  }

  lemma {:induction false} PaddingAt(lead: byte, from: nat, n: nat, j: nat)
    requires from <= j < n
    ensures |Padding(lead, from, n)| == n - from
    ensures Padding(lead, from, n)[j - from] == FollowerLow(lead, j)
    decreases n - from
  {
    if j > from {
      PaddingAt(lead, from + 1, n, j);
    } else if from + 1 <= n - 1 {
      PaddingAt(lead, from + 1, n, n - 1);
    }
  }

  /** Padding a run that follows the pattern of an `n`-byte sequence with the lowest
      allowed bytes gives a well-formed sequence, so the run is a proper prefix of one. */
  lemma CompletePrefix(s: seq<byte>, n: nat)
    requires 1 <= |s| < n && SequenceLength(s[0]) == n
    requires forall j :: 1 <= j < |s| ==> IsFollower(s[0], j, s[j])
    ensures IsProperEncodingPrefix(s)
  {
    PaddingAt(s[0], |s|, n, |s|);
    var t := s + Padding(s[0], |s|, n);
    assert t[0] == s[0];
    forall j | 1 <= j < n ensures IsFollower(t[0], j, t[j]) {
      if j >= |s| {
        PaddingAt(s[0], |s|, n, j);
        assert t[j] == Padding(s[0], |s|, n)[j - |s|];
      }
    }
    WellFormedDecodes(t, n);
    var c := Utf8Scalar(t, n);
    assert t[..n] == t && t[..|s|] == s;
    assert StartsEncoding(s, c) && |s| < |Utf8Encode(c)|;
  }

  /** Bytes the classifier asks to wait on are a proper initial subsequence of a
      well-formed UTF-8 sequence: pending bytes never hold a complete character. */
  lemma IncompleteIsProperPrefix(enc: Encoding, s: seq<byte>)
    requires |s| > 0 && Classify(enc, s).Incomplete?
    ensures IsProperEncodingPrefix(s)
  {
    var n := SequenceLength(s[0]);
    MatchedFollowers(s, n, 1);
    CompletePrefix(s, n);
  }

  /** Conversely, a proper initial subsequence of a well-formed UTF-8 sequence is
      read as waiting for more bytes. */
  lemma ProperPrefixIsIncomplete(s: seq<byte>)
    requires |s| > 0 && IsProperEncodingPrefix(s)
    ensures Classify(Utf8, s).Incomplete?
  {
    var c :| IsScalarValue(c) && StartsEncoding(s, c) && |s| < |Utf8Encode(c)|;
    var e := Utf8Encode(c);
    EncodingClassifies(c, []);
    assert e + [] == e;
    if !Classify(Utf8, s).Incomplete? {
      ClassifyExtension(Utf8, s, e);
      assert false;
    }
  }

  /** An invalid UTF-8 run cannot be extended by its next byte into an initial
      subsequence of any well-formed sequence. */
  lemma Utf8InvalidRunIsMaximal(s: seq<byte>)
    requires |s| > 0 && Classify(Utf8, s).Invalid?
    ensures Classify(Utf8, s).len < |s| ==> !IsEncodingPrefix(s[..Classify(Utf8, s).len + 1])
  {
    var k := Classify(Utf8, s).len;
    if k < |s| && IsEncodingPrefix(s[..k + 1]) {
      var c :| IsScalarValue(c) && StartsEncoding(s[..k + 1], c);
      var e := Utf8Encode(c);
      EncodingClassifies(c, []);
      assert e + [] == e;
      assert e[0] == s[0] && e[k] == s[k] by {
        assert e[..k + 1] == s[..k + 1];
        assert e[..k + 1][0] == s[..k + 1][0] && e[..k + 1][k] == s[..k + 1][k];
      }
      var n := SequenceLength(s[0]);
      if n >= 2 {
        MatchedFollowers(s, n, 1);
        MatchedFollowers(e, n, 1);
      }
    }
  }

  /** A UTF-8 lead byte that starts some well-formed sequence gives an invalid run
      that is a proper initial subsequence of one; any other byte is a run of one. */
  lemma Utf8InvalidRunIsPrefix(s: seq<byte>)
    requires |s| > 0 && Classify(Utf8, s).Invalid?
    ensures var k := Classify(Utf8, s).len;
      (IsEncodingPrefix(s[..1]) ==> k < |s| && IsProperEncodingPrefix(s[..k])) &&
      (!IsEncodingPrefix(s[..1]) ==> k == 1)
  {
    var k := Classify(Utf8, s).len;
    var n := SequenceLength(s[0]);
    if n >= 2 {
      CompletePrefix(s[..1], n);
      MatchedFollowers(s, n, 1);
      CompletePrefix(s[..k], n);
    } else if IsEncodingPrefix(s[..1]) {
      var c :| IsScalarValue(c) && StartsEncoding(s[..1], c);
      EncodingClassifies(c, []);
      assert false;
    }
  }

  /** An invalid UTF-8 run is the maximal subpart of section 3.9 of the Unicode
      Standard: when the first byte can start a well-formed sequence, the run is the
      longest initial subsequence of one, and one more byte would not be; otherwise
      it is that single byte. */
  lemma Utf8InvalidIsMaximalSubpart(s: seq<byte>)
    requires |s| > 0 && Classify(Utf8, s).Invalid?
    ensures var k := Classify(Utf8, s).len;
      (k < |s| ==> !IsEncodingPrefix(s[..k + 1])) &&
      (IsEncodingPrefix(s[..1]) ==> k < |s| && IsProperEncodingPrefix(s[..k])) &&
      (!IsEncodingPrefix(s[..1]) ==> k == 1)
  {
    Utf8InvalidRunIsMaximal(s);
    Utf8InvalidRunIsPrefix(s);
  }
}
