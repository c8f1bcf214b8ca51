/** Base-128 variable-length integers: seven payload bits per byte, least
    significant group first, the 0x80 continuation bit set on every byte but
    the last (Protocol Buffers encoding guide, "Base 128 Varints"). */
module Varint {
  import opened Common

  /** The longest varint a decoder accepts: ten bytes carry 70 bits, enough
      for every 64-bit value. */
  const MAX_VARINT_BYTES: nat := 10

  function Pow128(k: nat): (r: nat)
    ensures r >= 1
  {
    if k == 0 then 1 else 128 * Pow128(k - 1)
  }

  /** True when every byte but the last carries the continuation bit and the
      last does not: the shape of one complete varint. */
  predicate WellTerminated(s: seq<byte>) {
    && |s| >= 1
    && s[|s| - 1] < TWO_7
    && forall i :: 0 <= i < |s| - 1 ==> s[i] >= TWO_7
  }

  /** The little-endian base-128 value of a byte sequence, reading only the
      low seven bits of each byte. */
  function GroupValue(s: seq<byte>): nat {
    if |s| == 0 then 0 else s[0] % TWO_7 + TWO_7 * GroupValue(s[1..])
  }

  function Encode(n: nat): (r: seq<byte>)
    ensures WellTerminated(r)
    ensures GroupValue(r) == n
    decreases n
  {
    if n < TWO_7 then [n]
    else
      var q, b := n / TWO_7, n % TWO_7;
      var tail := Encode(q);
      Prepend(TWO_7 + b, tail);
      [TWO_7 + b] + tail
  }

  /** A continuation byte in front of a complete varint gives a complete
      varint whose value gains that byte's seven bits at the bottom. */
  lemma Prepend(b: byte, tail: seq<byte>)
    requires b >= TWO_7 && WellTerminated(tail)
    ensures WellTerminated([b] + tail)
    ensures GroupValue([b] + tail) == (b - TWO_7) + TWO_7 * GroupValue(tail)
  {
    var r := [b] + tail;
    assert r[1..] == tail;
    assert forall i :: 1 <= i < |r| ==> r[i] == tail[i - 1];
  }

  lemma EncodeStep(n: nat)
    requires n >= TWO_7
    ensures Encode(n) == [TWO_7 + n % TWO_7] + Encode(n / TWO_7)
  {
  }

  /** True when none of the first `budget` bytes of `s` ends a varint:
      each of them carries the continuation bit. */
  predicate Unterminated(s: seq<byte>, budget: nat)
    decreases budget
  {
    |s| == 0 || budget == 0 || (s[0] >= TWO_7 && Unterminated(s[1..], budget - 1))
  }

  /** Unterminated, stated byte by byte. */
  lemma {:induction false} UnterminatedBytes(s: seq<byte>, budget: nat)
    ensures Unterminated(s, budget) <==> forall i :: 0 <= i < |s| && i < budget ==> s[i] >= TWO_7
    decreases budget
  {
    if |s| > 0 && budget > 0 {
      UnterminatedBytes(s[1..], budget - 1);
      assert forall i :: 1 <= i < |s| ==> s[i] == s[1..][i - 1];
    }
  }

  /** Reads one varint from the front of `s`, accepting at most `budget`
      bytes; returns the value and the number of bytes consumed. */
  function DecodeGroups(s: seq<byte>, budget: nat): (r: Result<(nat, nat)>)
    ensures r.Ok? ==> 1 <= r.value.1 <= |s| && r.value.1 <= budget
    ensures r.Ok? ==> WellTerminated(s[..r.value.1])
    ensures r.Ok? ==> r.value.0 == GroupValue(s[..r.value.1])
    ensures r.Err? ==> r.error == MalformedVarint
    ensures r.Err? <==> Unterminated(s, budget)
    decreases budget
  {
    if |s| == 0 || budget == 0 then Err(MalformedVarint)
    else if s[0] < TWO_7 then
      assert s[..1][1..] == [];
      Ok((s[0], 1))
    else
      match DecodeGroups(s[1..], budget - 1)
      case Err(e) => Err(e)
      case Ok(p) =>
        assert s[..p.1 + 1] == [s[0]] + s[1..][..p.1];
        Prepend(s[0], s[1..][..p.1]);
        Ok((s[0] - TWO_7 + TWO_7 * p.0, p.1 + 1))
  }

  /** Reads one varint from the front of a byte stream; fails with
      MalformedVarint exactly when none of its first ten bytes ends a
      varint: the stream ends before a terminating byte, or the varint runs
      past ten bytes. */
  function Decode(s: seq<byte>): (r: Result<(nat, nat)>)
    ensures r.Ok? ==> 1 <= r.value.1 <= |s| && r.value.1 <= MAX_VARINT_BYTES
    ensures r.Ok? ==> WellTerminated(s[..r.value.1])
    ensures r.Ok? ==> r.value.0 == GroupValue(s[..r.value.1])
    ensures r.Err? ==> r.error == MalformedVarint
    ensures r.Err? <==> Unterminated(s, MAX_VARINT_BYTES)
  {
    DecodeGroups(s, MAX_VARINT_BYTES)
  }

  lemma {:induction false} EncodeLengthBound(n: nat, k: nat)
    requires 1 <= k && n < Pow128(k)
    ensures |Encode(n)| <= k
    decreases n
  {
    if n >= TWO_7 {
      assert k >= 2;
      var p := Pow128(k - 1);
      assert n < TWO_7 * p;
      assert n / TWO_7 < p;
      EncodeLengthBound(n / TWO_7, k - 1);
      EncodeStep(n);
    }
  }

  /** Every 64-bit unsigned value encodes in at most ten bytes. */
  lemma EncodeFitsTenBytes(n: nat)
    requires n < TWO_64
    ensures |Encode(n)| <= MAX_VARINT_BYTES
  {
    assert Pow128(10) == 0x40_0000_0000_0000_0000;
    EncodeLengthBound(n, 10);
  }

  lemma DecodeGroupsEncode(n: nat, rest: seq<byte>, budget: nat)
    requires |Encode(n)| <= budget
    ensures DecodeGroups(Encode(n) + rest, budget) == Ok((n, |Encode(n)|))
  {
    DecodeWellTerminated(Encode(n), rest, budget);
  }

  /** The group decoder reads a complete varint within its budget back as
      its group value, whatever follows it. */
  lemma {:induction false} DecodeWellTerminated(w: seq<byte>, rest: seq<byte>, budget: nat)
    requires WellTerminated(w) && |w| <= budget
    ensures DecodeGroups(w + rest, budget) == Ok((GroupValue(w), |w|))
    decreases |w|
  {
    var tail := w[1..];
    assert w + rest == [w[0]] + (tail + rest);
    if |w| == 1 {
      assert tail == [];
      DecodeLast(w[0], tail + rest, budget);
    } else {
      assert forall i :: 0 <= i < |tail| ==> tail[i] == w[i + 1];
      assert WellTerminated(tail);
      DecodeWellTerminated(tail, rest, budget - 1);
      DecodeStep(w[0], tail + rest, budget, GroupValue(tail), |tail|);
    }
  }

  /** A byte without the continuation bit is a whole varint by itself. */
  lemma DecodeLast(b: byte, rest: seq<byte>, budget: nat)
    requires b < TWO_7 && budget >= 1
    ensures DecodeGroups([b] + rest, budget) == Ok((b, 1))
  {
    assert ([b] + rest)[0] == b;
  }

  /** One continuation byte in front of a decodable varint adds seven low
      bits to its value. */
  lemma DecodeStep(b: byte, s: seq<byte>, budget: nat, v: nat, k: nat)
    requires b >= TWO_7 && budget >= 1
    requires DecodeGroups(s, budget - 1) == Ok((v, k))
    ensures DecodeGroups([b] + s, budget) == Ok((b - TWO_7 + TWO_7 * v, k + 1))
  {
    assert ([b] + s)[1..] == s;
  }

  /** Decoding undoes encoding for every 64-bit value, whatever follows it. */
  lemma RoundTrip(n: nat, rest: seq<byte>)
    requires n < TWO_64
    ensures Decode(Encode(n) + rest) == Ok((n, |Encode(n)|))
  {
    EncodeFitsTenBytes(n);
    DecodeGroupsEncode(n, rest, MAX_VARINT_BYTES);
  }

  /** Encoding is injective: distinct values never share a varint. */
  lemma EncodeInjective(a: nat, b: nat)
    requires Encode(a) == Encode(b)
    ensures a == b
  {
  }

  /** Ten continuation bytes exceed the ten-byte limit, whatever follows. */
  lemma OverlongFails(s: seq<byte>)
    requires |s| >= MAX_VARINT_BYTES
    requires forall i :: 0 <= i < MAX_VARINT_BYTES ==> s[i] >= TWO_7
    ensures Decode(s) == Err(MalformedVarint)
  {
  }

  /** The worked example of the encoding guide: 300 is 0xAC 0x02. */
  lemma Encode300()
    ensures Encode(300) == [0xAC, 0x02]
  {
  }
}
