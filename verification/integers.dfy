/** Integer reinterpretations used on the wire: two's-complement wrap-around
    of a signed value into an unsigned word, and the ZigZag mapping of the
    Protocol Buffers encoding guide ("Signed Integers"). */
module Integers {
  import opened Common

  /** The signed range of a word of 2*half values: [-half, half). */
  predicate InSigned(n: int, half: nat) {
    -(half as int) <= n < half
  }

  /** The unsigned word holding the two's-complement bit pattern of a
      signed value: negatives wrap around to the top half of the word. */
  function ToUnsigned(n: int, half: nat): (r: nat)
    requires InSigned(n, half)
    ensures r < 2 * half
    ensures r < half <==> n >= 0
  {
    if n >= 0 then n else n + 2 * half
  }

  /** Reads an unsigned word as a two's-complement signed value. */
  function ToSigned(u: nat, half: nat): (r: int)
    requires u < 2 * half
    ensures InSigned(r, half)
    ensures r >= 0 <==> u < half
  {
    if u < half then u else u - 2 * half
  }

  lemma SignedRoundTrip(n: int, half: nat)
    requires InSigned(n, half)
    ensures ToSigned(ToUnsigned(n, half), half) == n
  {
  }

  lemma UnsignedRoundTrip(u: nat, half: nat)
    requires u < 2 * half
    ensures ToUnsigned(ToSigned(u, half), half) == u
  {
  }

  /** A 32-bit value sign-extended to 64 bits and truncated back to its low
      32 bits is unchanged: how an int32 survives a 64-bit varint. */
  lemma Int32ThroughInt64(n: int)
    requires InSigned(n, TWO_31)
    ensures ToSigned(ToUnsigned(n, TWO_63) % TWO_32, TWO_31) == n
  {
    if n < 0 {
      var u := ToUnsigned(n, TWO_63);
      var r := n + TWO_32;
      assert 0 <= r < TWO_32;
      assert u == 0xFFFF_FFFF * TWO_32 + r;
      assert u / TWO_32 == 0xFFFF_FFFF;
      assert u % TWO_32 == r;
    }
  }

  /** ZigZag: 0, -1, 1, -2, 2, ... map to 0, 1, 2, 3, 4, ... */
  function ZigZagEncode(n: int): (r: nat)
    ensures r % 2 == 0 <==> n >= 0
  {
    if n >= 0 then 2 * n else -2 * n - 1
  }

  function ZigZagDecode(u: nat): (r: int)
    ensures r >= 0 <==> u % 2 == 0
  {
    if u % 2 == 0 then u / 2 else -((u + 1) / 2)
  }

  lemma ZigZagRoundTrip(n: int)
    ensures ZigZagDecode(ZigZagEncode(n)) == n
  {
  }

  lemma ZigZagInverseRoundTrip(u: nat)
    ensures ZigZagEncode(ZigZagDecode(u)) == u
  {
  }

  /** ZigZag maps the signed range of a word exactly onto its unsigned
      range, so sint32 and sint64 values fit 32- and 64-bit varints. */
  lemma ZigZagRange(n: int, half: nat)
    ensures InSigned(n, half) <==> ZigZagEncode(n) < 2 * half
  {
  }

  /** Small magnitudes stay small: the first values of the mapping. */
  lemma ZigZagExamples()
    ensures ZigZagEncode(0) == 0 && ZigZagEncode(-1) == 1
    ensures ZigZagEncode(1) == 2 && ZigZagEncode(-2) == 3
    ensures ZigZagEncode(TWO_31 - 1) == TWO_32 - 2
    ensures ZigZagEncode(-(TWO_31 as int)) == TWO_32 - 1
  {
  }
}
