/** Fixed-width little-endian words: fixed32/sfixed32 use four bytes,
    fixed64/sfixed64 eight, least significant byte first. */
module FixedWidth {
  import opened Common

  function Pow256(k: nat): (r: nat)
    ensures r >= 1
  {
    if k == 0 then 1 else 256 * Pow256(k - 1)
  }

  lemma WordSizes()
    ensures Pow256(4) == TWO_32
    ensures Pow256(8) == TWO_64
  {
  }

  /** The little-endian value of a byte sequence. */
  function Decode(s: seq<byte>): (r: nat)
    ensures r < Pow256(|s|)
  {
    if |s| == 0 then 0
    else
      var rest := Decode(s[1..]);
      assert rest <= Pow256(|s| - 1) - 1;
      assert 256 * rest <= 256 * Pow256(|s| - 1) - 256;
      s[0] + 256 * rest
  }

  /** The `width` low-order bytes of `n`, least significant first. */
  function Encode(n: nat, width: nat): (r: seq<byte>)
    requires n < Pow256(width)
    ensures |r| == width
    ensures Decode(r) == n
  {
    if width == 0 then []
    else
      assert n / 256 < Pow256(width - 1);
      var tail := Encode(n / 256, width - 1);
      assert ([n % 256] + tail)[1..] == tail;
      [n % 256] + tail
  }

  /** Encoding the value a byte sequence stands for gives back the bytes. */
  lemma {:induction false} EncodeDecode(s: seq<byte>)
    ensures Encode(Decode(s), |s|) == s
  {
    if |s| > 0 {
      var rest := Decode(s[1..]);
      assert Decode(s) / 256 == rest;
      assert Decode(s) % 256 == s[0];
      EncodeDecode(s[1..]);
      assert s == [s[0]] + s[1..];
    }
  }
}
