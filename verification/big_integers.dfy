/** Byte strings read as integers.

    The verifier reads a log's sequence-number topic with Java's
    `new BigInteger(byte[])`: the bytes are a big-endian two's-complement
    number, so a leading byte of 0x80 or more makes the value negative, and an
    empty array is rejected with a `NumberFormatException`.  This module
    defines that reading, the matching encoder, and proves that they are
    inverse to each other.
 */
module BigIntegers {
  import opened Outcomes

  type uint8 = x: int | 0 <= x < 256

  type Bytes = seq<uint8>

  function Pow256(k: nat): (r: nat)
    ensures r > 0
  {
    if k == 0 then 1 else 256 * Pow256(k - 1)
  }

  /** Half the range of a w-byte string: two's complement covers
      [-Half(w), Half(w)). */
  function Half(w: nat): int
    requires w > 0
  {
    128 * Pow256(w - 1)
  }

  /** Value of a big-endian unsigned byte string: each byte is the next
      base-256 digit. */
  function UnsignedValue(b: Bytes): (v: nat)
    ensures v < Pow256(|b|)
  {
    if |b| == 0 then 0
    else UnsignedValue(b[..|b| - 1]) * 256 + b[|b| - 1]
  }

  /** The top bit of the leading byte is set exactly when the value reaches
      half the range. */
  lemma {:induction false} TopBit(b: Bytes)
    requires |b| > 0
    ensures UnsignedValue(b) >= Half(|b|) <==> b[0] >= 128
  {
    if |b| > 1 {
      var front := b[..|b| - 1];
      assert front[0] == b[0];
      TopBit(front);
    }
  }

  /** Value of a non-empty big-endian two's-complement byte string. */
  function SignedValue(b: Bytes): (n: int)
    requires |b| > 0
    ensures -Half(|b|) <= n < Half(|b|)
    ensures n < 0 <==> b[0] >= 128
  {
    var u := UnsignedValue(b);
    TopBit(b);
    if u < Half(|b|) then u else u - Pow256(|b|)
  }

  /** Java's `new BigInteger(byte[])`: fails on the empty array. */
  function BigIntegerOf(b: Bytes): (r: Option<int>)
    ensures r.None? <==> |b| == 0
    ensures r.Some? ==> -Half(|b|) <= r.value < Half(|b|)
    ensures r.Some? ==> r.value == UnsignedValue(b) - (if b[0] >= 128 then Pow256(|b|) else 0)
  {
    if |b| == 0 then None else Some(SignedValue(b))
  }

  /** The w-byte big-endian string of a value below 256^w. */
  function UnsignedBytes(v: nat, w: nat): (b: Bytes)
    requires v < Pow256(w)
    ensures |b| == w
  {
    if w == 0 then [] else UnsignedBytes(v / 256, w - 1) + [v % 256]
  }

  /** n is representable in w bytes of two's complement. */
  predicate Fits(n: int, w: nat)
  {
    w > 0 && -Half(w) <= n < Half(w)
  }

  /** The w-byte two's-complement string of n. */
  function TwosComplement(n: int, w: nat): (b: Bytes)
    requires Fits(n, w)
    ensures |b| == w
  {
    UnsignedBytes(if n >= 0 then n else n + Pow256(w), w)
  }

  /** A width that suffices for n (one byte more per factor 256). */
  function EncodingWidth(n: int): (w: nat)
    ensures Fits(n, w)
    decreases if n < 0 then -n else n
  {
    if -128 <= n < 128 then 1
    else
      var w' := EncodingWidth(n / 256);
      assert Half(w' + 1) == 256 * Half(w');
      1 + w'
  }

  /** Reading back the big-endian string of v gives v. */
  lemma {:induction false} UnsignedRoundTrip(v: nat, w: nat)
    requires v < Pow256(w)
    ensures UnsignedValue(UnsignedBytes(v, w)) == v
  {
    if w > 0 {
      var b := UnsignedBytes(v, w);
      assert b[..w - 1] == UnsignedBytes(v / 256, w - 1);
      UnsignedRoundTrip(v / 256, w - 1);
    }
  }

  /** A w-byte unsigned string (such as a 32-byte uint256 topic) is read by
      `new BigInteger` as its own value when its top bit is clear and as that
      value minus 256^w when the top bit is set. */
  lemma UnsignedReadAsSigned(v: nat, w: nat)
    requires w > 0 && v < Pow256(w)
    ensures BigIntegerOf(UnsignedBytes(v, w)) == Some(if v < Half(w) then v else v - Pow256(w))
  {
    UnsignedRoundTrip(v, w);
  }

  /** `new BigInteger` inverts the two's-complement encoding. */
  lemma SignedRoundTrip(n: int, w: nat)
    requires Fits(n, w)
    ensures BigIntegerOf(TwosComplement(n, w)) == Some(n)
  {
    var u := if n >= 0 then n else n + Pow256(w);
    UnsignedReadAsSigned(u, w);
  }
}
