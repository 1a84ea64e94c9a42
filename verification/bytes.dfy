/** Bytes and the little-endian two's-complement reading of byte groups,
    stated once, independently of the reader that decodes them. */
module Bytes {

  /** One byte of the input stream. */
  type byte = x: int | 0 <= x < 256

  /** The number of distinct values an `n`-byte field can hold. */
  function Pow256(n: nat): (r: nat)
    ensures r >= 1
  {
    if n == 0 then 1 else 256 * Pow256(n - 1)
  }

  /** Half of `Pow256(n)`: the bound of the signed range of an `n`-byte field. */
  function Half(n: nat): int
    requires n > 0
  {
    128 * Pow256(n - 1)
  }

  /** The unsigned value of `s` read least significant byte first. */
  function UnsignedLE(s: seq<byte>): (u: nat)
    ensures u < Pow256(|s|)
  {
    if |s| == 0 then 0 else s[0] + 256 * UnsignedLE(s[1..])
  }

  /** True when `v` fits a signed `n`-byte field. */
  predicate InSignedRange(v: int, n: nat)
    requires n > 0
  {
    -Half(n) <= v < Half(n)
  }

  /** The two's-complement value of the little-endian group `s`. */
  function SignedLE(s: seq<byte>): (v: int)
    requires |s| > 0
    ensures InSignedRange(v, |s|)
  {
    var u := UnsignedLE(s);
    if u >= Half(|s|) then u - Pow256(|s|) else u
  }

  /** The `n` bytes, least significant first, whose unsigned value is `u`. */
  function EncodeUnsigned(u: nat, n: nat): (s: seq<byte>)
    requires u < Pow256(n)
    ensures |s| == n
  {
    if n == 0 then [] else [u % 256] + EncodeUnsigned(u / 256, n - 1)
  }

  /** The `n`-byte little-endian two's-complement encoding of `v`. */
  function EncodeLE(v: int, n: nat): (s: seq<byte>)
    requires n > 0 && InSignedRange(v, n)
    ensures |s| == n
  {
    EncodeUnsigned(if v < 0 then v + Pow256(n) else v, n)
  }

  /** Reading back an unsigned encoding gives the encoded value. */
  lemma {:induction false} UnsignedRoundTrip(u: nat, n: nat)
    requires u < Pow256(n)
    ensures UnsignedLE(EncodeUnsigned(u, n)) == u
  {
    if n > 0 {
      UnsignedRoundTrip(u / 256, n - 1);
      var s := EncodeUnsigned(u, n);
      assert s[1..] == EncodeUnsigned(u / 256, n - 1);
    }
  }

  /** Reading back a signed encoding gives the encoded value. */
  lemma SignedRoundTrip(v: int, n: nat)
    requires n > 0 && InSignedRange(v, n)
    ensures SignedLE(EncodeLE(v, n)) == v
  {
    UnsignedRoundTrip(if v < 0 then v + Pow256(n) else v, n);
  }
}
