/**
 * Fixed-width little-endian integers, as the protocol puts them on the wire.
 * A value of `width` bytes is stored least significant byte first; signed
 * values use two's complement over the same bytes.
 */
module Bytes {

  newtype byte = x: int | 0 <= x < 256

  /** 256 to the power n: the number of distinct n-byte strings. */
  function Pow256(n: nat): (r: nat)
    ensures r >= 1
  {
    if n == 0 then 1 else 256 * Pow256(n - 1)
  }

  /** The n-byte little-endian encoding of x modulo 256^width. */
  function EncodeUnsigned(x: nat, width: nat): (r: seq<byte>)
    ensures |r| == width
  {
    if width == 0 then [] else [(x % 256) as byte] + EncodeUnsigned(x / 256, width - 1)
  }

  /** The unsigned integer that a little-endian byte string denotes. */
  function DecodeUnsigned(s: seq<byte>): (r: nat)
    ensures r < Pow256(|s|)
  {
    if s == [] then 0 else s[0] as nat + 256 * DecodeUnsigned(s[1..])
  }

  lemma {:induction false} DecodeEncodeUnsigned(x: nat, width: nat)
    requires x < Pow256(width)
    ensures DecodeUnsigned(EncodeUnsigned(x, width)) == x
  {
    if width > 0 {
      var e := EncodeUnsigned(x, width);
      assert e[1..] == EncodeUnsigned(x / 256, width - 1);
      DecodeEncodeUnsigned(x / 256, width - 1);
    }
  }

  lemma {:induction false} EncodeDecodeUnsigned(s: seq<byte>)
    ensures EncodeUnsigned(DecodeUnsigned(s), |s|) == s
  {
    if s != [] {
      var d := DecodeUnsigned(s);
      assert d % 256 == s[0] as nat && d / 256 == DecodeUnsigned(s[1..]);
      EncodeDecodeUnsigned(s[1..]);
    }
  }

  /** x is representable as a two's complement integer of `width` bytes. */
  predicate FitsSigned(x: int, width: nat)
  {
    -(Pow256(width) as int) <= 2 * x < Pow256(width)
  }

  /** The `width`-byte little-endian two's complement encoding of x. */
  function EncodeSigned(x: int, width: nat): (r: seq<byte>)
    requires FitsSigned(x, width)
    ensures |r| == width
  {
    EncodeUnsigned(if x < 0 then x + Pow256(width) else x, width)
  }

  /** The signed integer that a little-endian two's complement byte string denotes. */
  function DecodeSigned(s: seq<byte>): (r: int)
    ensures FitsSigned(r, |s|)
  {
    var u := DecodeUnsigned(s);
    if 2 * u >= Pow256(|s|) then u - Pow256(|s|) else u
  }

  lemma DecodeEncodeSigned(x: int, width: nat)
    requires FitsSigned(x, width)
    ensures DecodeSigned(EncodeSigned(x, width)) == x
  {
    var u := if x < 0 then x + Pow256(width) else x;
    DecodeEncodeUnsigned(u, width);
  }

  lemma EncodeDecodeSigned(s: seq<byte>)
    ensures EncodeSigned(DecodeSigned(s), |s|) == s
  {
    EncodeDecodeUnsigned(s);
  }

  /** Two byte strings of one width that decode to the same signed value are equal. */
  lemma DecodeSignedInjective(s: seq<byte>, t: seq<byte>)
    requires |s| == |t| && DecodeSigned(s) == DecodeSigned(t)
    ensures s == t
  {
    EncodeDecodeSigned(s);
    EncodeDecodeSigned(t);
  }
}
