/** Machine integers of the source as subsets of int, and the
    little-endian byte codec that the binary encodings use. Float values are
    carried as their IEEE-754 bit patterns (F32Bits, F64Bits), so that a
    little-endian round trip is exact. */
module Bytes {

  type byte = x: int | 0 <= x < 0x100
  type u16 = x: int | 0 <= x < 0x1_0000
  type u32 = x: int | 0 <= x < 0x1_0000_0000
  type usize = x: int | 0 <= x < 0x1_0000_0000_0000_0000
  type i8 = x: int | -0x80 <= x < 0x80
  type i16 = x: int | -0x8000 <= x < 0x8000
  type i32 = x: int | -0x8000_0000 <= x < 0x8000_0000
  type F32Bits = x: int | 0 <= x < 0x1_0000_0000
  type F64Bits = x: int | 0 <= x < 0x1_0000_0000_0000_0000

  /** 256^n, the number of values n bytes can hold. */
  function Pow256(n: nat): (r: nat)
    ensures r >= 1
  {
    if n == 0 then 1 else 256 * Pow256(n - 1)
  }

  lemma {:induction false} Pow256Values()
    ensures Pow256(1) == 0x100 && Pow256(2) == 0x1_0000
    ensures Pow256(4) == 0x1_0000_0000 && Pow256(8) == 0x1_0000_0000_0000_0000
  {
    assert Pow256(1) == 256 * Pow256(0);
    assert Pow256(2) == 256 * Pow256(1);
    assert Pow256(3) == 256 * Pow256(2);
    assert Pow256(4) == 256 * Pow256(3);
    assert Pow256(5) == 256 * Pow256(4);
    assert Pow256(6) == 256 * Pow256(5);
    assert Pow256(7) == 256 * Pow256(6);
    assert Pow256(8) == 256 * Pow256(7);
  }

  /** The unsigned value of bytes read least significant first. */
  function LeDecode(bs: seq<byte>): nat
  {
    if |bs| == 0 then 0 else bs[0] + 256 * LeDecode(bs[1..])
  }

  /** n bytes hold a value below 256^n. */
  lemma {:induction false} LeDecodeBound(bs: seq<byte>)
    ensures LeDecode(bs) < Pow256(|bs|)
  {
    if |bs| > 0 {
      LeDecodeBound(bs[1..]);
    }
  }

  /** The n little-endian bytes of x. */
  function LeEncode(x: nat, n: nat): (bs: seq<byte>)
    requires x < Pow256(n)
    ensures |bs| == n
    ensures LeDecode(bs) == x
  {
    if n == 0 then []
    else
      var rest := LeEncode(x / 256, n - 1);
      assert ([x % 256] + rest)[1..] == rest;
      [x % 256] + rest
  }

  /** Encoding is also a left inverse: every byte string is the encoding of its value. */
  lemma {:induction false} LeEncodeOfDecode(bs: seq<byte>)
    ensures LeDecode(bs) < Pow256(|bs|)
    ensures LeEncode(LeDecode(bs), |bs|) == bs
  {
    LeDecodeBound(bs);
    if |bs| > 0 {
      var v := LeDecode(bs[1..]);
      assert LeDecode(bs) == bs[0] + 256 * v;
      assert LeDecode(bs) % 256 == bs[0];
      assert LeDecode(bs) / 256 == v;
      LeEncodeOfDecode(bs[1..]);
      assert bs == [bs[0]] + bs[1..];
    }
  }

  /** Two's-complement reading of an unsigned value of the given width. */
  function Signed(u: nat, modulus: nat): int
  {
    if 2 * u < modulus then u else u - modulus
  }

  /** The unsigned representative of a signed value. */
  function Unsigned(x: int, modulus: nat): int
  {
    if x < 0 then x + modulus else x
  }

  lemma {:induction false} SignedUnsigned(x: int, modulus: nat)
    requires -(modulus as int) <= 2 * x < modulus
    ensures 0 <= Unsigned(x, modulus) < modulus
    ensures Signed(Unsigned(x, modulus), modulus) == x
  {
  }
}
