/** Fixed-width unsigned integers as bounded subsets of int, their wrapping arithmetic and their
    big-endian byte encodings. */
module Primitives {

  type byte = x: int | 0 <= x < 0x100
  type u16 = x: int | 0 <= x < 0x1_0000
  type u64 = x: int | 0 <= x < 0x1_0000_0000_0000_0000
  type i32 = x: int | -0x8000_0000 <= x < 0x8000_0000
  type i64 = x: int | -0x8000_0000_0000_0000 <= x < 0x8000_0000_0000_0000

  /** n zero bytes. */
  function Zeros(n: nat): (r: seq<byte>)
    ensures |r| == n && forall k :: 0 <= k < n ==> r[k] == 0
  {
    seq(n, _ => 0)
  }

  const U16_MAX: u16 := 0xFFFF
  const U16_MODULUS: nat := 0x1_0000
  const U64_MAX: u64 := 0xFFFF_FFFF_FFFF_FFFF
  const U64_MODULUS: nat := 0x1_0000_0000_0000_0000

  /** Rust's `x as u64` for any integer type: two's complement truncation to 64 bits. */
  function AsU64(x: int): (r: u64)
    ensures (x - r) % U64_MODULUS == 0
    ensures 0 <= x < U64_MODULUS ==> r == x
    ensures -(U64_MODULUS as int) <= x < 0 ==> r == x + U64_MODULUS
  {
    x % U64_MODULUS
  }

  /** A u16 subtraction of 1 as a release build performs it (wrapping at 0). */
  function WrappingDecrement(x: u16): (r: u16)
    ensures x > 0 ==> r == x - 1
    ensures x == 0 ==> r == U16_MAX
  {
    (x - 1) % U16_MODULUS
  }

  function Pow256(n: nat): (p: nat)
    ensures p >= 1
  {
    if n == 0 then 1 else 256 * Pow256(n - 1)
  }

  lemma Pow256Widths()
    ensures Pow256(2) == U16_MODULUS
    ensures Pow256(8) == U64_MODULUS
  {
  }

  /** The n least significant base-256 digits of x, most significant first. */
  function ToBigEndian(x: nat, n: nat): (bs: seq<byte>)
    ensures |bs| == n
  {
    if n == 0 then [] else ToBigEndian(x / 256, n - 1) + [x % 256]
  }

  /** The number whose base-256 digits, most significant first, are bs. */
  function FromBigEndian(bs: seq<byte>): (x: nat)
    ensures x < Pow256(|bs|)
  {
    if bs == [] then 0 else FromBigEndian(bs[..|bs| - 1]) * 256 + bs[|bs| - 1]
  }

  lemma {:induction false} FromToBigEndian(x: nat, n: nat)
    requires x < Pow256(n)
    ensures FromBigEndian(ToBigEndian(x, n)) == x
  {
    if n > 0 {
      var prefix := ToBigEndian(x / 256, n - 1);
      assert ToBigEndian(x, n)[..n - 1] == prefix;
      FromToBigEndian(x / 256, n - 1);
    }
  }

  lemma {:induction false} ToFromBigEndian(bs: seq<byte>)
    ensures ToBigEndian(FromBigEndian(bs), |bs|) == bs
  {
    if bs != [] {
      var prefix := bs[..|bs| - 1];
      var v := FromBigEndian(bs);
      assert v / 256 == FromBigEndian(prefix) && v % 256 == bs[|bs| - 1];
      ToFromBigEndian(prefix);
      assert bs == prefix + [bs[|bs| - 1]];
    }
  }

  /** `u64::to_be_bytes` */
  function U64ToBytes(x: u64): (bs: seq<byte>)
    ensures |bs| == 8
    ensures FromBigEndian(bs) == x
  {
    Pow256Widths();
    FromToBigEndian(x, 8);
    ToBigEndian(x, 8)
  }

  /** `u64::from_be_bytes` */
  function U64FromBytes(bs: seq<byte>): (x: u64)
    requires |bs| == 8
    ensures U64ToBytes(x) == bs
  {
    Pow256Widths();
    ToFromBigEndian(bs);
    FromBigEndian(bs)
  }

  /** `u16::to_be_bytes` */
  function U16ToBytes(x: u16): (bs: seq<byte>)
    ensures |bs| == 2
    ensures FromBigEndian(bs) == x
  {
    Pow256Widths();
    FromToBigEndian(x, 2);
    ToBigEndian(x, 2)
  }

  /** `u16::from_be_bytes` */
  function U16FromBytes(bs: seq<byte>): (x: u16)
    requires |bs| == 2
    ensures U16ToBytes(x) == bs
  {
    Pow256Widths();
    ToFromBigEndian(bs);
    FromBigEndian(bs)
  }

  lemma U64BytesRoundTrip(x: u64)
    ensures U64FromBytes(U64ToBytes(x)) == x
  {
  }

  lemma U16BytesRoundTrip(x: u16)
    ensures U16FromBytes(U16ToBytes(x)) == x
  {
  }
}
