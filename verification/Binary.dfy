/** Byte strings, fixed-width integers and their big-endian encodings. */
module Binary {

  type byte = x: int | 0 <= x < 0x100

  type Bytes = seq<byte>

  const U64_MAX: int := 0xFFFF_FFFF_FFFF_FFFF

  type U64 = x: int | 0 <= x <= U64_MAX

  const U32_MAX: int := 0xFFFF_FFFF

  type U32 = x: int | 0 <= x <= U32_MAX

  /** Release builds do not trap on overflow: `u64::MAX + 1` is 0. */
  function WrapSucc(n: U64): U64 {
    if n == U64_MAX then 0 else n + 1
  }

  function Min(a: int, b: int): int {
    if a <= b then a else b
  }

  function Max(a: int, b: int): int {
    if a >= b then a else b
  }

  function Pow256(width: nat): (p: nat)
    ensures p >= 1
  {
    if width == 0 then 1 else 256 * Pow256(width - 1)
  }

  lemma Pow256Values()
    ensures Pow256(2) == 0x1_0000
    ensures Pow256(4) == U32_MAX + 1
    ensures Pow256(8) == U64_MAX + 1
  {
    assert Pow256(2) == 256 * Pow256(1) == 0x1_0000;
    assert Pow256(4) == 256 * Pow256(3) == 256 * 256 * Pow256(2);
    assert Pow256(6) == 256 * Pow256(5) == 256 * 256 * Pow256(4);
    assert Pow256(8) == 256 * Pow256(7) == 256 * 256 * Pow256(6);
  }

  /** `n.to_be_bytes()` for an unsigned integer of `width` bytes. */
  function BigEndian(n: nat, width: nat): (b: Bytes)
    ensures |b| == width
  {
    if width == 0 then [] else BigEndian(n / 256, width - 1) + [n % 256]
  }

  /** `uN::from_be_bytes(b)`. */
  function FromBigEndian(b: Bytes): nat {
    if b == [] then 0 else FromBigEndian(b[..|b| - 1]) * 256 + b[|b| - 1]
  }

  lemma {:induction false} BigEndianRoundTrip(n: nat, width: nat)
    requires n < Pow256(width)
    ensures FromBigEndian(BigEndian(n, width)) == n
  {
    if width > 0 {
      BigEndianRoundTrip(n / 256, width - 1);
      assert BigEndian(n, width)[..width - 1] == BigEndian(n / 256, width - 1);
    }
  }

  lemma BigEndianInjective(m: nat, n: nat, width: nat)
    requires m < Pow256(width) && n < Pow256(width)
    requires BigEndian(m, width) == BigEndian(n, width)
    ensures m == n
  {
    BigEndianRoundTrip(m, width);
    BigEndianRoundTrip(n, width);
  }
}
