/** Machine words as the integers of their range, and the order of the curve group. */
module Words {
  type u32 = x: int | 0 <= x < 0x1_0000_0000
  type u64 = x: int | 0 <= x < 0x1_0000_0000_0000_0000
  type u128 = x: int | 0 <= x < 0x1_0000_0000_0000_0000_0000_0000_0000_0000

  /** 64-bit arithmetic wraps around. */
  function Wrap64(x: int): u64 { x % 0x1_0000_0000_0000_0000 }

  function Multiplied(a: int, b: int): int { a * b }

  lemma MulBounds(x: int, y: int, m: int, n: int)
    requires 0 <= x <= m && 0 <= y <= n
    ensures 0 <= x * y <= m * n
  {
    assert x * y <= m * y <= m * n;
  }
}

module GroupOrder {
  /** The number of points on secp256k1, from section 2.4.1 of SEC 2. */
  const N := 0xFFFFFFFF_FFFFFFFF_FFFFFFFF_FFFFFFFE_BAAEDCE6_AF48A03B_BFD25E8C_D0364141

  lemma OrderIs()
    ensures N == 0xFFFFFFFF_FFFFFFFF_FFFFFFFF_FFFFFFFE_BAAEDCE6_AF48A03B_BFD25E8C_D0364141
  {
  }
}
