/** Field elements of secp256k1 as five 52-bit limbs with spare room, and the multiplication that
    reduces while it accumulates. Machine words are the integers of their range, so that every
    assignment shows that nothing overflows; `& M` and `>> 52` are remainder and quotient by 2^52. */
module FieldLimbs {
  import opened PrimeField
  import opened Words

  function Digits5(d0: int, d1: int, d2: int, d3: int, d4: int): int {
    d0 + d1 * 0x10_0000_0000_0000
    + d2 * 0x100_0000_0000_0000_0000_0000_0000
    + d3 * 0x1000_0000_0000_0000_0000_0000_0000_0000_0000_0000
    + d4 * 0x1_0000_0000_0000_0000_0000_0000_0000_0000_0000_0000_0000_0000_0000
  }

  function Digits9(d0: int, d1: int, d2: int, d3: int, d4: int, d5: int, d6: int, d7: int, d8: int): int {
    Digits5(d0, d1, d2, d3, d4)
    + d5 * 0x10_0000_0000_0000_0000_0000_0000_0000_0000_0000_0000_0000_0000_0000_0000_0000_0000
    + d6 * 0x100_0000_0000_0000_0000_0000_0000_0000_0000_0000_0000_0000_0000_0000_0000_0000_0000_0000_0000_0000
    + d7 * 0x10000000000000000000000000000000000000000000000000000000000000000000000000000000000000000000
    + d8 * 0x100000000000000000000000000000000000000000000000000000000000000000000000000000000000000000000000000000000
  }

  /** The number that five limbs in base 2^52 stand for. */
  function Value(s: seq<int>): int
    requires |s| == 5
  {
    Digits5(s[0], s[1], s[2], s[3], s[4])
  }

  /** What `VERIFY_BITS` asks of a factor: 56 bits, and 52 in the top limb. */
  predicate Factor(s: seq<int>) {
    && |s| == 5
    && (forall i | 0 <= i < 4 :: 0 <= s[i] <= 0xFF_FFFF_FFFF_FFFF)
    && 0 <= s[4] <= 0xF_FFFF_FFFF_FFFF
  }

  /** What it promises of a product: 52 bits, and 49 in the top limb. The top limb is a sum of two
      48-bit numbers, hence one less than 49 bits allow; magnitude 1 asks for just that. */
  predicate Product(s: seq<int>) {
    && |s| == 5
    && (forall i | 0 <= i < 4 :: 0 <= s[i] <= 0xF_FFFF_FFFF_FFFF)
    && 0 <= s[4] <= 0x1_FFFF_FFFF_FFFE
  }

  /** `x & M` and `x >> 52`. */
  function Low52(x: int): int { x % 0x10_0000_0000_0000 }

  function High52(x: int): int { x / 0x10_0000_0000_0000 }

  lemma Split52(x: int)
    requires 0 <= x
    ensures x == High52(x) * 0x10_0000_0000_0000 + Low52(x)
    ensures 0 <= Low52(x) <= 0xF_FFFF_FFFF_FFFF && 0 <= High52(x)
  {
  }

  // ---------------------------------------------------------------- columns

  /** Column k of a product: the sum of the a[i] * b[k - i]. */
  function Column(a: seq<int>, b: seq<int>, k: nat): int
    requires |a| == 5 && |b| == 5 && k <= 8
  {
    match k
    case 0 => a[0] * b[0]
    case 1 => a[0] * b[1] + a[1] * b[0]
    case 2 => a[0] * b[2] + a[1] * b[1] + a[2] * b[0]
    case 3 => a[0] * b[3] + a[1] * b[2] + a[2] * b[1] + a[3] * b[0]
    case 4 => a[0] * b[4] + a[1] * b[3] + a[2] * b[2] + a[3] * b[1] + a[4] * b[0]
    case 5 => a[1] * b[4] + a[2] * b[3] + a[3] * b[2] + a[4] * b[1]
    case 6 => a[2] * b[4] + a[3] * b[3] + a[4] * b[2]
    case 7 => a[3] * b[4] + a[4] * b[3]
    case 8 => a[4] * b[4]
  }

  /** 2^112 bounds the product of two 56-bit limbs, 2^108 that of a 56-bit and a 52-bit one. */
  lemma ColumnBounds(a: seq<int>, b: seq<int>)
    requires Factor(a) && Factor(b)
    ensures 0 <= Column(a, b, 0) < 0x1_0000_0000_0000_0000_0000_0000_0000
    ensures 0 <= Column(a, b, 1) < 0x2_0000_0000_0000_0000_0000_0000_0000
    ensures 0 <= Column(a, b, 2) < 0x3_0000_0000_0000_0000_0000_0000_0000
    ensures 0 <= Column(a, b, 3) < 0x4_0000_0000_0000_0000_0000_0000_0000
    ensures 0 <= Column(a, b, 4) < 0x3_2000_0000_0000_0000_0000_0000_0000
    ensures 0 <= Column(a, b, 5) < 0x2_2000_0000_0000_0000_0000_0000_0000
    ensures 0 <= Column(a, b, 6) < 0x1_2000_0000_0000_0000_0000_0000_0000
    ensures 0 <= Column(a, b, 7) < 0x2000_0000_0000_0000_0000_0000_0000
    ensures 0 <= Column(a, b, 8) < 0x100_0000_0000_0000_0000_0000_0000
  {
    var m, n := 0xFF_FFFF_FFFF_FFFF, 0xF_FFFF_FFFF_FFFF;
    MulBounds(a[0], b[0], m, m); MulBounds(a[0], b[1], m, m); MulBounds(a[0], b[2], m, m);
    MulBounds(a[0], b[3], m, m); MulBounds(a[0], b[4], m, n);
    MulBounds(a[1], b[0], m, m); MulBounds(a[1], b[1], m, m); MulBounds(a[1], b[2], m, m);
    MulBounds(a[1], b[3], m, m); MulBounds(a[1], b[4], m, n);
    MulBounds(a[2], b[0], m, m); MulBounds(a[2], b[1], m, m); MulBounds(a[2], b[2], m, m);
    MulBounds(a[2], b[3], m, m); MulBounds(a[2], b[4], m, n);
    MulBounds(a[3], b[0], m, m); MulBounds(a[3], b[1], m, m); MulBounds(a[3], b[2], m, m);
    MulBounds(a[3], b[3], m, m); MulBounds(a[3], b[4], m, n);
    MulBounds(a[4], b[0], n, m); MulBounds(a[4], b[1], n, m); MulBounds(a[4], b[2], n, m);
    MulBounds(a[4], b[3], n, m); MulBounds(a[4], b[4], n, n);
  }

  lemma Row(x: int, d0: int, d1: int, d2: int, d3: int, d4: int)
    ensures x * Digits5(d0, d1, d2, d3, d4) == Digits5(x * d0, x * d1, x * d2, x * d3, x * d4)
  {
  }

  lemma Rows(a: seq<int>, v: int)
    requires |a| == 5
    ensures Value(a) * v == Digits5(a[0] * v, a[1] * v, a[2] * v, a[3] * v, a[4] * v)
  {
    Row(v, a[0], a[1], a[2], a[3], a[4]);
  }

  /** The columns are the digits of the product in base 2^52. */
  lemma ColumnsAreProduct(a: seq<int>, b: seq<int>)
    requires |a| == 5 && |b| == 5
    ensures Value(a) * Value(b) ==
      Digits9(Column(a, b, 0), Column(a, b, 1), Column(a, b, 2), Column(a, b, 3), Column(a, b, 4),
              Column(a, b, 5), Column(a, b, 6), Column(a, b, 7), Column(a, b, 8))
  {
    Rows(a, Value(b));
    Row(a[0], b[0], b[1], b[2], b[3], b[4]);
    Row(a[1], b[0], b[1], b[2], b[3], b[4]);
    Row(a[2], b[0], b[1], b[2], b[3], b[4]);
    Row(a[3], b[0], b[1], b[2], b[3], b[4]);
    Row(a[4], b[0], b[1], b[2], b[3], b[4]);
  }

  /** `t >> 48` and `t & (M >> 4)`. */
  function Low48(x: int): int { x % 0x1_0000_0000_0000 }

  function High48(x: int): int { x / 0x1_0000_0000_0000 }

  lemma Split48(x: int)
    requires 0 <= x
    ensures x == High48(x) * 0x1_0000_0000_0000 + Low48(x)
    ensures 0 <= Low48(x) <= 0xFFFF_FFFF_FFFF && 0 <= High48(x)
  {
  }

  // ---------------------------------------------------------------- the reduction, as arithmetic

  /** The carries of the interleaved reduction add up: what is dropped is a multiple of p, because
      2^260 is 0x1000003D10 and 2^256 is 0x1000003D1 modulo p. */
  lemma CarryChain(
    p0: int, p1: int, p2: int, p3: int, p4: int, p5: int, p6: int, p7: int, p8: int,
    x8: int, y8: int, t3: int, d1: int, tx: int, t4: int, d2: int, u: int, d3: int,
    r0: int, c1: int, x6: int, d4: int, r1: int, c2: int, x7: int, d5: int, r2: int, c3: int, r3: int, c4: int)
    requires p8 == y8 * 0x10_0000_0000_0000 + x8
    requires p3 + x8 * 0x1000003D10 == d1 * 0x10_0000_0000_0000 + t3
    requires d1 + p4 + y8 * 0x1000003D10 == d2 * 0x10_0000_0000_0000 + (tx * 0x1_0000_0000_0000 + t4)
    requires d2 + p5 == d3 * 0x10_0000_0000_0000 + u
    requires p0 + (u * 16 + tx) * 0x1000003D1 == c1 * 0x10_0000_0000_0000 + r0
    requires d3 + p6 == d4 * 0x10_0000_0000_0000 + x6
    requires c1 + p1 + x6 * 0x1000003D10 == c2 * 0x10_0000_0000_0000 + r1
    requires d4 + p7 == d5 * 0x10_0000_0000_0000 + x7
    requires c2 + p2 + x7 * 0x1000003D10 == c3 * 0x10_0000_0000_0000 + r2
    requires c3 + d5 * 0x1000003D10 + t3 == c4 * 0x10_0000_0000_0000 + r3
    ensures Eq(
      Digits5(r0, r1, r2, r3, c4 + t4),
      Digits9(p0, p1, p2, p3, p4, p5, p6, p7, p8))
  {
    var q := (u * 16 + tx)
      + x6 * 0x100_0000_0000_0000
      + x7 * 0x1000_0000_0000_0000_0000_0000_0000
      + (x8 + d5) * 0x1_0000_0000_0000_0000_0000_0000_0000_0000_0000_0000
      + y8 * 0x10_0000_0000_0000_0000_0000_0000_0000_0000_0000_0000_0000_0000_0000;
    EqByMultiple(
      Digits5(r0, r1, r2, r3, c4 + t4),
      Digits9(p0, p1, p2, p3, p4, p5, p6, p7, p8),
      -q);
  }

  // ---------------------------------------------------------------- multiplication

  /** The first half of the multiplication: columns 3, 4 and 5, with column 8 folded in. Where the square
      notes a tighter bound than the product, the tighter one is asserted for both. The ghost
      results are the parts into which the accumulators were split. */
  method HighColumns(p3: u128, p4: u128, p5: u128, p8: u128)
    returns (t3: u64, t4: u64, u0: u64, d: u64,
             ghost x8: int, ghost y8: int, ghost d1: int, ghost tx: int, ghost d2: int, ghost u: int)
    requires p3 < 0x4_0000_0000_0000_0000_0000_0000_0000
    requires p4 < 0x3_2000_0000_0000_0000_0000_0000_0000
    requires p5 < 0x2_2000_0000_0000_0000_0000_0000_0000
    requires p8 < 0x100_0000_0000_0000_0000_0000_0000
    ensures t3 < 0x10_0000_0000_0000 && t4 < 0x1_0000_0000_0000
    ensures u0 < 0x100_0000_0000_0000 && u0 == u * 16 + tx && d < 0x4000_0000_0000_0000
    ensures p8 == y8 * 0x10_0000_0000_0000 + x8
    ensures p3 + x8 * 0x1000003D10 == d1 * 0x10_0000_0000_0000 + t3
    ensures d1 + p4 + y8 * 0x1000003D10 == d2 * 0x10_0000_0000_0000 + (tx * 0x1_0000_0000_0000 + t4)
    ensures d2 + p5 == d * 0x10_0000_0000_0000 + u
  {
    hide *;
    var c: u128, e: u128 := p8, p3;
    Split52(c);
    x8, y8 := Low52(c), High52(c);
    e := e + Low52(c) * 0x1000003D10; c := High52(c);
    assert e < 0x8_0000_0000_0000_0000_0000_0000_0000 && c < 0x1000_0000_0000_0000;  // 115 and 60 bits
    Split52(e);
    t3 := Low52(e); e := High52(e);
    assert e < 0x8000_0000_0000_0000;                                               // 63 bits
    d1 := e;
    // columns 3 and 8 are consumed
    e := e + p4;
    assert e < 0x8_0000_0000_0000_0000_0000_0000_0000;                              // 115 bits
    e := e + c * 0x1000003D10;
    assert e < 0x10_0000_0000_0000_0000_0000_0000_0000;                             // 116 bits
    Split52(e);
    t4 := Low52(e); e := High52(e);
    assert e < 0x1_0000_0000_0000_0000;                                             // 64 bits
    d2 := e;
    Split48(t4);
    var top: u64 := High48(t4);
    t4 := Low48(t4);
    tx := top;
    assert top < 16;                                                                // 4 bits
    // column 4 is consumed, too
    e := e + p5;
    assert e < 0x4_0000_0000_0000_0000_0000_0000_0000;                              // 114 bits, as in the square
    Split52(e);
    u0 := Low52(e); e := High52(e);
    assert u0 < 0x10_0000_0000_0000 && e < 0x4000_0000_0000_0000;                   // 52 and 62 bits
    u := u0;
    u0 := u0 * 16 + top;
    d := e;
  }

  /** The second half: columns 0, 1, 2, 6 and 7, which gives the output limbs from the bottom up. */
  method LowColumns(p0: u128, p1: u128, p2: u128, p6: u128, p7: u128, t3: u64, t4: u64, u0: u64, d0: u64)
    returns (r0: u64, r1: u64, r2: u64, r3: u64, r4: u64,
             ghost c1: int, ghost x6: int, ghost d4: int, ghost c2: int, ghost x7: int, ghost d5: int, ghost c3: int,
               ghost c4: int)
    requires p0 < 0x1_0000_0000_0000_0000_0000_0000_0000
    requires p1 < 0x2_0000_0000_0000_0000_0000_0000_0000
    requires p2 < 0x3_0000_0000_0000_0000_0000_0000_0000
    requires p6 < 0x1_2000_0000_0000_0000_0000_0000_0000
    requires p7 < 0x2000_0000_0000_0000_0000_0000_0000
    requires t3 < 0x10_0000_0000_0000 && t4 < 0x1_0000_0000_0000
    requires u0 < 0x100_0000_0000_0000 && d0 < 0x4000_0000_0000_0000
    ensures r0 < 0x10_0000_0000_0000 && r1 < 0x10_0000_0000_0000 && r2 < 0x10_0000_0000_0000
    ensures r3 < 0x10_0000_0000_0000 && r4 <= 0x1_FFFF_FFFF_FFFE
    ensures p0 + u0 * 0x1000003D1 == c1 * 0x10_0000_0000_0000 + r0
    ensures d0 + p6 == d4 * 0x10_0000_0000_0000 + x6
    ensures c1 + p1 + x6 * 0x1000003D10 == c2 * 0x10_0000_0000_0000 + r1
    ensures d4 + p7 == d5 * 0x10_0000_0000_0000 + x7
    ensures c2 + p2 + x7 * 0x1000003D10 == c3 * 0x10_0000_0000_0000 + r2
    ensures c3 + d5 * 0x1000003D10 + t3 == c4 * 0x10_0000_0000_0000 + r3
    ensures r4 == c4 + t4
  {
    hide *;
    var c: u128, d: u128 := p0, d0;
    c := c + u0 * 0x1000003D1;
    assert c < 0x2_0000_0000_0000_0000_0000_0000_0000;                              // 113 bits, as in the square
    Split52(c);
    r0 := Low52(c); c := High52(c);
    assert c < 0x2000_0000_0000_0000;                                               // 61 bits
    c1 := c;
    // columns 5 and 0 are consumed, and r0 is final
    c := c + p1;
    d := d + p6;
    assert c < 0x4_0000_0000_0000_0000_0000_0000_0000 && d < 0x4_0000_0000_0000_0000_0000_0000_0000;  // 114 bits
    Split52(d);
    x6 := Low52(d);
    c := c + Low52(d) * 0x1000003D10; d := High52(d);
    assert c < 0x8_0000_0000_0000_0000_0000_0000_0000 && d < 0x4000_0000_0000_0000; // 115 and 62 bits
    d4 := d;
    Split52(c);
    r1 := Low52(c); c := High52(c);
    assert c < 0x8000_0000_0000_0000;                                               // 63 bits
    c2 := c;
    // columns 6 and 1 are consumed, and r1 is final
    c := c + p2;
    d := d + p7;
    assert c < 0x4_0000_0000_0000_0000_0000_0000_0000 && d < 0x4_0000_0000_0000_0000_0000_0000_0000;  // 114 bits
    Split52(d);
    x7 := Low52(d);
    c := c + Low52(d) * 0x1000003D10; d := High52(d);
    assert c < 0x8_0000_0000_0000_0000_0000_0000_0000 && d < 0x4000_0000_0000_0000; // 115 and 62 bits
    d5 := d;
    Split52(c);
    r2 := Low52(c); c := High52(c);
    assert c < 0x8000_0000_0000_0000;                                               // 63 bits
    c3 := c;
    // every column is consumed, and r2 is final
    c := c + (d * 0x1000003D10 + t3);
    assert c < 0x10_0000_0000_0000_0000_0000_0000;                                  // 100 bits
    Split52(c);
    r3 := Low52(c); c := High52(c);
    assert c < 0x1_0000_0000_0000;                                                  // 48 bits
    c4 := c;
    r4 := c + t4;
  }

  ghost predicate ColumnsFit(p: seq<int>) {
    && |p| == 9
    && 0 <= p[0] < 0x1_0000_0000_0000_0000_0000_0000_0000
    && 0 <= p[1] < 0x2_0000_0000_0000_0000_0000_0000_0000
    && 0 <= p[2] < 0x3_0000_0000_0000_0000_0000_0000_0000
    && 0 <= p[3] < 0x4_0000_0000_0000_0000_0000_0000_0000
    && 0 <= p[4] < 0x3_2000_0000_0000_0000_0000_0000_0000
    && 0 <= p[5] < 0x2_2000_0000_0000_0000_0000_0000_0000
    && 0 <= p[6] < 0x1_2000_0000_0000_0000_0000_0000_0000
    && 0 <= p[7] < 0x2000_0000_0000_0000_0000_0000_0000
    && 0 <= p[8] < 0x100_0000_0000_0000_0000_0000_0000
  }

  ghost function ColumnsValue(p: seq<int>): int
    requires |p| == 9
  {
    Digits9(p[0], p[1], p[2], p[3], p[4], p[5], p[6], p[7], p[8])
  }

  /** The accumulator code that multiplication and squaring share, on the nine column sums. */
  method ReduceColumns(p: seq<int>) returns (r: seq<u64>)
    requires ColumnsFit(p)
    ensures Product(r) && Eq(Value(r), ColumnsValue(p))
  {
    hide *;
    ColumnsValueOf(p);
    var t3, t4, u0, d3, x8, y8, d1, tx, d2, u := HighColumns(p[3], p[4], p[5], p[8]);
    var r0, r1, r2, r3, r4, c1, x6, d4, c2, x7, d5, c3, c4 := LowColumns(p[0], p[1], p[2], p[6], p[7], t3, t4, u0, d3);
    r := [r0, r1, r2, r3, r4];
    CarryChain(p[0], p[1], p[2], p[3], p[4], p[5], p[6], p[7], p[8],
               x8, y8, t3, d1, tx, t4, d2, u, d3, r0, c1, x6, d4, r1, c2, x7, d5, r2, c3, r3, c4);
    ValueOf(r);
  }

  lemma ColumnsValueOf(p: seq<int>)
    requires ColumnsFit(p)
    ensures |p| == 9
    ensures ColumnsValue(p) == Digits9(p[0], p[1], p[2], p[3], p[4], p[5], p[6], p[7], p[8])
    ensures 0 <= p[0] < 0x1_0000_0000_0000_0000_0000_0000_0000
    ensures 0 <= p[1] < 0x2_0000_0000_0000_0000_0000_0000_0000
    ensures 0 <= p[2] < 0x3_0000_0000_0000_0000_0000_0000_0000
    ensures 0 <= p[3] < 0x4_0000_0000_0000_0000_0000_0000_0000
    ensures 0 <= p[4] < 0x3_2000_0000_0000_0000_0000_0000_0000
    ensures 0 <= p[5] < 0x2_2000_0000_0000_0000_0000_0000_0000
    ensures 0 <= p[6] < 0x1_2000_0000_0000_0000_0000_0000_0000
    ensures 0 <= p[7] < 0x2000_0000_0000_0000_0000_0000_0000
    ensures 0 <= p[8] < 0x100_0000_0000_0000_0000_0000_0000
  {
  }

  lemma ValueOf(s: seq<int>)
    requires |s| == 5
    ensures Value(s) == Digits5(s[0], s[1], s[2], s[3], s[4])
    ensures Product(s) <==>
      && 0 <= s[0] <= 0xF_FFFF_FFFF_FFFF && 0 <= s[1] <= 0xF_FFFF_FFFF_FFFF && 0 <= s[2] <= 0xF_FFFF_FFFF_FFFF
      && 0 <= s[3] <= 0xF_FFFF_FFFF_FFFF && 0 <= s[4] <= 0x1_FFFF_FFFF_FFFE
  {
  }

  /** All columns of a product, and how a square computes them with its doubled limbs. */
  function Columns(a: seq<int>, b: seq<int>): (p: seq<int>)
    requires |a| == 5 && |b| == 5
  {
    [Column(a, b, 0), Column(a, b, 1), Column(a, b, 2), Column(a, b, 3), Column(a, b, 4),
     Column(a, b, 5), Column(a, b, 6), Column(a, b, 7), Column(a, b, 8)]
  }

  function SquareColumns(a: seq<int>): (p: seq<int>)
    requires |a| == 5
  {
    var d := a[4] * 2;
    [a[0] * a[0],
     (a[0] * 2) * a[1],
     (a[0] * 2) * a[2] + a[1] * a[1],
     (a[0] * 2) * a[3] + (a[1] * 2) * a[2],
     a[0] * d + (a[1] * 2) * a[3] + a[2] * a[2],
     a[1] * d + (a[2] * 2) * a[3],
     a[2] * d + a[3] * a[3],
     a[3] * d,
     a[4] * a[4]]
  }

  lemma Doubled(x: int, y: int)
    ensures (x * 2) * y == x * y + y * x
    ensures y * (x * 2) == x * y + y * x
  {
  }

  /** The columns of `secp256k1_fe_sqr_inner`; the doubled limbs are words. */
  method SumSquareColumns(a: seq<u64>) returns (p: seq<int>)
    requires Factor(a)
    ensures p == SquareColumns(a)
  {
    var a0: u64, a1: u64, a2: u64, a3: u64, a4: u64 := a[0], a[1], a[2], a[3], a[4];
    var b1: u64, b2: u64 := a1 * 2, a2 * 2;
    var b0: u64, b4: u64 := a0 * 2, a4 * 2;
    hide Factor;
    p := [Multiplied(a0, a0), Multiplied(b0, a1), Multiplied(b0, a2) + Multiplied(a1, a1),
      Multiplied(b0, a3) + Multiplied(b1, a2),
          Multiplied(a0, b4) + Multiplied(b1, a3) + Multiplied(a2, a2), Multiplied(a1, b4) + Multiplied(b2, a3),
          Multiplied(a2, b4) + Multiplied(a3, a3), Multiplied(a3, b4), Multiplied(a4, a4)];
  }

  lemma SquareColumnsAreColumns(a: seq<int>)
    requires |a| == 5
    ensures SquareColumns(a) == Columns(a, a)
  {
    Doubled(a[0], a[1]); Doubled(a[0], a[2]); Doubled(a[0], a[3]); Doubled(a[1], a[2]); Doubled(a[1], a[3]);
    Doubled(a[2], a[3]); Doubled(a[4], a[0]); Doubled(a[4], a[1]); Doubled(a[4], a[2]); Doubled(a[4], a[3]);
  }

  lemma ColumnsOfFactors(a: seq<int>, b: seq<int>)
    requires Factor(a) && Factor(b)
    ensures ColumnsFit(Columns(a, b))
    ensures ColumnsValue(Columns(a, b)) == Value(a) * Value(b)
  {
    ColumnBounds(a, b);
    ColumnsAreProduct(a, b);
    hide Value, Digits5, Digits9, Column, Factor;
  }

  /** `secp256k1_fe_mul_inner`. The output may be the first factor but not the second. */
  method MulInner(r: array<u64>, a: array<u64>, b: array<u64>)
    requires r.Length == a.Length == b.Length == 5 && r != b
    requires Factor(a[..]) && Factor(b[..])
    modifies r
    ensures Product(r[..])
    ensures Eq(Value(r[..]), old(Value(a[..])) * old(Value(b[..])))
  {
    ColumnsOfFactors(a[..], b[..]);
    hide *;
    var s := ReduceColumns(Columns(a[..], b[..]));
    ProductLength(s);
    r[0], r[1], r[2], r[3], r[4] := s[0], s[1], s[2], s[3], s[4];
    assert r[..] == s;
  }

  /** `secp256k1_fe_sqr_inner`, with the same residue as the product of the argument with itself. */
  method SqrInner(r: array<u64>, a: array<u64>)
    requires r.Length == a.Length == 5
    requires Factor(a[..])
    modifies r
    ensures Product(r[..])
    ensures Eq(Value(r[..]), old(Value(a[..])) * old(Value(a[..])))
  {
    ColumnsOfFactors(a[..], a[..]);
    SquareColumnsAreColumns(a[..]);
    hide *;
    var p := SumSquareColumns(a[..]);
    var s := ReduceColumns(p);
    ProductLength(s);
    r[0], r[1], r[2], r[3], r[4] := s[0], s[1], s[2], s[3], s[4];
    assert r[..] == s;
  }

  lemma ProductLength(s: seq<int>)
    requires Product(s)
    ensures |s| == 5
  {
  }
}
