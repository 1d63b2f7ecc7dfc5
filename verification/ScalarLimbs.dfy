/** Scalars modulo the secp256k1 group order as four 64-bit limbs: the 160-bit accumulator whose
    carries are found by comparing after a wrapping addition, the 512-bit products built on it, and
    their reduction in three stages. Machine words are the integers of their range. */
module ScalarLimbs {

  import opened Words

  function High64(x: int): int { x / 0x1_0000_0000_0000_0000 }

  lemma Split64(x: int)
    requires 0 <= x
    ensures x == High64(x) * 0x1_0000_0000_0000_0000 + Wrap64(x)
    ensures 0 <= High64(x)
  {
  }

  /** The number that four limbs stand for. */
  function Value4(d0: int, d1: int, d2: int, d3: int): int {
    d0 + d1 * 0x1_0000_0000_0000_0000
    + d2 * 0x1_0000_0000_0000_0000_0000_0000_0000_0000
    + d3 * 0x1_0000_0000_0000_0000_0000_0000_0000_0000_0000_0000_0000_0000
  }

  function Value(s: seq<int>): int
    requires |s| == 4
  {
    Value4(s[0], s[1], s[2], s[3])
  }

  // ---------------------------------------------------------------- the accumulator

  /** The number defined by (c0, c1, c2). */
  function Acc(c0: int, c1: int, c2: int): int {
    c0 + c1 * 0x1_0000_0000_0000_0000 + c2 * 0x1_0000_0000_0000_0000_0000_0000_0000_0000
  }

  lemma TimesBound(a: u64, b: u64)
    ensures 0 <= Multiplied(a, b) <= 0xFFFF_FFFF_FFFF_FFFE_0000_0000_0000_0001
  {
    MulBounds(a, b, 0xFFFF_FFFF_FFFF_FFFF, 0xFFFF_FFFF_FFFF_FFFF);
  }

  /** The two halves of a product. */
  method Product(a: u64, b: u64) returns (tl: u64, th: u64)
    ensures Multiplied(a, b) == tl + th * 0x1_0000_0000_0000_0000
    ensures th <= 0xFFFF_FFFF_FFFF_FFFE
  {
    TimesBound(a, b);
    hide Multiplied, Wrap64, High64;
    var t: u128 := Multiplied(a, b);
    Split64(t);
    th, tl := High64(t), Wrap64(t);
  }

  /** `muladd`: c2 must not overflow 32 bits. */
  method MulAdd(c0: u64, c1: u64, c2: u64, a: u64, b: u64) returns (d0: u64, d1: u64, d2: u64)
    requires Acc(c0, c1, c2) + Multiplied(a, b) < 0x1_0000_0000_0000_0000_0000_0000_0000_0000_0000_0000
    ensures Acc(d0, d1, d2) == Acc(c0, c1, c2) + Multiplied(a, b)
    ensures d2 < 0x1_0000_0000
  {
    hide Multiplied, Wrap64, High64;
    var tl, th := Product(a, b);
    Split64(c0 + tl);
    d0 := Wrap64(c0 + tl);
    th := th + if d0 < tl then 1 else 0;
    Split64(c1 + th);
    d1 := Wrap64(c1 + th);
    d2 := c2 + if d1 < th then 1 else 0;
    assert d1 >= th || d2 != 0;
  }

  /** `muladd_fast`: c1 must not overflow, and c2 is not touched. */
  method MulAddFast(c0: u64, c1: u64, a: u64, b: u64) returns (d0: u64, d1: u64)
    requires Acc(c0, c1, 0) + Multiplied(a, b) < 0x1_0000_0000_0000_0000_0000_0000_0000_0000
    ensures Acc(d0, d1, 0) == Acc(c0, c1, 0) + Multiplied(a, b)
  {
    hide Multiplied, Wrap64, High64;
    var tl, th := Product(a, b);
    Split64(c0 + tl);
    d0 := Wrap64(c0 + tl);
    th := th + if d0 < tl then 1 else 0;
    Split64(c1 + th);
    d1 := Wrap64(c1 + th);
    assert d1 >= th;
  }

  /** The first half of `muladd2`: the product doubled, with the carry that goes to c2. */
  method DoubledProduct(c2: u64, a: u64, b: u64) returns (tl2: u64, th2: u64, d2: u64)
    requires c2 < 0xFFFF_FFFF_FFFF_FFFF
    ensures Acc(tl2, th2, d2) == Acc(0, 0, c2) + 2 * Multiplied(a, b)
  {
    hide Multiplied, Wrap64, High64;
    var tl: u64, th: u64 := Product(a, b);
    Split64(2 * th);
    th2 := Wrap64(2 * th);
    assert 2 * th == th2 || 2 * th == 0x1_0000_0000_0000_0000 + th2;
    d2 := c2 + if th2 < th then 1 else 0;
    assert th2 >= th || d2 != 0;
    Split64(2 * tl);
    tl2 := Wrap64(2 * tl);
    th2 := th2 + if tl2 < tl then 1 else 0;
  }

  /** The second half of `muladd2`. */
  method AddDoubled(c0: u64, c1: u64, c2: u64, tl2: u64, th: u64) returns (d0: u64, d1: u64, d2: u64)
    requires Acc(c0, c1, c2) + Acc(tl2, th, 0) < 0x1_0000_0000_0000_0000_0000_0000_0000_0000_0000_0000
    ensures Acc(d0, d1, d2) == Acc(c0, c1, c2) + Acc(tl2, th, 0)
    ensures d2 < 0x1_0000_0000
  {
    hide Wrap64, High64;
    Split64(c0 + tl2);
    d0 := Wrap64(c0 + tl2);
    assert c0 + tl2 == d0 + if d0 < tl2 then 0x1_0000_0000_0000_0000 else 0;
    var carry := if d0 < tl2 then 1 else 0;
    Split64(th + carry);
    var th2: u64 := Wrap64(th + carry);
    d2 := c2 + if d0 < tl2 && th2 == 0 then 1 else 0;
    assert th + carry == th2 + if d0 < tl2 && th2 == 0 then 0x1_0000_0000_0000_0000 else 0;
    assert d0 >= tl2 || th2 != 0 || d2 != 0;
    Split64(c1 + th2);
    d1 := Wrap64(c1 + th2);
    assert c1 + th2 == d1 + if d1 < th2 then 0x1_0000_0000_0000_0000 else 0;
    d2 := d2 + if d1 < th2 then 1 else 0;
    assert d1 >= th2 || d2 != 0;
  }

  /** `muladd2`: twice the product. */
  method MulAdd2(c0: u64, c1: u64, c2: u64, a: u64, b: u64) returns (d0: u64, d1: u64, d2: u64)
    requires Acc(c0, c1, c2) + 2 * Multiplied(a, b) < 0x1_0000_0000_0000_0000_0000_0000_0000_0000_0000_0000
    ensures Acc(d0, d1, d2) == Acc(c0, c1, c2) + 2 * Multiplied(a, b)
    ensures d2 < 0x1_0000_0000
  {
    TimesBound(a, b);
    hide Multiplied;
    var tl2, th2, e2 := DoubledProduct(c2, a, b);
    d0, d1, d2 := AddDoubled(c0, c1, e2, tl2, th2);
  }

  /** `sumadd`. */
  method SumAdd(c0: u64, c1: u64, c2: u64, a: u64) returns (d0: u64, d1: u64, d2: u64)
    requires Acc(c0, c1, c2) + a < 0x1_0000_0000_0000_0000_0000_0000_0000_0000_0000_0000
    ensures Acc(d0, d1, d2) == Acc(c0, c1, c2) + a
    ensures d2 < 0x1_0000_0000
  {
    hide Wrap64, High64;
    Split64(c0 + a);
    d0 := Wrap64(c0 + a);
    var over: u64 := if d0 < a then 1 else 0;
    Split64(c1 + over);
    d1 := Wrap64(c1 + over);
    d2 := c2 + if d1 < over then 1 else 0;
  }

  /** `sumadd_fast`: c1 must not overflow, c2 must be zero. */
  method SumAddFast(c0: u64, c1: u64, a: u64) returns (d0: u64, d1: u64)
    requires Acc(c0, c1, 0) + a < 0x1_0000_0000_0000_0000_0000_0000_0000_0000
    ensures Acc(d0, d1, 0) == Acc(c0, c1, 0) + a
  {
    hide Wrap64, High64;
    Split64(c0 + a);
    d0 := Wrap64(c0 + a);
    d1 := c1 + if d0 < a then 1 else 0;
    assert d1 != 0 || d0 >= a;
  }

  /** `extract`: take the lowest limb and shift the accumulator down. */
  method Extract(c0: u64, c1: u64, c2: u64) returns (n: u64, d0: u64, d1: u64)
    ensures Acc(c0, c1, c2) == n + Acc(d0, d1, 0) * 0x1_0000_0000_0000_0000
    ensures c2 == 0 ==> d1 == 0
  {
    n, d0, d1 := c0, c1, c2;
  }

  /** Once the accumulator is below 2^64 only its first word is left. */
  lemma OneWord(c0: u64, c1: u64)
    requires Acc(c0, c1, 0) < 0x1_0000_0000_0000_0000
    ensures c1 == 0 && Acc(c0, c1, 0) == c0
  {
  }

  // ---------------------------------------------------------------- 512-bit products

  /** The number that eight limbs stand for. */
  function Value8(l: seq<int>): int
    requires |l| == 8
  {
    Value4(l[0], l[1], l[2], l[3]) + Value4(l[4], l[5], l[6], l[7])
      * 0x1_0000_0000_0000_0000_0000_0000_0000_0000_0000_0000_0000_0000_0000_0000_0000_0000
  }

  lemma Value8Of(l: seq<int>)
    requires |l| == 8
    ensures Value8(l) == Value4(l[0], l[1], l[2], l[3])
      + Value4(l[4], l[5], l[6], l[7])
        * 0x1_0000_0000_0000_0000_0000_0000_0000_0000_0000_0000_0000_0000_0000_0000_0000_0000
  {
  }

  lemma Value4Of(d0: int, d1: int, d2: int, d3: int)
    ensures Value4(d0, d1, d2, d3) == d0 + d1 * 0x1_0000_0000_0000_0000
      + d2 * 0x1_0000_0000_0000_0000_0000_0000_0000_0000
        + d3 * 0x1_0000_0000_0000_0000_0000_0000_0000_0000_0000_0000_0000_0000
  {
  }

  lemma AccZero()
    ensures Acc(0, 0, 0) == 0
  {
  }

  /** The partial products in their columns. */
  function LowGrid(a: seq<int>, b: seq<int>): int
    requires |a| == |b| == 4
  {
    Multiplied(a[0], b[0])
    + (Multiplied(a[0], b[1]) + Multiplied(a[1], b[0])) * 0x1_0000_0000_0000_0000
    + (Multiplied(a[0], b[2]) + Multiplied(a[1], b[1]) + Multiplied(a[2], b[0]))
      * 0x1_0000_0000_0000_0000_0000_0000_0000_0000
    + (Multiplied(a[0], b[3]) + Multiplied(a[1], b[2]) + Multiplied(a[2], b[1]) + Multiplied(a[3], b[0]))
      * 0x1_0000_0000_0000_0000_0000_0000_0000_0000_0000_0000_0000_0000
  }

  function HighGrid(a: seq<int>, b: seq<int>): int
    requires |a| == |b| == 4
  {
    (Multiplied(a[1], b[3]) + Multiplied(a[2], b[2]) + Multiplied(a[3], b[1]))
    + (Multiplied(a[2], b[3]) + Multiplied(a[3], b[2])) * 0x1_0000_0000_0000_0000
    + Multiplied(a[3], b[3]) * 0x1_0000_0000_0000_0000_0000_0000_0000_0000
  }

  lemma LowGridOf(a: seq<int>, b: seq<int>)
    requires |a| == |b| == 4
    ensures LowGrid(a, b) ==
      Multiplied(a[0], b[0])
      + (Multiplied(a[0], b[1]) + Multiplied(a[1], b[0])) * 0x1_0000_0000_0000_0000
      + (Multiplied(a[0], b[2]) + Multiplied(a[1], b[1]) + Multiplied(a[2], b[0]))
        * 0x1_0000_0000_0000_0000_0000_0000_0000_0000
      + (Multiplied(a[0], b[3]) + Multiplied(a[1], b[2]) + Multiplied(a[2], b[1]) + Multiplied(a[3], b[0]))
        * 0x1_0000_0000_0000_0000_0000_0000_0000_0000_0000_0000_0000_0000
  {
  }

  lemma HighGridOf(a: seq<int>, b: seq<int>)
    requires |a| == |b| == 4
    ensures HighGrid(a, b) ==
      (Multiplied(a[1], b[3]) + Multiplied(a[2], b[2]) + Multiplied(a[3], b[1]))
      + (Multiplied(a[2], b[3]) + Multiplied(a[3], b[2])) * 0x1_0000_0000_0000_0000
      + Multiplied(a[3], b[3]) * 0x1_0000_0000_0000_0000_0000_0000_0000_0000
  {
  }

  /** In a square the partial products off the diagonal come in pairs. */
  lemma LowSquareGrid(a: seq<int>)
    requires |a| == 4
    ensures LowGrid(a, a) ==
      Multiplied(a[0], a[0])
      + 2 * Multiplied(a[0], a[1]) * 0x1_0000_0000_0000_0000
      + (2 * Multiplied(a[0], a[2]) + Multiplied(a[1], a[1])) * 0x1_0000_0000_0000_0000_0000_0000_0000_0000
      + (2 * Multiplied(a[0], a[3]) + 2 * Multiplied(a[1], a[2]))
        * 0x1_0000_0000_0000_0000_0000_0000_0000_0000_0000_0000_0000_0000
  {
    TimesCommutes(a[0], a[1]); TimesCommutes(a[0], a[2]); TimesCommutes(a[0], a[3]); TimesCommutes(a[1], a[2]);
    hide Multiplied;
  }

  lemma HighSquareGrid(a: seq<int>)
    requires |a| == 4
    ensures HighGrid(a, a) ==
      (2 * Multiplied(a[1], a[3]) + Multiplied(a[2], a[2])) + 2 * Multiplied(a[2], a[3]) * 0x1_0000_0000_0000_0000
        + Multiplied(a[3], a[3]) * 0x1_0000_0000_0000_0000_0000_0000_0000_0000
  {
    TimesCommutes(a[1], a[3]); TimesCommutes(a[2], a[3]);
    hide Multiplied;
  }

  lemma GridIsProduct(a: seq<int>, b: seq<int>)
    requires |a| == |b| == 4
    ensures LowGrid(a, b) + HighGrid(a, b)
      * 0x1_0000_0000_0000_0000_0000_0000_0000_0000_0000_0000_0000_0000_0000_0000_0000_0000 == Value(a) * Value(b)
  {
  }

  lemma ValueBound(s: seq<u64>)
    requires |s| == 4
    ensures 0 <= Value(s) < 0x1_0000_0000_0000_0000_0000_0000_0000_0000_0000_0000_0000_0000_0000_0000_0000_0000
  {
  }

  lemma ProductBound(a: seq<u64>, b: seq<u64>)
    requires |a| == |b| == 4
    ensures Value(a) * Value(b) < 0x1_0000_0000_0000_0000_0000_0000_0000_0000_0000_0000_0000_0000_0000_0000_0000_0000
      * 0x1_0000_0000_0000_0000_0000_0000_0000_0000_0000_0000_0000_0000_0000_0000_0000_0000
  {
    hide *;
    ValueBound(a);
    ValueBound(b);
    MulBounds(Value(a), Value(b), 0x1_0000_0000_0000_0000_0000_0000_0000_0000_0000_0000_0000_0000_0000_0000_0000_0000,
      0x1_0000_0000_0000_0000_0000_0000_0000_0000_0000_0000_0000_0000_0000_0000_0000_0000 - 1);
  }

  lemma GridBounds(a: seq<u64>, b: seq<u64>)
    requires |a| == |b| == 4
    ensures forall i, j | 0 <= i < 4 && 0 <= j < 4 ::
      0 <= Multiplied(a[i], b[j]) <= 0xFFFF_FFFF_FFFF_FFFE_0000_0000_0000_0001
  {
    hide *;
    forall i, j | 0 <= i < 4 && 0 <= j < 4
      ensures 0 <= Multiplied(a[i], b[j]) <= 0xFFFF_FFFF_FFFF_FFFE_0000_0000_0000_0001
    {
      TimesBound(a[i], b[j]);
    }
  }

  lemma TimesCommutes(a: int, b: int)
    ensures Multiplied(a, b) == Multiplied(b, a)
  {
  }

  /** Columns 0 to 3 of `secp256k1_scalar_mul_512`. */
  method MulLowColumns(a: seq<u64>, b: seq<u64>) returns (l0: u64, l1: u64, l2: u64, l3: u64, c0: u64, c1: u64)
    requires |a| == |b| == 4
    ensures Value4(l0, l1, l2, l3) + Acc(c0, c1, 0)
      * 0x1_0000_0000_0000_0000_0000_0000_0000_0000_0000_0000_0000_0000_0000_0000_0000_0000 == LowGrid(a, b)
    ensures Acc(c0, c1, 0) < 0x8_0000_0000_0000_0000
  {
    hide *;
    GridBounds(a, b);
    AccZero();
    c0, c1 := 0, 0;
    var c2: u64 := 0;
    c0, c1 := MulAddFast(c0, c1, a[0], b[0]);
    l0, c0, c1 := Extract(c0, c1, c2);
    c0, c1, c2 := MulAdd(c0, c1, c2, a[0], b[1]);
    c0, c1, c2 := MulAdd(c0, c1, c2, a[1], b[0]);
    l1, c0, c1 := Extract(c0, c1, c2); c2 := 0;
    c0, c1, c2 := MulAdd(c0, c1, c2, a[0], b[2]);
    c0, c1, c2 := MulAdd(c0, c1, c2, a[1], b[1]);
    c0, c1, c2 := MulAdd(c0, c1, c2, a[2], b[0]);
    l2, c0, c1 := Extract(c0, c1, c2); c2 := 0;
    c0, c1, c2 := MulAdd(c0, c1, c2, a[0], b[3]);
    c0, c1, c2 := MulAdd(c0, c1, c2, a[1], b[2]);
    c0, c1, c2 := MulAdd(c0, c1, c2, a[2], b[1]);
    c0, c1, c2 := MulAdd(c0, c1, c2, a[3], b[0]);
    l3, c0, c1 := Extract(c0, c1, c2); c2 := 0;
    LowGridOf(a, b);
    Value4Of(l0, l1, l2, l3);
  }

  /** Columns 4 to 6 and the last carry. */
  method MulHighColumns(a: seq<u64>, b: seq<u64>, k0: u64, k1: u64) returns (l4: u64, l5: u64, l6: u64, l7: u64)
    requires |a| == |b| == 4
    requires Acc(k0, k1, 0) < 0x8_0000_0000_0000_0000
    requires Acc(k0, k1, 0) + HighGrid(a, b)
      < 0x1_0000_0000_0000_0000_0000_0000_0000_0000_0000_0000_0000_0000_0000_0000_0000_0000
    ensures Value4(l4, l5, l6, l7) == Acc(k0, k1, 0) + HighGrid(a, b)
  {
    hide *;
    GridBounds(a, b);
    HighGridOf(a, b);
    var c0: u64, c1: u64, c2: u64 := k0, k1, 0;
    c0, c1, c2 := MulAdd(c0, c1, c2, a[1], b[3]);
    c0, c1, c2 := MulAdd(c0, c1, c2, a[2], b[2]);
    c0, c1, c2 := MulAdd(c0, c1, c2, a[3], b[1]);
    l4, c0, c1 := Extract(c0, c1, c2); c2 := 0;
    c0, c1, c2 := MulAdd(c0, c1, c2, a[2], b[3]);
    c0, c1, c2 := MulAdd(c0, c1, c2, a[3], b[2]);
    l5, c0, c1 := Extract(c0, c1, c2); c2 := 0;
    c0, c1 := MulAddFast(c0, c1, a[3], b[3]);
    l6, c0, c1 := Extract(c0, c1, c2);
    OneWord(c0, c1);
    assert c1 == 0;
    l7 := c0;
    Value4Of(l4, l5, l6, l7);
  }

  /** `secp256k1_scalar_mul_512`: the exact product. */
  method Mul512(l: array<u64>, a: array<u64>, b: array<u64>)
    requires l.Length == 8 && a.Length == 4 && b.Length == 4
    modifies l
    ensures Value8(l[..]) == old(Value(a[..])) * old(Value(b[..]))
  {
    hide *;
    GridIsProduct(a[..], b[..]);
    ProductBound(a[..], b[..]);
    var l0, l1, l2, l3, c0, c1 := MulLowColumns(a[..], b[..]);
    Value4Of(l0, l1, l2, l3);
    var l4, l5, l6, l7 := MulHighColumns(a[..], b[..], c0, c1);
    l[0], l[1], l[2], l[3], l[4], l[5], l[6], l[7] := l0, l1, l2, l3, l4, l5, l6, l7;
    assert l[..] == [l0, l1, l2, l3, l4, l5, l6, l7];
    Value8Of(l[..]);
  }

  /** Columns 0 to 3 of `secp256k1_scalar_sqr_512`. */
  method SqrLowColumns(a: seq<u64>) returns (l0: u64, l1: u64, l2: u64, l3: u64, c0: u64, c1: u64)
    requires |a| == 4
    ensures Value4(l0, l1, l2, l3) + Acc(c0, c1, 0)
      * 0x1_0000_0000_0000_0000_0000_0000_0000_0000_0000_0000_0000_0000_0000_0000_0000_0000 == LowGrid(a, a)
    ensures Acc(c0, c1, 0) < 0x8_0000_0000_0000_0000
  {
    hide *;
    GridBounds(a, a);
    AccZero();
    c0, c1 := 0, 0;
    var c2: u64 := 0;
    c0, c1 := MulAddFast(c0, c1, a[0], a[0]);
    l0, c0, c1 := Extract(c0, c1, c2);
    c0, c1, c2 := MulAdd2(c0, c1, c2, a[0], a[1]);
    l1, c0, c1 := Extract(c0, c1, c2); c2 := 0;
    c0, c1, c2 := MulAdd2(c0, c1, c2, a[0], a[2]);
    c0, c1, c2 := MulAdd(c0, c1, c2, a[1], a[1]);
    l2, c0, c1 := Extract(c0, c1, c2); c2 := 0;
    c0, c1, c2 := MulAdd2(c0, c1, c2, a[0], a[3]);
    c0, c1, c2 := MulAdd2(c0, c1, c2, a[1], a[2]);
    l3, c0, c1 := Extract(c0, c1, c2); c2 := 0;
    LowSquareGrid(a);
    Value4Of(l0, l1, l2, l3);
  }

  /** Columns 4 to 6 of the square and the last carry. */
  method SqrHighColumns(a: seq<u64>, k0: u64, k1: u64) returns (l4: u64, l5: u64, l6: u64, l7: u64)
    requires |a| == 4
    requires Acc(k0, k1, 0) < 0x8_0000_0000_0000_0000
    requires Acc(k0, k1, 0) + HighGrid(a, a)
      < 0x1_0000_0000_0000_0000_0000_0000_0000_0000_0000_0000_0000_0000_0000_0000_0000_0000
    ensures Value4(l4, l5, l6, l7) == Acc(k0, k1, 0) + HighGrid(a, a)
  {
    hide *;
    GridBounds(a, a);
    HighSquareGrid(a);
    var c0: u64, c1: u64, c2: u64 := k0, k1, 0;
    c0, c1, c2 := MulAdd2(c0, c1, c2, a[1], a[3]);
    c0, c1, c2 := MulAdd(c0, c1, c2, a[2], a[2]);
    l4, c0, c1 := Extract(c0, c1, c2); c2 := 0;
    c0, c1, c2 := MulAdd2(c0, c1, c2, a[2], a[3]);
    l5, c0, c1 := Extract(c0, c1, c2); c2 := 0;
    c0, c1 := MulAddFast(c0, c1, a[3], a[3]);
    l6, c0, c1 := Extract(c0, c1, c2);
    OneWord(c0, c1);
    assert c1 == 0;
    l7 := c0;
    Value4Of(l4, l5, l6, l7);
  }

  /** `secp256k1_scalar_sqr_512`: the exact square, with doubled partial products. */
  method Sqr512(l: array<u64>, a: array<u64>)
    requires l.Length == 8 && a.Length == 4
    modifies l
    ensures Value8(l[..]) == old(Value(a[..])) * old(Value(a[..]))
  {
    hide *;
    GridIsProduct(a[..], a[..]);
    ProductBound(a[..], a[..]);
    var l0, l1, l2, l3, c0, c1 := SqrLowColumns(a[..]);
    Value4Of(l0, l1, l2, l3);
    var l4, l5, l6, l7 := SqrHighColumns(a[..], c0, c1);
    l[0], l[1], l[2], l[3], l[4], l[5], l[6], l[7] := l0, l1, l2, l3, l4, l5, l6, l7;
    assert l[..] == [l0, l1, l2, l3, l4, l5, l6, l7];
    Value8Of(l[..]);
  }

  /** Limbs in base 2^64 are determined by the number, so the two products agree limb by limb. */
  lemma LimbsUnique(k: seq<u64>, l: seq<u64>)
    requires |k| == |l| == 8 && Value8(k) == Value8(l)
    ensures k == l
  {
    hide *;
    Value8Of(k); Value8Of(l);
    Limbs4(k[0], k[1], k[2], k[3]); Limbs4(l[0], l[1], l[2], l[3]);
    Limbs4Unique(k[0], k[1], k[2], k[3], l[0], l[1], l[2], l[3]);
    Limbs4Unique(k[4], k[5], k[6], k[7], l[4], l[5], l[6], l[7]);
    assert forall i | 0 <= i < 8 :: k[i] == l[i];
  }

  lemma Limbs4(d0: u64, d1: u64, d2: u64, d3: u64)
    ensures 0 <= Value4(d0, d1, d2, d3)
      < 0x1_0000_0000_0000_0000_0000_0000_0000_0000_0000_0000_0000_0000_0000_0000_0000_0000
  {
  }

  lemma Limbs4Unique(k0: u64, k1: u64, k2: u64, k3: u64, l0: u64, l1: u64, l2: u64, l3: u64)
    requires Value4(k0, k1, k2, k3) == Value4(l0, l1, l2, l3)
    ensures k0 == l0 && k1 == l1 && k2 == l2 && k3 == l3
  {
  }
}
