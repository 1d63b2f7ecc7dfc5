/** The field operations of field_5x52_impl.h on `secp256k1_fe`, a struct of five words that is copied
    as a value: each keeps the bounds of its magnitudes, so that no word overflows, and computes the
    residue. */
module FieldElement {
  import opened PrimeField
  import opened FieldLimbs
  import opened FieldNormalize
  import opened Powers
  import opened Words

  type Limbs = s: seq<u64> | |s| == 5 witness [0, 0, 0, 0, 0]

  /** The field element that limbs stand for. */
  function Residue(a: Limbs): Fe {
    Res(Value(a))
  }

  lemma MagnitudeGrows(s: seq<int>, m: nat, n: nat)
    requires Magnitude(s, m) && m <= n
    ensures Magnitude(s, n)
  {
  }

  lemma FactorOf(s: seq<int>)
    requires Magnitude(s, 8)
    ensures Factor(s)
  {
  }

  lemma ProductMagnitude(s: seq<int>)
    requires Product(s)
    ensures Magnitude(s, 1)
  {
  }

  // ---------------------------------------------------------------- residues of results

  lemma ResProduct(r: int, a: int, b: int)
    requires Eq(r, a * b)
    ensures Res(r) == Mul(Res(a), Res(b))
  {
    hide Res;
    ResOf(a);
    ResOf(b);
    EqMul(Res(a), a, Res(b), b);
  }

  lemma SquareIsProduct(a: Fe)
    ensures Sqr(a) == Mul(a, a)
  {
    hide Res;
  }

  lemma ResSum(a: int, b: int)
    ensures Res(a + b) == Add(Res(a), Res(b))
  {
    hide Res;
    ResOf(a);
    ResOf(b);
    EqAdd(Res(a), a, Res(b), b);
  }

  lemma ResNegative(a: int, k: int)
    ensures Res(k * P - a) == Neg(Res(a))
  {
    hide Res;
    ResOf(a);
    EqAdd(0, 0, Res(a), a);
    EqByMultiple(k * P - a, 0 - a, k);
  }

  lemma ResMultiple(a: int, k: nat)
    ensures Res(k * a) == MulInt(Res(a), k)
  {
    hide Res;
    ResOf(a);
    EqMul(k, k, Res(a), a);
  }

  lemma ResZero(a: int)
    ensures Eq(a, 0) <==> Res(a) == 0
  {
  }

  // ---------------------------------------------------------------- the operations

  /** `secp256k1_fe_set_int`, for a small nonnegative number. */
  method SetInt(k: nat) returns (r: Limbs)
    requires k < 0x8000_0000
    ensures Magnitude(r, 1) && Residue(r) == k
  {
    r := [k, 0, 0, 0, 0];
    assert Value(r) == k;
  }

  /** `secp256k1_fe_mul`. */
  method FeMul(a: Limbs, b: Limbs, ghost m: nat, ghost n: nat) returns (r: Limbs)
    requires Magnitude(a, m) && m <= 8 && Magnitude(b, n) && n <= 8
    ensures Magnitude(r, 1) && Residue(r) == Mul(Residue(a), Residue(b))
  {
    hide Value, Magnitude, Factor, Product, Eq, Mul, Res;
    MagnitudeGrows(a, m, 8);
    MagnitudeGrows(b, n, 8);
    FactorOf(a);
    FactorOf(b);
    var x := new u64[5](i requires 0 <= i < 5 => a[i]);
    var y := new u64[5](i requires 0 <= i < 5 => b[i]);
    assert x[..] == a && y[..] == b;
    MulInner(x, x, y);
    r := x[..];
    ProductMagnitude(r);
    ResProduct(Value(r), Value(a), Value(b));
  }

  /** `secp256k1_fe_sqr`. */
  method FeSqr(a: Limbs, ghost m: nat) returns (r: Limbs)
    requires Magnitude(a, m) && m <= 8
    ensures Magnitude(r, 1) && Residue(r) == Sqr(Residue(a))
  {
    hide Value, Magnitude, Factor, Product, Eq, Mul, Sqr, Res;
    MagnitudeGrows(a, m, 8);
    FactorOf(a);
    var x := new u64[5](i requires 0 <= i < 5 => a[i]);
    assert x[..] == a;
    SqrInner(x, x);
    r := x[..];
    ProductMagnitude(r);
    ResProduct(Value(r), Value(a), Value(a));
    SquareIsProduct(Residue(a));
  }

  /** `secp256k1_fe_negate`: 2 (m + 1) p - a, limb by limb. No limb falls below zero. */
  method FeNegate(a: Limbs, m: nat) returns (r: Limbs)
    requires Magnitude(a, m) && m <= 2047
    ensures Magnitude(r, m + 1) && Residue(r) == Neg(Residue(a))
  {
    hide Res, Neg, Value, Magnitude;
    MagnitudeLimbs(a, m);
    var r0: u64 := 0xF_FFFE_FFFF_FC2F * 2 * (m + 1) - a[0];
    var r1: u64 := 0xF_FFFF_FFFF_FFFF * 2 * (m + 1) - a[1];
    var r2: u64 := 0xF_FFFF_FFFF_FFFF * 2 * (m + 1) - a[2];
    var r3: u64 := 0xF_FFFF_FFFF_FFFF * 2 * (m + 1) - a[3];
    var r4: u64 := 0xFFFF_FFFF_FFFF * 2 * (m + 1) - a[4];
    r := [r0, r1, r2, r3, r4];
    MagnitudeLimbs(r, m + 1);
    NegatedValue(r, a, 2 * (m + 1));
    ResNegative(Value(a), 2 * (m + 1));
  }

  lemma MagnitudeLimbs(s: seq<int>, m: nat)
    requires |s| == 5
    ensures Magnitude(s, m) <==>
      && 0 <= s[0] <= 0xF_FFFF_FFFF_FFFF * 2 * m && 0 <= s[1] <= 0xF_FFFF_FFFF_FFFF * 2 * m
      && 0 <= s[2] <= 0xF_FFFF_FFFF_FFFF * 2 * m && 0 <= s[3] <= 0xF_FFFF_FFFF_FFFF * 2 * m
      && 0 <= s[4] <= 0xFFFF_FFFF_FFFF * 2 * m
  {
  }

  lemma NegatedValue(r: seq<int>, a: seq<int>, k: int)
    requires |r| == |a| == 5
    requires r[0] == 0xF_FFFE_FFFF_FC2F * k - a[0] && r[1] == 0xF_FFFF_FFFF_FFFF * k - a[1]
    requires r[2] == 0xF_FFFF_FFFF_FFFF * k - a[2] && r[3] == 0xF_FFFF_FFFF_FFFF * k - a[3]
    requires r[4] == 0xFFFF_FFFF_FFFF * k - a[4]
    ensures Value(r) == k * P - Value(a)
  {
  }

  /** `secp256k1_fe_add`. */
  method FeAdd(r: Limbs, a: Limbs, ghost m: nat, ghost n: nat) returns (s: Limbs)
    requires Magnitude(r, m) && Magnitude(a, n) && m + n <= 2048
    ensures Magnitude(s, m + n) && Residue(s) == Add(Residue(r), Residue(a))
  {
    hide Res, Add, Value, Magnitude;
    MagnitudeLimbs(r, m);
    MagnitudeLimbs(a, n);
    s := [r[0] + a[0], r[1] + a[1], r[2] + a[2], r[3] + a[3], r[4] + a[4]];
    MagnitudeLimbs(s, m + n);
    SumValue(s, r, a);
    ResSum(Value(r), Value(a));
  }

  lemma SumValue(s: seq<int>, r: seq<int>, a: seq<int>)
    requires |s| == |r| == |a| == 5
    requires s[0] == r[0] + a[0] && s[1] == r[1] + a[1] && s[2] == r[2] + a[2] && s[3] == r[3] + a[3]
      && s[4] == r[4] + a[4]
    ensures Value(s) == Value(r) + Value(a)
  {
  }

  /** `secp256k1_fe_mul_int`. */
  method FeMulInt(a: Limbs, k: nat, ghost m: nat) returns (r: Limbs)
    requires Magnitude(a, m) && m * k <= 2048
    ensures Magnitude(r, m * k) && Residue(r) == MulInt(Residue(a), k)
  {
    hide Res, MulInt, Value, Magnitude;
    var t: seq<int> := [k * a[0], k * a[1], k * a[2], k * a[3], k * a[4]];
    ScaledLimbs(a, t, k, m, m * k);
    r := t;
    ScaledValue(r, a, k);
    ResMultiple(Value(a), k);
  }

  lemma ScaledLimbs(a: seq<int>, t: seq<int>, k: nat, m: nat, e: nat)
    requires Magnitude(a, m) && |a| == |t| == 5 && e == m * k <= 2048
    requires t[0] == k * a[0] && t[1] == k * a[1] && t[2] == k * a[2] && t[3] == k * a[3] && t[4] == k * a[4]
    ensures Magnitude(t, e) && forall i | 0 <= i < 5 :: 0 <= t[i] < 0x1_0000_0000_0000_0000
  {
    hide *;
    MagnitudeLimbs(a, m);
    ScaledLimb(a[0], t[0], k, 0xF_FFFF_FFFF_FFFF * 2, m, e);
    ScaledLimb(a[1], t[1], k, 0xF_FFFF_FFFF_FFFF * 2, m, e);
    ScaledLimb(a[2], t[2], k, 0xF_FFFF_FFFF_FFFF * 2, m, e);
    ScaledLimb(a[3], t[3], k, 0xF_FFFF_FFFF_FFFF * 2, m, e);
    ScaledLimb(a[4], t[4], k, 0xFFFF_FFFF_FFFF * 2, m, e);
    MagnitudeLimbs(t, e);
  }

  lemma ScaledLimb(x: nat, y: int, k: nat, bound: nat, m: nat, e: nat)
    requires x <= bound * m && y == k * x && e == m * k <= 2048 && bound <= 0xF_FFFF_FFFF_FFFF * 2
    ensures 0 <= y <= bound * e < 0x1_0000_0000_0000_0000
  {
    MulBounds(k, x, k, bound * m);
    MulBounds(bound, e, 0xF_FFFF_FFFF_FFFF * 2, 2048);
    assert k * (bound * m) == bound * (m * k);
  }

  lemma ScaledValue(r: seq<int>, a: seq<int>, k: int)
    requires |r| == |a| == 5
    requires r[0] == k * a[0] && r[1] == k * a[1] && r[2] == k * a[2] && r[3] == k * a[3] && r[4] == k * a[4]
    ensures Value(r) == k * Value(a)
  {
  }

  /** `secp256k1_fe_normalize_weak`. */
  method FeNormalizeWeak(a: Limbs, ghost m: nat) returns (r: Limbs)
    requires Magnitude(a, m) && m <= 2047
    ensures Magnitude(r, 1) && Residue(r) == Residue(a)
  {
    hide Value, Magnitude, Settled, Res;
    var x := new u64[5](i requires 0 <= i < 5 => a[i]);
    assert x[..] == a;
    FitsBelow(a, m);
    NormalizeWeak(x);
    r := x[..];
  }

  /** `secp256k1_fe_normalize`. */
  method FeNormalize(a: Limbs, ghost m: nat) returns (r: Limbs)
    requires Magnitude(a, m) && m <= 2047
    ensures Normalized(r) && Value(r) == Residue(a)
  {
    hide Value, Magnitude, Normalized, Res;
    var x := new u64[5](i requires 0 <= i < 5 => a[i]);
    assert x[..] == a;
    FitsBelow(a, m);
    Normalize(x);
    NormalizedRange(x[..]);
    r := x[..];
  }

  lemma NormalizedMagnitude(a: Limbs)
    requires Normalized(a)
    ensures Magnitude(a, 1) && Residue(a) == Value(a)
  {
    NormalizedRange(a);
  }

  /** The normalized limbs of a residue. */
  lemma LimbsOf(v: Fe) returns (a: Limbs)
    ensures Normalized(a) && Value(a) == v
  {
    var q1 := v / 0x10_0000_0000_0000;
    var q2 := q1 / 0x10_0000_0000_0000;
    var q3 := q2 / 0x10_0000_0000_0000;
    var q4 := q3 / 0x10_0000_0000_0000;
    a := [v % 0x10_0000_0000_0000, q1 % 0x10_0000_0000_0000, q2 % 0x10_0000_0000_0000, q3 % 0x10_0000_0000_0000, q4];
  }

  /** `secp256k1_fe_normalizes_to_zero` and its variable-time form. */
  method FeNormalizesToZero(a: Limbs, ghost m: nat) returns (zero: bool)
    requires Magnitude(a, m) && m <= 2047
    ensures zero <==> Residue(a) == 0
  {
    FitsBelow(a, m);
    zero := NormalizesToZero(a);
    ResZero(Value(a));
  }

  method FeNormalizesToZeroVar(a: Limbs, ghost m: nat) returns (zero: bool)
    requires Magnitude(a, m) && m <= 2047
    ensures zero <==> Residue(a) == 0
  {
    FitsBelow(a, m);
    zero := NormalizesToZeroVar(a);
    ResZero(Value(a));
  }

  /** `secp256k1_fe_cmov`: the masks are all ones and zero, one way or the other. */
  method FeCmov(r: Limbs, a: Limbs, flag: bool, ghost m: nat, ghost n: nat) returns (s: Limbs)
    requires Magnitude(r, m) && Magnitude(a, n)
    ensures s == if flag then a else r
    ensures Magnitude(s, if m < n then n else m)
  {
    hide BitAnd, BitOr, Magnitude;
    var mask0: u64 := Wrap64((if flag then 1 else 0) + 0xFFFF_FFFF_FFFF_FFFF);
    var mask1: u64 := 0xFFFF_FFFF_FFFF_FFFF - mask0;
    assert mask0 == if flag then 0 else 0xFFFF_FFFF_FFFF_FFFF;
    Masked(r[0], a[0], flag); Masked(r[1], a[1], flag); Masked(r[2], a[2], flag);
    Masked(r[3], a[3], flag); Masked(r[4], a[4], flag);
    s := [BitOr(BitAnd(r[0], mask0), BitAnd(a[0], mask1)), BitOr(BitAnd(r[1], mask0), BitAnd(a[1], mask1)),
          BitOr(BitAnd(r[2], mask0), BitAnd(a[2], mask1)), BitOr(BitAnd(r[3], mask0), BitAnd(a[3], mask1)),
          BitOr(BitAnd(r[4], mask0), BitAnd(a[4], mask1))];
    assert s == if flag then a else r;
    if flag {
      if n < m { MagnitudeGrows(a, n, m); }
    } else {
      if m < n { MagnitudeGrows(r, m, n); }
    }
  }

  /** One word under the two masks. */
  lemma Masked(x: u64, y: u64, flag: bool)
    ensures var mask0 := if flag then 0 else 0xFFFF_FFFF_FFFF_FFFF;
      BitOr(BitAnd(x, mask0), BitAnd(y, 0xFFFF_FFFF_FFFF_FFFF - mask0)) == if flag then y else x
  {
    hide *;
    Pow2Values();
    AndWithZero(x);
    AndWithZero(y);
    AndWithOnes(x, 64);
    AndWithOnes(y, 64);
    OrWithZero(x);
    OrWithZero(y);
    OrCommutes(0, y);
  }

  /** `secp256k1_fe_equal_var`. */
  method FeEqualVar(a: Limbs, b: Limbs, ghost n: nat) returns (eq: bool)
    requires Magnitude(a, 1) && Magnitude(b, n) && n <= 2045
    ensures eq <==> Residue(a) == Residue(b)
  {
    hide Residue, Magnitude;
    var na := FeNegate(a, 1);
    na := FeAdd(na, b, 2, n);
    eq := FeNormalizesToZeroVar(na, n + 2);
    DifferenceZero(Residue(a), Residue(b));
  }

  lemma DifferenceZero(a: Fe, b: Fe)
    ensures Add(Neg(a), b) == 0 <==> a == b
  {
    hide Res;
    if Add(Neg(a), b) == 0 {
      EqAdd(Neg(a), 0 - a, b, b);
      EqAdd(0 - a + b, 0, a, a);
      Canonical(a, b);
    } else if a == b {
      EqAdd(Neg(a), 0 - a, b, b);
      Canonical(Add(Neg(a), b), 0);
    }
  }

  // ---------------------------------------------------------------- on normalized elements

  /** `secp256k1_fe_is_zero`. */
  method FeIsZero(a: Limbs) returns (zero: bool)
    requires Normalized(a)
    ensures zero <==> Residue(a) == 0
  {
    hide *;
    zero := a[0] == 0 && a[1] == 0 && a[2] == 0 && a[3] == 0 && a[4] == 0;
    NormalizedMagnitude(a);
    ZeroLimbs(a);
  }

  lemma ZeroLimbs(a: Limbs)
    requires Normalized(a)
    ensures Value(a) == 0 <==> a[0] == 0 && a[1] == 0 && a[2] == 0 && a[3] == 0 && a[4] == 0
  {
  }

  /** `secp256k1_fe_is_odd`. */
  method FeIsOdd(a: Limbs) returns (odd: bool)
    requires Normalized(a)
    ensures Value(a) == Residue(a) && (odd <==> Residue(a) % 2 == 1)
  {
    odd := a[0] % 2 == 1;
    LowestLimb(a);
  }

  lemma LowestLimb(a: Limbs)
    requires Normalized(a)
    ensures Value(a) == Residue(a) && Value(a) % 2 == a[0] % 2
  {
    hide Digits5;
    NormalizedRange(a);
    Parity(a[0], a[1], a[2], a[3], a[4]);
  }

  lemma Parity(a0: int, a1: int, a2: int, a3: int, a4: int)
    ensures Digits5(a0, a1, a2, a3, a4) % 2 == a0 % 2
  {
    var rest := a1 * 0x8_0000_0000_0000 + a2 * 0x80_0000_0000_0000_0000_0000_0000
      + a3 * 0x800_0000_0000_0000_0000_0000_0000_0000_0000_0000
      + a4 * 0x8000_0000_0000_0000_0000_0000_0000_0000_0000_0000_0000_0000_0000;
    assert Digits5(a0, a1, a2, a3, a4) == a0 + 2 * rest;
    EvenRest(a0, rest);
  }

  lemma EvenRest(x: int, rest: int)
    ensures (x + 2 * rest) % 2 == x % 2
  {
  }

  /** `secp256k1_fe_cmp_var`. */
  method FeCmpVar(a: Limbs, b: Limbs) returns (r: int)
    requires Normalized(a) && Normalized(b)
    ensures r == if Value(a) > Value(b) then 1 else if Value(a) < Value(b) then -1 else 0
  {
    hide Value, Normalized;
    var i := 4;
    while i >= 0
      invariant -1 <= i <= 4
      invariant forall u | i < u < 5 :: a[u] == b[u]
    {
      if a[i] > b[i] {
        DecidedAt(b, a, i);
        return 1;
      }
      if a[i] < b[i] {
        DecidedAt(a, b, i);
        return -1;
      }
      i := i - 1;
    }
    assert a == b;
    return 0;
  }

  /** The highest limb that differs decides. */
  lemma DecidedAt(a: Limbs, b: Limbs, i: nat)
    requires Normalized(a) && Normalized(b) && i < 5 && a[i] < b[i] && (forall u | i < u < 5 :: a[u] == b[u])
    ensures Value(a) < Value(b)
  {
  }
}
