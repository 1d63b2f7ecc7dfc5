/** Reduction of scalars modulo the group order n: 512 bits to 385, to 258, to 256, and a last
    conditional subtraction; with it addition, negation, and the comparisons with n and n / 2. */
module ScalarReduction {
  import opened GroupOrder
  import opened ScalarField
  import opened ScalarLimbs
  import opened Words

  /** A product with one of the lower limbs of 2^256 - n is linear in the other factor. */
  lemma TimesC(x: int)
    ensures Multiplied(x, 0x402DA1732FC9BEBF) == x * 0x402DA1732FC9BEBF
    ensures Multiplied(x, 0x4551231950B75FC4) == x * 0x4551231950B75FC4
  {
  }

  // ---------------------------------------------------------------- reduce_512

  /** The first three limbs of the first stage. */
  method Stage385Low(l0: u64, l1: u64, l2: u64, n0: u64, n1: u64, n2: u64)
    returns (m0: u64, m1: u64, m2: u64, c0: u64, c1: u64)
    ensures m0 + m1 * 0x1_0000_0000_0000_0000 + m2 * 0x1_0000_0000_0000_0000_0000_0000_0000_0000
      + Acc(c0, c1, 0) * 0x1_0000_0000_0000_0000_0000_0000_0000_0000_0000_0000_0000_0000
         == l0 + n0 * 0x402DA1732FC9BEBF
           + (l1 + n1 * 0x402DA1732FC9BEBF + n0 * 0x4551231950B75FC4) * 0x1_0000_0000_0000_0000
            + (l2 + n2 * 0x402DA1732FC9BEBF + n1 * 0x4551231950B75FC4 + n0)
              * 0x1_0000_0000_0000_0000_0000_0000_0000_0000
    ensures Acc(c0, c1, 0) < 0x4_0000_0000_0000_0000
  {
    hide *;
    TimesC(n0); TimesC(n1); TimesC(n2);
    AccOf(l0, 0, 0);
    c0, c1 := l0, 0;
    var c2: u64 := 0;
    c0, c1 := MulAddFast(c0, c1, n0, 0x402DA1732FC9BEBF);
    m0, c0, c1 := Extract(c0, c1, 0);
    c0, c1 := SumAddFast(c0, c1, l1);
    c0, c1, c2 := MulAdd(c0, c1, c2, n1, 0x402DA1732FC9BEBF);
    c0, c1, c2 := MulAdd(c0, c1, c2, n0, 0x4551231950B75FC4);
    m1, c0, c1 := Extract(c0, c1, c2); c2 := 0;
    c0, c1, c2 := SumAdd(c0, c1, c2, l2);
    c0, c1, c2 := MulAdd(c0, c1, c2, n2, 0x402DA1732FC9BEBF);
    c0, c1, c2 := MulAdd(c0, c1, c2, n1, 0x4551231950B75FC4);
    c0, c1, c2 := SumAdd(c0, c1, c2, n0);
    m2, c0, c1 := Extract(c0, c1, c2); c2 := 0;
  }

  /** The first stage: m = l[0..3] + l[4..7] * (2^256 - n), of 385 bits. */
  method Stage385(l0: u64, l1: u64, l2: u64, l3: u64, n0: u64, n1: u64, n2: u64, n3: u64)
    returns (m0: u64, m1: u64, m2: u64, m3: u64, m4: u64, m5: u64, m6: u64)
    ensures Value4(m0, m1, m2, m3) + Acc(m4, m5, m6)
      * 0x1_0000_0000_0000_0000_0000_0000_0000_0000_0000_0000_0000_0000_0000_0000_0000_0000
         == Value4(l0, l1, l2, l3) + Value4(n0, n1, n2, n3) * 0x1_4551231950B75FC4_402DA1732FC9BEBF
    ensures m6 <= 1
  {
    hide *;
    TimesC(n2); TimesC(n3);
    var c0: u64, c1: u64, c2: u64;
    m0, m1, m2, c0, c1 := Stage385Low(l0, l1, l2, n0, n1, n2);
    c2 := 0;
    c0, c1, c2 := SumAdd(c0, c1, c2, l3);
    c0, c1, c2 := MulAdd(c0, c1, c2, n3, 0x402DA1732FC9BEBF);
    c0, c1, c2 := MulAdd(c0, c1, c2, n2, 0x4551231950B75FC4);
    c0, c1, c2 := SumAdd(c0, c1, c2, n1);
    m3, c0, c1 := Extract(c0, c1, c2); c2 := 0;
    c0, c1, c2 := MulAdd(c0, c1, c2, n3, 0x4551231950B75FC4);
    c0, c1, c2 := SumAdd(c0, c1, c2, n2);
    m4, c0, c1 := Extract(c0, c1, c2); c2 := 0;
    c0, c1 := SumAddFast(c0, c1, n3);
    m5, c0, c1 := Extract(c0, c1, 0);
    OneWord(c0, c1);
    assert c0 <= 1;
    m6 := c0;
    Value4Of(l0, l1, l2, l3); Value4Of(n0, n1, n2, n3); Value4Of(m0, m1, m2, m3); AccOf(m4, m5, m6);
  }

  lemma AccOf(c0: int, c1: int, c2: int)
    ensures Acc(c0, c1, c2) == c0 + c1 * 0x1_0000_0000_0000_0000 + c2 * 0x1_0000_0000_0000_0000_0000_0000_0000_0000
  {
  }

  /** The second stage: p = m[0..3] + m[4..6] * (2^256 - n), of 258 bits. */
  method Stage258(m0: u64, m1: u64, m2: u64, m3: u64, m4: u64, m5: u64, m6: u64)
    returns (p0: u64, p1: u64, p2: u64, p3: u64, p4: u64)
    requires m6 <= 1 && Acc(m4, m5, m6) <= 0x1_4551231950B75FC4_402DA1732FC9BEBF
    ensures Value4(p0, p1, p2, p3) + p4
      * 0x1_0000_0000_0000_0000_0000_0000_0000_0000_0000_0000_0000_0000_0000_0000_0000_0000
         == Value4(m0, m1, m2, m3) + Acc(m4, m5, m6) * 0x1_4551231950B75FC4_402DA1732FC9BEBF
    ensures p4 <= 2
  {
    hide *;
    TimesC(m4); TimesC(m5); TimesC(m6);
    AccOf(m0, 0, 0);
    var c0: u64, c1: u64, c2: u64 := m0, 0, 0;
    c0, c1 := MulAddFast(c0, c1, m4, 0x402DA1732FC9BEBF);
    p0, c0, c1 := Extract(c0, c1, 0);
    c0, c1 := SumAddFast(c0, c1, m1);
    c0, c1, c2 := MulAdd(c0, c1, c2, m5, 0x402DA1732FC9BEBF);
    c0, c1, c2 := MulAdd(c0, c1, c2, m4, 0x4551231950B75FC4);
    p1, c0, c1 := Extract(c0, c1, c2); c2 := 0;
    c0, c1, c2 := SumAdd(c0, c1, c2, m2);
    c0, c1, c2 := MulAdd(c0, c1, c2, m6, 0x402DA1732FC9BEBF);
    c0, c1, c2 := MulAdd(c0, c1, c2, m5, 0x4551231950B75FC4);
    c0, c1, c2 := SumAdd(c0, c1, c2, m4);
    p2, c0, c1 := Extract(c0, c1, c2); c2 := 0;
    c0, c1 := SumAddFast(c0, c1, m3);
    c0, c1 := MulAddFast(c0, c1, m6, 0x4551231950B75FC4);
    c0, c1 := SumAddFast(c0, c1, m5);
    p3, c0, c1 := Extract(c0, c1, 0);
    OneWord(c0, c1);
    assert c0 <= 2;
    p4 := c0 + m6;
    Value4Of(m0, m1, m2, m3); Value4Of(p0, p1, p2, p3); AccOf(m4, m5, m6);
    assert p4 <= 2;
  }

  /** The third stage: r = p[0..3] + p[4] * (2^256 - n), of 256 bits and a carry. */
  method Stage256(p0: u64, p1: u64, p2: u64, p3: u64, p4: u64) returns (r0: u64, r1: u64, r2: u64, r3: u64, carry: u64)
    requires p4 <= 2
    ensures Value4(r0, r1, r2, r3) + carry
      * 0x1_0000_0000_0000_0000_0000_0000_0000_0000_0000_0000_0000_0000_0000_0000_0000_0000
        == Value4(p0, p1, p2, p3) + p4 * 0x1_4551231950B75FC4_402DA1732FC9BEBF
    ensures carry <= 1
  {
    hide *;
    var c: u128 := p0 + 0x402DA1732FC9BEBF * p4;
    Split64(c);
    r0 := Wrap64(c); c := High64(c);
    c := c + (p1 + 0x4551231950B75FC4 * p4);
    Split64(c);
    r1 := Wrap64(c); c := High64(c);
    c := c + (p2 + p4);
    Split64(c);
    r2 := Wrap64(c); c := High64(c);
    c := c + p3;
    Split64(c);
    r3 := Wrap64(c); c := High64(c);
    carry := c;
    Value4Of(p0, p1, p2, p3); Value4Of(r0, r1, r2, r3);
  }

  /** `secp256k1_scalar_check_overflow`: whether the limbs reach n. */
  method CheckOverflow(d0: u64, d1: u64, d2: u64, d3: u64) returns (over: bool)
    ensures over <==> Value4(d0, d1, d2, d3) >= N
  {
    var yes, no := false, false;
    no := no || d3 < 0xFFFFFFFFFFFFFFFF;
    no := no || d2 < 0xFFFFFFFFFFFFFFFE;
    yes := yes || (d2 > 0xFFFFFFFFFFFFFFFE && !no);
    no := no || d1 < 0xBAAEDCE6AF48A03B;
    yes := yes || (d1 > 0xBAAEDCE6AF48A03B && !no);
    yes := yes || (d0 >= 0xBFD25E8CD0364141 && !no);
    over := yes;
  }

  /** `secp256k1_scalar_reduce`: add 2^256 - n modulo 2^256 when `overflow` is 1. */
  method Reduce(d0: u64, d1: u64, d2: u64, d3: u64, overflow: u64) returns (r0: u64, r1: u64, r2: u64, r3: u64)
    requires overflow <= 1
    ensures Value4(r0, r1, r2, r3) == Value4(d0, d1, d2, d3) + overflow * 0x1_4551231950B75FC4_402DA1732FC9BEBF
         || Value4(r0, r1, r2, r3) == Value4(d0, d1, d2, d3) + overflow * 0x1_4551231950B75FC4_402DA1732FC9BEBF
           - 0x1_0000_0000_0000_0000_0000_0000_0000_0000_0000_0000_0000_0000_0000_0000_0000_0000
  {
    hide *;
    var t: u128 := d0 + overflow * 0x402DA1732FC9BEBF;
    Split64(t);
    r0 := Wrap64(t); t := High64(t);
    t := t + (d1 + overflow * 0x4551231950B75FC4);
    Split64(t);
    r1 := Wrap64(t); t := High64(t);
    t := t + (d2 + overflow * 1);
    Split64(t);
    r2 := Wrap64(t); t := High64(t);
    t := t + d3;
    Split64(t);
    r3 := Wrap64(t);
    Value4Of(d0, d1, d2, d3); Value4Of(r0, r1, r2, r3);
    assert High64(t) == 0 || High64(t) == 1;
  }

  /** `secp256k1_scalar_reduce_512`: every 512-bit number becomes its residue modulo n. */
  method Reduce512(r: array<u64>, l: array<u64>)
    requires r.Length == 4 && l.Length == 8
    modifies r
    ensures Value(r[..]) == ModN(old(Value8(l[..])))
  {
    hide *;
    OrderIs();
    ghost var whole := l[..];
    Value8Of(whole);
    Limbs4(l[0], l[1], l[2], l[3]); Limbs4(l[4], l[5], l[6], l[7]);
    var m0, m1, m2, m3, m4, m5, m6 := Stage385(l[0], l[1], l[2], l[3], l[4], l[5], l[6], l[7]);
    Limbs4(m0, m1, m2, m3);
    var p0, p1, p2, p3, p4 := Stage258(m0, m1, m2, m3, m4, m5, m6);
    Limbs4(p0, p1, p2, p3);
    var r0, r1, r2, r3, carry := Stage256(p0, p1, p2, p3, p4);
    Limbs4(r0, r1, r2, r3);
    var over := CheckOverflow(r0, r1, r2, r3);
    var overflow: u64 := carry + if over then 1 else 0;
    assert overflow <= 1;
    var s0, s1, s2, s3 := Reduce(r0, r1, r2, r3, overflow);
    Limbs4(s0, s1, s2, s3);
    r[0], r[1], r[2], r[3] := s0, s1, s2, s3;
    assert r[..] == [s0, s1, s2, s3];
    ValueOf(r[..]);
    ModNUnique(Value8(whole), Value(r[..]),
      Value4(whole[4], whole[5], whole[6], whole[7]) + Acc(m4, m5, m6) + p4 + overflow);
  }

  lemma ValueOf(s: seq<int>)
    requires |s| == 4
    ensures Value(s) == Value4(s[0], s[1], s[2], s[3])
  {
  }

  /** `secp256k1_scalar_mul`. The output may be an operand. */
  method Mul(r: array<u64>, a: array<u64>, b: array<u64>)
    requires r.Length == 4 && a.Length == 4 && b.Length == 4
    modifies r
    ensures Value(r[..]) == ModN(old(Value(a[..])) * old(Value(b[..])))
  {
    hide *;
    var l := new u64[8];
    Mul512(l, a, b);
    Reduce512(r, l);
  }

  /** `secp256k1_scalar_sqr`. */
  method Sqr(r: array<u64>, a: array<u64>)
    requires r.Length == 4 && a.Length == 4
    modifies r
    ensures Value(r[..]) == ModN(old(Value(a[..])) * old(Value(a[..])))
  {
    hide *;
    var l := new u64[8];
    Sqr512(l, a);
    Reduce512(r, l);
  }

  // ---------------------------------------------------------------- addition, negation, comparisons

  /** `secp256k1_scalar_add`, on reduced operands. The result tells whether n was subtracted. */
  method Add(r: array<u64>, a: array<u64>, b: array<u64>) returns (overflow: u64)
    requires r.Length == 4 && a.Length == 4 && b.Length == 4
    requires Value(a[..]) < N && Value(b[..]) < N
    modifies r
    ensures overflow <= 1
    ensures overflow == 1 <==> old(Value(a[..])) + old(Value(b[..])) >= N
    ensures Value(r[..]) == ModN(old(Value(a[..])) + old(Value(b[..])))
  {
    hide *;
    OrderIs();
    ghost var x, y := a[..], b[..];
    ValueOf(x); ValueOf(y);
    var r0, r1, r2, r3, t := AddLimbs(a[0], a[1], a[2], a[3], b[0], b[1], b[2], b[3]);
    Limbs4(r0, r1, r2, r3);
    var over := CheckOverflow(r0, r1, r2, r3);
    overflow := t + if over then 1 else 0;
    assert overflow <= 1;
    var s0, s1, s2, s3 := Reduce(r0, r1, r2, r3, overflow);
    Limbs4(s0, s1, s2, s3);
    r[0], r[1], r[2], r[3] := s0, s1, s2, s3;
    assert r[..] == [s0, s1, s2, s3];
    ValueOf(r[..]);
    ModNUnique(Value(x) + Value(y), Value(r[..]), overflow);
  }

  /** The carry chain at the start of `secp256k1_scalar_add`. */
  method AddLimbs(a0: u64, a1: u64, a2: u64, a3: u64, b0: u64, b1: u64, b2: u64, b3: u64)
    returns (r0: u64, r1: u64, r2: u64, r3: u64, carry: u64)
    ensures Value4(r0, r1, r2, r3) + carry
      * 0x1_0000_0000_0000_0000_0000_0000_0000_0000_0000_0000_0000_0000_0000_0000_0000_0000
        == Value4(a0, a1, a2, a3) + Value4(b0, b1, b2, b3)
    ensures carry <= 1
  {
    hide *;
    var t: u128 := a0 + b0;
    Split64(t);
    r0 := Wrap64(t); t := High64(t);
    t := t + (a1 + b1);
    Split64(t);
    r1 := Wrap64(t); t := High64(t);
    t := t + (a2 + b2);
    Split64(t);
    r2 := Wrap64(t); t := High64(t);
    t := t + (a3 + b3);
    Split64(t);
    r3 := Wrap64(t); t := High64(t);
    carry := t;
    Value4Of(a0, a1, a2, a3); Value4Of(b0, b1, b2, b3); Value4Of(r0, r1, r2, r3);
  }

  /** `~x` on a 64-bit word. */
  function Not64(x: u64): u64 { 0xFFFF_FFFF_FFFF_FFFF - x }

  /** `secp256k1_scalar_is_zero`. */
  predicate IsZero(s: seq<u64>)
    requires |s| == 4
    ensures IsZero(s) <==> Value(s) == 0
  {
    s[0] == 0 && s[1] == 0 && s[2] == 0 && s[3] == 0
  }

  /** `secp256k1_scalar_negate`: n - a computed as ~a + n + 1, masked to zero when a is zero. */
  method Negate(r: array<u64>, a: array<u64>)
    requires r.Length == 4 && a.Length == 4
    requires Value(a[..]) < N
    modifies r
    ensures Value(r[..]) == ModN(-old(Value(a[..])))
  {
    hide *;
    OrderIs();
    ghost var x := a[..];
    ValueOf(x);
    var nonzero := !IsZero(a[..]);
    var s0, s1, s2, s3 := NegateLimbs(a[0], a[1], a[2], a[3]);
    Limbs4(s0, s1, s2, s3);
    Limbs4(x[0], x[1], x[2], x[3]);
    if nonzero {
      r[0], r[1], r[2], r[3] := s0, s1, s2, s3;
      assert r[..] == [s0, s1, s2, s3];
      ModNUnique(-Value(x), Value4(s0, s1, s2, s3), -1);
    } else {
      r[0], r[1], r[2], r[3] := 0, 0, 0, 0;
      assert r[..] == [0, 0, 0, 0];
      Value4Of(0, 0, 0, 0);
      ModNUnique(-Value(x), 0, 0);
    }
    ValueOf(r[..]);
  }

  /** The carry chain of `secp256k1_scalar_negate`, before the mask. */
  method NegateLimbs(a0: u64, a1: u64, a2: u64, a3: u64) returns (r0: u64, r1: u64, r2: u64, r3: u64)
    requires Value4(a0, a1, a2, a3) < N
    ensures Value4(a0, a1, a2, a3) != 0 ==>
      Value4(r0, r1, r2, r3) == N - Value4(a0, a1, a2, a3)
  {
    NotOf(a0); NotOf(a1); NotOf(a2); NotOf(a3);
    hide *;
    OrderIs();
    var t: u128 := Not64(a0) + 0xBFD25E8CD0364141 + 1;
    Split64(t);
    r0 := Wrap64(t); t := High64(t);
    t := t + (Not64(a1) + 0xBAAEDCE6AF48A03B);
    Split64(t);
    r1 := Wrap64(t); t := High64(t);
    t := t + (Not64(a2) + 0xFFFFFFFFFFFFFFFE);
    Split64(t);
    r2 := Wrap64(t); t := High64(t);
    t := t + (Not64(a3) + 0xFFFFFFFFFFFFFFFF);
    Split64(t);
    r3 := Wrap64(t);
    Value4Of(a0, a1, a2, a3); Value4Of(r0, r1, r2, r3);
    Limbs4(r0, r1, r2, r3);
    Limbs4(a0, a1, a2, a3);
  }

  lemma NotOf(x: u64)
    ensures Not64(x) == 0xFFFF_FFFF_FFFF_FFFF - x
  {
  }

  /** `secp256k1_scalar_is_high`: whether the scalar exceeds (n - 1) / 2. */
  method IsHigh(a: array<u64>) returns (high: bool)
    requires a.Length == 4
    ensures high <==> Value(a[..]) > N / 2
  {
    var d0, d1, d2, d3 := a[0], a[1], a[2], a[3];
    var yes, no := false, false;
    no := no || d3 < 0x7FFFFFFFFFFFFFFF;
    yes := yes || (d3 > 0x7FFFFFFFFFFFFFFF && !no);
    no := no || (d2 < 0xFFFFFFFFFFFFFFFF && !yes);
    no := no || (d1 < 0x5D576E7357A4501D && !yes);
    yes := yes || (d1 > 0x5D576E7357A4501D && !no);
    yes := yes || (d0 > 0xDFE92F46681B20A0 && !no);
    high := yes;
  }
}

/** The number that the limbs of a scalar hold, in one piece. */
module Scalars {
  import opened GroupOrder
  import opened Primes
  import opened Words
  import ScalarField
  import ScalarLimbs

  function Number(a: seq<u64>): (v: nat)
    requires |a| == 4
  {
    ScalarLimbs.Value(a)
  }

  lemma NumberIs(a: seq<u64>)
    requires |a| == 4
    ensures Number(a) == ScalarLimbs.Value(a)
  {
  }

  lemma NegatedMod(n: int)
    requires 0 < n < N
    ensures ScalarField.ModN(0 - n) == N - n
  {
    hide *;
    ScalarField.ModNIsRemainder(0 - n);
    ModUnique(0 - n, N, -1, N - n);
  }
}
