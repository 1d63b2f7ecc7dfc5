/** The constant-time addition of group_impl.h: one formula for sums and doublings, with the slope
    (x1^2 + x1 x2 + x2^2) / (y1 + y2), replaced by (y1 - y2) / (x1 - x2) when that is 0 / 0. */
module UnifiedAddition {
  import opened PrimeField
  import opened Curve
  import opened Jacobian

  /** The computation after numerator and denominator of the slope are chosen. */
  function UnifiedTail(z: Fe, t: Fe, m: Fe, rrAlt: Fe, mAlt: Fe, degenerate: bool): Gej {
    var n := Sqr(mAlt);
    var q := Neg(Mul(n, t));
    var n4 := if degenerate then m else Sqr(n);
    var z1 := Mul(z, mAlt);
    var x1 := Add(Sqr(rrAlt), q);
    var t2 := Add(MulInt(x1, 2), q);
    var y1 := Neg(Add(Mul(t2, rrAlt), n4));
    Gej(MulInt(x1, 4), MulInt(y1, 4), MulInt(z1, 2), z1 == 0)
  }

  /** The numerator T^2 - U1 U2 of the first slope. */
  function Numerator(u1: Fe, u2: Fe, t: Fe): Fe {
    Add(Sqr(t), Mul(u1, Neg(u2)))
  }

  /** `secp256k1_gej_add_ge`. */
  function AddGe(a: Gej, b: Ge): Gej
    requires !b.infinity
  {
    var zz := Sqr(a.z);
    var u2 := Mul(b.x, zz);
    var s2 := Mul(Mul(b.y, zz), a.z);
    var t := Add(a.x, u2);
    var m := Add(a.y, s2);
    var rr := Numerator(a.x, u2, t);
    var degenerate := m == 0 && rr == 0;
    var rrAlt := if degenerate then MulInt(a.y, 2) else rr;
    var mAlt := if degenerate then Add(Neg(u2), a.x) else m;
    var r := UnifiedTail(a.z, t, m, rrAlt, mAlt, degenerate);
    if a.infinity then Gej(b.x, b.y, 1, false) else r
  }

  /** Where the denominator does not vanish, both expressions give the slope. */
  lemma UnifiedSlope(x1: int, y1: int, x2: int, y2: int, l: int)
    requires PIsPrime()
    requires Eq(y1 * y1, Rhs(x1)) && Eq(y2 * y2, Rhs(x2)) && !Opposite(x1, y1, x2, y2) && IsSlope(l, x1, y1, x2, y2)
    ensures Eq(l * (x2 - x1), y2 - y1)
    ensures Eq(l * (y1 + y2), x1 * x1 + x1 * x2 + x2 * x2)
  {
    hide Res, PIsPrime;
    SlopeDivisor(x1, y1, x2, y2);
    if Eq(x1, x2) {
      EqDifference(x2, x1);
      EqDifference(y2, y1);
      EqMul(l, l, x2 - x1, 0);
      EqAdd(y1, y1, y1, y2);
      EqMul(l, l, y1 + y1, y1 + y2);
      EqMul(x1, x1, x1, x2);
      EqMul(x1, x2, x1, x2);
      EqAdd(x1 * x1, x1 * x2, x1 * x1, x2 * x2);
      EqAdd(x1 * x1, x1 * x1, x1 * x1 + x1 * x1, x1 * x2 + x2 * x2);
      assert x1 * x1 + (x1 * x1 + x1 * x1) == 3 * x1 * x1 && y1 + y1 == 2 * y1;
      assert l * 0 == 0;
    } else {
      CubeDifference(x1, y1, x2, y2);
      EqMul(l * (x2 - x1), y2 - y1, y1 + y2, y1 + y2);
      assert l * (x2 - x1) * (y1 + y2) == (x2 - x1) * (l * (y1 + y2));
      Cancel(x2 - x1, l * (y1 + y2), x1 * x1 + x1 * x2 + x2 * x2);
    }
  }

  /** y2^2 - y1^2 = x2^3 - x1^3, factored. */
  lemma CubeDifference(x1: int, y1: int, x2: int, y2: int)
    requires Eq(y1 * y1, Rhs(x1)) && Eq(y2 * y2, Rhs(x2))
    ensures Eq((y2 - y1) * (y1 + y2), (x2 - x1) * (x1 * x1 + x1 * x2 + x2 * x2))
  {
    hide Res;
    EqAdd(y2 * y2, Rhs(x2), y1 * y1, Rhs(x1));
    assert y2 * y2 - y1 * y1 == (y2 - y1) * (y1 + y2);
    assert Rhs(x2) - Rhs(x1) == (x2 - x1) * (x1 * x1 + x1 * x2 + x2 * x2);
  }

  /** The head of the computation in terms of the affine points. */
  lemma HeadTerms(z: int, x1: int, y1: int, x2: int, y2: int, u1: int, s1: int, u2: int, s2: int,
                  t: int, m: int, tt: int, nu: int, p: int, rr: int)
    requires ScaledX(u1, x1, z) && ScaledY(s1, y1, z) && ScaledX(u2, x2, z) && ScaledY(s2, y2, z)
    requires Eq(t, u1 + u2) && Eq(m, s1 + s2)
    requires Eq(tt, t * t) && Eq(nu, 0 - u2) && Eq(p, u1 * nu) && Eq(rr, tt + p)
    ensures Eq(t, (x1 + x2) * (z * z)) && Eq(m, (y1 + y2) * (z * z * z))
    ensures Eq(rr, (x1 * x1 + x1 * x2 + x2 * x2) * (z * z * z * z))
  {
    hide Res;
    var w, c := z * z, z * z * z;
    EqAdd(u1, x1 * w, u2, x2 * w);
    EqAdd(s1, y1 * c, s2, y2 * c);
    assert x1 * w + x2 * w == (x1 + x2) * w && y1 * c + y2 * c == (y1 + y2) * c;
    EqMul(t, (x1 + x2) * w, t, (x1 + x2) * w);
    EqAdd(0, 0, u2, x2 * w);
    EqMul(u1, x1 * w, nu, 0 - x2 * w);
    EqAdd(tt, (x1 + x2) * w * ((x1 + x2) * w), p, x1 * w * (0 - x2 * w));
    assert (x1 + x2) * w * ((x1 + x2) * w) + x1 * w * (0 - x2 * w) == (x1 * x1 + x1 * x2 + x2 * x2) * (z * z * z * z);
  }

  /** The tail, from rrAlt = l (z mAlt) and n4 = (y1 + y2)(z mAlt)^3, with k = z mAlt half the new z. */
  lemma TailX(x1: int, x2: int, l: int, z: int, ma: int, k: int, t: int, ra: int, n: int, nt: int, q: int,
              rs: int, x: int, x4: int, z3: int)
    requires Eq(k, z * ma) && Eq(ra, l * k) && Eq(t, (x1 + x2) * (z * z))
    requires Eq(n, ma * ma) && Eq(nt, n * t) && Eq(q, 0 - nt) && Eq(rs, ra * ra) && Eq(x, rs + q)
    requires Eq(x4, 4 * x) && Eq(z3, 2 * k)
    ensures Eq(q, 0 - (x1 + x2) * (k * k)) && Eq(x, ThirdX(l, x1, x2) * (k * k))
    ensures ScaledX(x4, ThirdX(l, x1, x2), z3)
  {
    hide Res;
    var kk, e := k * k, ThirdX(l, x1, x2);
    EqMul(n, ma * ma, t, (x1 + x2) * (z * z));
    EqMul(k, z * ma, k, z * ma);
    EqMul(x1 + x2, x1 + x2, kk, z * ma * (z * ma));
    assert ma * ma * ((x1 + x2) * (z * z)) == (x1 + x2) * (z * ma * (z * ma));
    EqAdd(0, 0, nt, (x1 + x2) * kk);
    EqMul(ra, l * k, ra, l * k);
    EqAdd(rs, l * k * (l * k), q, 0 - (x1 + x2) * kk);
    assert l * k * (l * k) + (0 - (x1 + x2) * kk) == e * kk;
    EqMul(4, 4, x, e * kk);
    EqMul(z3, 2 * k, z3, 2 * k);
    EqMul(e, e, z3 * z3, 2 * k * (2 * k));
    assert 4 * (e * kk) == e * (2 * k * (2 * k));
  }

  lemma TailY(x1: int, y1: int, x2: int, y2: int, l: int, k: int, ra: int, n4: int, q: int, x: int,
              d: int, t2: int, w: int, s: int, y: int, y4: int, z3: int)
    requires Eq(ra, l * k) && Eq(q, 0 - (x1 + x2) * (k * k)) && Eq(x, ThirdX(l, x1, x2) * (k * k))
    requires Eq(n4, (y1 + y2) * (k * k * k)) && Eq(l * (x2 - x1), y2 - y1)
    requires Eq(d, 2 * x) && Eq(t2, d + q) && Eq(w, t2 * ra) && Eq(s, w + n4) && Eq(y, 0 - s)
    requires Eq(y4, 4 * y) && Eq(z3, 2 * k)
    ensures ScaledY(y4, ThirdY(l, x1, y1, x2), z3)
  {
    hide Res;
    var kk, c, e, f := k * k, k * k * k, ThirdX(l, x1, x2), ThirdY(l, x1, y1, x2);
    EqMul(2, 2, x, e * kk);
    EqAdd(d, 2 * (e * kk), q, 0 - (x1 + x2) * kk);
    var g := 2 * e - (x1 + x2);
    assert 2 * (e * kk) + (0 - (x1 + x2) * kk) == g * kk;
    EqMul(t2, g * kk, ra, l * k);
    EqAdd(w, g * kk * (l * k), n4, (y1 + y2) * c);
    EqAdd(0, 0, s, g * kk * (l * k) + (y1 + y2) * c);
    EqMul(4, 4, y, 0 - (g * kk * (l * k) + (y1 + y2) * c));
    // twice the ordinate, but for the term that the slope makes vanish
    EqDifference(l * (x2 - x1), y2 - y1);
    EqMul(l * (x2 - x1) - (y2 - y1), 0, 4 * c, 4 * c);
    assert 0 * (4 * c) == 0;
    EqAdd(8 * f * c, 8 * f * c, (l * (x2 - x1) - (y2 - y1)) * (4 * c), 0);
    assert 4 * (0 - (g * kk * (l * k) + (y1 + y2) * c)) == 8 * f * c + (l * (x2 - x1) - (y2 - y1)) * (4 * c) by {
      TailIdentity(x1, y1, x2, y2, l, e, k);
    }
    EqMul(z3, 2 * k, z3, 2 * k);
    EqMul(z3 * z3, 2 * k * (2 * k), z3, 2 * k);
    EqMul(f, f, z3 * z3 * z3, 2 * k * (2 * k) * (2 * k));
    assert f * (2 * k * (2 * k) * (2 * k)) == 8 * f * c;
  }

  lemma TailIdentity(x1: int, y1: int, x2: int, y2: int, l: int, e: int, k: int)
    ensures 4 * (0 - ((2 * e - (x1 + x2)) * (k * k) * (l * k) + (y1 + y2) * (k * k * k)))
         == 8 * (l * (x1 - e) - y1) * (k * k * k) + (l * (x2 - x1) - (y2 - y1)) * (4 * (k * k * k))
  {
    var c := k * k * k;
    assert (2 * e - (x1 + x2)) * (k * k) * (l * k) == (2 * e - (x1 + x2)) * l * c;
  }

  lemma RegularChoice(z: int, y: int, d: int, l: int, m: int, rr: int, k: int, n: int, n4: int)
    requires Eq(m, y * (z * z * z)) && Eq(rr, d * (z * z * z * z)) && Eq(l * y, d)
    requires Eq(k, z * m) && Eq(n, m * m) && Eq(n4, n * n)
    ensures Eq(rr, l * k) && Eq(n4, y * (k * k * k))
  {
    hide Res;
    var c := z * z * z;
    EqMul(z, z, m, y * c);
    EqMul(l, l, k, z * (y * c));
    EqMul(l * y, d, z * c, z * c);
    assert l * (z * (y * c)) == l * y * (z * c) && z * c == z * z * z * z;
    EqMul(n, m * m, n, m * m);
    EqMul(y * c, m, m * m * m, m * m * m);
    EqMul(k, z * m, k, z * m);
    EqMul(k * k, z * m * (z * m), k, z * m);
    EqMul(y, y, k * k * k, z * m * (z * m) * (z * m));
    assert y * (z * m * (z * m) * (z * m)) == y * c * (m * m * m) && m * m * (m * m) == m * (m * m * m);
  }

  lemma DegenerateDenominator(z: int, x1: int, x2: int, u1: int, u2: int, nu: int, ma: int)
    requires ScaledX(u1, x1, z) && ScaledX(u2, x2, z) && Eq(nu, 0 - u2) && Eq(ma, nu + u1)
    ensures Eq(ma, (x1 - x2) * (z * z))
  {
    hide Res;
    NegAdd(nu, u2, u1, ma);
    EqAdd(u1, x1 * (z * z), u2, x2 * (z * z));
    assert x1 * (z * z) - x2 * (z * z) == (x1 - x2) * (z * z);
  }

  lemma DegenerateChoice(z: int, x1: int, y1: int, x2: int, y2: int, l: int, s1: int, ra: int, ma: int, k: int, m: int)
    requires Eq(y1 + y2, 0) && Eq(m, 0) && ScaledY(s1, y1, z) && Eq(ra, 2 * s1)
    requires Eq(ma, (x1 - x2) * (z * z)) && Eq(k, z * ma) && Eq(l * (x2 - x1), y2 - y1)
    ensures Eq(ra, l * k) && Eq(m, (y1 + y2) * (k * k * k))
  {
    hide Res;
    var c := z * z * z;
    EqMul(z, z, ma, (x1 - x2) * (z * z));
    EqMul(l, l, k, z * ((x1 - x2) * (z * z)));
    EqMul(l * (x2 - x1), y2 - y1, 0 - c, 0 - c);
    assert l * (z * ((x1 - x2) * (z * z))) == l * (x2 - x1) * (0 - c);
    EqMul(y1 + y2, 0, c, c);
    EqAdd((y2 - y1) * (0 - c), (y2 - y1) * (0 - c), (y1 + y2) * c, 0 * c);
    assert (y2 - y1) * (0 - c) + (y1 + y2) * c == 2 * (y1 * c) && 0 * c == 0;
    EqMul(2, 2, s1, y1 * c);
    EqMul(y1 + y2, 0, k * k * k, k * k * k);
    assert 0 * (k * k * k) == 0;
  }

  /** With a denominator and a numerator that satisfy the equations above, the tail is the third point. */
  lemma UnifiedTailScaled(z: Fe, t: Fe, m: Fe, ra: Fe, ma: Fe, degenerate: bool, x1: int, y1: int, x2: int, y2: int,
      l: int)
    requires Eq(t, (x1 + x2) * (z * z)) && Eq(ra, l * Mul(z, ma)) && Eq(l * (x2 - x1), y2 - y1)
    requires degenerate ==> Eq(m, (y1 + y2) * (Mul(z, ma) * Mul(z, ma) * Mul(z, ma)))
    requires !degenerate ==> Eq(Sqr(Sqr(ma)), (y1 + y2) * (Mul(z, ma) * Mul(z, ma) * Mul(z, ma)))
    ensures var s := UnifiedTail(z, t, m, ra, ma, degenerate);
      ScaledX(s.x, ThirdX(l, x1, x2), s.z) && ScaledY(s.y, ThirdY(l, x1, y1, x2), s.z)
  {
    hide Res, Mul, Sqr, Add, Neg, MulInt, ScaledX, ScaledY, ThirdX, ThirdY;
    var k, n := Mul(z, ma), Sqr(ma);
    var nt := Mul(n, t);
    var q, rs := Neg(nt), Sqr(ra);
    var x := Add(rs, q);
    var x4, d, z3 := MulInt(x, 4), MulInt(x, 2), MulInt(k, 2);
    var t2 := Add(d, q);
    var w := Mul(t2, ra);
    var n4 := if degenerate then m else Sqr(n);
    var s := Add(w, n4);
    var y := Neg(s);
    var y4 := MulInt(y, 4);
    assert UnifiedTail(z, t, m, ra, ma, degenerate) == Gej(x4, y4, z3, k == 0);
    TailX(x1, x2, l, z, ma, k, t, ra, n, nt, q, rs, x, x4, z3);
    TailY(x1, y1, x2, y2, l, k, ra, n4, q, x, d, t2, w, s, y, y4, z3);
  }

  lemma UnifiedTailZ(z: Fe, t: Fe, m: Fe, ra: Fe, ma: Fe, degenerate: bool)
    requires PIsPrime() && !Eq(z, 0)
    ensures var s := UnifiedTail(z, t, m, ra, ma, degenerate);
      (s.infinity <==> Eq(ma, 0)) && (!s.infinity ==> !Eq(s.z, 0))
  {
    hide Res, Mul, Sqr, Add, Neg, MulInt, PIsPrime;
    var k := Mul(z, ma);
    var z3 := MulInt(k, 2);
    ZeroIsZero(k);
    assert UnifiedTail(z, t, m, ra, ma, degenerate).z == z3;
    TwoNotZero();
    if Eq(ma, 0) {
      EqMul(z, z, ma, 0);
      assert z * 0 == 0;
    } else {
      NonzeroProduct(z, ma);
      NonzeroProduct(2, k);
    }
  }

  /** The chosen denominator vanishes exactly when the points are opposite. */
  lemma DenominatorZero(z: int, x1: int, y1: int, x2: int, y2: int, m: int, rr: int, ma: int, degenerate: bool)
    requires PIsPrime() && !Eq(z, 0)
    requires Eq(y1 * y1, Rhs(x1)) && Eq(y2 * y2, Rhs(x2))
    requires Eq(m, (y1 + y2) * (z * z * z)) && Eq(rr, (x1 * x1 + x1 * x2 + x2 * x2) * (z * z * z * z))
    requires degenerate <==> Eq(m, 0) && Eq(rr, 0)
    requires if degenerate then Eq(ma, (x1 - x2) * (z * z)) else ma == m
    ensures Eq(ma, 0) <==> Opposite(x1, y1, x2, y2)
    ensures degenerate ==> Eq(y1 + y2, 0)
  {
    hide Res, PIsPrime;
    NonzeroProduct(z, z);
    NonzeroProduct(z * z, z);
    NonzeroProduct(z * z * z, z);
    ScaledZero(y1 + y2, z * z * z, m);
    var d := x1 * x1 + x1 * x2 + x2 * x2;
    ScaledZero(d, z * z * z * z, rr);
    if Eq(x1, x2) { EqDifference(x1, x2); }
    if Eq(x1 - x2, 0) { EqSame(x1, x2); }
    if degenerate {
      ScaledZero(x1 - x2, z * z, ma);
    } else if Eq(m, 0) {
      CubeDifference(x1, y1, x2, y2);
      EqMul(y2 - y1, y2 - y1, y1 + y2, 0);
      assert (y2 - y1) * 0 == 0;
      if !Eq(x2 - x1, 0) { NonzeroProduct(x2 - x1, d); }
      EqSame(x2, x1);
    }
  }

  /** The unified formula is right for every pair with a finite second point. */
  lemma AddGeIsSum(a: Gej, b: Ge, p: CurvePoint, q: CurvePoint)
    requires PIsPrime() && GejIs(a, p) && GeIs(b, q) && !b.infinity
    ensures GejIs(AddGe(a, b), Sum(p, q))
  {
    hide Res, Mul, Sqr, Add, Neg, MulInt, PIsPrime, Sum, OnCurve, UnifiedTail, Opposite, IsSlope, ScaledX, ScaledY;
    SumInfinity(q);
    if a.infinity {
      UnitZ(b, q);
    } else {
      AffineOnCurve(p);
      AffineOnCurve(q);
      var zz := Sqr(a.z);
      var u2, w := Mul(b.x, zz), Mul(b.y, zz);
      var s2 := Mul(w, a.z);
      SecondScaled(a.z, b.x, b.y, zz, u2, w, s2);
      var t, m, nu := Add(a.x, u2), Add(a.y, s2), Neg(u2);
      var tt, pr := Sqr(t), Mul(a.x, nu);
      var rr := Add(tt, pr);
      HeadTerms(a.z, p.x, p.y, q.x, q.y, a.x, a.y, u2, s2, t, m, tt, nu, pr, rr);
      ZeroIsZero(m);
      ZeroIsZero(rr);
      var degenerate := m == 0 && rr == 0;
      var md := Add(nu, a.x);
      DegenerateDenominator(a.z, p.x, q.x, a.x, u2, nu, md);
      var ra := if degenerate then MulInt(a.y, 2) else rr;
      var ma := if degenerate then md else m;
      var s := UnifiedTail(a.z, t, m, ra, ma, degenerate);
      assert AddGe(a, b) == s;
      DenominatorZero(a.z, p.x, p.y, q.x, q.y, m, rr, ma, degenerate);
      UnifiedTailZ(a.z, t, m, ra, ma, degenerate);
      if Opposite(p.x, p.y, q.x, q.y) {
        OppositeSum(p, q);
      } else {
        var l := SlopeExists(p.x, p.y, q.x, q.y);
        UnifiedSlope(p.x, p.y, q.x, q.y, l);
        UnifiedFinite(a.z, t, m, rr, a.y, ra, ma, degenerate, p.x, p.y, q.x, q.y, l);
        ThirdIsSum(p, q, s, l);
      }
    }
  }

  /** Either choice of numerator and denominator satisfies the equations of the tail. */
  lemma UnifiedFinite(z: Fe, t: Fe, m: Fe, rr: Fe, s1: Fe, ra: Fe, ma: Fe, degenerate: bool,
                      x1: int, y1: int, x2: int, y2: int, l: int)
    requires Eq(t, (x1 + x2) * (z * z)) && Eq(m, (y1 + y2) * (z * z * z))
    requires Eq(rr, (x1 * x1 + x1 * x2 + x2 * x2) * (z * z * z * z)) && ScaledY(s1, y1, z)
    requires Eq(l * (x2 - x1), y2 - y1) && Eq(l * (y1 + y2), x1 * x1 + x1 * x2 + x2 * x2)
    requires degenerate ==> m == 0 && Eq(y1 + y2, 0) && ra == MulInt(s1, 2) && Eq(ma, (x1 - x2) * (z * z))
    requires !degenerate ==> ra == rr && ma == m
    ensures var s := UnifiedTail(z, t, m, ra, ma, degenerate);
      ScaledX(s.x, ThirdX(l, x1, x2), s.z) && ScaledY(s.y, ThirdY(l, x1, y1, x2), s.z)
  {
    hide Res, Mul, Sqr, Add, Neg, MulInt, UnifiedTail, ThirdX, ThirdY, ScaledX, ScaledY;
    var k, n := Mul(z, ma), Sqr(ma);
    if degenerate {
      DegenerateChoice(z, x1, y1, x2, y2, l, s1, ra, ma, k, m);
    } else {
      RegularChoice(z, y1 + y2, x1 * x1 + x1 * x2 + x2 * x2, l, m, rr, k, n, Sqr(n));
    }
    UnifiedTailScaled(z, t, m, ra, ma, degenerate, x1, y1, x2, y2, l);
  }
}
