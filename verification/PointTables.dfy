/** Tables of odd multiples with a shared denominator. All additions are made on an isomorphic curve:
    every point lacks the same factor of its z coordinate, which is supplied once at the end. */
module PointTables {
  import opened PrimeField
  import opened Curve
  import opened CurveGroup
  import opened Jacobian

  // ---------------------------------------------------------------- additions up to a factor of z

  /** The point with the missing factor of z supplied. */
  function Rescaled(a: Gej, k: Fe): Gej { a.(z := Mul(a.z, k)) }

  lemma MulSwap(a: Fe, b: Fe, c: Fe)
    ensures Mul(Mul(a, b), c) == Mul(Mul(a, c), b)
  {
    hide Res, Mul;
    var ab, ac := Mul(a, b), Mul(a, c);
    SwapEq(a, b, c, ab, ac, Mul(ab, c), Mul(ac, b));
    Canonical(Mul(ab, c), Mul(ac, b));
  }

  lemma SwapEq(a: int, b: int, c: int, ab: int, ac: int, abc: int, acb: int)
    requires Eq(ab, a * b) && Eq(ac, a * c) && Eq(abc, ab * c) && Eq(acb, ac * b)
    ensures Eq(abc, acb)
  {
    hide Res;
    EqMul(ab, a * b, c, c);
    EqMul(ac, a * c, b, b);
    assert a * b * c == a * c * b;
  }

  lemma MulOne(a: Fe)
    ensures Mul(1, a) == a && Mul(a, 1) == a
  {
  }

  lemma TailRescaled(z: Fe, u1: Fe, s1: Fe, h: Fe, i: Fe, k: Fe)
    ensures AddTail(Mul(z, k), u1, s1, h, i) == Rescaled(AddTail(z, u1, s1, h, i), k)
  {
    hide Res, Mul, Sqr, Add, Neg, MulInt;
    MulSwap(z, k, h);
  }

  lemma DoubleRescaled(r: Gej, a: Gej, k: Fe)
    requires !a.infinity
    ensures DoubleVar(r, Rescaled(a, k)).0 == Rescaled(DoubleVar(r, a).0, k)
  {
    hide Res, Mul, Sqr, Add, Neg, MulInt;
    MulSwap(a.z, k, a.y);
    var m := Mul(a.z, a.y);
    var d, e := MulInt(m, 2), MulInt(Mul(m, k), 2);
    DoubleSwap(m, k, Mul(m, k), d, e, Mul(d, k));
    Canonical(e, Mul(d, k));
  }

  lemma DoubleSwap(m: int, k: int, mk: int, d: int, e: int, dk: int)
    requires Eq(mk, m * k) && Eq(d, 2 * m) && Eq(e, 2 * mk) && Eq(dk, d * k)
    ensures Eq(e, dk)
  {
    hide Res;
    EqMul(2, 2, mk, m * k);
    EqMul(d, 2 * m, k, k);
    assert 2 * (m * k) == 2 * m * k;
  }

  lemma DoubleScaled(r: Gej, a: Gej, k: Fe, p: CurvePoint)
    requires CurveFacts() && GejIs(Rescaled(a, k), p)
    ensures PIsPrime() && GejIs(Rescaled(DoubleVar(r, a).0, k), Sum(p, p))
  {
    hide Res, Mul, Sqr, Add, Neg, MulInt, PIsPrime, CurveFacts, Sum, OnCurve, ScaledX, ScaledY;
    Facts();
    DoubleVarIsSum(r, Rescaled(a, k), p);
    if !a.infinity {
      DoubleRescaled(r, a, k);
    }
  }

  /** A second point without its z: both points lack the same factor. */
  lemma SecondShared(z: int, k: int, zk: int, x: int, y: int, qx: int, qy: int, u2: int, s2: int)
    requires Eq(zk, z * k) && ScaledX(x, qx, k) && ScaledY(y, qy, k) && ScaledX(u2, x, z) && ScaledY(s2, y, z)
    ensures ScaledX(u2, qx, zk) && ScaledY(s2, qy, zk)
  {
    hide Res;
    EqMul(zk, z * k, zk, z * k);
    EqMul(zk * zk, z * k * (z * k), zk, z * k);
    EqMul(qx, qx, zk * zk, z * k * (z * k));
    EqMul(qy, qy, zk * zk * zk, z * k * (z * k) * (z * k));
    EqMul(x, qx * (k * k), z * z, z * z);
    EqMul(y, qy * (k * k * k), z * z * z, z * z * z);
    assert qx * (k * k) * (z * z) == qx * (z * k * (z * k));
    assert qy * (k * k * k) * (z * z * z) == qy * (z * k * (z * k) * (z * k));
  }

  /** `add_ge_var` when both points lack the factor k. */
  lemma AddGeVarScaled(r: Gej, a: Gej, b: Ge, k: Fe, p: CurvePoint, q: CurvePoint)
    requires CurveFacts() && GejIs(Rescaled(a, k), p) && GejIs(Gej(b.x, b.y, k, b.infinity), q)
    ensures PIsPrime() && GejIs(Rescaled(AddGeVar(r, a, b).0, k), Sum(p, q))
    ensures !a.infinity && !AddGeVar(r, a, b).0.infinity ==> Eq(AddGeVar(r, a, b).0.z, a.z * AddGeVar(r, a, b).1)
  {
    hide Res, Mul, Sqr, Add, Neg, PIsPrime, NoCubeRoot, CurveFacts, Sum, OnCurve, AddTail, DoubleVar, ScaledX, ScaledY;
    Facts();
    SumInfinity(p);
    SumInfinity(q);
    if a.infinity {
      MulOne(k);
    } else if b.infinity {
      assert a.z * 1 == a.z;
    } else {
      var z12 := Sqr(a.z);
      var u2, w := Mul(b.x, z12), Mul(b.y, z12);
      var s2 := Mul(w, a.z);
      var n, m := Neg(a.x), Neg(a.y);
      var h, i := Add(n, u2), Add(m, s2);
      SecondScaled(a.z, b.x, b.y, z12, u2, w, s2);
      NegAdd(n, a.x, u2, h);
      NegAdd(m, a.y, s2, i);
      SecondShared(a.z, k, Mul(a.z, k), b.x, b.y, q.x, q.y, u2, s2);
      AddFinite(r, Rescaled(a, k), p, q, u2, s2, h, i);
      TailRescaled(a.z, a.x, a.y, h, i, k);
      TailZ(a.z, a.x, a.y, h, i);
      if h == 0 && i == 0 {
        DoubleScaled(r, a, k, p);
        DoubleVarRatio(r, a);
      }
    }
  }

  lemma TailZ(z: Fe, u1: Fe, s1: Fe, h: Fe, i: Fe)
    ensures Eq(AddTail(z, u1, s1, h, i).z, z * h) && !AddTail(z, u1, s1, h, i).infinity
  {
    hide Res, Mul, Sqr, Add, Neg, MulInt;
  }

  lemma DoubleVarRatio(r: Gej, a: Gej)
    requires !a.infinity
    ensures Eq(DoubleVar(r, a).0.z, a.z * DoubleVar(r, a).1)
  {
    hide Res, Mul, Sqr, Add, Neg, MulInt;
    var m := Mul(a.z, a.y);
    DoubleZRatio(a.z, a.y, m, MulInt(m, 2), MulInt(a.y, 2));
  }

  lemma DoubleZRatio(z: int, y: int, m: int, z3: int, d: int)
    requires Eq(m, z * y) && Eq(z3, 2 * m) && Eq(d, 2 * y)
    ensures Eq(z3, z * d)
  {
    hide Res;
    EqMul(2, 2, m, z * y);
    DoubleRatio(z, y, z3, d);
  }

  /** `add_zinv_var` when the first point lacks the factor k and the second is affine. */
  lemma AddZinvVarScaled(r: Gej, a: Gej, b: Ge, k: Fe, p: CurvePoint, q: CurvePoint)
    requires CurveFacts() && !Eq(k, 0) && GejIs(Rescaled(a, k), p) && GeIs(b, q)
    ensures PIsPrime() && GejIs(Rescaled(AddZinvVar(r, a, b, k), k), Sum(p, q))
  {
    hide Res, Mul, Sqr, Add, Neg, PIsPrime, NoCubeRoot, CurveFacts, Sum, OnCurve, AddTail, DoubleVar, ScaledX, ScaledY;
    Facts();
    SumInfinity(p);
    SumInfinity(q);
    if b.infinity {
    } else if a.infinity {
      var k2 := Sqr(k);
      var k3 := Mul(k2, k);
      MulOne(k);
      AffineScaled(b.x, b.y, k, k2, k3, Mul(b.x, k2), Mul(b.y, k3));
    } else {
      var az := Mul(a.z, k);
      var z12 := Sqr(az);
      var u2, w := Mul(b.x, z12), Mul(b.y, z12);
      var s2 := Mul(w, az);
      var n, m := Neg(a.x), Neg(a.y);
      var h, i := Add(n, u2), Add(m, s2);
      SecondScaled(az, b.x, b.y, z12, u2, w, s2);
      NegAdd(n, a.x, u2, h);
      NegAdd(m, a.y, s2, i);
      AddFinite(r, Rescaled(a, k), p, q, u2, s2, h, i);
      TailRescaled(a.z, a.x, a.y, h, i, k);
      if h == 0 && i == 0 {
        DoubleScaled(r, a, k, p);
      }
    }
  }

  lemma AffineScaled(x: int, y: int, k: int, k2: int, k3: int, u: int, v: int)
    requires Eq(k2, k * k) && Eq(k3, k2 * k) && Eq(u, x * k2) && Eq(v, y * k3)
    ensures ScaledX(u, x, k) && ScaledY(v, y, k)
  {
    ZinvAffine(x, y, k, k2, k3, u, v);
  }

  // ---------------------------------------------------------------- one denominator for a whole table

  /** `secp256k1_ge_set_gej_zinv`. */
  function SetGejZinv(a: Gej, zi: Fe): Ge {
    var zi2 := Sqr(zi);
    var zi3 := Mul(zi2, zi);
    Ge(Mul(a.x, zi2), Mul(a.y, zi3), a.infinity)
  }

  /** Points whose z coordinates zs are related by the given ratios; only the last z need be stored. */
  ghost predicate Chain(a: seq<Gej>, zr: seq<Fe>, zs: seq<Fe>, ps: seq<CurvePoint>) {
    && |a| == |zr| == |zs| == |ps|
    && (forall i | 0 <= i < |a| :: ChainLink(a[i], zs[i], ps[i]))
    && (forall i | 0 < i < |a| :: Ratio(zs[i - 1], zr[i], zs[i]))
    && (|a| > 0 ==> zs[|a| - 1] == a[|a| - 1].z)
  }

  /** z times r is w. */
  predicate Ratio(z: int, r: int, w: int) { Eq(z * r, w) }

  predicate ChainLink(a: Gej, z: Fe, p: Point) {
    !a.infinity && GejIs(a.(z := z), p)
  }

  /** The affine coordinates stand for the point over the shared z. */
  predicate OverZ(r: Ge, z: Fe, p: Point) {
    GejIs(Gej(r.x, r.y, z, r.infinity), p)
  }

  /** Scaling by s turns a point over z into one over g = z s. */
  lemma ScaleToShared(a: Gej, z: Fe, s: Fe, g: Fe, p: Point)
    requires ChainLink(a, z, p) && Ratio(z, s, g) && !Eq(g, 0)
    ensures OverZ(SetGejZinv(a, s), g, p)
  {
    hide Res, Mul, Sqr;
    var s2 := Sqr(s);
    var s3 := Mul(s2, s);
    AffineScaled(a.x, a.y, s, s2, s3, Mul(a.x, s2), Mul(a.y, s3));
    SecondShared(s, z, g, a.x, a.y, p.x, p.y, Mul(a.x, s2), Mul(a.y, s3)) by {
      assert z * s == s * z;
    }
  }

  lemma RatioStep(z: int, r: int, s: int, zn: int, sn: int, g: int)
    requires Ratio(z, r, zn) && Ratio(zn, s, g) && Eq(sn, s * r)
    ensures Ratio(z, sn, g)
  {
    hide Res;
    EqMul(z, z, sn, s * r);
    EqMul(z * r, zn, s, s);
    assert z * (s * r) == z * r * s;
  }

  lemma ChainUnit(a: seq<Gej>, zr: seq<Fe>, zs: seq<Fe>, ps: seq<CurvePoint>)
    requires Chain(a, zr, zs, ps) && |a| > 0
    ensures !Eq(a[|a| - 1].z, 0) && OverZ(Ge(a[|a| - 1].x, a[|a| - 1].y, false), a[|a| - 1].z, ps[|a| - 1])
  {
    hide Res, ScaledX, ScaledY, OnCurve;
    assert ChainLink(a[|a| - 1], zs[|a| - 1], ps[|a| - 1]);
  }

  lemma LinkFinite(a: Gej, z: Fe, s: Fe, p: Point)
    requires ChainLink(a, z, p)
    ensures !SetGejZinv(a, s).infinity
  {
  }

  lemma InverseResidue(a: int, b: int, r: int)
    requires Eq(a * b, 1) && Eq(r, b)
    ensures Ratio(a, r, 1)
  {
    hide Res;
    EqMul(a, a, b, r);
  }

  lemma ScaleToAffine(a: Gej, z: Fe, zi: Fe, p: Point)
    requires ChainLink(a, z, p) && Ratio(z, zi, 1)
    ensures GeIs(SetGejZinv(a, zi), p) && !SetGejZinv(a, zi).infinity
  {
    ScaleToShared(a, z, zi, 1, p);
    var r := SetGejZinv(a, zi);
    hide Res, Mul, Sqr, SetGejZinv;
    LinkFinite(a, z, zi, p);
    assert p.x * (1 * 1) == p.x && p.y * (1 * 1 * 1) == p.y;
    Canonical(r.x, p.x);
    Canonical(r.y, p.y);
  }
}
