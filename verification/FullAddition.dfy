/** The addition of two Jacobian points, `secp256k1_gej_add_var`, by which the table for the generator is built. */
module FullAddition {
  import opened PrimeField
  import opened Curve
  import opened Jacobian
  import opened PointTables

  /** `secp256k1_gej_add_var`, with the ratio of z coordinates. */
  function AddVar(r: Gej, a: Gej, b: Gej): (Gej, Fe) {
    if a.infinity then (b, 1)
    else if b.infinity then (a, 1)
    else
      var z22 := Sqr(b.z);
      var z12 := Sqr(a.z);
      var u1 := Mul(a.x, z22);
      var u2 := Mul(b.x, z12);
      var s1 := Mul(Mul(a.y, z22), b.z);
      var s2 := Mul(Mul(b.y, z12), a.z);
      var h := Add(Neg(u1), u2);
      var i := Add(Neg(s1), s2);
      if h == 0 then
        if i == 0 then DoubleVar(r, a) else (r.(infinity := true), 0)
      else
        var hz := Mul(h, b.z);
        (AddTail(a.z, u1, s1, h, i).(z := Mul(a.z, hz)), hz)
  }

  /** Both points are brought to the product of their z coordinates; the first is rescaled by b.z. */
  lemma AddVarIsSum(r: Gej, a: Gej, b: Gej, p: CurvePoint, q: CurvePoint)
    requires PIsPrime() && NoCubeRoot() && GejIs(a, p) && GejIs(b, q)
    ensures GejIs(AddVar(r, a, b).0, Sum(p, q))
    ensures !a.infinity && !AddVar(r, a, b).0.infinity ==>
      Eq(AddVar(r, a, b).0.z, a.z * AddVar(r, a, b).1)
  {
    hide Res, Mul, Sqr, Add, Neg, PIsPrime, NoCubeRoot, Sum, OnCurve, AddTail, DoubleVar;
    SumInfinity(p);
    SumInfinity(q);
    if a.infinity {
    } else if b.infinity {
      assert a.z * 1 == a.z;
    } else {
      AddVarFinite(r, a, b, p, q);
    }
  }

  lemma AddVarFinite(r: Gej, a: Gej, b: Gej, p: CurvePoint, q: CurvePoint)
    requires PIsPrime() && NoCubeRoot() && GejIs(a, p) && GejIs(b, q) && !a.infinity && !b.infinity
    ensures GejIs(AddVar(r, a, b).0, Sum(p, q))
    ensures !AddVar(r, a, b).0.infinity ==> Eq(AddVar(r, a, b).0.z, a.z * AddVar(r, a, b).1)
  {
    hide Res, Mul, Sqr, Add, Neg, PIsPrime, NoCubeRoot, Sum, OnCurve, AddTail, DoubleVar, ScaledX, ScaledY;
    NonzeroZ(b, q);
    ZeroIsZero(b.z);
    RescaleIsSame(a, b.z, p);
    var c := Rescale(a, b.z);
    var z12 := Sqr(a.z);
    var u2, w := Mul(b.x, z12), Mul(b.y, z12);
    var s2 := Mul(w, a.z);
    var n, m := Neg(c.x), Neg(c.y);
    var h, i := Add(n, u2), Add(m, s2);
    SecondOverBoth(a.z, b.z, c.z, q.x, q.y, b.x, b.y, z12, u2, w, s2);
    NegAdd(n, c.x, u2, h);
    NegAdd(m, c.y, s2, i);
    AddFinite(r, c, p, q, u2, s2, h, i);
    if h == 0 && i == 0 {
      DoubleVarIsSum(r, a, p);
    } else if h != 0 {
      TailZ(a.z, c.x, c.y, h, i, b.z);
    }
  }

  lemma NonzeroZ(a: Gej, p: Point)
    requires GejIs(a, p) && !a.infinity
    ensures p.Affine? && !Eq(a.z, 0) && ScaledX(a.x, p.x, a.z) && ScaledY(a.y, p.y, a.z)
  {
  }

  /** The second point over the product of the two z coordinates. */
  lemma SecondOverBoth(za: int, zb: int, z: int, x: int, y: int, xb: int, yb: int, z12: int, u2: int, w: int, s2: int)
    requires Eq(z, za * zb) && ScaledX(xb, x, zb) && ScaledY(yb, y, zb)
    requires Eq(z12, za * za) && Eq(u2, xb * z12) && Eq(w, yb * z12) && Eq(s2, w * za)
    ensures ScaledX(u2, x, z) && ScaledY(s2, y, z)
  {
    hide Res;
    var k := za * zb;
    EqMul(z, k, z, k);
    EqMul(z * z, k * k, z, k);
    EqMul(x, x, z * z, k * k);
    EqMul(y, y, z * z * z, k * k * k);
    EqMul(xb, x * (zb * zb), z12, za * za);
    EqMul(yb, y * (zb * zb * zb), z12, za * za);
    EqMul(w, y * (zb * zb * zb) * (za * za), za, za);
    assert x * (zb * zb) * (za * za) == x * (k * k);
    assert y * (zb * zb * zb) * (za * za) * za == y * (k * k * k);
  }

  /** The tail over the product of the z coordinates is the one computed. */
  lemma TailZ(z: Fe, u1: Fe, s1: Fe, h: Fe, i: Fe, zb: Fe)
    ensures AddTail(Mul(z, zb), u1, s1, h, i) == AddTail(z, u1, s1, h, i).(z := Mul(z, Mul(h, zb)))
    ensures Eq(Mul(z, Mul(h, zb)), z * Mul(h, zb))
  {
    hide Res, Mul, Sqr, Add, Neg, MulInt;
    MulAssociates(z, zb, h);
    MulAssociates(z, h, zb);
    MulSwap(z, zb, h);
  }

  lemma MulAssociates(a: Fe, b: Fe, c: Fe)
    ensures Mul(Mul(a, b), c) == Mul(a, Mul(b, c))
  {
    hide Res, Mul;
    var ab, bc := Mul(a, b), Mul(b, c);
    AssociateEq(a, b, c, ab, bc, Mul(ab, c), Mul(a, bc));
    Canonical(Mul(ab, c), Mul(a, bc));
  }

  lemma AssociateEq(a: int, b: int, c: int, ab: int, bc: int, x: int, y: int)
    requires Eq(ab, a * b) && Eq(bc, b * c) && Eq(x, ab * c) && Eq(y, a * bc)
    ensures Eq(x, y)
  {
    hide Res;
    EqMul(ab, a * b, c, c);
    EqMul(a, a, bc, b * c);
    assert a * b * c == a * (b * c);
  }
}
