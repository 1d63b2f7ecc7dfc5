/** Curve points in Jacobian coordinates: (X, Y, Z) stands for (X / Z^2, Y / Z^3). Doubling and the
    variable-time additions of group_impl.h compute the chord-and-tangent sum. A field element is the
    residue that its limbs stand for. */
module Jacobian {
  import opened PrimeField
  import opened Curve

  datatype Ge = Ge(x: Fe, y: Fe, infinity: bool)

  datatype Gej = Gej(x: Fe, y: Fe, z: Fe, infinity: bool)

  /** The affine point that a `ge` or `gej` stands for. */
  predicate GeIs(b: Ge, p: Point) {
    if b.infinity then p.Infinity? else p == Affine(b.x, b.y)
  }

  predicate GejIs(a: Gej, p: Point) {
    if a.infinity then p.Infinity?
    else p.Affine? && !Eq(a.z, 0) && ScaledX(a.x, p.x, a.z) && ScaledY(a.y, p.y, a.z)
  }

  predicate ScaledX(X: int, x: int, z: int) { Eq(X, x * (z * z)) }

  predicate ScaledY(Y: int, y: int, z: int) { Eq(Y, y * (z * z * z)) }

  // ---------------------------------------------------------------- doubling

  /** `secp256k1_gej_double_var`: the new value of `r`, which keeps its coordinates when the argument
      is infinite, and the factor by which z grows. */
  function DoubleVar(r: Gej, a: Gej): (Gej, Fe) {
    if a.infinity then (r.(infinity := true), 1)
    else
      var z3 := MulInt(Mul(a.z, a.y), 2);
      var t1 := MulInt(Sqr(a.x), 3);
      var t2 := Sqr(t1);
      var t3 := MulInt(Sqr(a.y), 2);
      var t4 := MulInt(Sqr(t3), 2);
      var u3 := Mul(t3, a.x);
      var x3 := Add(Neg(MulInt(u3, 4)), t2);
      var v3 := Add(MulInt(u3, 6), Neg(t2));
      var y3 := Add(Mul(t1, v3), Neg(t4));
      (Gej(x3, y3, z3, false), MulInt(a.y, 2))
  }

  /** The heart of the doubling: 3 X^2 is the slope times the new z. */
  lemma DoubleSlope(X: int, Y: int, z: int, x: int, y: int, l: int, z3: int, t1: int)
    requires ScaledX(X, x, z) && ScaledY(Y, y, z) && Eq(l * (2 * y), 3 * x * x)
    requires Eq(z3, 2 * (z * Y)) && Eq(t1, 3 * (X * X))
    ensures Eq(t1, l * z3)
  {
    hide Res;
    EqMul(X, x * (z * z), X, x * (z * z));
    EqMul(3, 3, X * X, (x * (z * z)) * (x * (z * z)));
    var w := z * z * z * z;
    assert 3 * ((x * (z * z)) * (x * (z * z))) == (3 * x * x) * w;
    EqMul(l * (2 * y), 3 * x * x, w, w);
    EqMul(2 * z, 2 * z, Y, y * (z * z * z));
    assert 2 * z * Y == 2 * (z * Y) && 2 * z * (y * (z * z * z)) == (2 * y) * w;
    EqMul(l, l, z3, (2 * y) * w);
    assert l * ((2 * y) * w) == (l * (2 * y)) * w;
  }

  /** 8 X Y^2 is 2 x z3^2, and 8 Y^4 is y z3^3. */
  lemma DoubleTerms(X: int, Y: int, z: int, x: int, y: int, z3: int, t3: int, t4: int, u3: int)
    requires ScaledX(X, x, z) && ScaledY(Y, y, z)
    requires Eq(z3, 2 * (z * Y)) && Eq(t3, 2 * (Y * Y)) && Eq(t4, 2 * (t3 * t3)) && Eq(u3, t3 * X)
    ensures Eq(4 * u3, 2 * x * (z3 * z3))
    ensures Eq(t4, y * (z3 * z3 * z3))
  {
    hide Res;
    var k := 2 * (z * Y);
    EqMul(z3, k, z3, k);
    EqMul(z3 * z3, k * k, z3, k);
    EqMul(2 * x, 2 * x, z3 * z3, k * k);
    EqMul(t3, 2 * (Y * Y), X, x * (z * z));
    EqMul(4, 4, u3, (2 * (Y * Y)) * (x * (z * z)));
    assert 4 * ((2 * (Y * Y)) * (x * (z * z))) == 2 * x * (k * k);
    EqMul(t3, 2 * (Y * Y), t3, 2 * (Y * Y));
    EqMul(2, 2, t3 * t3, (2 * (Y * Y)) * (2 * (Y * Y)));
    EqMul(y, y, z3 * z3 * z3, k * k * k);
    EqMul(y * (z * z * z), Y, 8 * (Y * Y * Y), 8 * (Y * Y * Y));
    assert (y * (z * z * z)) * (8 * (Y * Y * Y)) == y * (k * k * k);
    assert 2 * ((2 * (Y * Y)) * (2 * (Y * Y))) == Y * (8 * (Y * Y * Y));
  }

  /** From the slope and the two terms to the new coordinates. */
  lemma DoubleCoordinates(x: int, y: int, l: int, z3: int, t1: int, t2: int, t4: int, u3: int, x3: int, v3: int,
      y3: int)
    requires Eq(t1, l * z3) && Eq(4 * u3, 2 * x * (z3 * z3)) && Eq(t4, y * (z3 * z3 * z3))
    requires Eq(t2, t1 * t1) && Eq(x3, t2 - 4 * u3) && Eq(v3, 6 * u3 - t2) && Eq(y3, t1 * v3 - t4)
    ensures ScaledX(x3, ThirdX(l, x, x), z3) && ScaledY(y3, ThirdY(l, x, y, x), z3)
  {
    hide Res;
    var zz := z3 * z3;
    EqMul(t1, l * z3, t1, l * z3);
    assert (l * z3) * (l * z3) == l * l * zz;
    EqAdd(t2, l * l * zz, 4 * u3, 2 * x * zz);
    assert l * l * zz - 2 * x * zz == ThirdX(l, x, x) * zz;
    HalfAgain(u3, x, zz);
    EqAdd(6 * u3, 3 * x * zz, t2, l * l * zz);
    assert 3 * x * zz - l * l * zz == (x - ThirdX(l, x, x)) * zz;
    EqMul(t1, l * z3, v3, (x - ThirdX(l, x, x)) * zz);
    EqAdd(t1 * v3, (l * z3) * ((x - ThirdX(l, x, x)) * zz), t4, y * (z3 * z3 * z3));
    assert (l * z3) * ((x - ThirdX(l, x, x)) * zz) - y * (z3 * z3 * z3) == ThirdY(l, x, y, x) * (z3 * z3 * z3);
  }

  /** 2 has the inverse (p + 1) / 2, so the factor 4 becomes the factor 6. */
  lemma HalfAgain(u: int, x: int, w: int)
    requires Eq(4 * u, 2 * x * w)
    ensures Eq(6 * u, 3 * x * w)
  {
    var h := 0x7FFFFFFF_FFFFFFFF_FFFFFFFF_FFFFFFFF_FFFFFFFF_FFFFFFFF_FFFFFFFF_7FFFFE18;
    hide Res;
    EqByMultiple(2 * h, 1, 1);
    EqMul(3 * h, 3 * h, 4 * u, 2 * x * w);
    EqMul(2 * h, 1, 6 * u, 6 * u);
    EqMul(2 * h, 1, 3 * x * w, 3 * x * w);
    assert 3 * h * (4 * u) == 2 * h * (6 * u) && 3 * h * (2 * x * w) == 2 * h * (3 * x * w);
  }

  lemma TwoNotZero()
    ensures !Eq(2, 0) && !Eq(1, 0)
  {
  }

  lemma ZeroOrdinate(x: int, y: int)
    requires Eq(y * y, Rhs(x)) && Eq(y, 0)
    ensures CubeRootOfMinusSeven(x)
  {
    hide Res;
    EqMul(y, 0, y, 0);
    EqAdd(Rhs(x), 0, 7, 7);
  }

  /** Finite points have y != 0 because -7 has no cube root, so a doubled finite point is finite. */
  lemma FiniteDouble(x: int, y: int)
    requires PIsPrime() && NoCubeRoot() && Eq(y * y, Rhs(x))
    ensures !Eq(y, 0) && !Opposite(x, y, x, y)
  {
    hide Res, PIsPrime;
    if Eq(y, 0) {
      ZeroOrdinate(x, y);
    }
    TwoNotZero();
    NonzeroProduct(2, y);
    assert y + y == 2 * y;
  }

  /** The doubled point, and the ratio of its z to the old one. */
  lemma DoubleVarIsSum(r: Gej, a: Gej, p: CurvePoint)
    requires PIsPrime() && NoCubeRoot() && GejIs(a, p)
    ensures GejIs(DoubleVar(r, a).0, Sum(p, p))
    ensures DoubleVar(r, a).0.infinity == a.infinity
    ensures !a.infinity ==> Eq(DoubleVar(r, a).0.z, a.z * DoubleVar(r, a).1)
  {
    hide Res, Mul, Sqr, Add, Neg, MulInt, PIsPrime, NoCubeRoot, Sum, OnCurve;
    SumInfinity(p);
    if !a.infinity {
      AffineOnCurve(p);
      FiniteDouble(p.x, p.y);
      var l := SlopeExists(p.x, p.y, p.x, p.y);
      var s := DoubleVar(r, a).0;
      DoubleVarScaled(r, a, p.x, p.y, l);
      DoubleZ(a.y, a.z, p.y, s.z);
      ThirdIsSum(p, p, s, l);
    }
  }

  lemma AffineOnCurve(p: CurvePoint)
    requires p.Affine?
    ensures Eq(p.y * p.y, Rhs(p.x))
  {
  }

  /** The additions and small multiples among the steps of the doubling. */
  lemma DoubleSteps(z: int, X: int, Y: int, m3: int, z3: int, q3: int, t1: int, y2: int, t3: int, t2: int, t6: int,
                    t4: int, u3: int, u4: int, n4: int, x3: int, u6: int, n2: int, v3: int, w3: int, m4: int, y3: int)
    requires Eq(m3, z * Y) && Eq(z3, 2 * m3) && Eq(q3, X * X) && Eq(t1, 3 * q3) && Eq(y2, Y * Y) && Eq(t3, 2 * y2)
    requires Eq(t6, t3 * t3) && Eq(t4, 2 * t6) && Eq(u4, 4 * u3) && Eq(n4, 0 - u4) && Eq(x3, n4 + t2)
    requires Eq(u6, 6 * u3) && Eq(n2, 0 - t2) && Eq(v3, u6 + n2) && Eq(w3, t1 * v3) && Eq(m4, 0 - t4)
    requires Eq(y3, w3 + m4)
    ensures Eq(z3, 2 * (z * Y)) && Eq(t1, 3 * (X * X)) && Eq(t3, 2 * (Y * Y)) && Eq(t4, 2 * (t3 * t3))
    ensures Eq(x3, t2 - 4 * u3) && Eq(v3, 6 * u3 - t2) && Eq(y3, t1 * v3 - t4)
  {
    hide Res;
    EqMul(2, 2, m3, z * Y);
    EqMul(3, 3, q3, X * X);
    EqMul(2, 2, y2, Y * Y);
    EqMul(2, 2, t6, t3 * t3);
    EqAdd(n4, 0 - u4, t2, t2);
    EqAdd(t2, t2, u4, 4 * u3);
    EqAdd(u6, 6 * u3, n2, 0 - t2);
    EqAdd(w3, t1 * v3, m4, 0 - t4);
  }

  lemma DoubleVarScaled(r: Gej, a: Gej, x: int, y: int, l: int)
    requires !a.infinity && ScaledX(a.x, x, a.z) && ScaledY(a.y, y, a.z) && Eq(l * (2 * y), 3 * x * x)
    ensures var s := DoubleVar(r, a).0;
      ScaledX(s.x, ThirdX(l, x, x), s.z) && ScaledY(s.y, ThirdY(l, x, y, x), s.z)
    ensures Eq(DoubleVar(r, a).0.z, 2 * (a.z * a.y)) && Eq(DoubleVar(r, a).0.z, a.z * DoubleVar(r, a).1)
  {
    hide Res, Mul, Sqr, Add, Neg, MulInt, ScaledX, ScaledY, ThirdX, ThirdY;
    var m3, q3, y2 := Mul(a.z, a.y), Sqr(a.x), Sqr(a.y);
    var z3, t1, t3 := MulInt(m3, 2), MulInt(q3, 3), MulInt(y2, 2);
    var t2, t6, u3 := Sqr(t1), Sqr(t3), Mul(t3, a.x);
    var t4, u4, u6 := MulInt(t6, 2), MulInt(u3, 4), MulInt(u3, 6);
    var n4, n2, m4 := Neg(u4), Neg(t2), Neg(t4);
    var x3, v3 := Add(n4, t2), Add(u6, n2);
    var w3 := Mul(t1, v3);
    var y3 := Add(w3, m4);
    assert DoubleVar(r, a) == (Gej(x3, y3, z3, false), MulInt(a.y, 2));
    DoubleSteps(a.z, a.x, a.y, m3, z3, q3, t1, y2, t3, t2, t6, t4, u3, u4, n4, x3, u6, n2, v3, w3, m4, y3);
    DoubleSlope(a.x, a.y, a.z, x, y, l, z3, t1);
    DoubleTerms(a.x, a.y, a.z, x, y, z3, t3, t4, u3);
    DoubleCoordinates(x, y, l, z3, t1, t2, t4, u3, x3, v3, y3);
    DoubleRatio(a.z, a.y, z3, MulInt(a.y, 2));
  }

  lemma DoubleRatio(z: int, Y: int, z3: int, rzr: int)
    requires Eq(z3, 2 * (z * Y)) && Eq(rzr, 2 * Y)
    ensures Eq(z3, z * rzr)
  {
    hide Res;
    EqMul(z, z, rzr, 2 * Y);
    assert 2 * (z * Y) == z * (2 * Y);
  }

  lemma DoubleZ(Y: int, z: int, y: int, z3: int)
    requires PIsPrime() && !Eq(z, 0) && !Eq(y, 0) && ScaledY(Y, y, z) && Eq(z3, 2 * (z * Y))
    ensures !Eq(z3, 0)
  {
    hide Res, PIsPrime;
    TwoNotZero();
    NonzeroProduct(z, z);
    NonzeroProduct(z * z, z);
    NonzeroProduct(y, z * z * z);
    NonzeroProduct(z, Y);
    NonzeroProduct(2, z * Y);
  }

  /** Coordinates scaled by a nonzero z that follow the chord-and-tangent rule stand for the sum. */
  lemma ThirdIsSum(p: CurvePoint, q: CurvePoint, s: Gej, l: int)
    requires PIsPrime() && p.Affine? && q.Affine? && !Opposite(p.x, p.y, q.x, q.y)
    requires IsSlope(l, p.x, p.y, q.x, q.y) && !s.infinity && !Eq(s.z, 0)
    requires ScaledX(s.x, ThirdX(l, p.x, q.x), s.z) && ScaledY(s.y, ThirdY(l, p.x, p.y, q.x), s.z)
    ensures GejIs(s, Sum(p, q))
  {
    hide Res, PIsPrime, Sum, OnCurve;
    var x, y := Res(ThirdX(l, p.x, q.x)), Res(ThirdY(l, p.x, p.y, q.x));
    ResOf(ThirdX(l, p.x, q.x));
    ResOf(ThirdY(l, p.x, p.y, q.x));
    SumIs(p, q, Affine(x, y), l);
    EqMul(x, ThirdX(l, p.x, q.x), s.z * s.z, s.z * s.z);
    EqMul(y, ThirdY(l, p.x, p.y, q.x), s.z * s.z * s.z, s.z * s.z * s.z);
  }

  // ---------------------------------------------------------------- addition of an affine point

  /** The middle of both variable-time additions, once the zero tests have failed. */
  function AddTail(z: Fe, u1: Fe, s1: Fe, h: Fe, i: Fe): Gej {
    var i2 := Sqr(i);
    var h2 := Sqr(h);
    var h3 := Mul(h, h2);
    var z3 := Mul(z, h);
    var t := Mul(u1, h2);
    var x3 := Add(Neg(Add(MulInt(t, 2), h3)), i2);
    var y3 := Mul(Add(Neg(x3), t), i);
    Gej(x3, Add(y3, Neg(Mul(h3, s1))), z3, false)
  }

  /** `secp256k1_gej_add_ge_var`, with the ratio of z coordinates. */
  function AddGeVar(r: Gej, a: Gej, b: Ge): (Gej, Fe) {
    if a.infinity then (Gej(b.x, b.y, 1, b.infinity), 1)
    else if b.infinity then (a, 1)
    else
      var z12 := Sqr(a.z);
      var u2 := Mul(b.x, z12);
      var s2 := Mul(Mul(b.y, z12), a.z);
      var h := Add(Neg(a.x), u2);
      var i := Add(Neg(a.y), s2);
      if h == 0 then
        if i == 0 then DoubleVar(r, a) else (r.(infinity := true), 0)
      else (AddTail(a.z, a.x, a.y, h, i), h)
  }

  /** `secp256k1_gej_add_zinv_var`: the second point is (b.x, b.y, 1 / bzinv). */
  function AddZinvVar(r: Gej, a: Gej, b: Ge, bzinv: Fe): Gej {
    if b.infinity then a
    else if a.infinity then
      var bzinv2 := Sqr(bzinv);
      var bzinv3 := Mul(bzinv2, bzinv);
      Gej(Mul(b.x, bzinv2), Mul(b.y, bzinv3), 1, false)
    else
      var az := Mul(a.z, bzinv);
      var z12 := Sqr(az);
      var u2 := Mul(b.x, z12);
      var s2 := Mul(Mul(b.y, z12), az);
      var h := Add(Neg(a.x), u2);
      var i := Add(Neg(a.y), s2);
      if h == 0 then
        if i == 0 then DoubleVar(r, a).0 else r.(infinity := true)
      else AddTail(a.z, a.x, a.y, h, i)
  }

  /** h and i are the differences of abscissas and ordinates, scaled. */
  lemma Differences(z: int, x1: int, y1: int, x2: int, y2: int, u1: int, s1: int, u2: int, s2: int, h: int, i: int)
    requires ScaledX(u1, x1, z) && ScaledY(s1, y1, z) && ScaledX(u2, x2, z) && ScaledY(s2, y2, z)
    requires Eq(h, u2 - u1) && Eq(i, s2 - s1)
    ensures Eq(h, (x2 - x1) * (z * z)) && Eq(i, (y2 - y1) * (z * z * z))
  {
    hide Res;
    EqAdd(u2, x2 * (z * z), u1, x1 * (z * z));
    EqAdd(s2, y2 * (z * z * z), s1, y1 * (z * z * z));
    assert x2 * (z * z) - x1 * (z * z) == (x2 - x1) * (z * z);
    assert y2 * (z * z * z) - y1 * (z * z * z) == (y2 - y1) * (z * z * z);
  }

  lemma ScaledZero(d: int, w: int, h: int)
    requires PIsPrime() && !Eq(w, 0) && Eq(h, d * w)
    ensures Eq(h, 0) <==> Eq(d, 0)
  {
    hide Res, PIsPrime;
    if !Eq(d, 0) {
      NonzeroProduct(d, w);
    } else {
      EqMul(d, 0, w, w);
      assert 0 * w == 0;
    }
  }

  /** The tail computes the third point of the chord, at z3 = z h. */
  lemma AddTailTerms(z: int, x1: int, y1: int, x2: int, y2: int, l: int, u1: int, s1: int, h: int, i: int,
                     h2: int, h3: int, z3: int, t: int, g: int)
    requires ScaledX(u1, x1, z) && ScaledY(s1, y1, z)
    requires Eq(h, (x2 - x1) * (z * z)) && Eq(i, (y2 - y1) * (z * z * z)) && Eq(l * (x2 - x1), y2 - y1)
    requires Eq(h2, h * h) && Eq(h3, h * h2) && Eq(z3, z * h) && Eq(t, u1 * h2) && Eq(g, h3 * s1)
    ensures Eq(i, l * z3) && Eq(t, x1 * (z3 * z3)) && Eq(h3, (x2 - x1) * (z3 * z3)) && Eq(g, y1 * (z3 * z3 * z3))
  {
    hide Res;
    var d, w := x2 - x1, z * z * z;
    EqMul(l * d, y2 - y1, w, w);
    EqMul(z, z, h, d * (z * z));
    EqMul(l, l, z3, z * (d * (z * z)));
    assert l * (z * (d * (z * z))) == l * d * w;
    var k := z * h;
    EqMul(z3, k, z3, k);
    EqMul(z3 * z3, k * k, z3, k);
    EqMul(u1, x1 * (z * z), h2, h * h);
    EqMul(x1, x1, z3 * z3, k * k);
    assert x1 * (z * z) * (h * h) == x1 * (k * k);
    EqMul(h, d * (z * z), h2, h * h);
    EqMul(d, d, z3 * z3, k * k);
    assert d * (z * z) * (h * h) == d * (k * k);
    EqMul(h, h, h2, h * h);
    EqMul(h3, h * (h * h), s1, y1 * w);
    EqMul(y1, y1, z3 * z3 * z3, k * k * k);
    assert h * (h * h) * (y1 * w) == y1 * (k * k * k);
  }

  lemma AddTailCoordinates(x1: int, y1: int, x2: int, l: int, i: int, i2: int, h3: int, z3: int, t: int, g: int,
                           x3: int, y3: int)
    requires Eq(i, l * z3) && Eq(t, x1 * (z3 * z3)) && Eq(h3, (x2 - x1) * (z3 * z3)) && Eq(g, y1 * (z3 * z3 * z3))
    requires Eq(i2, i * i) && Eq(x3, i2 - (2 * t + h3)) && Eq(y3, (t - x3) * i - g)
    ensures ScaledX(x3, ThirdX(l, x1, x2), z3) && ScaledY(y3, ThirdY(l, x1, y1, x2), z3)
  {
    hide Res;
    var zz, e := z3 * z3, ThirdX(l, x1, x2);
    EqMul(i, l * z3, i, l * z3);
    EqMul(2, 2, t, x1 * zz);
    EqAdd(2 * t, 2 * (x1 * zz), h3, (x2 - x1) * zz);
    EqAdd(i2, (l * z3) * (l * z3), 2 * t + h3, 2 * (x1 * zz) + (x2 - x1) * zz);
    assert (l * z3) * (l * z3) - (2 * (x1 * zz) + (x2 - x1) * zz) == e * zz;
    EqAdd(t, x1 * zz, x3, e * zz);
    assert x1 * zz - e * zz == (x1 - e) * zz;
    EqMul(t - x3, (x1 - e) * zz, i, l * z3);
    EqAdd((t - x3) * i, (x1 - e) * zz * (l * z3), g, y1 * (z3 * z3 * z3));
    assert (x1 - e) * zz * (l * z3) - y1 * (z3 * z3 * z3) == ThirdY(l, x1, y1, x2) * (z3 * z3 * z3);
  }

  /** The additions and small multiples among the steps of the tail. */
  lemma AddTailSteps(i: int, i2: int, h3: int, t: int, m: int, k: int, n: int, x3: int, c: int, d: int, e: int,
                     g: int, f: int, y3: int)
    requires Eq(m, 2 * t) && Eq(k, m + h3) && Eq(n, 0 - k) && Eq(x3, n + i2)
    requires Eq(c, 0 - x3) && Eq(d, c + t) && Eq(e, d * i) && Eq(f, 0 - g) && Eq(y3, e + f)
    ensures Eq(x3, i2 - (2 * t + h3)) && Eq(y3, (t - x3) * i - g)
  {
    hide Res;
    EqAdd(m, 2 * t, h3, h3);
    EqAdd(n, 0 - k, i2, i2);
    EqAdd(i2, i2, k, 2 * t + h3);
    EqAdd(c, 0 - x3, t, t);
    EqMul(d, t - x3, i, i);
    EqAdd(e, (t - x3) * i, f, 0 - g);
  }

  lemma AddTailScaled(z: Fe, u1: Fe, s1: Fe, h: Fe, i: Fe, x1: int, y1: int, x2: int, y2: int, l: int)
    requires ScaledX(u1, x1, z) && ScaledY(s1, y1, z)
    requires Eq(h, (x2 - x1) * (z * z)) && Eq(i, (y2 - y1) * (z * z * z)) && Eq(l * (x2 - x1), y2 - y1)
    ensures var s := AddTail(z, u1, s1, h, i);
      ScaledX(s.x, ThirdX(l, x1, x2), s.z) && ScaledY(s.y, ThirdY(l, x1, y1, x2), s.z)
      && Eq(s.z, z * h) && !s.infinity
  {
    hide Res, Mul, Sqr, Add, Neg, MulInt, ScaledX, ScaledY, ThirdX, ThirdY;
    var i2, h2 := Sqr(i), Sqr(h);
    var h3, z3, t := Mul(h, h2), Mul(z, h), Mul(u1, h2);
    var m := MulInt(t, 2);
    var k := Add(m, h3);
    var n := Neg(k);
    var x3 := Add(n, i2);
    var c := Neg(x3);
    var d := Add(c, t);
    var e, g := Mul(d, i), Mul(h3, s1);
    var f := Neg(g);
    var y3 := Add(e, f);
    assert AddTail(z, u1, s1, h, i) == Gej(x3, y3, z3, false);
    AddTailTerms(z, x1, y1, x2, y2, l, u1, s1, h, i, h2, h3, z3, t, g);
    AddTailSteps(i, i2, h3, t, m, k, n, x3, c, d, e, g, f, y3);
    AddTailCoordinates(x1, y1, x2, l, i, i2, h3, z3, t, g, x3, y3);
  }

  /** The sum by any of the additions, from a finite `a` and an affine second point (x2, y2). */
  lemma AddFinite(r: Gej, a: Gej, p: CurvePoint, q: CurvePoint, u2: Fe, s2: Fe, h: Fe, i: Fe)
    requires PIsPrime() && NoCubeRoot() && GejIs(a, p) && p.Affine? && q.Affine?
    requires ScaledX(u2, q.x, a.z) && ScaledY(s2, q.y, a.z) && Eq(h, u2 - a.x) && Eq(i, s2 - a.y)
    ensures h == 0 && i == 0 ==> p == q
    ensures h == 0 && i != 0 ==> Sum(p, q) == Infinity
    ensures h != 0 ==> GejIs(AddTail(a.z, a.x, a.y, h, i), Sum(p, q)) && Eq(AddTail(a.z, a.x, a.y, h, i).z, a.z * h)
  {
    hide Res, PIsPrime, NoCubeRoot, Sum, OnCurve, AddTail;
    ZeroIsZero(h);
    ZeroIsZero(i);
    AffineOnCurve(p);
    AffineOnCurve(q);
    NonzeroProduct(a.z, a.z);
    NonzeroProduct(a.z * a.z, a.z);
    Differences(a.z, p.x, p.y, q.x, q.y, a.x, a.y, u2, s2, h, i);
    ScaledZero(q.x - p.x, a.z * a.z, h);
    ScaledZero(q.y - p.y, a.z * a.z * a.z, i);
    if h == 0 {
      EqSame(q.x, p.x);
      Canonical(p.x, q.x);
      SameAbscissa(p.x, p.y, q.x, q.y);
      if i == 0 {
        EqSame(q.y, p.y);
        Canonical(p.y, q.y);
      } else {
        if Eq(p.y, q.y) { EqDifference(q.y, p.y); }
        OppositeSum(p, q);
      }
    } else {
      if Eq(p.x, q.x) { EqDifference(q.x, p.x); }
      var l := SlopeExists(p.x, p.y, q.x, q.y);
      AddTailScaled(a.z, a.x, a.y, h, i, p.x, p.y, q.x, q.y, l);
      NonzeroProduct(a.z, h);
      ThirdIsSum(p, q, AddTail(a.z, a.x, a.y, h, i), l);
    }
  }

  lemma ZeroIsZero(a: Fe)
    ensures Eq(a, 0) <==> a == 0
  {
  }

  lemma AddGeVarIsSum(r: Gej, a: Gej, b: Ge, p: CurvePoint, q: CurvePoint)
    requires PIsPrime() && NoCubeRoot() && GejIs(a, p) && GeIs(b, q)
    ensures GejIs(AddGeVar(r, a, b).0, Sum(p, q))
    ensures !a.infinity && !AddGeVar(r, a, b).0.infinity ==> Eq(AddGeVar(r, a, b).0.z, a.z * AddGeVar(r, a, b).1)
  {
    hide Res, Mul, Sqr, Add, Neg, PIsPrime, NoCubeRoot, Sum, OnCurve, AddTail, DoubleVar;
    SumInfinity(p);
    SumInfinity(q);
    if a.infinity {
      UnitZ(b, q);
    } else if b.infinity {
      assert a.z * 1 == a.z;
    } else {
      var z12 := Sqr(a.z);
      var u2, w := Mul(b.x, z12), Mul(b.y, z12);
      var s2 := Mul(w, a.z);
      var n, m := Neg(a.x), Neg(a.y);
      var h, i := Add(n, u2), Add(m, s2);
      SecondScaled(a.z, b.x, b.y, z12, u2, w, s2);
      NegAdd(n, a.x, u2, h);
      NegAdd(m, a.y, s2, i);
      AddFinite(r, a, p, q, u2, s2, h, i);
      if h == 0 && i == 0 {
        DoubleVarIsSum(r, a, p);
      }
    }
  }

  lemma UnitZ(b: Ge, q: Point)
    requires GeIs(b, q)
    ensures GejIs(Gej(b.x, b.y, 1, b.infinity), q)
  {
  }

  lemma NegAdd(n: int, x: int, u: int, h: int)
    requires Eq(n, 0 - x) && Eq(h, n + u)
    ensures Eq(h, u - x)
  {
    hide Res;
    EqAdd(n, 0 - x, u, u);
  }

  lemma SecondScaled(z: int, x: int, y: int, z12: int, u2: int, w: int, s2: int)
    requires Eq(z12, z * z) && Eq(u2, x * z12) && Eq(w, y * z12) && Eq(s2, w * z)
    ensures ScaledX(u2, x, z) && ScaledY(s2, y, z)
  {
    hide Res;
    EqMul(x, x, z12, z * z);
    EqMul(y, y, z12, z * z);
    EqMul(w, y * (z * z), z, z);
    assert y * (z * z) * z == y * (z * z * z);
  }

  /** The point (b.x, b.y, 1 / bzinv) that `secp256k1_gej_add_zinv_var` adds. */
  predicate ZinvIs(b: Ge, bzinv: Fe, q: Point) {
    if b.infinity then q.Infinity?
    else q.Affine? && !Eq(bzinv, 0) && Eq(q.x, b.x * (bzinv * bzinv)) && Eq(q.y, b.y * (bzinv * bzinv * bzinv))
  }

  lemma AddZinvVarIsSum(r: Gej, a: Gej, b: Ge, bzinv: Fe, p: CurvePoint, q: CurvePoint)
    requires PIsPrime() && NoCubeRoot() && GejIs(a, p) && ZinvIs(b, bzinv, q)
    ensures GejIs(AddZinvVar(r, a, b, bzinv), Sum(p, q))
  {
    hide Res, Mul, Sqr, Add, Neg, PIsPrime, NoCubeRoot, Sum, OnCurve, AddTail, DoubleVar;
    SumInfinity(p);
    SumInfinity(q);
    if b.infinity {
    } else if a.infinity {
      var bzinv2 := Sqr(bzinv);
      var bzinv3 := Mul(bzinv2, bzinv);
      var x, y := Mul(b.x, bzinv2), Mul(b.y, bzinv3);
      ZinvAffine(b.x, b.y, bzinv, bzinv2, bzinv3, x, y);
      Canonical(x, q.x);
      Canonical(y, q.y);
      UnitZ(Ge(x, y, false), q);
    } else {
      var az := Mul(a.z, bzinv);
      var z12 := Sqr(az);
      var u2, w := Mul(b.x, z12), Mul(b.y, z12);
      var s2 := Mul(w, az);
      var n, m := Neg(a.x), Neg(a.y);
      var h, i := Add(n, u2), Add(m, s2);
      SecondScaled(az, b.x, b.y, z12, u2, w, s2);
      Isomorphic(a.z, bzinv, az, b.x, b.y, q.x, q.y, u2, s2);
      NegAdd(n, a.x, u2, h);
      NegAdd(m, a.y, s2, i);
      AddFinite(r, a, p, q, u2, s2, h, i);
      if h == 0 && i == 0 {
        DoubleVarIsSum(r, a, p);
      }
    }
  }

  lemma ZinvAffine(xb: int, yb: int, s: int, s2: int, s3: int, x: int, y: int)
    requires Eq(s2, s * s) && Eq(s3, s2 * s) && Eq(x, xb * s2) && Eq(y, yb * s3)
    ensures Eq(x, xb * (s * s)) && Eq(y, yb * (s * s * s))
  {
    hide Res;
    EqMul(xb, xb, s2, s * s);
    EqMul(s2, s * s, s, s);
    EqMul(yb, yb, s3, s * s * s);
  }

  /** Scaling the z of both points by bzinv changes neither scaled coordinate. */
  lemma Isomorphic(z: int, s: int, az: int, xb: int, yb: int, x: int, y: int, u2: int, s2: int)
    requires Eq(az, z * s) && ScaledX(u2, xb, az) && ScaledY(s2, yb, az)
    requires Eq(x, xb * (s * s)) && Eq(y, yb * (s * s * s))
    ensures ScaledX(u2, x, z) && ScaledY(s2, y, z)
  {
    hide Res;
    var k := z * s;
    EqMul(az, k, az, k);
    EqMul(az * az, k * k, az, k);
    EqMul(xb, xb, az * az, k * k);
    EqMul(yb, yb, az * az * az, k * k * k);
    EqMul(x, xb * (s * s), z * z, z * z);
    EqMul(y, yb * (s * s * s), z * z * z, z * z * z);
    assert xb * (k * k) == xb * (s * s) * (z * z);
    assert yb * (k * k * k) == yb * (s * s * s) * (z * z * z);
  }

  // ---------------------------------------------------------------- mirror image, abscissa, scaling

  /** `secp256k1_gej_neg` and `secp256k1_ge_neg`. */
  function GejNeg(a: Gej): Gej { a.(y := Neg(a.y)) }

  function GeNeg(b: Ge): Ge { b.(y := Neg(b.y)) }

  lemma GejNegIsNegative(a: Gej, p: CurvePoint)
    requires GejIs(a, p)
    ensures GejIs(GejNeg(a), Negative(p))
  {
    hide Res, Neg, OnCurve;
    if !a.infinity {
      NegScaled(a.y, Neg(a.y), p.y, Negative(p).y, a.z);
    }
  }

  lemma NegScaled(Y: int, NY: int, y: int, ny: int, z: int)
    requires ScaledY(Y, y, z) && Eq(NY, 0 - Y) && Eq(ny + y, 0)
    ensures ScaledY(NY, ny, z)
  {
    hide Res;
    var w := z * z * z;
    EqAdd(0, 0, Y, y * w);
    EqMul(ny + y, 0, w, w);
    EqAdd((ny + y) * w, 0 * w, y * w, y * w);
    assert (ny + y) * w - y * w == ny * w && 0 * w - y * w == 0 - y * w;
  }

  lemma GeNegIsNegative(b: Ge, p: CurvePoint)
    requires GeIs(b, p)
    ensures GeIs(GeNeg(b), Negative(p))
  {
    hide Res, Neg, OnCurve;
    if !b.infinity {
      var n := Negative(p);
      NegUnique(b.y, Neg(b.y), n.y);
      Canonical(Neg(b.y), n.y);
    }
  }

  lemma NegUnique(y: int, m: int, n: int)
    requires Eq(m, 0 - y) && Eq(n + y, 0)
    ensures Eq(m, n)
  {
    hide Res;
    EqAdd(n + y, 0, y, y);
    assert n + y - y == n;
  }

  /** `secp256k1_gej_eq_x_var`: comparing an abscissa without an inversion. */
  predicate GejEqXVar(x: Fe, a: Gej)
    requires !a.infinity
  {
    Mul(Sqr(a.z), x) == a.x
  }

  lemma GejEqXVarIsAbscissa(x: Fe, a: Gej, p: Point)
    requires PIsPrime() && GejIs(a, p) && !a.infinity
    ensures GejEqXVar(x, a) <==> x == p.x
  {
    hide Res, Mul, Sqr, PIsPrime;
    var z2 := Sqr(a.z);
    var m := Mul(z2, x);
    NonzeroProduct(a.z, a.z);
    EqXProduct(a.z, z2, x, m);
    if m == a.x {
      Cancel(a.z * a.z, x, p.x) by {
        assert p.x * (a.z * a.z) == a.z * a.z * p.x;
      }
      Canonical(x, p.x);
    } else if x == p.x {
      assert x * (a.z * a.z) == a.z * a.z * x;
      Canonical(m, a.x);
    }
  }

  lemma EqXProduct(z: int, z2: int, x: int, m: int)
    requires Eq(z2, z * z) && Eq(m, z2 * x)
    ensures Eq(m, z * z * x)
  {
    hide Res;
    EqMul(z2, z * z, x, x);
  }

  /** `secp256k1_gej_rescale`. */
  function Rescale(a: Gej, s: Fe): Gej {
    var zz := Sqr(s);
    Gej(Mul(a.x, zz), Mul(Mul(a.y, zz), s), Mul(a.z, s), a.infinity)
  }

  lemma RescaleIsSame(a: Gej, s: Fe, p: Point)
    requires PIsPrime() && GejIs(a, p) && s != 0
    ensures GejIs(Rescale(a, s), p)
  {
    hide Res, Mul, Sqr, PIsPrime;
    ZeroIsZero(s);
    if !a.infinity {
      var zz := Sqr(s);
      var w := Mul(a.y, zz);
      NonzeroProduct(a.z, s);
      RescaleProduct(a.z, s, zz, p.x, p.y, a.x, a.y, Mul(a.x, zz), w, Mul(w, s), Mul(a.z, s));
    }
  }

  lemma RescaleProduct(z: int, s: int, zz: int, x: int, y: int, X: int, Y: int, X2: int, w: int, Y2: int, z2: int)
    requires ScaledX(X, x, z) && ScaledY(Y, y, z) && Eq(zz, s * s)
    requires Eq(X2, X * zz) && Eq(w, Y * zz) && Eq(Y2, w * s) && Eq(z2, z * s)
    ensures ScaledX(X2, x, z2) && ScaledY(Y2, y, z2)
  {
    hide Res;
    EqMul(X, x * (z * z), zz, s * s);
    EqMul(Y, y * (z * z * z), zz, s * s);
    EqMul(w, y * (z * z * z) * (s * s), s, s);
    EqMul(z2, z * s, z2, z * s);
    EqMul(z2 * z2, z * s * (z * s), z2, z * s);
    EqMul(x, x, z2 * z2, z * s * (z * s));
    EqMul(y, y, z2 * z2 * z2, z * s * (z * s) * (z * s));
    assert x * (z * z) * (s * s) == x * (z * s * (z * s));
    assert y * (z * z * z) * (s * s) * s == y * (z * s * (z * s) * (z * s));
  }
}
