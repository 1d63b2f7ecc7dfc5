/** The curve y^2 = x^3 + 7 over the field, with the chord-and-tangent sum in affine coordinates.
    This is what the Jacobian formulas are measured against. */
module Curve {
  import opened PrimeField

  datatype Point = Infinity | Affine(x: Fe, y: Fe)

  /** The right-hand side of the curve equation. */
  function Rhs(x: int): int { x * x * x + 7 }

  predicate OnCurve(p: Point) {
    p.Affine? ==> Eq(p.y * p.y, Rhs(p.x))
  }

  type CurvePoint = p: Point | OnCurve(p) witness Infinity

  predicate CubeRootOfMinusSeven(x: int) {
    Eq(x * x * x, 0 - 7)
  }

  /** -7 has no cube root modulo p, so no point has y = 0. */
  ghost predicate NoCubeRoot() {
    forall x: int :: !CubeRootOfMinusSeven(x)
  }

  function Negative(p: CurvePoint): (r: CurvePoint)
    ensures p.Affine? ==> r.Affine? && r.x == p.x && Eq(r.y + p.y, 0)
  {
    match p
    case Infinity => Infinity
    case Affine(x, y) =>
      NegativeOnCurve(x, y);
      Affine(x, Neg(y))
  }

  lemma NegativeOnCurve(x: Fe, y: Fe)
    ensures OnCurve(Affine(x, y)) ==> OnCurve(Affine(x, Neg(y)))
    ensures Eq(Neg(y) + y, 0)
  {
    var n := Neg(y);
    EqMul(n, 0 - y, n, 0 - y);
    EqAdd(n, 0 - y, y, y);
    assert (0 - y) * (0 - y) == y * y;
  }

  /** The sum of two finite points is infinite when one is the mirror image of the other. */
  predicate Opposite(x1: int, y1: int, x2: int, y2: int) {
    Eq(x1, x2) && Eq(y1 + y2, 0)
  }

  /** The slope of the chord, or of the tangent when the points coincide. */
  predicate IsSlope(l: int, x1: int, y1: int, x2: int, y2: int) {
    if Eq(x1, x2) then Eq(l * (2 * y1), 3 * x1 * x1) else Eq(l * (x2 - x1), y2 - y1)
  }

  /** On the curve, equal abscissas leave equal or opposite ordinates. */
  lemma SameAbscissa(x1: int, y1: int, x2: int, y2: int)
    requires PIsPrime()
    requires Eq(y1 * y1, Rhs(x1)) && Eq(y2 * y2, Rhs(x2)) && Eq(x1, x2)
    ensures Eq(y1, y2) || Eq(y1 + y2, 0)
  {
    EqMul(x1, x2, x1, x2);
    EqMul(x1 * x1, x2 * x2, x1, x2);
    EqAdd(x1 * x1 * x1, x2 * x2 * x2, 7, 7);
    EqAdd(y1 * y1, y2 * y2, y2 * y2, y2 * y2);
    assert (y1 - y2) * (y1 + y2) == y1 * y1 - y2 * y2;
    if !Eq(y1 + y2, 0) && !Eq(y1 - y2, 0) {
      NonzeroProduct(y1 - y2, y1 + y2);
    }
    if Eq(y1 - y2, 0) {
      EqAdd(y1 - y2, 0, y2, y2);
    }
  }

  /** What makes a slope unique: the number it is divided by is not zero. */
  lemma SlopeDivisor(x1: int, y1: int, x2: int, y2: int)
    requires PIsPrime()
    requires Eq(y1 * y1, Rhs(x1)) && Eq(y2 * y2, Rhs(x2)) && !Opposite(x1, y1, x2, y2)
    ensures if Eq(x1, x2) then Eq(y1, y2) && !Eq(2 * y1, 0) else !Eq(x2 - x1, 0)
  {
    if Eq(x1, x2) {
      SameAbscissa(x1, y1, x2, y2);
      EqAdd(y1, y2, y1, y1);
    } else {
      if Eq(x2 - x1, 0) {
        EqAdd(x2 - x1, 0, x1, x1);
      }
    }
  }

  lemma Quotient(num: int, den: int) returns (l: Fe)
    requires PIsPrime() && !Eq(den, 0)
    ensures Eq(l * den, num)
  {
    hide Res;
    var i := Inverse(den);
    l := Res(num * i);
    ResOf(num * i);
    EqMul(l, num * i, den, den);
    EqMul(den * i, 1, num, num);
    assert num * i * den == den * i * num;
  }

  lemma SlopeExists(x1: int, y1: int, x2: int, y2: int) returns (l: Fe)
    requires PIsPrime()
    requires Eq(y1 * y1, Rhs(x1)) && Eq(y2 * y2, Rhs(x2)) && !Opposite(x1, y1, x2, y2)
    ensures IsSlope(l, x1, y1, x2, y2)
  {
    SlopeDivisor(x1, y1, x2, y2);
    l := Quotient(if Eq(x1, x2) then 3 * x1 * x1 else y2 - y1, if Eq(x1, x2) then 2 * y1 else x2 - x1);
  }

  lemma SlopeUnique(l: int, m: int, x1: int, y1: int, x2: int, y2: int)
    requires PIsPrime()
    requires Eq(y1 * y1, Rhs(x1)) && Eq(y2 * y2, Rhs(x2)) && !Opposite(x1, y1, x2, y2)
    requires IsSlope(l, x1, y1, x2, y2) && IsSlope(m, x1, y1, x2, y2)
    ensures Eq(l, m)
  {
    SlopeDivisor(x1, y1, x2, y2);
    var den := if Eq(x1, x2) then 2 * y1 else x2 - x1;
    assert Eq(den * l, den * m);
    Cancel(den, l, m);
  }

  // ---------------------------------------------------------------- the third point

  function ThirdX(l: int, x1: int, x2: int): int { l * l - x1 - x2 }

  function ThirdY(l: int, x1: int, y1: int, x2: int): int { l * (x1 - ThirdX(l, x1, x2)) - y1 }

  /** x^3 + 7 - (l (x - x1) + y1)^2 less (x - x1)(x - x2)(x - x3) is the linear form A x + B. */
  function LineA(l: int, x1: int, y1: int, x2: int): int {
    2 * l * (l * x1 - y1) - (x1 * x2 + x1 * ThirdX(l, x1, x2) + x2 * ThirdX(l, x1, x2))
  }

  function LineB(l: int, x1: int, y1: int, x2: int): int {
    7 - (l * x1 - y1) * (l * x1 - y1) + x1 * x2 * ThirdX(l, x1, x2)
  }

  lemma CubicExpansion(x: int, x1: int, x2: int, x3: int)
    ensures (x - x1) * (x - x2) * (x - x3)
         == x * x * x - (x1 + x2 + x3) * (x * x) + (x1 * x2 + x1 * x3 + x2 * x3) * x - x1 * x2 * x3
  {
  }

  lemma SquareExpansion(l: int, c: int, x: int)
    ensures (l * x - c) * (l * x - c) == l * l * (x * x) - 2 * l * c * x + c * c
  {
  }

  lemma LineIdentity(l: int, x1: int, y1: int, x2: int, x: int)
    ensures LineA(l, x1, y1, x2) * x + LineB(l, x1, y1, x2)
         == Rhs(x) - (l * (x - x1) + y1) * (l * (x - x1) + y1) - (x - x1) * (x - x2) * (x - ThirdX(l, x1, x2))
  {
    var x3, c := ThirdX(l, x1, x2), l * x1 - y1;
    CubicExpansion(x, x1, x2, x3);
    SquareExpansion(l, c, x);
    assert l * (x - x1) + y1 == l * x - c;
    LineTerms(l * l * (x * x), l * c, x1 * x2 + x1 * x3 + x2 * x3, c * c, x1 * x2 * x3, x);
    assert (x1 + x2 + x3) * (x * x) == l * l * (x * x);
    assert 2 * l * c == 2 * (l * c);
  }

  lemma LineTerms(a: int, d: int, t: int, s: int, r: int, x: int)
    ensures (2 * d - t) * x + (7 - s + r) == x * x * x + 7 - (a - 2 * d * x + s) - (x * x * x - a + t * x - r)
  {
  }

  lemma LineAtFirst(l: int, x1: int, y1: int, x2: int)
    ensures LineA(l, x1, y1, x2) * x1 + LineB(l, x1, y1, x2) == Rhs(x1) - y1 * y1
  {
    hide *;
    LineIdentity(l, x1, y1, x2, x1);
    assert l * (x1 - x1) + y1 == y1;
    assert (x1 - x1) * (x1 - x2) * (x1 - ThirdX(l, x1, x2)) == 0;
  }

  lemma LineAtSecond(l: int, x1: int, y1: int, x2: int)
    ensures LineA(l, x1, y1, x2) * x2 + LineB(l, x1, y1, x2)
         == Rhs(x2) - (l * (x2 - x1) + y1) * (l * (x2 - x1) + y1)
  {
    hide *;
    LineIdentity(l, x1, y1, x2, x2);
    assert (x2 - x1) * (x2 - x2) * (x2 - ThirdX(l, x1, x2)) == 0;
  }

  lemma LineAtThird(l: int, x1: int, y1: int, x2: int)
    ensures LineA(l, x1, y1, x2) * ThirdX(l, x1, x2) + LineB(l, x1, y1, x2)
         == Rhs(ThirdX(l, x1, x2)) - ThirdY(l, x1, y1, x2) * ThirdY(l, x1, y1, x2)
  {
    hide LineA, LineB, ThirdX, Rhs, Res;
    var x3 := ThirdX(l, x1, x2);
    LineIdentity(l, x1, y1, x2, x3);
    assert (x3 - x1) * (x3 - x2) * (x3 - x3) == 0;
    assert l * (x3 - x1) + y1 == 0 - ThirdY(l, x1, y1, x2);
    SquareNegative(ThirdY(l, x1, y1, x2));
  }

  lemma SquareNegative(y: int)
    ensures (0 - y) * (0 - y) == y * y
  {
  }

  /** For a chord, A vanishes because A x + B vanishes at two abscissas. */
  lemma ChordA(l: int, x1: int, y1: int, x2: int, y2: int)
    requires PIsPrime()
    requires Eq(y1 * y1, Rhs(x1)) && Eq(y2 * y2, Rhs(x2)) && !Eq(x2 - x1, 0)
    requires Eq(l * (x2 - x1), y2 - y1)
    ensures Eq(LineA(l, x1, y1, x2), 0)
  {
    hide Res, LineA, LineB, Rhs, PIsPrime;
    LineAtFirst(l, x1, y1, x2);
    LineAtSecond(l, x1, y1, x2);
    var a, b := LineA(l, x1, y1, x2), LineB(l, x1, y1, x2);
    EqDifference(Rhs(x1), y1 * y1);
    var e := l * (x2 - x1) + y1;
    EqAdd(l * (x2 - x1), y2 - y1, y1, y1);
    EqMul(e, y2, e, y2);
    EqDifference(Rhs(x2), e * e);
    EqAdd(a * x2 + b, 0, a * x1 + b, 0);
    assert (a * x2 + b) - (a * x1 + b) == (x2 - x1) * a;
    assert (x2 - x1) * 0 == 0;
    Cancel(x2 - x1, a, 0);
  }

  /** For a tangent, A is its defining equation. */
  lemma TangentA(l: int, x: int, y: int)
    requires Eq(l * (2 * y), 3 * x * x)
    ensures Eq(LineA(l, x, y, x), 0)
  {
    hide Res;
    EqDifference(3 * x * x, l * (2 * y));
    assert LineA(l, x, y, x) == 3 * x * x - l * (2 * y);
  }

  lemma ThirdOnCurve(l: int, x1: int, y1: int, x2: int)
    requires Eq(y1 * y1, Rhs(x1)) && Eq(LineA(l, x1, y1, x2), 0)
    ensures Eq(ThirdY(l, x1, y1, x2) * ThirdY(l, x1, y1, x2), Rhs(ThirdX(l, x1, x2)))
  {
    hide Res, LineA, LineB, ThirdX, ThirdY, Rhs;
    LineAtFirst(l, x1, y1, x2);
    LineAtThird(l, x1, y1, x2);
    var a, b, x3, y3 := LineA(l, x1, y1, x2), LineB(l, x1, y1, x2), ThirdX(l, x1, x2), ThirdY(l, x1, y1, x2);
    EqDifference(Rhs(x1), y1 * y1);
    EqMul(a, 0, x1, x1);
    EqMul(a, 0, x3, x3);
    assert 0 * x1 == 0 && 0 * x3 == 0;
    EqAdd(a * x1 + b, 0, a * x1, 0);
    assert (a * x1 + b) - a * x1 == b;
    EqAdd(a * x3, 0, b, 0);
    assert Eq(Rhs(x3) - y3 * y3, 0);
    EqSame(Rhs(x3), y3 * y3);
  }

  lemma EqDifference(a: int, b: int)
    requires Eq(a, b)
    ensures Eq(a - b, 0)
  {
    hide Res;
    EqAdd(a, b, b, b);
    assert b - b == 0;
  }

  lemma EqSame(a: int, b: int)
    requires Eq(a - b, 0)
    ensures Eq(a, b)
  {
    hide Res;
    EqAdd(a - b, 0, b, b);
    assert a - b + b == a && 0 + b == b;
  }

  // ---------------------------------------------------------------- the sum

  /** Whether (x3, y3) is the chord-and-tangent sum of two finite points that are not opposite. */
  predicate ThirdPoint(x3: int, y3: int, l: int, x1: int, y1: int, x2: int, y2: int) {
    IsSlope(l, x1, y1, x2, y2) && Eq(x3, ThirdX(l, x1, x2)) && Eq(y3, ThirdY(l, x1, y1, x2))
  }

  lemma ThirdPointOnCurve(x3: Fe, y3: Fe, l: int, x1: int, y1: int, x2: int, y2: int)
    requires PIsPrime()
    requires Eq(y1 * y1, Rhs(x1)) && Eq(y2 * y2, Rhs(x2)) && !Opposite(x1, y1, x2, y2)
    requires ThirdPoint(x3, y3, l, x1, y1, x2, y2)
    ensures OnCurve(Affine(x3, y3))
  {
    SlopeDivisor(x1, y1, x2, y2);
    if Eq(x1, x2) {
      TangentA(l, x1, y1);
      var t := ThirdX(l, x1, x1);
      ThirdOnCurve(l, x1, y1, x1);
      hide Res, LineA;
      EqAdd(l * l - x1, l * l - x1, x1, x2);
      EqAdd(x1, x1, t, ThirdX(l, x1, x2));
      EqMul(l, l, x1 - t, x1 - ThirdX(l, x1, x2));
      EqAdd(l * (x1 - t), l * (x1 - ThirdX(l, x1, x2)), y1, y1);
      SubstituteOnCurve(x3, y3, t, ThirdY(l, x1, y1, x1));
    } else {
      ChordA(l, x1, y1, x2, y2);
      ThirdOnCurve(l, x1, y1, x2);
      SubstituteOnCurve(x3, y3, ThirdX(l, x1, x2), ThirdY(l, x1, y1, x2));
    }
  }

  lemma SubstituteOnCurve(x: int, y: int, u: int, v: int)
    requires Eq(v * v, Rhs(u)) && Eq(x, u) && Eq(y, v)
    ensures Eq(y * y, Rhs(x))
  {
    hide Res;
    EqMul(y, v, y, v);
    EqMul(x, u, x, u);
    EqMul(x * x, u * u, x, u);
    EqAdd(x * x * x, u * u * u, 7, 7);
  }

  lemma ThirdPointExists(p: CurvePoint, q: CurvePoint)
    requires PIsPrime() && p.Affine? && q.Affine? && !Opposite(p.x, p.y, q.x, q.y)
    ensures exists r: CurvePoint, l: int :: r.Affine? && ThirdPoint(r.x, r.y, l, p.x, p.y, q.x, q.y)
  {
    hide Res, PIsPrime, IsSlope, ThirdX, ThirdY, Rhs, Opposite;
    var l := SlopeExists(p.x, p.y, q.x, q.y);
    var x3, y3 := Res(ThirdX(l, p.x, q.x)), Res(ThirdY(l, p.x, p.y, q.x));
    ResOf(ThirdX(l, p.x, q.x));
    ResOf(ThirdY(l, p.x, p.y, q.x));
    ThirdPointOnCurve(x3, y3, l, p.x, p.y, q.x, q.y);
    var r: CurvePoint := Affine(x3, y3);
    assert r.Affine? && ThirdPoint(r.x, r.y, l, p.x, p.y, q.x, q.y);
  }

  lemma ThirdPointUnique(p: CurvePoint, q: CurvePoint, r: Point, l: int, s: Point, m: int)
    requires PIsPrime() && p.Affine? && q.Affine? && !Opposite(p.x, p.y, q.x, q.y)
    requires r.Affine? && ThirdPoint(r.x, r.y, l, p.x, p.y, q.x, q.y)
    requires s.Affine? && ThirdPoint(s.x, s.y, m, p.x, p.y, q.x, q.y)
    ensures r == s
  {
    SlopeUnique(l, m, p.x, p.y, q.x, q.y);
    ThirdDependsOnSlope(l, m, p.x, p.y, q.x);
    Canonical(r.x, s.x);
    Canonical(r.y, s.y);
  }

  lemma ThirdDependsOnSlope(l: int, m: int, x1: int, y1: int, x2: int)
    requires Eq(l, m)
    ensures Eq(ThirdX(l, x1, x2), ThirdX(m, x1, x2)) && Eq(ThirdY(l, x1, y1, x2), ThirdY(m, x1, y1, x2))
  {
    hide Res;
    EqMul(l, m, l, m);
    EqAdd(l * l, m * m, x1 + x2, x1 + x2);
    var s, t := ThirdX(l, x1, x2), ThirdX(m, x1, x2);
    EqAdd(x1, x1, s, t);
    EqMul(l, m, x1 - s, x1 - t);
    EqAdd(l * (x1 - s), m * (x1 - t), y1, y1);
  }

  /** The group operation. */
  ghost function Sum(p: CurvePoint, q: CurvePoint): (r: CurvePoint)
    requires PIsPrime()
  {
    if p.Infinity? then q
    else if q.Infinity? then p
    else if Opposite(p.x, p.y, q.x, q.y) then Infinity
    else
      (ThirdPointExists(p, q);
       var r: CurvePoint, l: int :| r.Affine? && ThirdPoint(r.x, r.y, l, p.x, p.y, q.x, q.y);
       r)
  }

  lemma SumInfinity(p: CurvePoint)
    requires PIsPrime()
    ensures Sum(p, Infinity) == p && Sum(Infinity, p) == p
  {
  }

  lemma OppositeSum(p: CurvePoint, q: CurvePoint)
    requires PIsPrime() && p.Affine? && q.Affine? && Opposite(p.x, p.y, q.x, q.y)
    ensures Sum(p, q) == Infinity
  {
  }

  /** Any point that the chord-and-tangent rule allows is the sum. */
  lemma SumIs(p: CurvePoint, q: CurvePoint, r: Point, l: int)
    requires PIsPrime() && p.Affine? && q.Affine? && !Opposite(p.x, p.y, q.x, q.y)
    requires r.Affine? && ThirdPoint(r.x, r.y, l, p.x, p.y, q.x, q.y)
    ensures Sum(p, q) == r
  {
    var s := Sum(p, q);
    var m :| s.Affine? && ThirdPoint(s.x, s.y, m, p.x, p.y, q.x, q.y);
    ThirdPointUnique(p, q, r, l, s, m);
  }

  lemma SumCommutes(p: CurvePoint, q: CurvePoint)
    requires PIsPrime()
    ensures Sum(p, q) == Sum(q, p)
  {
    if p.Affine? && q.Affine? && !Opposite(p.x, p.y, q.x, q.y) {
      var r := Sum(p, q);
      var l :| r.Affine? && ThirdPoint(r.x, r.y, l, p.x, p.y, q.x, q.y);
      SlopeDivisor(p.x, p.y, q.x, q.y);
      if Eq(p.x, q.x) {
        Canonical(p.x, q.x);
        Canonical(p.y, q.y);
      } else {
        ChordCommutes(r.x, r.y, l, p.x, p.y, q.x, q.y);
        SumIs(q, p, r, l);
      }
    }
  }

  lemma ChordCommutes(x3: int, y3: int, l: int, x1: int, y1: int, x2: int, y2: int)
    requires !Eq(x1, x2) && ThirdPoint(x3, y3, l, x1, y1, x2, y2)
    ensures ThirdPoint(x3, y3, l, x2, y2, x1, y1)
  {
    hide Res;
    EqMul(-1, -1, l * (x2 - x1), y2 - y1);
    assert -1 * (l * (x2 - x1)) == l * (x1 - x2) && -1 * (y2 - y1) == y1 - y2;
    EqAdd(l * (x2 - x1), y2 - y1, ThirdY(l, x1, y1, x2), ThirdY(l, x1, y1, x2));
    assert (l * (x2 - x1) + ThirdY(l, x1, y1, x2)) - (y2 - y1 + ThirdY(l, x1, y1, x2))
        == ThirdY(l, x2, y2, x1) - ThirdY(l, x1, y1, x2) + 0;
    EqAdd(l * (x2 - x1) + ThirdY(l, x1, y1, x2), y2 - y1 + ThirdY(l, x1, y1, x2), y1 - y2, y1 - y2);
  }

  lemma SumWithNegative(p: CurvePoint)
    requires PIsPrime()
    ensures Sum(p, Negative(p)) == Infinity
  {
    if p.Affine? {
      var n := Negative(p);
      assert p.y + n.y == n.y + p.y;
    }
  }
}
