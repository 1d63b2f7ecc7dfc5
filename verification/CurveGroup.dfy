/** Multiples of curve points, under the facts about the curve that the source takes for granted:
    p and n are prime, -7 has no cube root, the sum is associative, and n times any point is infinity. */
module CurveGroup {
  import opened GroupOrder
  import opened Primes
  import opened PrimeField
  import opened Curve

  const G_X: Fe := 0x79BE667E_F9DCBBAC_55A06295_CE870B07_029BFCDB_2DCE28D9_59F2815B_16F81798
  const G_Y: Fe := 0x483ADA77_26A3C465_5DA4FBFC_0E1108A8_FD17B448_A6855419_9C47D08F_FB10D4B8

  /** The generator satisfies the curve equation. */
  lemma GeneratorOnCurve()
    ensures OnCurve(Affine(G_X, G_Y))
  {
    EqByMultiple(
      0x483ADA77_26A3C465_5DA4FBFC_0E1108A8_FD17B448_A6855419_9C47D08F_FB10D4B8
        * 0x483ADA77_26A3C465_5DA4FBFC_0E1108A8_FD17B448_A6855419_9C47D08F_FB10D4B8,
      Rhs(0x79BE667E_F9DCBBAC_55A06295_CE870B07_029BFCDB_2DCE28D9_59F2815B_16F81798),
      (0x483ADA77_26A3C465_5DA4FBFC_0E1108A8_FD17B448_A6855419_9C47D08F_FB10D4B8
        * 0x483ADA77_26A3C465_5DA4FBFC_0E1108A8_FD17B448_A6855419_9C47D08F_FB10D4B8
        - Rhs(0x79BE667E_F9DCBBAC_55A06295_CE870B07_029BFCDB_2DCE28D9_59F2815B_16F81798))
          / P);
  }

  function G(): (g: CurvePoint)
    ensures g == Affine(G_X, G_Y)
  {
    GeneratorOnCurve();
    Affine(G_X, G_Y)
  }

  ghost predicate SumAssociates()
    requires PIsPrime()
  {
    forall p: CurvePoint, q: CurvePoint, r: CurvePoint :: Sum(Sum(p, q), r) == Sum(p, Sum(q, r))
  }

  ghost predicate OrderIsN()
    requires PIsPrime()
  {
    forall p: CurvePoint :: Multiple(N, p) == Infinity
  }

  /** What the source relies on without checking. */
  ghost predicate CurveFacts() {
    PIsPrime() && NoCubeRoot() && SumAssociates() && IsPrime(N) && OrderIsN()
  }

  ghost function Multiple(k: nat, p: CurvePoint): CurvePoint
    requires PIsPrime()
  {
    if k == 0 then Infinity else Sum(Multiple(k - 1, p), p)
  }

  /** k p for any integer k. */
  ghost function Times(k: int, p: CurvePoint): CurvePoint
    requires PIsPrime()
  {
    if k >= 0 then Multiple(k, p) else Negative(Multiple(-k, p))
  }

  // ---------------------------------------------------------------- the group

  lemma PrimeFacts()
    requires CurveFacts()
    ensures PIsPrime() && IsPrime(N)
  {
  }

  lemma Facts()
    requires CurveFacts()
    ensures PIsPrime() && NoCubeRoot() && IsPrime(N)
  {
  }

  lemma Associates(p: CurvePoint, q: CurvePoint, r: CurvePoint)
    requires CurveFacts()
    ensures PIsPrime()
    ensures Sum(Sum(p, q), r) == Sum(p, Sum(q, r))
  {
  }

  /** In a group the second summand is determined by the sum. */
  lemma CancelSum(p: CurvePoint, q: CurvePoint, r: CurvePoint)
    requires CurveFacts() && PIsPrime() && Sum(p, q) == Sum(p, r)
    ensures q == r
  {
    hide Sum, PIsPrime, CurveFacts, Negative, OnCurve, Res, Eq;
    var n := Negative(p);
    SumWithNegative(p);
    SumCommutes(p, n);
    Associates(n, p, q);
    Associates(n, p, r);
    SumInfinity(q);
    SumInfinity(r);
  }

  lemma NegativeSum(p: CurvePoint, q: CurvePoint)
    requires CurveFacts()
    ensures PIsPrime()
    ensures Negative(Sum(p, q)) == Sum(Negative(p), Negative(q))
  {
    hide Sum, PIsPrime, CurveFacts, Negative, OnCurve, Res, Eq;
    Facts();
    var s, m, n := Sum(p, q), Negative(p), Negative(q);
    calc {
      Sum(s, Sum(m, n));
      { SumCommutes(p, q); Associates(q, p, Sum(m, n)); }
      Sum(q, Sum(p, Sum(m, n)));
      { Associates(p, m, n); SumWithNegative(p); SumInfinity(n); }
      Sum(q, n);
      { SumWithNegative(q); SumWithNegative(s); }
      Sum(s, Negative(s));
    }
    CancelSum(s, Sum(m, n), Negative(s));
  }

  lemma MultipleStep(k: nat, p: CurvePoint)
    requires PIsPrime()
    ensures Multiple(k + 1, p) == Sum(Multiple(k, p), p) && Multiple(0, p) == Infinity
  {
    hide Sum, PIsPrime, OnCurve, Res, Eq;
  }

  lemma {:induction false} MultipleSum(j: nat, k: nat, p: CurvePoint)
    requires CurveFacts()
    ensures PIsPrime()
    ensures Multiple(j + k, p) == Sum(Multiple(j, p), Multiple(k, p))
  {
    hide *;
    Facts();
    MultipleStep(j, p);
    if k == 0 {
      SumInfinity(Multiple(j, p));
    } else {
      MultipleSum(j, k - 1, p);
      Associates(Multiple(j, p), Multiple(k - 1, p), p);
      MultipleStep(k - 1, p);
      MultipleStep(j + k - 1, p);
    }
  }

  /** Both branches of the definition, which agree at 0. */
  lemma TimesIs(k: nat, p: CurvePoint)
    requires PIsPrime()
    ensures Times(k, p) == Multiple(k, p)
    ensures Times(0 - k, p) == Negative(Multiple(k, p))
  {
    hide Sum, PIsPrime, OnCurve, Res, Eq, Multiple;
    if k == 0 {
      MultipleStep(0, p);
    }
  }

  lemma TimesNegative(k: int, p: CurvePoint)
    requires CurveFacts()
    ensures PIsPrime()
    ensures Times(-k, p) == Negative(Times(k, p))
  {
    hide *;
    Facts();
    if k < 0 {
      TimesIs(-k, p);
      NegativeTwice(Multiple(-k, p));
    } else {
      TimesIs(k, p);
    }
  }

  lemma NegativeTwice(p: CurvePoint)
    ensures Negative(Negative(p)) == p
  {
    match p
    case Infinity =>
    case Affine(x, y) =>
      var n := Neg(y);
      var m := Neg(n);
      NegAgain(y, n, m);
      Canonical(m, y);
  }

  lemma NegAgain(y: int, n: int, m: int)
    requires Eq(n, 0 - y) && Eq(m, 0 - n)
    ensures Eq(m, y)
  {
    hide Res;
    EqAdd(0, 0, n, 0 - y);
    assert 0 - (0 - y) == y;
  }

  /** Splitting off a nonnegative multiple. */
  lemma TimesDifference(j: nat, k: nat, p: CurvePoint)
    requires CurveFacts()
    ensures PIsPrime()
    ensures Times(j - k, p) == Sum(Multiple(j, p), Negative(Multiple(k, p)))
  {
    hide *;
    Facts();
    var n := Negative(Multiple(k, p));
    SumWithNegative(Multiple(k, p));
    if j >= k {
      TimesIs(j - k, p);
      MultipleSum(j - k, k, p);
      Associates(Multiple(j - k, p), Multiple(k, p), n);
      SumInfinity(Multiple(j - k, p));
    } else {
      TimesIs(k - j, p);
      MultipleSum(j, k - j, p);
      NegativeSum(Multiple(j, p), Multiple(k - j, p));
      var m := Negative(Multiple(k - j, p));
      Associates(Multiple(j, p), Negative(Multiple(j, p)), m);
      SumWithNegative(Multiple(j, p));
      SumInfinity(m);
    }
  }

  /** Multiples add up. */
  lemma TimesSum(j: int, k: int, p: CurvePoint)
    requires CurveFacts()
    ensures PIsPrime()
    ensures Times(j + k, p) == Sum(Times(j, p), Times(k, p))
  {
    hide *;
    Facts();
    TimesIs(if j >= 0 then j else -j, p);
    TimesIs(if k >= 0 then k else -k, p);
    if j >= 0 && k >= 0 {
      TimesIs(j + k, p);
      MultipleSum(j, k, p);
    } else if j >= 0 {
      TimesDifference(j, -k, p);
    } else if k >= 0 {
      TimesDifference(k, -j, p);
      SumCommutes(Multiple(k, p), Negative(Multiple(-j, p)));
    } else {
      TimesIs(-j - k, p);
      MultipleSum(-j, -k, p);
      NegativeSum(Multiple(-j, p), Multiple(-k, p));
    }
  }

  lemma TimesOne(p: CurvePoint)
    requires PIsPrime()
    ensures Times(1, p) == p && Times(0, p) == Infinity
  {
    hide *;
    TimesIs(0, p);
    TimesIs(1, p);
    MultipleStep(0, p);
    SumInfinity(p);
  }

  lemma DoubleTimes(k: int, p: CurvePoint)
    requires CurveFacts()
    ensures PIsPrime()
    ensures Sum(Times(k, p), Times(k, p)) == Times(2 * k, p)
  {
    hide *;
    TimesSum(k, k, p);
    assert k + k == 2 * k;
  }

  lemma {:induction false} TimesTimes(j: nat, k: int, p: CurvePoint)
    requires CurveFacts()
    ensures PIsPrime()
    ensures Multiple(j, Times(k, p)) == Times(j * k, p)
  {
    hide *;
    Facts();
    var q := Times(k, p);
    if j == 0 {
      MultipleStep(0, q);
      TimesOne(p);
    } else {
      TimesTimes(j - 1, k, p);
      MultipleStep(j - 1, q);
      TimesSum((j - 1) * k, k, p);
      assert (j - 1) * k + k == j * k;
    }
  }

  lemma OrderN(p: CurvePoint)
    requires CurveFacts()
    ensures PIsPrime() && Multiple(N, p) == Infinity
  {
    hide Sum, PIsPrime, Multiple, OnCurve, Res, Eq, IsPrime, NoCubeRoot, SumAssociates;
  }

  /** Multiples only depend on the factor modulo n. */
  lemma TimesModN(k: int, m: int, p: CurvePoint)
    requires CurveFacts()
    ensures PIsPrime()
    ensures Times(k + m * N, p) == Times(k, p)
  {
    hide *;
    Facts();
    OrderN(Times(m, p));
    TimesTimes(N, m, p);
    assert N * m == m * N;
    TimesSum(k, N * m, p);
    SumInfinity(Times(k, p));
  }

  /** Since n is prime, no smaller multiple of a finite point is infinite. */
  lemma FiniteMultiple(k: nat, p: CurvePoint)
    requires CurveFacts() && p.Affine? && 0 < k < N
    ensures PIsPrime() && Times(k, p).Affine?
  {
    hide *;
    Facts();
    if Times(k, p) == Infinity {
      var b := InverseExists(k, N);
      TimesTimes(b, k, p);
      TimesInfinity(b);
      var m := k * b / N;
      assert b * k == 1 + m * N;
      OrderIs();
      TimesModN(1, m, p);
      TimesOne(p);
    }
  }

  lemma {:induction false} TimesInfinity(b: nat)
    requires PIsPrime()
    ensures Multiple(b, Infinity) == Infinity
  {
    hide Sum, Multiple, PIsPrime, Res, Eq;
    MultipleStep(0, Infinity);
    if b == 0 {
    } else {
      TimesInfinity(b - 1);
      MultipleStep(b - 1, Infinity);
      SumInfinity(Infinity);
    }
  }

  // ---------------------------------------------------------------- no point has abscissa zero

  /** A point with y = 0 would give a cube root of -7, here 0. */
  lemma NotOwnMirror(y: int)
    requires PIsPrime() && Eq(y * y, 7)
    ensures !Opposite(0, y, 0, y)
  {
    hide PIsPrime;
    if Eq(y, 0) {
      EqMul(y, 0, y, 0);
      SevenIsNotZero();
    } else {
      SevenIsNotZero();
      NonzeroProduct(2, y);
    }
  }

  lemma SevenIsNotZero()
    ensures !Eq(7, 0) && !Eq(2, 0)
  {
  }

  /** The tangent at (0, y) is horizontal. */
  lemma FlatTangent(x: int, y: int, n: int, l: int)
    requires x == 0 && l == 0 && Eq(n, 0 - y)
    ensures ThirdPoint(x, n, l, x, y, x, y)
  {
    hide Res, ThirdX, ThirdY;
    FlatThird(x, y, l);
    assert l * (2 * y) == 3 * x * x;
  }

  lemma FlatThird(x: int, y: int, l: int)
    requires x == 0 && l == 0
    ensures ThirdX(l, x, x) == x && ThirdY(l, x, y, x) == 0 - y
  {
    var t := x - ThirdX(l, x, x);
    ZeroTimes(l, l);
    hide ThirdX;
    ZeroTimes(l, t);
  }

  lemma ZeroTimes(l: int, a: int)
    requires l == 0
    ensures l * a == 0
  {
  }

  /** So doubling it gives its mirror image. */
  lemma DoubledIsMirror(p: CurvePoint)
    requires PIsPrime() && p.Affine? && p.x == 0
    ensures Sum(p, p) == Negative(p)
  {
    hide PIsPrime, Res, Sum, Opposite, ThirdPoint;
    NotOwnMirror(p.y);
    FlatTangent(p.x, p.y, Neg(p.y), 0);
    SumIs(p, p, Negative(p), 0);
  }

  /** Such a point would have order 3, but n is prime: every finite point has a nonzero abscissa. */
  lemma AbscissaNonzero(p: CurvePoint)
    requires CurveFacts() && p.Affine?
    ensures p.x != 0
  {
    hide *;
    PrimeFacts();
    OrderIs();
    if p.x == 0 {
      DoubledIsMirror(p);
      TimesOne(p);
      TimesSum(1, 1, p);
      TimesSum(2, 1, p);
      SumCommutes(p, Negative(p));
      SumWithNegative(p);
      FiniteMultiple(3, p);
    }
  }
}
