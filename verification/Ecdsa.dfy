/** Signing and verification of ecdsa_impl.h, the retry loop, and low-s normalization. */
module Ecdsa {
  import opened GroupOrder
  import opened Primes
  import opened PrimeField
  import opened ScalarField
  import opened Curve
  import opened CurveGroup
  import opened Jacobian
  import opened FieldNormalize
  import opened FieldElement
  import opened GroupLimbs
  import opened TableLimbs
  import opened Ecmult
  import opened Scalars
  import opened Words
  import BatchConversion
  import EcmultGen
  import FieldLimbs
  import FieldStorage
  import Radix
  import ScalarBytes
  import ScalarLimbs
  import ScalarReduction

  // ---------------------------------------------------------------- what a valid signature is

  /** (r, s) is valid for message m and key q, as in section 4.1.4 of SEC 1: the abscissa of
      (m / s) G + (r / s) q is r modulo n. */
  ghost predicate ValidSignature(r: Scalar, s: Scalar, m: Scalar, q: CurvePoint)
    requires PIsPrime()
  {
    r != 0 && s != 0 && exists w: Scalar :: EqN(s * w, 1) && Matches(Recomputed(w, r, m, q), r)
  }

  /** u2 q + u1 G. */
  ghost function Recomputed(w: Scalar, r: Scalar, m: Scalar, q: CurvePoint): CurvePoint
    requires PIsPrime()
  {
    Mix(SMul(w, r), SMul(w, m), q)
  }

  predicate Matches(p: Point, r: Scalar) {
    p.Affine? && p.x % N == r
  }

  /** The two cases that stand for "x modulo n is r" because p is below 2 n. */
  lemma TwoCases(x: Fe, r: Scalar)
    ensures x % N == r <==> x == r || (r < P - N && x == r + N)
  {
  }

  // ---------------------------------------------------------------- verification

  /** The four words of a scalar. */
  ghost predicate IsScalar(a: array<u64>)
    reads a
  {
    a.Length == 4 && Number(a[..]) < N
  }

  /** `secp256k1_scalar_inverse`, which this model does not open: some inverse of a nonzero scalar. */
  method InvertScalar(a: array<u64>) returns (r: array<u64>)
    requires IsPrime(N) && IsScalar(a) && Number(a[..]) != 0
    ensures fresh(r) && IsScalar(r) && EqN(Number(a[..]) * Number(r[..]), 1)
  {
    hide Number, IsPrime, ModN;
    ghost var b := InverseN(Number(a[..]));
    ghost var w := WordsOf(b);
    NumberIs(w);
    var l :| |l| == 4 && Number(l) < N && EqN(Number(a[..]) * Number(l), 1);
    r := new u64[4](i requires 0 <= i < 4 => l[i]);
    assert r[..] == l;
  }

  lemma WordsOf(v: Scalar) returns (a: seq<u64>)
    ensures |a| == 4 && ScalarLimbs.Value(a) == v
  {
    var q1 := v / 0x1_0000_0000_0000_0000;
    var q2 := q1 / 0x1_0000_0000_0000_0000;
    var q3 := q2 / 0x1_0000_0000_0000_0000;
    a := [v % 0x1_0000_0000_0000_0000, q1 % 0x1_0000_0000_0000_0000, q2 % 0x1_0000_0000_0000_0000, q3];
  }

  /** The product of two scalars. */
  method Product(a: array<u64>, b: array<u64>) returns (r: array<u64>)
    requires IsScalar(a) && IsScalar(b)
    ensures fresh(r) && IsScalar(r) && Number(r[..]) == SMul(Number(a[..]), Number(b[..]))
  {
    hide Number, ModN;
    NumberIs(a[..]);
    NumberIs(b[..]);
    r := new u64[4];
    ScalarReduction.Mul(r, a, b);
    NumberIs(r[..]);
  }

  method IsZero(a: array<u64>) returns (zero: bool)
    requires a.Length == 4
    ensures zero <==> Number(a[..]) == 0
  {
    zero := ScalarReduction.IsZero(a[..]);
    NumberIs(a[..]);
  }

  /** `secp256k1_ecdsa_const_order_as_fe` and `secp256k1_ecdsa_const_p_minus_order`. */
  const ORDER_AS_FE: Limbs := [0x25e8cd0364141, 0xe6af48a03bbfd, 0xffffffebaaedc, 0xfffffffffffff, 0xffffffffffff]
  const P_MINUS_ORDER: Limbs := [0xda1722fc9baee, 0x1950b75fc4402, 0x0000001455123, 0, 0]

  lemma OrderLimbs()
    ensures Magnitude(ORDER_AS_FE, 1) && FieldLimbs.Value(ORDER_AS_FE) == N && Residue(ORDER_AS_FE) == N
    ensures Normalized(P_MINUS_ORDER) && FieldLimbs.Value(P_MINUS_ORDER) == P - N
  {
  }

  lemma SmallSum(a: Fe, b: Fe)
    requires a + b < P
    ensures Add(a, b) == a + b
  {
  }

  /** The scalar r as a field element. */
  method AsFieldElement(sigr: array<u64>) returns (xr: Limbs)
    requires IsScalar(sigr)
    ensures Normalized(xr) && Magnitude(xr, 1) && FieldLimbs.Value(xr) == Residue(xr) == Number(sigr[..])
  {
    hide Number, Normalized, Magnitude, Residue, Radix.Value, FieldLimbs.Value;
    var c := ScalarBytes.GetB32(sigr);
    NumberIs(sigr[..]);
    Bounds();
    var ok;
    xr, ok := FieldStorage.SetB32(c);
    NormalizedMagnitude(xr);
  }

  /** The comparison of the abscissa of a finite point with r and with r + n. */
  method AbscissaMatches(sigr: array<u64>, pr: GejLimbs, ghost point: CurvePoint) returns (ok: bool)
    requires IsScalar(sigr) && PIsPrime() && !pr.infinity && pr.Small() && GejIs(pr.Value(), point)
    ensures ok <==> Matches(point, Number(sigr[..]))
  {
    hide Number, Normalized, Magnitude, Residue, PIsPrime, GejIs, GejEqXVar, OnCurve, FieldLimbs.Value, Add;
    Bounds();
    OrderLimbs();
    ghost var r: Scalar := Number(sigr[..]);
    InfinityAgrees(pr.Value(), point);
    TwoCases(point.x, r);
    var xr := AsFieldElement(sigr);
    MagnitudeGrows(xr, 1, 8);
    GejEqXVarIsAbscissa(Residue(xr), pr.Value(), point);
    var first := pr.EqXVar(xr);
    if first {
      return true;
    }
    var order := FeCmpVar(xr, P_MINUS_ORDER);
    if order >= 0 {
      return false;
    }
    SmallSum(Residue(xr), N);
    xr := FeAdd(xr, ORDER_AS_FE, 1, 1);
    MagnitudeGrows(xr, 2, 8);
    GejEqXVarIsAbscissa(Residue(xr), pr.Value(), point);
    ok := pr.EqXVar(xr);
  }

  /** `secp256k1_ecdsa_sig_verify`, with a finite public key. */
  method SigVerify(ctx: Context, sigr: array<u64>, sigs: array<u64>, pubkey: GeLimbs, message: array<u64>,
                   ghost q: CurvePoint)
    returns (ok: bool)
    requires CurveFacts() && ctx.Valid() && IsScalar(sigr) && IsScalar(sigs) && IsScalar(message)
    requires GeIs(pubkey.Value(), q) && !pubkey.infinity && pubkey.Small()
    ensures PIsPrime() && (ok <==> ValidSignature(Number(sigr[..]), Number(sigs[..]), Number(message[..]), q))
  {
    hide CurveFacts, PIsPrime, TableAffine, OnCurve, GejIs, Mix, G, Times, Sum, SMul, EqN, IsPrime, Eq, GejEqXVar,
      Number, Residue, Magnitude, Matches, ValidSignature;
    PrimeFacts();
    ghost var r: Scalar, s: Scalar, m: Scalar := Number(sigr[..]), Number(sigs[..]), Number(message[..]);
    InvalidZero(s, m, q);
    InvalidZeroS(r, m, q);
    var rZero := IsZero(sigr);
    var sZero := IsZero(sigs);
    if rZero || sZero {
      return false;
    }
    var sn := InvertScalar(sigs);
    var u1 := Product(sn, message);
    var u2 := Product(sn, sigr);
    UnitZ(pubkey.Value(), q);
    var pubkeyj := new GejLimbs(NOWHERE);
    pubkeyj.SetGe(pubkey);
    var pr := new GejLimbs(NOWHERE);
    Multiply(ctx, pr, pubkeyj, u2, u1, q);
    ghost var point := Recomputed(Number(sn[..]), r, m, q);
    ValidByInverse(r, s, m, q, Number(sn[..]));
    InfinityAgrees(pr.Value(), point);
    if pr.infinity {
      InfiniteMismatch(point, r);
      return false;
    }
    ok := AbscissaMatches(sigr, pr, point);
  }

  lemma InfiniteMismatch(p: Point, r: Scalar)
    requires p.Infinity?
    ensures !Matches(p, r)
  {
  }

  lemma InvalidZeroS(r: Scalar, m: Scalar, q: CurvePoint)
    requires PIsPrime()
    ensures !ValidSignature(r, 0, m, q)
  {
  }

  lemma Bounds()
    ensures 0 < N < P < 2 * N
  {
  }

  lemma InfinityAgrees(a: Gej, p: Point)
    requires GejIs(a, p)
    ensures a.infinity <==> p.Infinity?
  {
  }

  /** The choice of the inverse does not matter. */
  lemma ValidByInverse(r: Scalar, s: Scalar, m: Scalar, q: CurvePoint, w: Scalar)
    requires PIsPrime() && r != 0 && s != 0 && EqN(s * w, 1)
    ensures ValidSignature(r, s, m, q) <==> Matches(Recomputed(w, r, m, q), r)
  {
    hide PIsPrime, Mix, SMul, ModN, OnCurve, Matches, Recomputed;
    if ValidSignature(r, s, m, q) {
      var v: Scalar :| EqN(s * v, 1) && Matches(Recomputed(v, r, m, q), r);
      InverseUnique(s, v, w);
      CanonicalN(v, w);
    }
  }

  // ---------------------------------------------------------------- both signs of s

  /** Mirror images have the same abscissa. */
  lemma MatchesNegative(p: CurvePoint, r: Scalar)
    ensures Matches(Negative(p), r) <==> Matches(p, r)
  {
  }

  /** Minus a product. */
  lemma ScalarNegative(w: Scalar, v: Scalar, a: Scalar, q: CurvePoint)
    requires CurveFacts() && EqN(v, 0 - w)
    ensures PIsPrime() && Times(SMul(v, a), q) == Negative(Times(SMul(w, a), q))
  {
    hide *;
    Facts();
    ProductOfNegative(v, w, a, SMul(v, a), SMul(w, a));
    SameTimes(SMul(v, a), 0 - SMul(w, a), q);
    TimesNegative(SMul(w, a), q);
  }

  lemma ProductOfNegative(v: int, w: int, a: int, va: int, wa: int)
    requires EqN(v, 0 - w) && EqN(va, v * a) && EqN(wa, w * a)
    ensures EqN(va, 0 - wa)
  {
    hide ModN;
    EqNMul(v, 0 - w, a, a);
    EqNAdd(0, 0, wa, w * a);
    assert (0 - w) * a == 0 - w * a;
  }

  lemma ProductOfNegatives(s: int, t: int, w: int, v: int)
    requires EqN(t, 0 - s) && EqN(v, 0 - w) && EqN(s * w, 1)
    ensures EqN(t * v, 1)
  {
    hide ModN;
    EqNMul(t, 0 - s, v, 0 - w);
    assert (0 - s) * (0 - w) == s * w;
  }

  /** Congruent factors give equal multiples. */
  lemma SameTimes(j: int, k: int, q: CurvePoint)
    requires CurveFacts() && EqN(j, k)
    ensures PIsPrime() && Times(j, q) == Times(k, q)
  {
    hide CurveFacts, PIsPrime, Times, OnCurve;
    var t := EqNMultiple(j, k);
    hide ModN;
    TimesModN(k, t, q);
  }

  lemma RecomputedNegative(v: Scalar, w: Scalar, r: Scalar, m: Scalar, q: CurvePoint)
    requires CurveFacts() && EqN(v, 0 - w)
    ensures PIsPrime() && Recomputed(v, r, m, q) == Negative(Recomputed(w, r, m, q))
  {
    hide CurveFacts, PIsPrime, ModN, Times, SMul, OnCurve, Negative, Sum, G;
    PrimeFacts();
    ScalarNegative(w, v, r, q);
    ScalarNegative(w, v, m, G());
    NegativeSum(Times(SMul(w, r), q), Times(SMul(w, m), G()));
  }

  /** Verification does not distinguish s from n - s. */
  lemma EitherSign(r: Scalar, s: Scalar, m: Scalar, q: CurvePoint)
    requires CurveFacts() && s != 0
    ensures PIsPrime() && (ValidSignature(r, s, m, q) <==> ValidSignature(r, SNeg(s), m, q))
  {
    hide CurveFacts, PIsPrime, ModN, OnCurve, SNeg, Recomputed, Matches, ValidSignature, IsPrime;
    PrimeFacts();
    if r != 0 {
      var w := InverseN(s);
      var t := SNeg(s);
      var v := SNeg(w);
      ProductOfNegatives(s, t, w, v);
      ValidByInverse(r, s, m, q, w);
      ValidByInverse(r, t, m, q, v);
      RecomputedNegative(v, w, r, m, q);
      MatchesNegative(Recomputed(w, r, m, q), r);
    } else {
      InvalidZero(s, m, q);
      InvalidZero(SNeg(s), m, q);
    }
  }

  lemma InvalidZero(s: Scalar, m: Scalar, q: CurvePoint)
    requires PIsPrime()
    ensures !ValidSignature(0, s, m, q)
  {
  }

  // ---------------------------------------------------------------- signing

  /** What s times the nonce must be: the message plus r times the secret key. */
  ghost function Combined(m: nat, r: nat, d: nat): nat {
    m + r * d
  }

  /** (r, s) comes from nonce k: r is the abscissa of k G, and s k = m + r d up to sign. */
  ghost predicate Signed(r: Scalar, s: Scalar, d: Scalar, m: Scalar, k: Scalar)
    requires PIsPrime()
  {
    && k != 0 && r != 0 && s != 0 && Matches(Times(k, G()), r)
    && (EqN(s * k, m + r * d) || EqN(0 - s * k, m + r * d))
  }

  lemma RecomputedIs(w: Scalar, r: Scalar, m: Scalar, q: CurvePoint)
    requires PIsPrime()
    ensures Recomputed(w, r, m, q) == Sum(Times(SMul(w, r), q), Times(SMul(w, m), G()))
  {
  }

  /** The recomputed point of such a signature is k G or its mirror image. */
  lemma RecomputesNonce(w: Scalar, r: Scalar, s: Scalar, d: Scalar, m: Scalar, k: int)
    requires CurveFacts() && EqN(s * w, 1) && EqN(s * k, m + r * d)
    ensures PIsPrime() && Recomputed(w, r, m, Times(d, G())) == Times(k, G())
  {
    hide *;
    Facts();
    RecomputedIs(w, r, m, Times(d, G()));
    var u1: int, u2: int, e: int := SMul(w, m), SMul(w, r), d;
    TimesTimes(u2, e, G());
    TimesIs(u2, Times(e, G()));
    TimesSum(u2 * e, u1, G());
    NonceArithmetic(w, r, s, e, m, k, u1, u2);
    SameTimes(u2 * e + u1, k, G());
  }

  lemma NonceArithmetic(w: int, r: int, s: int, d: int, m: int, k: int, u1: int, u2: int)
    requires EqN(s * w, 1) && EqN(s * k, m + r * d) && EqN(u1, w * m) && EqN(u2, w * r)
    ensures EqN(u2 * d + u1, k)
  {
    hide ModN;
    EqNMul(u2, w * r, d, d);
    EqNAdd(u2 * d, w * r * d, u1, w * m);
    EqNMul(w, w, s * k, m + r * d);
    assert w * (m + r * d) == w * r * d + w * m && w * (s * k) == s * w * k;
    EqNMul(s * w, 1, k, k);
  }

  /** Completeness: what signing produces, verification accepts for the key d G. */
  lemma SignedIsValid(r: Scalar, s: Scalar, d: Scalar, m: Scalar, k: Scalar)
    requires CurveFacts() && PIsPrime() && Signed(r, s, d, m, k)
    ensures ValidSignature(r, s, m, Times(d, G()))
  {
    hide CurveFacts, PIsPrime, ModN, OnCurve, G, Times, Sum, Matches, Recomputed, IsPrime;
    PrimeFacts();
    var w := InverseN(s);
    if EqN(s * k, m + r * d) {
      RecomputesNonce(w, r, s, d, m, k);
    } else {
      assert s * (0 - k) == 0 - s * k;
      RecomputesNonce(w, r, s, d, m, 0 - k);
      TimesNegative(k, G());
      MatchesNegative(Times(k, G()), r);
    }
  }

  /** The point whose abscissa and parity the recovery id describes: k G, mirrored when s was negated. */
  ghost function NoncePoint(k: Scalar, negated: bool): CurvePoint
    requires PIsPrime()
  {
    if negated then Negative(Times(k, G())) else Times(k, G())
  }

  function Parity(y: Fe): (b: nat)
    ensures b == 0 || b == 1
  {
    y % 2
  }

  lemma ParityFlips(p: CurvePoint)
    requires CurveFacts() && p.Affine?
    ensures PIsPrime() && Negative(p).Affine? && Parity(Negative(p).y) == 1 - Parity(p.y)
  {
    Facts();
    FiniteDouble(p.x, p.y);
    NegParity(p.y);
  }

  lemma NegParity(y: Fe)
    requires !Eq(y, 0)
    ensures Parity(Neg(y)) == 1 - Parity(y)
  {
    ResPeriod(0 - y);
    assert Neg(y) == P - y;
  }

  /** `recid ^= 1`. */
  function FlipParity(recid: nat): nat {
    if recid % 2 == 0 then recid + 1 else recid - 1
  }

  /** The recovery id of a point: the parity of y, and whether x was reduced modulo n. */
  ghost predicate Recovers(recid: nat, p: Point) {
    p.Affine? && recid == Overflow(p.x) + Parity(p.y)
  }

  function Overflow(x: Fe): (o: nat)
    ensures o == 0 || o == 2
  {
    if x >= N then 2 else 0
  }

  /** The first half of `secp256k1_ecdsa_sig_sign`: k G, its abscissa as a scalar, and the recovery id. */
  method NonceAbscissa(ctx: EcmultGen.GenContext, sigr: array<u64>, nonce: array<u64>, ghost u: CurvePoint)
    returns (recid: nat)
    requires CurveFacts() && ctx.Valid(u) && IsScalar(nonce) && Number(nonce[..]) != 0
    requires sigr.Length == 4 && sigr != nonce && sigr != ctx.blind
    modifies sigr
    ensures PIsPrime() && IsScalar(sigr) && Matches(Times(Number(nonce[..]), G()), Number(sigr[..]))
    ensures Recovers(recid, Times(Number(nonce[..]), G()))
  {
    hide CurveFacts, PIsPrime, OnCurve, GejIs, Times, G, Eq, EcmultGen.Built, EcmultGen.Blinded, GejLimbs.Small,
      Number, GeIs, IsPrime, GejLimbs.Usable, Recovers, Matches, GeLimbs.Small;
    PrimeFacts();
    ghost var p := Times(Number(nonce[..]), G());
    FiniteMultiple(Number(nonce[..]), G());
    var rp := new GejLimbs(NOWHERE);
    ctx.Multiply(rp, nonce, u);
    rp.SmallUsable();
    var r := BatchConversion.SetGej(rp, p);
    AffineGe(r.Value(), p);
    recid := Abscissa(sigr, r, p);
  }

  /** The scalar of an abscissa, and the recovery id of its point. */
  method Abscissa(sigr: array<u64>, r: GeLimbs, ghost p: Point) returns (recid: nat)
    requires sigr.Length == 4 && r.Small() && p.Affine? && p.x == Residue(r.x) && p.y == Residue(r.y)
    modifies sigr
    ensures IsScalar(sigr) && Matches(p, Number(sigr[..])) && Recovers(recid, p)
  {
    hide Residue, Magnitude, Normalized, Number, ModN, Radix.Value, FieldLimbs.Value, ScalarLimbs.Value4;
    var x := FeNormalize(r.x, 8);
    var y := FeNormalize(r.y, 8);
    NormalizedMagnitude(x);
    NormalizedMagnitude(y);
    var b := FieldStorage.GetB32(x);
    var overflow := ScalarBytes.SetB32(sigr, b[..]);
    NumberIs(sigr[..]);
    ModNIs(Residue(x));
    var odd := FeIsOdd(y);
    recid := (if overflow then 2 else 0) + if odd then 1 else 0;
  }

  lemma AffineGe(g: Ge, p: Point)
    requires GeIs(g, p) && p.Affine?
    ensures !g.infinity && p.x == g.x && p.y == g.y
  {
  }

  lemma ModNIs(x: int)
    ensures ModN(x) == x % N
  {
    ModNIsRemainder(x);
  }

  /** The second half: s = (m + r d) / k. */
  method Equation(sigr: array<u64>, sigs: array<u64>, seckey: array<u64>, message: array<u64>, nonce: array<u64>)
    requires IsPrime(N) && IsScalar(sigr) && IsScalar(seckey) && IsScalar(message) && IsScalar(nonce)
    requires Number(nonce[..]) != 0 && sigs.Length == 4
    requires sigs != sigr && sigs != seckey && sigs != message && sigs != nonce
    modifies sigs
    ensures IsScalar(sigs)
    ensures EqN(Number(sigs[..]) * Number(nonce[..]),
      Combined(Number(message[..]), Number(sigr[..]), Number(seckey[..])))
    ensures Number(sigs[..]) == 0 <==> EqN(Combined(Number(message[..]), Number(sigr[..]), Number(seckey[..])), 0)
  {
    hide Number, ModN, IsPrime, EqN, Combined;
    ghost var r: Scalar, d: Scalar := Number(sigr[..]), Number(seckey[..]);
    ghost var m: Scalar, k: Scalar := Number(message[..]), Number(nonce[..]);
    var n := Product(sigr, seckey);
    NumberIs(n[..]);
    NumberIs(message[..]);
    var _ := ScalarReduction.Add(n, n, message);
    NumberIs(n[..]);
    var inverse := InvertScalar(nonce);
    sigs[0], sigs[1], sigs[2], sigs[3] := inverse[0], inverse[1], inverse[2], inverse[3];
    assert sigs[..] == inverse[..];
    NumberIs(sigs[..]);
    ScalarReduction.Mul(sigs, sigs, n);
    NumberIs(sigs[..]);
    EquationHolds(r, d, m, k, Number(inverse[..]), Number(n[..]), Number(sigs[..]));
  }

  lemma EquationHolds(r: Scalar, d: Scalar, m: Scalar, k: Scalar, inverse: Scalar, n: Scalar, s: Scalar)
    requires n == ModN(SMul(r, d) + m) && EqN(k * inverse, 1) && s == ModN(inverse * n)
    ensures EqN(s * k, Combined(m, r, d)) && (s == 0 <==> EqN(Combined(m, r, d), 0))
  {
    hide ModN, EqN;
    ScalarField.ModNOf(SMul(r, d) + m);
    ScalarField.ModNOf(inverse * n);
    SignArithmetic(r, d, m, k, inverse, SMul(r, d), n, s);
  }

  lemma SignArithmetic(r: int, d: int, m: int, k: int, inverse: int, rd: int, n: int, s: Scalar)
    requires EqN(rd, r * d) && EqN(n, rd + m) && EqN(k * inverse, 1) && EqN(s, inverse * n)
    ensures EqN(s * k, m + r * d) && (s == 0 <==> EqN(m + r * d, 0))
  {
    ScalarZero(s);
    hide ModN;
    EqNAdd(rd, r * d, m, m);
    EqNMul(s, inverse * n, k, k);
    assert inverse * n * k == k * inverse * n;
    EqNMul(k * inverse, 1, n, n);
    assert EqN(n, m + r * d);
    if s == 0 {
      assert 0 * k == 0;
    }
    if EqN(m + r * d, 0) {
      EqNMul(inverse, inverse, n, 0);
      assert inverse * 0 == 0;
    }
  }

  lemma ScalarZero(s: Scalar)
    ensures EqN(s, 0) <==> s == 0
  {
  }

  lemma NegativeArithmetic(s: Scalar, t: Scalar, k: int, e: int)
    requires s != 0 && t == SNeg(s) && EqN(s * k, e)
    ensures EqN(0 - t * k, e) && t != 0 && (IsHigh(s) ==> !IsHigh(t))
  {
    assert t == N - s;
    NegatedProduct(s, t, k);
  }

  lemma NegatedProduct(s: int, t: int, k: int)
    requires EqN(t, 0 - s)
    ensures EqN(0 - t * k, s * k)
  {
    hide ModN;
    EqNMul(t, 0 - s, 0 - k, 0 - k);
    assert (0 - s) * (0 - k) == s * k && t * (0 - k) == 0 - t * k;
  }

  /** `secp256k1_scalar_negate` on a nonzero scalar, in place. */
  method NegateInPlace(a: array<u64>)
    requires IsScalar(a) && Number(a[..]) != 0
    modifies a
    ensures IsScalar(a) && Number(a[..]) == SNeg(old(Number(a[..])))
  {
    hide Number, ModN;
    NumberIs(a[..]);
    ghost var n := Number(a[..]);
    ScalarReduction.Negate(a, a);
    NumberIs(a[..]);
    NegatedMod(n);
  }

  method IsHighScalar(a: array<u64>) returns (high: bool)
    requires IsScalar(a)
    ensures high <==> IsHigh(Number(a[..]))
  {
    NumberIs(a[..]);
    high := ScalarReduction.IsHigh(a);
  }

  /** The recovery id describes the nonce point or its mirror image, and s belongs to the same of the two. */
  ghost predicate Recoverable(recid: nat, k: Scalar, s: Scalar, e: int)
    requires PIsPrime()
  {
    exists negated: bool :: Recovers(recid, NoncePoint(k, negated)) && EqN(if negated then 0 - s * k else s * k, e)
  }

  /** `secp256k1_ecdsa_sig_sign`. */
  method SigSign(ctx: EcmultGen.GenContext, sigr: array<u64>, sigs: array<u64>, seckey: array<u64>,
                 message: array<u64>, nonce: array<u64>, ghost u: CurvePoint)
    returns (ret: bool, recid: nat)
    requires CurveFacts() && ctx.Valid(u) && IsScalar(seckey) && IsScalar(message) && IsScalar(nonce)
    requires Number(nonce[..]) != 0 && sigr.Length == sigs.Length == 4 && sigr != sigs
    requires {sigr, sigs} !! {seckey, message, nonce, ctx.blind}
    modifies sigr, sigs
    ensures PIsPrime() && IsScalar(sigr) && (ret ==> IsScalar(sigs))
    ensures ret ==>
      && Signed(Number(sigr[..]), Number(sigs[..]), Number(seckey[..]), Number(message[..]), Number(nonce[..]))
      && !IsHigh(Number(sigs[..]))
    ensures ret ==> Recoverable(recid, Number(nonce[..]), Number(sigs[..]),
      Combined(Number(message[..]), Number(sigr[..]), Number(seckey[..])))
    ensures !ret <==>
      Number(sigr[..]) == 0 || EqN(Combined(Number(message[..]), Number(sigr[..]), Number(seckey[..])), 0)
    ensures Matches(Times(Number(nonce[..]), G()), Number(sigr[..]))
  {
    hide CurveFacts, PIsPrime, OnCurve, Times, G, ModN, IsPrime, EcmultGen.GenContext.Valid, IsHigh, Number, Matches,
      Recovers, EqN, NoncePoint, Eq, Res, Recoverable, Signed, Combined;
    PrimeFacts();
    recid := NonceAbscissa(ctx, sigr, nonce, u);
    var rZero := IsZero(sigr);
    if rZero {
      return false, recid;
    }
    ghost var e := Combined(Number(message[..]), Number(sigr[..]), Number(seckey[..]));
    Equation(sigr, sigs, seckey, message, nonce);
    var sZero := IsZero(sigs);
    if sZero {
      return false, recid;
    }
    recid := MakeLow(sigs, recid, Number(nonce[..]), e);
    RecoverableIsSigned(recid, Number(sigr[..]), Number(sigs[..]), Number(seckey[..]), Number(message[..]),
      Number(nonce[..]));
    ret := true;
  }

  /** The end of signing: a high s is negated, and the recovery id follows. */
  method MakeLow(sigs: array<u64>, id: nat, ghost k: Scalar, ghost e: int) returns (recid: nat)
    requires CurveFacts() && PIsPrime() && IsScalar(sigs) && Number(sigs[..]) != 0
    requires EqN(Number(sigs[..]) * k, e) && Recovers(id, Times(k, G()))
    modifies sigs
    ensures IsScalar(sigs) && Number(sigs[..]) != 0 && !IsHigh(Number(sigs[..]))
    ensures Recoverable(recid, k, Number(sigs[..]), e)
  {
    hide CurveFacts, PIsPrime, OnCurve, Times, G, ModN, Number, IsHigh, Recovers, EqN, SNeg;
    ghost var negated := false;
    recid := id;
    ghost var was := Number(sigs[..]);
    var high := IsHighScalar(sigs);
    if high {
      NegativeArithmetic(was, SNeg(was), k, e);
      NegateInPlace(sigs);
      RecoversFlipped(recid, k);
      recid := FlipParity(recid);
      negated := true;
    }
    assert Recovers(recid, NoncePoint(k, negated));
  }

  lemma RecoverableIsSigned(recid: nat, r: Scalar, s: Scalar, d: Scalar, m: Scalar, k: Scalar)
    requires PIsPrime() && k != 0 && r != 0 && s != 0 && Matches(Times(k, G()), r)
    requires Recoverable(recid, k, s, Combined(m, r, d))
    ensures Signed(r, s, d, m, k)
  {
    hide PIsPrime, OnCurve, Times, G, EqN, Matches, Recovers, NoncePoint;
  }

  lemma RecoversFlipped(recid: nat, k: Scalar)
    requires CurveFacts() && PIsPrime() && Recovers(recid, Times(k, G()))
    ensures Recovers(FlipParity(recid), NoncePoint(k, true))
  {
    hide CurveFacts, PIsPrime, OnCurve, Times, G, Negative, FlipParity, Recovers;
    RecoversMirror(recid, Times(k, G()));
  }

  lemma RecoversMirror(recid: nat, p: CurvePoint)
    requires CurveFacts() && Recovers(recid, p)
    ensures Recovers(FlipParity(recid), Negative(p))
  {
    hide *;
    RecoveryId(recid, p);
    ParityFlips(p);
    MirrorAbscissa(p);
    FlipArithmetic(Overflow(p.x), Parity(p.y));
    RecoveryId(FlipParity(recid), Negative(p));
  }

  lemma RecoveryId(recid: nat, p: Point)
    ensures Recovers(recid, p) <==> p.Affine? && recid == Overflow(p.x) + Parity(p.y)
  {
    hide Overflow, Parity;
  }

  lemma FlipArithmetic(base: nat, parity: nat)
    requires base == 0 || base == 2
    requires parity == 0 || parity == 1
    ensures FlipParity(base + parity) == base + (1 - parity)
  {
  }

  lemma MirrorAbscissa(p: CurvePoint)
    requires p.Affine?
    ensures Negative(p).Affine? && Negative(p).x == p.x
  {
  }

  // ---------------------------------------------------------------- the exported functions

  /** The s that `secp256k1_ecdsa_signature_normalize` leaves, and whether it was high. */
  function NormalizeSignature(s: Scalar): (r: (Scalar, bool)) {
    (if IsHigh(s) then SNeg(s) else s, IsHigh(s))
  }

  /** Normalizing gives a low s, valid exactly when the original was; it reports whether it changed s. */
  lemma NormalizeKeepsValidity(r: Scalar, s: Scalar, m: Scalar, q: CurvePoint)
    requires CurveFacts() && PIsPrime()
    ensures !IsHigh(NormalizeSignature(s).0) && (NormalizeSignature(s).1 <==> NormalizeSignature(s).0 != s)
    ensures ValidSignature(r, NormalizeSignature(s).0, m, q) <==> ValidSignature(r, s, m, q)
  {
    hide CurveFacts, PIsPrime, ValidSignature, OnCurve, ModN;
    if IsHigh(s) {
      EitherSign(r, s, m, q);
      Bounds();
    }
  }

  /** `secp256k1_ecdsa_signature_normalize`. */
  method SignatureNormalize(sigs: array<u64>) returns (ret: bool)
    requires IsScalar(sigs)
    modifies sigs
    ensures IsScalar(sigs) && (Number(sigs[..]), ret) == NormalizeSignature(old(Number(sigs[..])))
  {
    hide Number, ModN, SNeg;
    ret := IsHighScalar(sigs);
    if ret {
      NegateInPlace(sigs);
    }
  }

  /** `secp256k1_pubkey_load`: the coordinates that a public key object holds make a finite point, unless the
      first is zero. Objects that were parsed hold a point on the curve or zeros. */
  method PubkeyLoad(pubkey: GeStorage) returns (ok: bool, ge: GeLimbs)
    requires pubkey.Valid()
    ensures ok <==> pubkey.Value().x != 0
    ensures ge.Value() == pubkey.Value() && ge.Small()
  {
    hide Residue, Magnitude, Normalized, ScalarLimbs.Value4;
    ge := GeFromStorage(pubkey);
    var zero := FeIsZero(ge.x);
    ok := !zero;
  }

  predicate IsBytes(b: seq<nat>) {
    |b| == 32 && Radix.Digits(b, 256)
  }

  /** The number that 32 bytes stand for. */
  function Big(b: seq<nat>): nat { Radix.Value(b, 256) }

  /** `secp256k1_scalar_set_b32`. */
  method LoadScalar(r: array<u64>, b: seq<nat>) returns (overflow: bool)
    requires r.Length == 4 && IsBytes(b)
    modifies r
    ensures IsScalar(r) && Number(r[..]) == ModN(Big(b)) && (overflow <==> Big(b) >= N)
    ensures !overflow ==> Number(r[..]) == Big(b)
  {
    hide Number, Radix.Value, ModN;
    overflow := ScalarBytes.SetB32(r, b);
    NumberIs(r[..]);
    SmallResidue(Big(b));
  }

  lemma SmallResidue(v: nat)
    ensures v < N ==> ModN(v) == v
  {
    if v < N {
      ModNUnique(v, v, 0);
    }
  }

  /** `secp256k1_ecdsa_verify`: only low s is accepted, and only a key that loads. */
  method Verify(ctx: Context, sigr: array<u64>, sigs: array<u64>, msg32: seq<nat>, pubkey: GeStorage,
                ghost q: CurvePoint)
    returns (ok: bool)
    requires CurveFacts() && ctx.Valid() && IsScalar(sigr) && IsScalar(sigs) && IsBytes(msg32) && pubkey.Valid()
    requires pubkey.Value().x != 0 ==> GeIs(pubkey.Value(), q)
    ensures PIsPrime()
    ensures ok <==> !IsHigh(Number(sigs[..])) && pubkey.Value().x != 0
                    && ValidSignature(Number(sigr[..]), Number(sigs[..]), ModN(Big(msg32)), q)
  {
    hide *;
    PrimeFacts();
    var m := new u64[4];
    var _ := LoadScalar(m, msg32);
    var high := IsHighScalar(sigs);
    if high {
      return false;
    }
    var loaded, ge := PubkeyLoad(pubkey);
    if !loaded {
      return false;
    }
    StoredFinite(pubkey, ge);
    ok := SigVerify(ctx, sigr, sigs, ge, m, q);
  }

  lemma StoredFinite(pubkey: GeStorage, ge: GeLimbs)
    requires pubkey.Valid() && ge.Value() == pubkey.Value()
    ensures !ge.infinity
  {
  }

  /** What the nonce function returns at each attempt: a failure, or 32 bytes. */
  datatype Nonce = Failure | Bytes(nonce32: seq<nat>) {
    predicate WellFormed() {
      Bytes? ==> IsBytes(nonce32)
    }
  }

  /** Attempt i ends the retry loop: the nonce function fails, or its nonce signs. */
  ghost predicate Stops(nonces: nat -> Nonce, d: Scalar, m: Scalar, i: nat)
    requires PIsPrime()
  {
    nonces(i).Failure? || Usable(Big(nonces(i).nonce32), d, m)
  }

  ghost predicate Usable(v: nat, d: Scalar, m: Scalar)
    requires PIsPrime()
  {
    && 0 < v < N
    && forall r: Scalar :: Matches(Times(v, G()), r) ==> r != 0 && !EqN(m + r * d, 0)
  }

  /** Attempt i is the first that ends the loop. */
  ghost predicate FirstStop(nonces: nat -> Nonce, d: Scalar, m: Scalar, i: nat)
    requires PIsPrime()
  {
    Stops(nonces, d, m, i) && forall j | 0 <= j < i :: !Stops(nonces, d, m, j)
  }

  /** A signature object: the words of r and of s. */
  datatype Signature = Signature(r: seq<u64>, s: seq<u64>) {
    predicate Valid() {
      |r| == |s| == 4 && Number(r) < N && Number(s) < N
    }
  }

  const NO_SIGNATURE := Signature([0, 0, 0, 0], [0, 0, 0, 0])

  /** A low and valid signature, made with nonce k. */
  ghost predicate Good(r: Scalar, s: Scalar, d: Scalar, m: Scalar, k: Scalar)
    requires PIsPrime()
  {
    Signed(r, s, d, m, k) && !IsHigh(s) && ValidSignature(r, s, m, Times(d, G()))
  }

  /** `secp256k1_ecdsa_sign`: an invalid key fails; otherwise the first attempt that stops the loop decides.
      The loop runs as long as no attempt stops it, so some attempt up to `last` has to. */
  method Sign(ctx: EcmultGen.GenContext, msg32: seq<nat>, seckey: seq<nat>, nonces: nat -> Nonce, ghost last: nat,
              ghost u: CurvePoint)
    returns (ret: bool, signature: Signature, count: nat)
    requires CurveFacts() && ctx.Valid(u) && IsBytes(msg32) && IsBytes(seckey)
    requires forall i :: nonces(i).WellFormed()
    requires PIsPrime() && (0 < Big(seckey) < N ==> Stops(nonces, Big(seckey), ModN(Big(msg32)), last))
    ensures !(0 < Big(seckey) < N) ==> !ret
    ensures 0 < Big(seckey) < N ==>
      FirstStop(nonces, Big(seckey), ModN(Big(msg32)), count) && (ret <==> nonces(count).Bytes?)
    ensures ret ==>
      && 0 < Big(seckey) < N && nonces(count).Bytes? && Big(nonces(count).nonce32) < N && signature.Valid()
      && Good(Number(signature.r), Number(signature.s), Big(seckey), ModN(Big(msg32)), Big(nonces(count).nonce32))
    ensures !ret ==> signature == NO_SIGNATURE
  {
    hide CurveFacts, PIsPrime, OnCurve, ModN, EcmultGen.GenContext.Valid, Usable, Good, Number, Big, Radix.Digits, G,
      Times;
    ret, signature, count := false, NO_SIGNATURE, 0;
    Bounds();
    var sec := new u64[4];
    var overflow := LoadScalar(sec, seckey);
    var zero := IsZero(sec);
    if !overflow && !zero {
      var msg := new u64[4];
      var _ := LoadScalar(msg, msg32);
      ghost var d: Scalar, m: Scalar := Number(sec[..]), Number(msg[..]);
      while true
        invariant 0 <= count <= last && fresh(sec) && fresh(msg) && IsScalar(sec) && IsScalar(msg)
        invariant Number(sec[..]) == d && Number(msg[..]) == m
        invariant forall i | 0 <= i < count :: !Stops(nonces, d, m, i)
        decreases last - count
      {
        var attempt := nonces(count);
        if attempt.Failure? {
          return false, NO_SIGNATURE, count;
        }
        assert attempt.WellFormed();
        ret, signature := Try(ctx, sec, msg, attempt.nonce32, u);
        if ret {
          return ret, signature, count;
        }
        assert !Stops(nonces, d, m, count);
        count := count + 1;
      }
    }
  }

  /** One attempt with the bytes of a nonce. */
  method Try(ctx: EcmultGen.GenContext, sec: array<u64>, msg: array<u64>, nonce32: seq<nat>, ghost u: CurvePoint)
    returns (ret: bool, signature: Signature)
    requires CurveFacts() && PIsPrime() && ctx.Valid(u) && IsScalar(sec) && IsScalar(msg) && IsBytes(nonce32)
    ensures ret <==> Usable(Big(nonce32), Number(sec[..]), Number(msg[..]))
    ensures ret ==>
      && Big(nonce32) < N && signature.Valid()
      && Good(Number(signature.r), Number(signature.s), Number(sec[..]), Number(msg[..]), Big(nonce32))
    ensures !ret ==> signature == NO_SIGNATURE
  {
    hide CurveFacts, PIsPrime, OnCurve, ModN, Number, Big, Radix.Digits, G, Times, EqN, Matches, Usable, IsHigh,
      Signed, ValidSignature, Recovers, EcmultGen.Built, EcmultGen.Blinded;
    ret, signature := false, NO_SIGNATURE;
    var non := new u64[4];
    var overflow := LoadScalar(non, nonce32);
    var zero := IsZero(non);
    if !overflow && !zero {
      var r, s := new u64[4], new u64[4];
      var recid;
      ret, recid := SigSign(ctx, r, s, sec, msg, non, u);
      UsableExactly(Big(nonce32), Number(sec[..]), Number(msg[..]), Number(r[..]));
      if ret {
        SignedIsValid(Number(r[..]), Number(s[..]), Number(sec[..]), Number(msg[..]), Big(nonce32));
        signature := Signature(r[..], s[..]);
      }
    } else {
      UnusableRange(Big(nonce32), Number(sec[..]), Number(msg[..]));
    }
  }

  lemma UsableExactly(v: Scalar, d: Scalar, m: Scalar, r: Scalar)
    requires PIsPrime() && v != 0
    ensures Matches(Times(v, G()), r) ==> (Usable(v, d, m) <==> r != 0 && !EqN(m + r * d, 0))
  {
    hide PIsPrime, Times, G, OnCurve, ModN;
    Bounds();
  }

  lemma UnusableRange(v: nat, d: Scalar, m: Scalar)
    requires PIsPrime() && (v >= N || v == 0)
    ensures !Usable(v, d, m)
  {
  }

  /** `secp256k1_pubkey_load` never rejects a key object that holds a point of the curve. */
  lemma KeyLoads(pubkey: GeStorage, q: CurvePoint)
    requires CurveFacts() && pubkey.Valid() && GeIs(pubkey.Value(), q)
    ensures pubkey.Value().x != 0
  {
    hide CurveFacts, OnCurve, GeStorage.Valid;
    AbscissaNonzero(q);
  }

  /** A key object before it is filled. */
  const NO_KEY := GeStorage([0, 0, 0, 0], [0, 0, 0, 0])

  /** `secp256k1_ec_pubkey_create`: the key d G of every secret in range, and zeros for the others. */
  method PubkeyCreate(gen: EcmultGen.GenContext, seckey: seq<nat>, ghost u: CurvePoint)
    returns (ret: bool, pubkey: GeStorage)
    requires CurveFacts() && gen.Valid(u) && IsBytes(seckey)
    ensures PIsPrime() && (ret <==> 0 < Big(seckey) < N)
    ensures ret ==> pubkey.Valid() && GeIs(pubkey.Value(), Times(Big(seckey), G()))
    ensures !ret ==> pubkey == NO_KEY
  {
    hide CurveFacts, PIsPrime, OnCurve, GejIs, GeIs, Times, G, EcmultGen.Built, EcmultGen.Blinded, GejLimbs.Small,
      GejLimbs.Usable, GeLimbs.Small, GeStorage.Valid, Number, Big, Radix.Digits, ModN, Eq, IsPrime;
    PrimeFacts();
    pubkey := NO_KEY;
    var sec := new u64[4];
    var overflow := LoadScalar(sec, seckey);
    var zero := IsZero(sec);
    SmallResidue(Big(seckey));
    ret := !overflow && !zero;
    if ret {
      FiniteMultiple(Big(seckey), G());
      var pj := new GejLimbs(NOWHERE);
      gen.Multiply(pj, sec, u);
      pj.SmallUsable();
      var p := BatchConversion.SetGej(pj, Times(Big(seckey), G()));
      AffineGe(p.Value(), Times(Big(seckey), G()));
      pubkey := GeToStorage(p);
    }
  }

  /** What signing produces is accepted under the key of the secret that signed. */
  method SignAndVerify(gen: EcmultGen.GenContext, ctx: Context, msg32: seq<nat>, seckey: seq<nat>,
                       nonces: nat -> Nonce, pubkey: GeStorage, ghost last: nat, ghost u: CurvePoint)
    returns (ret: bool, ok: bool, count: nat)
    requires CurveFacts() && gen.Valid(u) && ctx.Valid() && IsBytes(msg32) && IsBytes(seckey)
    requires forall i :: nonces(i).WellFormed()
    requires PIsPrime() && (0 < Big(seckey) < N ==> Stops(nonces, Big(seckey), ModN(Big(msg32)), last))
    requires pubkey.Valid() && GeIs(pubkey.Value(), Times(Big(seckey), G()))
    ensures ret ==> ok
    ensures !(0 < Big(seckey) < N) ==> !ret
    ensures 0 < Big(seckey) < N ==>
      FirstStop(nonces, Big(seckey), ModN(Big(msg32)), count) && (ret <==> nonces(count).Bytes?)
  {
    hide CurveFacts, PIsPrime, OnCurve, ModN, EcmultGen.GenContext.Valid, Context.Valid, Usable, Number, Big,
      Radix.Digits, G, Times, GeIs, IsHigh, ValidSignature, Signed, GeStorage.Valid, GeStorage.Value;
    KeyLoads(pubkey, Times(Big(seckey), G()));
    var signature;
    ret, signature, count := Sign(gen, msg32, seckey, nonces, last, u);
    ok := false;
    if ret {
      var r := new u64[4](i requires 0 <= i < 4 => signature.r[i]);
      var s := new u64[4](i requires 0 <= i < 4 => signature.s[i]);
      assert r[..] == signature.r && s[..] == signature.s;
      ok := Verify(ctx, r, s, msg32, pubkey, Times(Big(seckey), G()));
    }
  }

  /** From the bytes of a secret to a verified signature: the key is created for exactly the secrets in range, and
      whatever is signed with one of them is accepted under that key. */
  method CreateSignVerify(gen: EcmultGen.GenContext, ctx: Context, msg32: seq<nat>, seckey: seq<nat>,
                          nonces: nat -> Nonce, ghost last: nat, ghost u: CurvePoint)
    returns (created: bool, ret: bool, ok: bool, count: nat)
    requires CurveFacts() && gen.Valid(u) && ctx.Valid() && IsBytes(msg32) && IsBytes(seckey)
    requires forall i :: nonces(i).WellFormed()
    requires PIsPrime() && (0 < Big(seckey) < N ==> Stops(nonces, Big(seckey), ModN(Big(msg32)), last))
    ensures created <==> 0 < Big(seckey) < N
    ensures ret ==> created && ok
    ensures 0 < Big(seckey) < N ==>
      FirstStop(nonces, Big(seckey), ModN(Big(msg32)), count) && (ret <==> nonces(count).Bytes?)
  {
    hide *;
    var pubkey;
    created, pubkey := PubkeyCreate(gen, seckey, u);
    ret, ok, count := false, false, 0;
    if created {
      ret, ok, count := SignAndVerify(gen, ctx, msg32, seckey, nonces, pubkey, last, u);
    }
  }
}
