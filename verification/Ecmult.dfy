/** The interleaved multiplication na A + ng G of ecmult_impl.h. */
module Ecmult {
  import opened GroupOrder
  import opened Powers
  import opened PrimeField
  import opened Curve
  import opened CurveGroup
  import opened Jacobian
  import opened PointTables
  import opened FieldNormalize
  import opened FieldElement
  import opened GroupLimbs
  import opened TableLimbs
  import opened OddMultiples
  import opened Scalars
  import opened Words
  import WNaf

  const WINDOW_A: nat := 5
  const WINDOW_G: nat := 16

  /** ECMULT_TABLE_SIZE(WINDOW_A) and ECMULT_TABLE_SIZE(WINDOW_G). */
  const TABLE_A: nat := 8
  const TABLE_G: nat := 16384

  /** The contents of an object before it is assigned. */
  const NOWHERE := GejCell([0, 0, 0, 0, 0], [0, 0, 0, 0, 0], [0, 0, 0, 0, 0], true)

  // ---------------------------------------------------------------- table lookups

  /** The table of odd multiples over a shared z. */
  ghost predicate TableOver(pre: seq<GeLimbs>, z: Fe, p: CurvePoint)
    requires PIsPrime()
  {
    forall i | 0 <= i < |pre| :: Shared(pre[i], z, Times(2 * i + 1, p))
  }

  /** The table of affine odd multiples, in storage form. */
  ghost predicate TableAffine(pre: seq<GeStorage>, p: CurvePoint)
    requires PIsPrime()
  {
    forall i | 0 <= i < |pre| :: Stored(pre[i], Times(2 * i + 1, p))
  }

  predicate Stored(a: GeStorage, p: Point) {
    a.Valid() && GeIs(a.Value(), p)
  }

  /** ECMULT_TABLE_GET_GE: the checks of the macro are preconditions. The mirrored entry serves a negative digit. */
  method TableGet(pre: array<GeLimbs>, n: int, w: nat, ghost z: Fe, ghost p: CurvePoint) returns (r: GeLimbs)
    requires CurveFacts() && PIsPrime() && TableOver(pre[..], z, p)
    requires w >= 2 && pre.Length == Pow2(w - 2) && n % 2 != 0 && 0 - Pow2(w - 1) < n < Pow2(w - 1)
    ensures Shared(r, z, Times(n, p))
  {
    hide PIsPrime, CurveFacts, Times, Shared, Residue, OnCurve, Neg, Pow2;
    Pow2Step(w - 2);
    if n > 0 {
      OddIndex(n);
      r := pre[(n - 1) / 2];
    } else {
      OddIndex(-n);
      var e := pre[(-n - 1) / 2];
      SharedSmall(e, z, Times(-n, p));
      r := Mirror(e);
      MirroredOver(e, r, z, -n, p);
    }
  }

  lemma OddIndex(n: int)
    requires n > 0 && n % 2 != 0
    ensures 2 * ((n - 1) / 2) + 1 == n
  {
  }

  lemma SharedSmall(e: GeLimbs, z: Fe, q: Point)
    requires Shared(e, z, q)
    ensures e.Small() && !e.infinity && OverZ(e.Value(), z, q)
  {
  }

  lemma MirroredOver(e: GeLimbs, r: GeLimbs, z: Fe, k: int, p: CurvePoint)
    requires CurveFacts() && PIsPrime() && Shared(e, z, Times(k, p)) && r.Value() == GeNeg(e.Value()) && r.Small()
    ensures Shared(r, z, Times(-k, p))
  {
    hide PIsPrime, CurveFacts, Times, Residue, OnCurve, Neg, GejIs, GeLimbs.Small;
    var g := e.Value();
    GejNegIsNegative(Gej(g.x, g.y, z, g.infinity), Times(k, p));
    TimesNegative(k, p);
  }

  /** ECMULT_TABLE_GET_GE_STORAGE. */
  method TableGetStorage(pre: array<GeStorage>, n: int, w: nat, ghost p: CurvePoint) returns (r: GeLimbs)
    requires CurveFacts() && PIsPrime() && TableAffine(pre[..], p)
    requires w >= 2 && pre.Length == Pow2(w - 2) && n % 2 != 0 && 0 - Pow2(w - 1) < n < Pow2(w - 1)
    ensures GeIs(r.Value(), Times(n, p)) && r.Small()
  {
    hide PIsPrime, CurveFacts, Times, Residue, OnCurve, Neg, Pow2, GeIs, GeStorage.Valid, Magnitude;
    Pow2Step(w - 2);
    if n > 0 {
      OddIndex(n);
      r := GeFromStorage(pre[(n - 1) / 2]);
    } else {
      OddIndex(-n);
      r := GeFromStorage(pre[(-n - 1) / 2]);
      GeNegIsNegative(r.Value(), Times(-n, p));
      TimesNegative(-n, p);
      r := Mirror(r);
    }
  }

  // ---------------------------------------------------------------- digits from the top

  /** The number that the digits from position i on stand for. */
  function High(d: seq<int>, i: nat): int
    requires i <= |d|
    decreases |d| - i
  {
    if i == |d| then 0 else d[i] + 2 * High(d, i + 1)
  }

  lemma {:induction false} HighValue(d: seq<int>, i: nat)
    requires i <= |d|
    ensures WNaf.Value(d, |d|) == WNaf.Value(d, i) + Pow2(i) * High(d, i)
    decreases |d| - i
  {
    if i == |d| {
    } else {
      HighValue(d, i + 1);
      assert WNaf.Value(d, i + 1) == WNaf.Value(d, i) + d[i] * Pow2(i);
      Regroup(d[i], Pow2(i), High(d, i + 1));
    }
  }

  lemma Regroup(d: int, p: int, h: int)
    ensures d * p + 2 * p * h == p * (d + 2 * h)
  {
  }

  lemma {:induction false} HighZeros(d: seq<int>, i: nat)
    requires i <= |d| && forall j | i <= j < |d| :: d[j] == 0
    ensures High(d, i) == 0
    decreases |d| - i
  {
    if i == |d| {
    } else {
      HighZeros(d, i + 1);
    }
  }

  // ---------------------------------------------------------------- the accumulated point

  /** j p + k G. */
  ghost function Mix(j: int, k: int, p: CurvePoint): CurvePoint
    requires PIsPrime()
  {
    Sum(Times(j, p), Times(k, G()))
  }

  /** (a + b) + (c + d) = (a + c) + (b + d). */
  lemma Interchange(a: CurvePoint, b: CurvePoint, c: CurvePoint, d: CurvePoint)
    requires CurveFacts()
    ensures PIsPrime() && Sum(Sum(a, b), Sum(c, d)) == Sum(Sum(a, c), Sum(b, d))
  {
    hide *;
    Facts();
    Associates(a, b, Sum(c, d));
    Associates(b, c, d);
    SumCommutes(b, c);
    Associates(c, b, d);
    Associates(a, c, Sum(b, d));
  }

  lemma MixSum(j: int, k: int, m: int, n: int, p: CurvePoint)
    requires CurveFacts()
    ensures PIsPrime() && Sum(Mix(j, k, p), Mix(m, n, p)) == Mix(j + m, k + n, p)
  {
    hide Sum, Times, PIsPrime, CurveFacts, G, OnCurve, Eq;
    PrimeFacts();
    Interchange(Times(j, p), Times(k, G()), Times(m, p), Times(n, G()));
    TimesSum(j, m, p);
    TimesSum(k, n, G());
  }

  lemma MixOne(n: int, p: CurvePoint)
    requires CurveFacts()
    ensures PIsPrime() && Mix(n, 0, p) == Times(n, p) && Mix(0, n, p) == Times(n, G())
  {
    hide Sum, Times, PIsPrime, CurveFacts, G, OnCurve, Eq;
    PrimeFacts();
    TimesOne(p);
    TimesOne(G());
    SumInfinity(Times(n, p));
    SumInfinity(Times(n, G()));
  }

  /** The scalars only matter modulo n. */
  lemma MixScalars(d: int, e: int, na: nat, ng: nat, p: CurvePoint)
    requires CurveFacts() && (d == na || d == na - N) && (e == ng || e == ng - N)
    ensures PIsPrime() && Mix(d, e, p) == Mix(na, ng, p)
  {
    hide Sum, Times, PIsPrime, CurveFacts, G, OnCurve, Eq;
    PrimeFacts();
    TimesModN(na, -1, p);
    TimesModN(ng, -1, G());
  }

  // ---------------------------------------------------------------- one round of the loop

  /** The accumulator lacks the factor z that the table shares. */
  ghost predicate Accumulated(r: Gej, z: Fe, j: int, k: int, p: CurvePoint)
    requires PIsPrime()
  {
    GejIs(Rescaled(r, z), Mix(j, k, p))
  }

  lemma AccumulatedDouble(r: Gej, z: Fe, j: int, k: int, p: CurvePoint)
    requires CurveFacts() && PIsPrime() && Accumulated(r, z, j, k, p)
    ensures Accumulated(DoubleVar(r, r).0, z, 2 * j, 2 * k, p)
  {
    hide Sum, Times, PIsPrime, CurveFacts, Mix, OnCurve, Eq, GejIs, DoubleVar, Rescaled;
    DoubleScaled(r, r, z, Mix(j, k, p));
    MixSum(j, k, j, k, p);
    assert j + j == 2 * j && k + k == 2 * k;
  }

  lemma AccumulatedA(r: Gej, z: Fe, j: int, k: int, p: CurvePoint, n: int, b: Ge)
    requires CurveFacts() && PIsPrime() && Accumulated(r, z, j, k, p) && OverZ(b, z, Times(n, p))
    ensures Accumulated(AddGeVar(r, r, b).0, z, j + n, k, p)
  {
    hide Sum, Times, PIsPrime, CurveFacts, Mix, OnCurve, Eq, GejIs, AddGeVar, Rescaled;
    MixOne(n, p);
    AddGeVarScaled(r, r, b, z, Mix(j, k, p), Times(n, p));
    MixSum(j, k, n, 0, p);
  }

  lemma AccumulatedG(r: Gej, z: Fe, j: int, k: int, p: CurvePoint, n: int, b: Ge)
    requires CurveFacts() && PIsPrime() && Accumulated(r, z, j, k, p) && GeIs(b, Times(n, G())) && !Eq(z, 0)
    ensures Accumulated(AddZinvVar(r, r, b, z), z, j, k + n, p)
  {
    hide Sum, Times, PIsPrime, CurveFacts, Mix, OnCurve, Eq, GejIs, AddZinvVar, Rescaled, GeIs, G;
    MixOne(n, p);
    AddZinvVarScaled(r, r, b, z, Mix(j, k, p), Times(n, G()));
    MixSum(j, k, 0, n, p);
  }

  /** `secp256k1_ecmult_odd_multiples_table_globalz_windowa`. */
  method TableGlobalzWindowA(pre: array<GeLimbs>, a: GejLimbs, ghost p: CurvePoint) returns (globalz: Limbs)
    requires CurveFacts() && GejIs(a.Value(), p) && !a.infinity && a.Small() && pre.Length == TABLE_A
    modifies pre
    ensures PIsPrime() && TableOver(pre[..], Residue(globalz), p)
    ensures !Eq(Residue(globalz), 0) && Magnitude(globalz, 8)
  {
    hide PIsPrime, CurveFacts, Chain, Ratio, Shared, Times, Sum, OnCurve, GejIs, Eq, Residue, Magnitude, AllUsable,
      AllSmall;
    PrimeFacts();
    var prej := new GejCell[TABLE_A](_ => NOWHERE);
    var zr := new Limbs[TABLE_A](_ => [0, 0, 0, 0, 0]);
    ghost var zs, ps := OddMultiplesTable(prej, zr, a, p);
    globalz := GlobalzSetTableGej(pre, prej, zr, zs, ps);
  }

  /** `secp256k1_ecmult_odd_multiples_table_storage_var`, which makes the table for G. */
  method TableStorageVar(pre: array<GeStorage>, a: GejLimbs, ghost p: CurvePoint)
    requires CurveFacts() && GejIs(a.Value(), p) && !a.infinity && a.Small()
    requires 1 <= pre.Length && 2 * pre.Length <= N
    modifies pre
    ensures PIsPrime() && TableAffine(pre[..], p)
  {
    hide PIsPrime, CurveFacts, Chain, Ratio, GeIs, Times, Sum, OnCurve, GejIs, Eq, Residue, Magnitude, AllUsable,
      AllSmall,
      GeLimbs.Small, GeStorage.Valid;
    PrimeFacts();
    var n := pre.Length;
    var prej := new GejCell[n](_ => NOWHERE);
    var prea := new GeLimbs[n](_ => GeLimbs([0, 0, 0, 0, 0], [0, 0, 0, 0, 0], false));
    var zr := new Limbs[n](_ => [0, 0, 0, 0, 0]);
    ghost var zs, ps := OddMultiplesTable(prej, zr, a, p);
    SetTableGejVar(prea, prej, zr, zs, ps);
    for i := 0 to n
      invariant forall j | 0 <= j < n :: GeIs(prea[j].Value(), ps[j]) && prea[j].Small() && !prea[j].infinity
      invariant forall j | 0 <= j < i :: Stored(pre[j], ps[j])
    {
      pre[i] := GeToStorage(prea[i]);
    }
  }

  lemma TableSizes()
    ensures Pow2(WINDOW_A - 2) == TABLE_A && Pow2(WINDOW_G - 2) == TABLE_G
  {
    Pow2Sixteen();
    Pow2Step(14);
    Pow2Step(15);
    assert Pow2(3) == 8;
  }

  lemma AccumulatedStart(z: Fe, p: CurvePoint)
    requires CurveFacts()
    ensures PIsPrime() && Accumulated(Gej(0, 0, 0, true), z, 0, 0, p)
  {
    hide Sum, Times, PIsPrime, CurveFacts, G, OnCurve, Eq, Mul, Mix;
    PrimeFacts();
    MixOne(0, p);
    TimesOne(p);
  }

  /** `secp256k1_ecmult_context`: the table of odd multiples of G. */
  class Context {
    const preG: array<GeStorage>

    ghost predicate Valid()
      reads preG
    {
      PIsPrime() && preG.Length == TABLE_G && TableAffine(preG[..], G())
    }

    /** `secp256k1_ecmult_context_build`. */
    constructor ()
      requires CurveFacts()
      ensures Valid() && fresh(preG)
    {
      hide PIsPrime, CurveFacts, TableAffine, GejIs, G;
      preG := new GeStorage[TABLE_G](_ => GeStorage([0, 0, 0, 0], [0, 0, 0, 0]));
      new;
      var gj := new GejLimbs(NOWHERE);
      gj.SetGe(GENERATOR);
      GeneratorLimbs();
      TableStorageVar(preG, gj, G());
    }
  }

  /** `secp256k1_ge_const_g`. */
  const GENERATOR := GeLimbs([0x2815b16f81798, 0xdb2dce28d959f, 0xe870b07029bfc, 0xbbac55a06295c, 0x79be667ef9dc],
                             [0x7d08ffb10d4b8, 0x48a68554199c4, 0xe1108a8fd17b4, 0xc4655da4fbfc0, 0x483ada7726a3],
                             false)

  lemma GeneratorLimbs()
    ensures Magnitude(GENERATOR.x, 1) && Magnitude(GENERATOR.y, 1) && GENERATOR.Small()
    ensures GENERATOR.Value() == Ge(G_X, G_Y, false) && GeIs(GENERATOR.Value(), G())
    ensures GejIs(Gej(Residue(GENERATOR.x), Residue(GENERATOR.y), 1, false), G())
  {
    UnitZ(GENERATOR.Value(), G());
  }

  /** One round of the loop: a doubling and at most two additions. */
  method Round(ctx: Context, r: GejLimbs, preA: array<GeLimbs>, nA: int, nG: int, z: Limbs,
               ghost j: int, ghost k: int, ghost p: CurvePoint)
    requires CurveFacts() && ctx.Valid() && !Eq(Residue(z), 0) && Magnitude(z, 8)
    requires preA.Length == TABLE_A && TableOver(preA[..], Residue(z), p)
    requires WNaf.Digit(nA, WINDOW_A) && WNaf.Digit(nG, WINDOW_G)
    requires Accumulated(r.Value(), Residue(z), j, k, p) && r.Usable()
    modifies r
    ensures Accumulated(r.Value(), Residue(z), 2 * j + nA, 2 * k + nG, p) && r.Usable()
  {
    hide PIsPrime, CurveFacts, TableOver, TableAffine, Times, GejIs, Eq, DoubleVar, AddGeVar, AddZinvVar, Accumulated,
         Pow2, G, GeIs, OnCurve, Residue, Magnitude, Shared, GeLimbs.Small;
    TableSizes();
    DoubleRound(r, Residue(z), j, k, p);
    if nA != 0 {
      var tmpa := TableGet(preA, nA, WINDOW_A, Residue(z), p);
      SharedSmall(tmpa, Residue(z), Times(nA, p));
      AccumulatedA(r.Value(), Residue(z), 2 * j, 2 * k, p, nA, tmpa.Value());
      var _ := r.AddGeVar(r, tmpa);
    }
    if nG != 0 {
      var tmpa := TableGetStorage(ctx.preG, nG, WINDOW_G, G());
      AccumulatedG(r.Value(), Residue(z), 2 * j + nA, 2 * k, p, nG, tmpa.Value());
      r.AddZinvVar(r, tmpa, z);
    }
  }

  method DoubleRound(r: GejLimbs, ghost z: Fe, ghost j: int, ghost k: int, ghost p: CurvePoint)
    requires CurveFacts() && PIsPrime() && Accumulated(r.Value(), z, j, k, p) && r.Usable()
    modifies r
    ensures Accumulated(r.Value(), z, 2 * j, 2 * k, p) && r.Usable()
  {
    hide PIsPrime, CurveFacts, Accumulated, Residue, Magnitude, DoubleVar;
    AccumulatedDouble(r.Value(), z, j, k, p);
    var _ := r.DoubleVar(r);
    if !r.infinity {
      r.StaysSmall(6, 4, 2);
    }
  }

  /** `secp256k1_ecmult`: for every finite A and all scalars, r = na A + ng G. Every product on the way has factors
      of magnitude 8 at most. */
  method Multiply(ctx: Context, r: GejLimbs, a: GejLimbs, na: array<u64>, ng: array<u64>, ghost p: CurvePoint)
    requires CurveFacts() && ctx.Valid() && GejIs(a.Value(), p) && !a.infinity && a.Small()
    requires na.Length == 4 && Number(na[..]) < N && ng.Length == 4 && Number(ng[..]) < N
    modifies r
    ensures PIsPrime() && GejIs(r.Value(), Mix(Number(na[..]), Number(ng[..]), p)) && r.Usable()
  {
    hide PIsPrime, CurveFacts, TableOver, TableAffine, Times, GejIs, Eq, Mix, Accumulated, Residue, Magnitude,
         WNaf.Value, WNaf.Stripped, WNaf.Digit, WNaf.Apart, Number, Pow2, G, OnCurve, Mul;
    WNaf.StrippedBelow(Number(na[..]));
    WNaf.StrippedBelow(Number(ng[..]));
    var wnafNa := new int[256];
    var wnafNg := new int[256];
    var bitsNa := WNaf.Recode(wnafNa, na, WINDOW_A);
    var bits := bitsNa;
    var preA := new GeLimbs[TABLE_A](_ => GeLimbs([0, 0, 0, 0, 0], [0, 0, 0, 0, 0], false));
    var z := TableGlobalzWindowA(preA, a, p);
    var bitsNg := WNaf.Recode(wnafNg, ng, WINDOW_G);
    if bitsNg > bits {
      bits := bitsNg;
    }
    r.SetInfinity();
    Rounds(ctx, r, preA, wnafNa, bitsNa, wnafNg, bitsNg, bits, z, p);
    Conclude(wnafNa[..], wnafNg[..], r.Value(), Residue(z), Number(na[..]), Number(ng[..]), p);
    if !r.infinity {
      r.z := FeMul(r.z, z, 8, 8);
      MagnitudeGrows(r.z, 1, 8);
    }
  }

  /** The loop, from the highest digit down. */
  method Rounds(ctx: Context, r: GejLimbs, preA: array<GeLimbs>, wnafNa: array<int>, bitsNa: nat,
                wnafNg: array<int>, bitsNg: nat, bits: nat, z: Limbs, ghost p: CurvePoint)
    requires CurveFacts() && ctx.Valid() && !Eq(Residue(z), 0) && Magnitude(z, 8)
    requires preA.Length == TABLE_A && TableOver(preA[..], Residue(z), p)
    requires wnafNa.Length == wnafNg.Length == 256 && bitsNa <= bits <= 256 && bitsNg <= bits
    requires forall i | 0 <= i < 256 :: WNaf.Digit(wnafNa[i], WINDOW_A) && WNaf.Digit(wnafNg[i], WINDOW_G)
    requires forall i | bitsNa <= i < 256 :: wnafNa[i] == 0
    requires forall i | bitsNg <= i < 256 :: wnafNg[i] == 0
    requires r.Value() == Gej(0, 0, 0, true) && r.Usable()
    modifies r
    ensures PIsPrime() && Accumulated(r.Value(), Residue(z), High(wnafNa[..], 0), High(wnafNg[..], 0), p) && r.Usable()
  {
    hide PIsPrime, CurveFacts, TableOver, TableAffine, Eq, Accumulated, Residue, Magnitude, WNaf.Digit, G,
      GejLimbs.Usable;
    ghost var da, dg := wnafNa[..], wnafNg[..];
    HighZeros(da, bits);
    HighZeros(dg, bits);
    AccumulatedStart(Residue(z), p);
    var i := bits;
    while i > 0
      invariant 0 <= i <= bits
      invariant Accumulated(r.Value(), Residue(z), High(da, i), High(dg, i), p) && r.Usable()
    {
      i := i - 1;
      var nA := if i < bitsNa then wnafNa[i] else 0;
      var nG := if i < bitsNg then wnafNg[i] else 0;
      assert nA == da[i] && nG == dg[i];
      Round(ctx, r, preA, nA, nG, z, High(da, i + 1), High(dg, i + 1), p);
    }
  }

  /** The digits are the scalars, and the shared z is supplied. */
  lemma Conclude(da: seq<int>, dg: seq<int>, r: Gej, z: Fe, na: nat, ng: nat, p: CurvePoint)
    requires CurveFacts() && PIsPrime() && Accumulated(r, z, High(da, 0), High(dg, 0), p)
    requires WNaf.Value(da, |da|) == na || WNaf.Value(da, |da|) == na - N
    requires WNaf.Value(dg, |dg|) == ng || WNaf.Value(dg, |dg|) == ng - N
    ensures GejIs(if r.infinity then r else Rescaled(r, z), Mix(na, ng, p))
  {
    hide PIsPrime, CurveFacts, Times, Mix, High, Mul, ScaledX, ScaledY, Eq, OnCurve;
    HighValue(da, 0);
    HighValue(dg, 0);
    MixScalars(High(da, 0), High(dg, 0), na, ng, p);
  }
}
