/** The table 1 A, 3 A, ..., (2 n - 1) A that windowed multiplication looks digits up in. */
module OddMultiples {
  import opened PrimeField
  import opened Curve
  import opened CurveGroup
  import opened GroupOrder
  import opened Jacobian
  import opened PointTables
  import opened FieldNormalize
  import opened FieldElement
  import opened GroupLimbs
  import opened TableLimbs

  /** A table of distinct denominators whose i-th point is (2 i + 1) p. */
  ghost predicate OddChain(a: seq<Gej>, zr: seq<Fe>, zs: seq<Fe>, ps: seq<CurvePoint>, p: CurvePoint)
    requires PIsPrime()
  {
    Chain(a, zr, zs, ps) && forall i | 0 <= i < |ps| :: ps[i] == Times(2 * i + 1, p)
  }

  /** The entries filled so far, which all lack the factor k of their z. */
  ghost predicate Partial(a: seq<Gej>, zr: seq<Fe>, n: nat, k: Fe, p: CurvePoint)
    requires PIsPrime()
  {
    && n <= |a| == |zr|
    && (forall j | 0 <= j < n :: Entry(a[j], k, j, p))
    && (forall j | 0 < j < n :: Ratio(a[j - 1].z, zr[j], a[j].z))
  }

  ghost predicate Entry(a: Gej, k: Fe, j: int, p: CurvePoint)
    requires PIsPrime()
  {
    !a.infinity && GejIs(Rescaled(a, k), Times(2 * j + 1, p))
  }

  /** The point 2 A in the form in which it is added. */
  lemma DoubledBase(r: Gej, a: Gej, p: CurvePoint)
    requires CurveFacts() && GejIs(a, p) && !a.infinity
    ensures PIsPrime()
    ensures var d := DoubleVar(r, a).0;
      !d.infinity && !Eq(d.z, 0) && OverZ(Ge(d.x, d.y, false), d.z, Times(2, p))
      && OverZ(SetGejZinv(a, d.z), Mul(a.z, d.z), Times(1, p))
  {
    hide Res, Mul, PIsPrime, CurveFacts, NoCubeRoot, Sum, OnCurve, ScaledX, ScaledY, SetGejZinv, DoubleVar;
    Facts();
    TimesOne(p);
    DoubleTimes(1, p);
    DoubleVarIsSum(r, a, p);
    var d := DoubleVar(r, a).0;
    NonzeroProduct(a.z, d.z);
    ScaleToShared(a, a.z, d.z, Mul(a.z, d.z), p);
  }

  /** One more entry. */
  lemma NextEntry(r: Gej, a: Gej, b: Ge, k: Fe, i: nat, p: CurvePoint)
    requires CurveFacts() && PIsPrime() && p.Affine? && i > 0 && 2 * i + 1 < N
    requires Entry(a, k, i - 1, p) && !b.infinity && OverZ(b, k, Times(2, p))
    ensures var (s, h) := AddGeVar(r, a, b); Entry(s, k, i, p) && Ratio(a.z, h, s.z)
  {
    hide Res, Mul, PIsPrime, CurveFacts, Sum, OnCurve, ScaledX, ScaledY, AddGeVar, Times;
    AddGeVarScaled(r, a, b, k, Times(2 * (i - 1) + 1, p), Times(2, p));
    TimesSum(2 * (i - 1) + 1, 2, p);
    assert 2 * (i - 1) + 1 + 2 == 2 * i + 1;
    FiniteMultiple(2 * i + 1, p);
  }

  lemma RatioScaled(z: Fe, r: Fe, w: Fe, k: Fe)
    requires Ratio(z, r, w)
    ensures Ratio(Mul(z, k), r, Mul(w, k))
  {
    RatioTimes(z, r, w, k, Mul(z, k), Mul(w, k));
  }

  lemma RatioTimes(z: int, r: int, w: int, k: int, zk: int, wk: int)
    requires Ratio(z, r, w) && Eq(zk, z * k) && Eq(wk, w * k)
    ensures Ratio(zk, r, wk)
  {
    hide Res;
    EqMul(zk, z * k, r, r);
    EqMul(z * r, w, k, k);
    assert z * k * r == z * r * k;
  }

  /** Supplying the last missing factor completes the chain. */
  lemma Complete(a: seq<Gej>, zr: seq<Fe>, n: nat, k: Fe, p: CurvePoint)
    returns (zs: seq<Fe>, ps: seq<CurvePoint>)
    requires PIsPrime() && Partial(a, zr, n, k, p) && n == |a| > 0
    ensures OddChain(a[n - 1 := Rescaled(a[n - 1], k)], zr, zs, ps, p) && |zs| == |ps| == n
    ensures zs[0] == Mul(a[0].z, k)
  {
    hide Res, Mul, PIsPrime, OnCurve, ScaledX, ScaledY, Times, GejIs;
    zs := seq(n, j requires 0 <= j < n => Mul(a[j].z, k));
    ps := seq(n, j requires 0 <= j < n => Times(2 * j + 1, p));
    var b := a[n - 1 := Rescaled(a[n - 1], k)];
    forall j | 0 <= j < n
      ensures ChainLink(b[j], zs[j], ps[j])
    {
      assert Entry(a[j], k, j, p);
    }
    forall j | 0 < j < n
      ensures Ratio(zs[j - 1], zr[j], zs[j])
    {
      assert Ratio(a[j - 1].z, zr[j], a[j].z);
      RatioScaled(a[j - 1].z, zr[j], a[j].z, k);
    }
  }

  /** `secp256k1_ecmult_odd_multiples_table`, for any length, provided no multiple on the way can be
      infinite; zr[0] is the ratio of the first z to that of `a`. */
  method OddMultiplesTable(prej: array<GejCell>, zr: array<Limbs>, a: GejLimbs, ghost p: CurvePoint)
    returns (ghost zs: seq<Fe>, ghost ps: seq<CurvePoint>)
    requires CurveFacts() && GejIs(a.Value(), p) && !a.infinity && a.Small()
    requires 1 <= prej.Length == zr.Length && 2 * prej.Length <= N
    modifies prej, zr
    ensures PIsPrime() && OddChain(Gejs(prej[..]), Residues(zr[..]), zs, ps, p) && |ps| == |zs| == prej.Length
    ensures AllUsable(prej[..]) && AllSmall(zr[..])
    ensures Ratio(Residue(a.z), Residue(zr[0]), zs[0])
  {
    hide *;
    Facts();
    ghost var z := a.z;
    var dge, dz := FirstMultiple(prej, zr, a, p);
    PartialStart(Gejs(prej[..]), Residues(zr[..]), Residue(dz), p);
    var n := prej.Length;
    var i := 1;
    while i < n
      invariant 1 <= i <= n
      invariant Partial(Gejs(prej[..]), Residues(zr[..]), i, Residue(dz), p)
      invariant prej[0].z == z && zr[0] == dz
      invariant forall j | 0 <= j < i :: prej[j].Small() && Magnitude(zr[j], 8)
    {
      NextMultiple(prej, zr, i, dge, dz, p);
      i := i + 1;
    }
    zs, ps := Supply(prej, zr, dz, p);
    RatioOf(Residue(z), Residue(dz));
  }

  /** The last step: the z of the final entry is the only one that is used. */
  method Supply(prej: array<GejCell>, zr: array<Limbs>, dz: Limbs, ghost p: CurvePoint)
    returns (ghost zs: seq<Fe>, ghost ps: seq<CurvePoint>)
    requires PIsPrime() && 1 <= prej.Length == zr.Length && Magnitude(dz, 8)
    requires Partial(Gejs(prej[..]), Residues(zr[..]), prej.Length, Residue(dz), p)
    requires forall j | 0 <= j < prej.Length :: prej[j].Small() && Magnitude(zr[j], 8)
    modifies prej
    ensures OddChain(Gejs(prej[..]), Residues(zr[..]), zs, ps, p) && |ps| == |zs| == prej.Length
    ensures AllUsable(prej[..]) && AllSmall(zr[..])
    ensures zs[0] == Mul(Residue(old(prej[0].z)), Residue(dz))
  {
    hide PIsPrime, Residue, Magnitude, Partial, OddChain, Mul, AllUsable, AllSmall, GejCell.Usable, Res;
    var n := prej.Length;
    ghost var last := Gejs(prej[..]);
    zs, ps := Complete(last, Residues(zr[..]), n, Residue(dz), p);
    assert last[0] == prej[0].Value();
    var z := FeMul(prej[n - 1].z, dz, 8, 8);
    MagnitudeGrows(z, 1, 8);
    SmallCell(prej[n - 1], z);
    RescaledCell(prej[n - 1], z, dz);
    prej[n - 1] := prej[n - 1].(z := z);
    assert Gejs(prej[..]) == last[n - 1 := Rescaled(last[n - 1], Residue(dz))];
    SmallAll(prej[..], zr[..]);
  }

  lemma SmallCell(a: GejCell, z: Limbs)
    requires a.Small() && Magnitude(z, 8)
    ensures a.(z := z).Small()
  {
    hide Magnitude;
  }

  lemma RescaledCell(a: GejCell, z: Limbs, k: Limbs)
    requires Residue(z) == Mul(Residue(a.z), Residue(k))
    ensures a.(z := z).Value() == Rescaled(a.Value(), Residue(k))
  {
    hide Residue, Mul;
  }

  lemma SmallAll(a: seq<GejCell>, zr: seq<Limbs>)
    requires |a| == |zr| && forall j | 0 <= j < |a| :: a[j].Small() && Magnitude(zr[j], 8)
    ensures AllUsable(a) && AllSmall(zr)
  {
    hide Magnitude;
  }

  /** Up to the loop: the doubled point without its z, and the first entry. */
  method FirstMultiple(prej: array<GejCell>, zr: array<Limbs>, a: GejLimbs, ghost p: CurvePoint)
    returns (dge: GeLimbs, dz: Limbs)
    requires CurveFacts() && PIsPrime() && GejIs(a.Value(), p) && !a.infinity && a.Small()
    requires 1 <= prej.Length == zr.Length
    modifies prej, zr
    ensures p.Affine? && !dge.infinity && dge.Small() && Magnitude(dz, 8)
    ensures OverZ(dge.Value(), Residue(dz), Times(2, p))
    ensures Entry(prej[0].Value(), Residue(dz), 0, p) && prej[0].Small() && Magnitude(zr[0], 8)
    ensures prej[0].z == a.z && zr[0] == dz
  {
    hide CurveFacts, PIsPrime, GejIs, Residue, Magnitude, Times, Entry, OverZ, DoubleVar, SetGejZinv;
    var d := new GejLimbs(GejCell([0, 0, 0, 0, 0], [0, 0, 0, 0, 0], [0, 0, 0, 0, 0], false));
    DoubledBase(d.Value(), a.Value(), p);
    AffineBase(a.Value(), p);
    var _ := d.DoubleVar(a);
    MagnitudeGrows(d.x, 6, 8);
    MagnitudeGrows(d.y, 4, 8);
    MagnitudeGrows(d.z, 2, 8);
    dge, dz := GeLimbs(d.x, d.y, false), d.z;
    var age := GeSetGejZinv(a.Cell(), dz);
    FirstEntry(a.Value(), age.Value(), Residue(dz), p);
    prej[0] := GejCell(age.x, age.y, a.z, false);
    zr[0] := dz;
  }

  /** One pass of the loop. */
  method NextMultiple(prej: array<GejCell>, zr: array<Limbs>, i: nat, dge: GeLimbs, dz: Limbs, ghost p: CurvePoint)
    requires CurveFacts() && PIsPrime() && p.Affine? && 0 < i < prej.Length == zr.Length && 2 * prej.Length <= N
    requires !dge.infinity && dge.Small() && OverZ(dge.Value(), Residue(dz), Times(2, p))
    requires Partial(Gejs(prej[..]), Residues(zr[..]), i, Residue(dz), p)
    requires forall j | 0 <= j < i :: prej[j].Small() && Magnitude(zr[j], 8)
    modifies prej, zr
    ensures Partial(Gejs(prej[..]), Residues(zr[..]), i + 1, Residue(dz), p)
    ensures forall j | 0 <= j < i + 1 :: prej[j].Small() && Magnitude(zr[j], 8)
    ensures prej[0] == old(prej[0]) && zr[0] == old(zr[0])
  {
    hide CurveFacts, PIsPrime, GejIs, Residue, Magnitude, Times, Entry, OverZ, AddGeVar, Partial;
    ghost var was, wasZr := Gejs(prej[..]), Residues(zr[..]);
    PartialEntry(was, wasZr, i, Residue(dz), p);
    var s := new GejLimbs(prej[i]);
    var before := new GejLimbs(prej[i - 1]);
    NextEntry(s.Value(), before.Value(), dge.Value(), Residue(dz), i, p);
    var h := s.AddGeVar(before, dge);
    EntryFinite(s.Value(), Residue(dz), i, p);
    MagnitudeGrows(h, 3, 8);
    Extend(was, wasZr, i, Residue(dz), p, s.Value(), Residue(h));
    prej[i], zr[i] := s.Cell(), h;
    assert Gejs(prej[..]) == was[i := s.Value()] && Residues(zr[..]) == wasZr[i := Residue(h)];
  }

  lemma EntryFinite(a: Gej, k: Fe, j: int, p: CurvePoint)
    requires PIsPrime() && Entry(a, k, j, p)
    ensures !a.infinity
  {
  }

  lemma AffineBase(a: Gej, p: Point)
    requires GejIs(a, p) && !a.infinity
    ensures p.Affine?
  {
  }

  lemma RatioOf(z: Fe, k: Fe)
    ensures Ratio(z, k, Mul(z, k))
  {
  }

  lemma FirstEntry(a: Gej, age: Ge, k: Fe, p: CurvePoint)
    requires PIsPrime() && !a.infinity && age == SetGejZinv(a, k) && OverZ(age, Mul(a.z, k), Times(1, p))
    ensures Entry(Gej(age.x, age.y, a.z, false), k, 0, p)
  {
    hide Res, Mul, PIsPrime, Times, OnCurve;
  }

  lemma PartialEntry(a: seq<Gej>, zr: seq<Fe>, i: nat, k: Fe, p: CurvePoint)
    requires PIsPrime() && 0 < i && Partial(a, zr, i, k, p)
    ensures i <= |a| == |zr| && Entry(a[i - 1], k, i - 1, p)
  {
    hide PIsPrime, Entry, Ratio;
  }

  lemma PartialStart(a: seq<Gej>, zr: seq<Fe>, k: Fe, p: CurvePoint)
    requires PIsPrime() && 1 <= |a| == |zr| && Entry(a[0], k, 0, p)
    ensures Partial(a, zr, 1, k, p)
  {
    hide PIsPrime, Entry, Ratio;
  }

  lemma Extend(a: seq<Gej>, zr: seq<Fe>, i: nat, k: Fe, p: CurvePoint, s: Gej, h: Fe)
    requires PIsPrime() && 0 < i < |a| && Partial(a, zr, i, k, p)
    requires Entry(s, k, i, p) && Ratio(a[i - 1].z, h, s.z)
    ensures Partial(a[i := s], zr[i := h], i + 1, k, p)
  {
    hide PIsPrime, Entry, Ratio;
  }
}
