/** Affine points on limbs: scaling by the inverse of z, mirroring, the packed storage form, and the two
    conversions of a whole table by the ratios of its z coordinates. */
module TableLimbs {
  import opened PrimeField
  import opened Curve
  import J = Jacobian
  import opened FieldNormalize
  import opened FieldElement
  import opened GroupLimbs
  import opened PointTables
  import opened Words
  import FieldLimbs
  import FieldStorage
  import ScalarLimbs

  /** What a table of Jacobian points and a list of field elements stand for. */
  ghost function Gejs(a: seq<GejCell>): (r: seq<J.Gej>)
    ensures |r| == |a| && forall i | 0 <= i < |a| :: r[i] == a[i].Value()
  {
    seq(|a|, i requires 0 <= i < |a| => a[i].Value())
  }

  ghost function Residues(a: seq<Limbs>): (r: seq<Fe>)
    ensures |r| == |a| && forall i | 0 <= i < |a| :: r[i] == Residue(a[i])
  {
    seq(|a|, i requires 0 <= i < |a| => Residue(a[i]))
  }

  ghost predicate AllUsable(a: seq<GejCell>) {
    forall i | 0 <= i < |a| :: a[i].Usable()
  }

  ghost predicate AllSmall(a: seq<Limbs>) {
    forall i | 0 <= i < |a| :: Magnitude(a[i], 8)
  }

  // ---------------------------------------------------------------- single points

  /** `secp256k1_fe_inv`, which this model does not open: some inverse of a nonzero element. */
  method Invert(a: Limbs) returns (r: Limbs)
    requires PIsPrime() && Magnitude(a, 8) && !Eq(Residue(a), 0)
    ensures Magnitude(r, 1) && Ratio(Residue(a), Residue(r), 1)
  {
    ghost var b := InverseFe(Residue(a));
    ghost var l := LimbsOf(b);
    NormalizedMagnitude(l);
    r :| Magnitude(r, 1) && Ratio(Residue(a), Residue(r), 1);
  }

  lemma InverseFe(a: Fe) returns (r: Fe)
    requires PIsPrime() && !Eq(a, 0)
    ensures Ratio(a, r, 1)
  {
    var b := Inverse(a);
    r := Res(b);
    ResOf(b);
    InverseResidue(a, b, r);
  }

  /** `secp256k1_ge_set_gej_zinv`. */
  method GeSetGejZinv(a: GejCell, zi: Limbs) returns (r: GeLimbs)
    requires a.Small() && Magnitude(zi, 8)
    ensures r.Value() == SetGejZinv(a.Value(), Residue(zi)) && r.Small()
  {
    hide Residue, Magnitude, Mul, Sqr;
    var zi2 := FeSqr(zi, 8);
    var zi3 := FeMul(zi2, zi, 1, 8);
    var x := FeMul(a.x, zi2, 8, 1);
    var y := FeMul(a.y, zi3, 8, 1);
    MagnitudeGrows(x, 1, 8);
    MagnitudeGrows(y, 1, 8);
    r := GeLimbs(x, y, a.infinity);
  }

  /** `secp256k1_ge_neg`. */
  method Mirror(a: GeLimbs) returns (r: GeLimbs)
    requires a.Small()
    ensures r.Value() == J.GeNeg(a.Value()) && r.Small()
  {
    hide Residue, Magnitude, Neg;
    var y := FeNormalizeWeak(a.y, 8);
    y := FeNegate(y, 1);
    MagnitudeGrows(y, 2, 8);
    r := GeLimbs(a.x, y, a.infinity);
  }

  /** A finite point packed into two times four words, each coordinate below p. */
  datatype GeStorage = GeStorage(x: seq<u64>, y: seq<u64>) {
    predicate Valid() {
      |x| == 4 && |y| == 4 && ScalarLimbs.Value(x) < P && ScalarLimbs.Value(y) < P
    }

    function Value(): J.Ge
      requires Valid()
    {
      J.Ge(ScalarLimbs.Value(x), ScalarLimbs.Value(y), false)
    }
  }

  /** `secp256k1_ge_to_storage`. */
  method GeToStorage(a: GeLimbs) returns (r: GeStorage)
    requires !a.infinity && a.Small()
    ensures r.Valid() && r.Value() == a.Value()
  {
    hide Residue, Magnitude, Normalized, FieldLimbs.Value, ScalarLimbs.Value;
    var x := FeNormalize(a.x, 8);
    var y := FeNormalize(a.y, 8);
    NormalizedRange(x);
    NormalizedRange(y);
    var sx := FieldStorage.ToStorage(x);
    var sy := FieldStorage.ToStorage(y);
    r := GeStorage(sx, sy);
  }

  /** `secp256k1_ge_from_storage`. */
  method GeFromStorage(a: GeStorage) returns (r: GeLimbs)
    requires a.Valid()
    ensures r.Value() == a.Value() && Normalized(r.x) && Normalized(r.y) && r.Small()
  {
    hide Residue, Magnitude, Normalized, FieldLimbs.Value, ScalarLimbs.Value;
    var x := FieldStorage.FromStorage(a.x);
    var y := FieldStorage.FromStorage(a.y);
    NormalizedMagnitude(x);
    NormalizedMagnitude(y);
    MagnitudeGrows(x, 1, 8);
    MagnitudeGrows(y, 1, 8);
    r := GeLimbs(x, y, false);
  }

  /** `secp256k1_ge_storage_cmov`. */
  method GeStorageCmov(r: GeStorage, a: GeStorage, flag: bool) returns (s: GeStorage)
    requires |r.x| == |r.y| == 4 && |a.x| == |a.y| == 4
    ensures s == if flag then a else r
  {
    var x := FieldStorage.StorageCmov(r.x, a.x, flag);
    var y := FieldStorage.StorageCmov(r.y, a.y, flag);
    s := GeStorage(x, y);
  }

  // ---------------------------------------------------------------- one denominator for a whole table

  /** A finite entry that stands for a point over the shared z. */
  predicate Shared(r: GeLimbs, z: Fe, p: Point) {
    OverZ(r.Value(), z, p) && r.Small() && !r.infinity
  }

  /** `secp256k1_ge_globalz_set_table_gej`: every output stands for its input over the one globalz. */
  method GlobalzSetTableGej(r: array<GeLimbs>, a: array<GejCell>, zr: array<Limbs>,
                            ghost zs: seq<Fe>, ghost ps: seq<CurvePoint>)
    returns (globalz: Limbs)
    requires r.Length == a.Length == zr.Length && AllUsable(a[..]) && AllSmall(zr[..])
    requires Chain(Gejs(a[..]), Residues(zr[..]), zs, ps)
    modifies r
    ensures r.Length == |ps| && forall i | 0 <= i < r.Length :: Shared(r[i], Residue(globalz), ps[i])
    ensures r.Length > 0 ==> !Eq(Residue(globalz), 0) && Magnitude(globalz, 8)
  {
    hide Residue, Magnitude, Mul, ChainLink, Ratio, Shared, AllUsable, AllSmall, Eq, Gejs, Residues;
    globalz := [0, 0, 0, 0, 0];
    var len := a.Length;
    if len > 0 {
      ghost var links := Gejs(a[..]);
      var i := len - 1;
      r[i], globalz := LastEntry(a, zr, zs, ps);
      var s := zr[i];
      LastRatio(zr[..], s);
      while i > 0
        invariant 0 <= i < len
        invariant forall j | i <= j < len :: Shared(r[j], Residue(globalz), ps[j])
        invariant Magnitude(s, 8)
        invariant i == len - 1 ==> s == zr[i]
        invariant i != len - 1 ==> Ratio(zs[i], Residue(s), Residue(globalz))
      {
        if i != len - 1 {
          s := NextFactor(s, zr, i, zs, ps, links, Residue(globalz));
        } else {
          assert Residues(zr[..])[i] == Residue(zr[i]);
        }
        i := i - 1;
        r[i] := ScaledEntry(a, zr, i, s, globalz, zs, ps);
      }
    }
  }

  lemma LastRatio(zr: seq<Limbs>, s: Limbs)
    requires |zr| > 0 && AllSmall(zr) && s == zr[|zr| - 1]
    ensures Magnitude(s, 8)
  {
    hide Magnitude;
  }

  /** The last entry, whose z becomes the shared one. */
  method LastEntry(a: array<GejCell>, zr: array<Limbs>, ghost zs: seq<Fe>, ghost ps: seq<CurvePoint>)
    returns (r: GeLimbs, globalz: Limbs)
    requires 0 < a.Length == zr.Length && AllUsable(a[..]) && Chain(Gejs(a[..]), Residues(zr[..]), zs, ps)
    ensures Shared(r, Residue(globalz), ps[a.Length - 1]) && zs[a.Length - 1] == Residue(globalz)
    ensures !Eq(Residue(globalz), 0) && Magnitude(globalz, 8)
  {
    hide Residue, Magnitude, OverZ, ChainLink, Eq;
    var i := a.Length - 1;
    ChainUnit(Gejs(a[..]), Residues(zr[..]), zs, ps);
    LinkUsable(a[..], zr[..], zs, ps, i);
    r := GeLimbs(a[i].x, a[i].y, false);
    globalz := a[i].z;
  }

  /** An entry over the shared z. */
  method ScaledEntry(a: array<GejCell>, zr: array<Limbs>, i: nat, s: Limbs, ghost globalz: Limbs,
                     ghost zs: seq<Fe>, ghost ps: seq<CurvePoint>)
    returns (r: GeLimbs)
    requires i < a.Length == zr.Length && AllUsable(a[..]) && Chain(Gejs(a[..]), Residues(zr[..]), zs, ps)
    requires Magnitude(s, 8) && Ratio(zs[i], Residue(s), Residue(globalz)) && !Eq(Residue(globalz), 0)
    ensures Shared(r, Residue(globalz), ps[i])
  {
    hide Residue, Magnitude, OverZ, ChainLink, Ratio, SetGejZinv, Eq;
    LinkUsable(a[..], zr[..], zs, ps, i);
    ScaleToShared(a[i].Value(), zs[i], Residue(s), Residue(globalz), ps[i]);
    LinkFinite(a[i].Value(), zs[i], Residue(s), ps[i]);
    r := GeSetGejZinv(a[i], s);
  }

  /** The factor that brings the z of the entry before to g. */
  method NextFactor(s: Limbs, zr: array<Limbs>, i: nat, ghost zs: seq<Fe>, ghost ps: seq<CurvePoint>,
                    ghost links: seq<J.Gej>, ghost g: Fe)
    returns (t: Limbs)
    requires 0 < i < zr.Length && AllSmall(zr[..]) && Magnitude(s, 8) && Chain(links, Residues(zr[..]), zs, ps)
    requires Ratio(zs[i], Residue(s), g)
    ensures Magnitude(t, 8) && Ratio(zs[i - 1], Residue(t), g)
  {
    hide Residue, Magnitude, Mul, ChainLink, Ratio;
    assert Residues(zr[..])[i] == Residue(zr[i]);
    t := FeMul(s, zr[i], 8, 8);
    MagnitudeGrows(t, 1, 8);
    ProductCongruent(Residue(s), Residue(zr[i]));
    RatioStep(zs[i - 1], Residue(zr[i]), Residue(s), zs[i], Residue(t), g);
  }

  lemma ProductCongruent(a: Fe, b: Fe)
    ensures Eq(Mul(a, b), a * b)
  {
  }

  lemma LinkUsable(a: seq<GejCell>, zr: seq<Limbs>, zs: seq<Fe>, ps: seq<CurvePoint>, i: nat)
    requires AllUsable(a) && i < |a| && Chain(Gejs(a), Residues(zr), zs, ps)
    ensures i < |zs| && i < |ps| && ChainLink(a[i].Value(), zs[i], ps[i]) && a[i].Small() && !a[i].infinity
  {
    hide Residue, Magnitude, J.GejIs;
    assert ChainLink(Gejs(a)[i], zs[i], ps[i]);
  }

  /** `secp256k1_ge_set_table_gej_var`: one inversion makes a whole table affine. */
  method SetTableGejVar(r: array<GeLimbs>, a: array<GejCell>, zr: array<Limbs>,
                        ghost zs: seq<Fe>, ghost ps: seq<CurvePoint>)
    requires r.Length == a.Length == zr.Length && PIsPrime() && AllUsable(a[..]) && AllSmall(zr[..])
    requires Chain(Gejs(a[..]), Residues(zr[..]), zs, ps)
    modifies r
    ensures forall i | 0 <= i < r.Length :: J.GeIs(r[i].Value(), ps[i]) && r[i].Small() && !r[i].infinity
  {
    hide Residue, Magnitude, Mul, Sqr, OverZ, ChainLink, J.GejIs, J.GeIs, PIsPrime, SetGejZinv;
    var len := a.Length;
    if len > 0 {
      ghost var links := Gejs(a[..]);
      ChainUnit(links, Residues(zr[..]), zs, ps);
      var i := len - 1;
      LinkUsable(a[..], zr[..], zs, ps, i);
      var zi := Invert(a[i].z);
      MagnitudeGrows(zi, 1, 8);
      ScaleToAffine(a[i].Value(), zs[i], Residue(zi), ps[i]);
      r[i] := GeSetGejZinv(a[i], zi);
      while i > 0
        invariant 0 <= i < len
        invariant forall j | i <= j < len :: J.GeIs(r[j].Value(), ps[j]) && r[j].Small() && !r[j].infinity
        invariant Magnitude(zi, 8) && Ratio(zs[i], Residue(zi), 1)
      {
        zi := NextFactor(zi, zr, i, zs, ps, links, 1);
        i := i - 1;
        LinkUsable(a[..], zr[..], zs, ps, i);
        ScaleToAffine(a[i].Value(), zs[i], Residue(zi), ps[i]);
        r[i] := GeSetGejZinv(a[i], zi);
      }
    }
  }
}
