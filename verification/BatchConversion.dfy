/** `secp256k1_fe_inv_all_var`, many inverses for one, and the conversion of a list of points to affine
    coordinates that is made with it. */
module BatchConversion {
  import opened PrimeField
  import opened Curve
  import opened Jacobian
  import opened PointTables
  import opened FullAddition
  import opened FieldNormalize
  import opened FieldElement
  import opened GroupLimbs
  import opened TableLimbs

  ghost function Product(a: seq<Fe>): Fe {
    if a == [] then 1 else Mul(Product(a[..|a| - 1]), a[|a| - 1])
  }

  lemma ProductNext(a: seq<Fe>, i: nat)
    requires i < |a|
    ensures Product(a[..i + 1]) == Mul(Product(a[..i]), a[i])
  {
    assert a[..i + 1][..i] == a[..i];
  }

  lemma {:induction false} ProductNonzero(a: seq<Fe>)
    requires PIsPrime() && forall i | 0 <= i < |a| :: a[i] != 0
    ensures !Eq(Product(a), 0)
  {
    hide Mul, PIsPrime, Res;
    if a == [] {
      ZeroIsZero(1);
    } else {
      var m, x := Product(a[..|a| - 1]), a[|a| - 1];
      ProductNonzero(a[..|a| - 1]);
      ZeroIsZero(x);
      NonzeroProduct(m, x);
    }
  }

  /** One inverse of a product gives that of its last factor and that of the rest. */
  lemma SplitInverse(m: int, x: int, mx: int, u: int, ru: int, ux: int)
    requires Eq(mx, m * x) && Ratio(mx, u, 1) && Eq(ru, m * u) && Eq(ux, u * x)
    ensures Ratio(x, ru, 1) && Ratio(m, ux, 1)
  {
    hide Res;
    EqMul(x, x, ru, m * u);
    EqMul(m, m, ux, u * x);
    EqMul(mx, m * x, u, u);
    assert x * (m * u) == m * x * u == m * (u * x);
  }

  /** The running products. */
  ghost predicate Running(r: seq<Limbs>, zs: seq<Fe>, n: nat) {
    n <= |zs| && n <= |r| && forall k | 0 <= k < n :: Residue(r[k]) == Product(zs[..k + 1]) && Magnitude(r[k], 8)
  }

  /** `secp256k1_fe_inv_all_var` on the first `len` elements. */
  method InvAllVar(len: nat, r: array<Limbs>, a: array<Limbs>)
    requires PIsPrime() && r != a && len <= r.Length && len <= a.Length && AllSmall(a[..])
    requires forall k | 0 <= k < len :: Residue(a[k]) != 0
    modifies r
    ensures forall k | 0 <= k < len :: Ratio(Residue(a[k]), Residue(r[k]), 1) && Magnitude(r[k], 8)
  {
    hide Mul, Product, PIsPrime, Ratio, Eq, Residue, Magnitude;
    if len < 1 {
      return;
    }
    ghost var zs := Residues(a[..]);
    r[0] := a[0];
    FirstProduct(zs);
    var i := 0;
    i := i + 1;
    while i < len
      invariant 1 <= i <= len
      invariant Running(r[..], zs, i)
    {
      ProductNext(zs, i);
      r[i] := FeMul(r[i - 1], a[i], 8, 8);
      MagnitudeGrows(r[i], 1, 8);
      i := i + 1;
    }
    i := i - 1;
    ProductNonzero(zs[..len]);
    var u := Invert(r[i]);
    while i > 0
      invariant 0 <= i < len
      invariant Running(r[..], zs, i + 1)
      invariant forall k | i < k < len :: Ratio(zs[k], Residue(r[k]), 1) && Magnitude(r[k], 8)
      invariant Ratio(Product(zs[..i + 1]), Residue(u), 1) && Magnitude(u, 1)
    {
      var j := i;
      i := i - 1;
      ProductNext(zs, j);
      r[j], u := PeelInverse(r[i], a[j], u, r[j]);
    }
    FirstProduct(zs);
    MagnitudeGrows(u, 1, 8);
    r[0] := u;
  }

  /** One step down: the inverse of one factor, and of the product of the rest. */
  method PeelInverse(before: Limbs, z: Limbs, u: Limbs, ghost now: Limbs) returns (inverse: Limbs, rest: Limbs)
    requires Magnitude(before, 8) && Magnitude(z, 8) && Magnitude(u, 1)
    requires Residue(now) == Mul(Residue(before), Residue(z)) && Ratio(Residue(now), Residue(u), 1)
    ensures Ratio(Residue(z), Residue(inverse), 1) && Magnitude(inverse, 8)
    ensures Ratio(Residue(before), Residue(rest), 1) && Magnitude(rest, 1)
  {
    hide Residue, Magnitude, Ratio, Mul;
    inverse := FeMul(before, u, 8, 1);
    MagnitudeGrows(inverse, 1, 8);
    rest := FeMul(u, z, 1, 8);
    ProductCongruent(Residue(before), Residue(z));
    ProductCongruent(Residue(before), Residue(u));
    ProductCongruent(Residue(u), Residue(z));
    SplitInverse(Residue(before), Residue(z), Residue(now), Residue(u), Residue(inverse), Residue(rest));
  }

  lemma FirstProduct(a: seq<Fe>)
    requires |a| > 0
    ensures Product(a[..1]) == a[0]
  {
    hide Mul, Res;
    ProductNext(a, 0);
    MulOne(a[0]);
  }

  /** The z coordinates of the finite points. */
  ghost function FiniteZ(a: seq<Gej>): seq<Fe> {
    if a == [] then []
    else if a[|a| - 1].infinity then FiniteZ(a[..|a| - 1])
    else FiniteZ(a[..|a| - 1]) + [a[|a| - 1].z]
  }

  lemma FiniteNext(a: seq<Gej>, i: nat)
    requires i < |a|
    ensures FiniteZ(a[..i + 1]) == if a[i].infinity then FiniteZ(a[..i]) else FiniteZ(a[..i]) + [a[i].z]
  {
    assert a[..i + 1][..i] == a[..i];
  }

  lemma {:induction false} FinitePrefix(a: seq<Gej>, i: nat)
    requires i <= |a|
    ensures FiniteZ(a[..i]) <= FiniteZ(a)
    decreases |a|
  {
    if i == |a| {
      assert a[..i] == a;
    } else {
      FinitePrefix(a[..|a| - 1], i);
      assert a[..|a| - 1][..i] == a[..i];
    }
  }

  lemma {:induction false} FiniteNonzero(a: seq<Gej>, ps: seq<CurvePoint>)
    requires |a| == |ps| && forall k | 0 <= k < |a| :: GejIs(a[k], ps[k])
    ensures forall z <- FiniteZ(a) :: z != 0
  {
    hide Res, OnCurve;
    if a == [] {
    } else {
      FiniteNonzero(a[..|a| - 1], ps[..|a| - 1]);
      if !a[|a| - 1].infinity {
        NonzeroZ(a[|a| - 1], ps[|a| - 1]);
        ZeroIsZero(a[|a| - 1].z);
      }
    }
  }

  /** `secp256k1_ge_set_gej`, whose input is not used again by its callers. */
  method SetGej(a: GejLimbs, ghost p: CurvePoint) returns (r: GeLimbs)
    requires PIsPrime() && GejIs(a.Value(), p) && a.Usable()
    ensures GeIs(r.Value(), p) && (!r.infinity ==> r.Small())
  {
    hide PIsPrime, Residue, Mul, Sqr, OnCurve, Eq, Magnitude, SetGejZinv;
    if a.infinity {
      r := GeLimbs([0, 0, 0, 0, 0], [0, 0, 0, 0, 0], true);
    } else {
      NonzeroZ(a.Value(), p);
      var zi := Invert(a.z);
      MagnitudeGrows(zi, 1, 8);
      LinkItself(a.Value(), p);
      ScaleToAffine(a.Value(), Residue(a.z), Residue(zi), p);
      r := GeSetGejZinv(a.Cell(), zi);
    }
  }

  /** The first loop of `secp256k1_ge_set_all_gej_var`. */
  method CollectZ(a: array<GejCell>) returns (az: array<Limbs>, count: nat)
    requires AllUsable(a[..])
    ensures fresh(az) && count <= az.Length == a.Length && AllSmall(az[..])
    ensures Residues(az[..count]) == FiniteZ(Gejs(a[..]))
  {
    hide FiniteZ, Residue, Magnitude;
    var len := a.Length;
    az := new Limbs[len](_ => [0, 0, 0, 0, 0]);
    ZeroMagnitude();
    count := 0;
    ghost var all := Gejs(a[..]);
    NoneFinite(all);
    for i := 0 to len
      invariant count <= i && Residues(az[..count]) == FiniteZ(all[..i]) && AllSmall(az[..])
    {
      FiniteNext(all, i);
      if !a[i].infinity {
        ghost var was := az[..count];
        az[count] := a[i].z;
        assert az[..count + 1] == was + [a[i].z];
        assert Residues(was + [a[i].z]) == Residues(was) + [Residue(a[i].z)];
        count := count + 1;
      }
    }
    assert all[..len] == all;
  }

  lemma ZeroMagnitude()
    ensures Magnitude([0, 0, 0, 0, 0], 8)
  {
  }

  /** An affine point of small magnitude, unless it is infinite. */
  predicate Converted(r: GeLimbs, p: Point) {
    GeIs(r.Value(), p) && (!r.infinity ==> r.Small())
  }

  /** `secp256k1_ge_set_all_gej_var`: each output is its input in affine coordinates. */
  method SetAllGejVar(r: array<GeLimbs>, a: array<GejCell>, ghost ps: seq<CurvePoint>)
    requires PIsPrime() && r.Length == a.Length == |ps| && AllUsable(a[..])
    requires forall k | 0 <= k < a.Length :: GejIs(a[k].Value(), ps[k])
    modifies r
    ensures forall k | 0 <= k < r.Length :: Converted(r[k], ps[k])
  {
    hide *;
    var len := a.Length;
    ghost var all := Gejs(a[..]);
    var az, count := CollectZ(a);
    FiniteNonzero(all, ps);
    ghost var zs := Residues(az[..count]);
    var azi := InvertAll(az, count);
    count := 0;
    NoneFinite(all);
    for i := 0 to len
      invariant count == |FiniteZ(all[..i])|
      invariant forall k | 0 <= k < i :: Converted(r[k], ps[k])
      invariant |zs| == azi.Length && forall k | 0 <= k < |zs| :: Inverses(zs[k], azi[k])
    {
      FiniteStep(all, i);
      assert all[i] == a[i].Value();
      FlagIs(a[i]);
      if a[i].infinity {
        InfiniteIs(a[i], ps[i], r[i]);
        r[i] := r[i].(infinity := true);
      } else {
        OneUsable(a[..], i);
        r[i] := ConvertOne(a[i], azi[count], ps[i]);
        count := count + 1;
      }
    }
  }

  predicate Inverses(z: Fe, zi: Limbs) {
    Ratio(z, Residue(zi), 1) && Magnitude(zi, 8)
  }

  method InvertAll(az: array<Limbs>, count: nat) returns (azi: array<Limbs>)
    requires PIsPrime() && count <= az.Length && AllSmall(az[..]) && forall z <- Residues(az[..count]) :: z != 0
    ensures fresh(azi) && azi.Length == count
    ensures forall k | 0 <= k < count :: Inverses(Residues(az[..count])[k], azi[k])
  {
    hide PIsPrime, Residue, Magnitude, Ratio;
    azi := new Limbs[count](_ => [0, 0, 0, 0, 0]);
    ghost var zs := Residues(az[..count]);
    forall k | 0 <= k < count ensures zs[k] == Residue(az[k]) && Residue(az[k]) != 0 {
      assert zs[k] in zs;
    }
    InvAllVar(count, azi, az);
  }

  method ConvertOne(a: GejCell, zi: Limbs, ghost p: CurvePoint) returns (r: GeLimbs)
    requires PIsPrime() && GejIs(a.Value(), p) && !a.infinity && a.Small() && Inverses(Residue(a.z), zi)
    ensures Converted(r, p)
  {
    hide PIsPrime, GejIs, GeIs, OnCurve, Residue, Magnitude, Ratio, SetGejZinv;
    LinkItself(a.Value(), p);
    ScaleToAffine(a.Value(), Residue(a.z), Residue(zi), p);
    r := GeSetGejZinv(a, zi);
  }

  lemma FlagIs(a: GejCell)
    ensures a.Value().infinity == a.infinity && a.Value().z == Residue(a.z)
  {
  }

  lemma OneUsable(a: seq<GejCell>, i: nat)
    requires AllUsable(a) && i < |a| && !a[i].infinity
    ensures a[i].Small()
  {
  }

  /** The next finite point is the next in the list of z coordinates. */
  lemma FiniteStep(a: seq<Gej>, i: nat)
    requires i < |a|
    ensures var count := |FiniteZ(a[..i])|;
      if a[i].infinity then |FiniteZ(a[..i + 1])| == count
      else |FiniteZ(a[..i + 1])| == count + 1 && count < |FiniteZ(a)| && FiniteZ(a)[count] == a[i].z
  {
    hide FiniteZ;
    FiniteNext(a, i);
    FinitePrefix(a, i + 1);
  }

  lemma NoneFinite(a: seq<Gej>)
    ensures FiniteZ(a[..0]) == []
  {
  }

  lemma InfiniteIs(a: GejCell, p: Point, r: GeLimbs)
    requires GejIs(a.Value(), p) && a.infinity
    ensures Converted(r.(infinity := true), p)
  {
  }

  lemma LinkItself(a: Gej, p: Point)
    requires GejIs(a, p) && !a.infinity
    ensures ChainLink(a, a.z, p)
  {
    assert a.(z := a.z) == a;
  }
}
