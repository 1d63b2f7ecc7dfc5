/** The group operations on limbs: whatever is multiplied has magnitude 8 at most, whatever is negated
    or added keeps within its words, and the residues of the results are those that the formulas of the
    group compute. The magnitudes passed along are the ones noted in group_impl.h. */
module GroupLimbs {
  import opened PrimeField
  import opened FieldNormalize
  import opened FieldElement
  import J = Jacobian
  import U = UnifiedAddition
  import V = FullAddition

  datatype GeLimbs = GeLimbs(x: Limbs, y: Limbs, infinity: bool) {
    function Value(): J.Ge {
      J.Ge(Residue(x), Residue(y), infinity)
    }

    /** Coordinates that may be multiplied. */
    predicate Small() {
      Magnitude(x, 8) && Magnitude(y, 8)
    }
  }

  /** The contents of a `gej`, as the tables hold it. */
  datatype GejCell = GejCell(x: Limbs, y: Limbs, z: Limbs, infinity: bool) {
    function Value(): J.Gej {
      J.Gej(Residue(x), Residue(y), Residue(z), infinity)
    }

    predicate Small() {
      Magnitude(x, 8) && Magnitude(y, 8) && Magnitude(z, 8)
    }

    predicate Usable() {
      !infinity ==> Small()
    }
  }

  /** The doubling of a finite point reads nothing of the old output. */
  lemma DoubleIgnoresFlag(r: J.Gej, a: J.Gej)
    requires !a.infinity
    ensures J.DoubleVar(r.(infinity := false), a) == J.DoubleVar(r, a)
    ensures J.DoubleVar(r.(infinity := false), a.(infinity := false)) == J.DoubleVar(r, a)
  {
    hide Mul, Sqr, Add, Neg, MulInt;
  }

  lemma AddTailFinite(z: Fe, u1: Fe, s1: Fe, h: Fe, i: Fe)
    ensures !J.AddTail(z, u1, s1, h, i).infinity
  {
    hide Mul, Sqr, Add, Neg, MulInt;
  }

  class GejLimbs {
    var x: Limbs
    var y: Limbs
    var z: Limbs
    var infinity: bool

    function Value(): J.Gej
      reads this
    {
      J.Gej(Residue(x), Residue(y), Residue(z), infinity)
    }

    predicate Small()
      reads this
    {
      Magnitude(x, 8) && Magnitude(y, 8) && Magnitude(z, 8)
    }

    /** The coordinates of an infinite point are never read by the variable-time operations. */
    predicate Usable()
      reads this
    {
      !infinity ==> Small()
    }

    function Cell(): GejCell
      reads this
    {
      GejCell(x, y, z, infinity)
    }

    constructor (a: GejCell)
      ensures Cell() == a && Value() == a.Value()
    {
      x, y, z, infinity := a.x, a.y, a.z, a.infinity;
    }

    /** The assignment of structs. */
    method Set(a: GejCell)
      modifies this
      ensures Cell() == a && Value() == a.Value()
    {
      x, y, z, infinity := a.x, a.y, a.z, a.infinity;
    }

    /** `secp256k1_gej_set_infinity`. */
    method SetInfinity()
      modifies this
      ensures Small() && Value() == J.Gej(0, 0, 0, true)
    {
      hide Residue, Magnitude;
      infinity := true;
      x := SetInt(0);
      y := SetInt(0);
      z := SetInt(0);
      StaysSmall(1, 1, 1);
    }

    lemma SmallUsable()
      requires Small()
      ensures Usable()
    {
    }

    /** `secp256k1_gej_set_ge`. */
    method SetGe(b: GeLimbs)
      requires b.Small()
      modifies this
      ensures Small() && Value() == J.Gej(Residue(b.x), Residue(b.y), 1, b.infinity)
    {
      hide Residue, Magnitude;
      infinity := b.infinity;
      x := b.x;
      y := b.y;
      z := SetInt(1);
      MagnitudeGrows(z, 1, 8);
    }

    /** `secp256k1_gej_neg`. */
    method Negate(a: GejLimbs)
      requires a.Small()
      modifies this
      ensures Small() && Value() == J.GejNeg(old(a.Value()))
    {
      hide Residue, Magnitude, Neg;
      infinity := a.infinity;
      x := a.x;
      y := a.y;
      z := a.z;
      y := FeNormalizeWeak(y, 8);
      y := FeNegate(y, 1);
      MagnitudeGrows(y, 2, 8);
    }

    /** `secp256k1_gej_double_var`. */
    method DoubleVar(a: GejLimbs) returns (rzr: Limbs)
      requires a.Usable()
      modifies this
      ensures (Value(), Residue(rzr)) == J.DoubleVar(old(Value()), old(a.Value()))
      ensures !infinity ==> Magnitude(x, 6) && Magnitude(y, 4) && Magnitude(z, 2) && Magnitude(rzr, 2)
      ensures infinity ==> Cell() == old(Cell()).(infinity := true)
    {
      hide Residue, Magnitude, Mul, Sqr, Add, Neg, MulInt;
      infinity := a.infinity;
      if infinity {
        rzr := SetInt(1);
        return;
      }
      rzr := a.y;
      rzr := FeNormalizeWeak(rzr, 8);
      rzr := FeMulInt(rzr, 2, 1);
      z := FeMul(a.z, a.y, 8, 8);
      z := FeMulInt(z, 2, 1);
      var t1 := FeSqr(a.x, 8);
      t1 := FeMulInt(t1, 3, 1);
      var t2 := FeSqr(t1, 3);
      var t3 := FeSqr(a.y, 8);
      t3 := FeMulInt(t3, 2, 1);
      var t4 := FeSqr(t3, 2);
      t4 := FeMulInt(t4, 2, 1);
      t3 := FeMul(t3, a.x, 2, 8);
      x := t3;
      x := FeMulInt(x, 4, 1);
      x := FeNegate(x, 4);
      x := FeAdd(x, t2, 5, 1);
      t2 := FeNegate(t2, 1);
      t3 := FeMulInt(t3, 6, 1);
      t3 := FeAdd(t3, t2, 6, 2);
      y := FeMul(t1, t3, 3, 8);
      t2 := FeNegate(t4, 2);
      y := FeAdd(y, t2, 1, 3);
    }

    /** The start of both variable-time additions: the second point over the z of the first, and the
        differences of the coordinates. */
    static method AddHead(ax: Limbs, ay: Limbs, az: Limbs, b: GeLimbs)
        returns (u1: Limbs, s1: Limbs, h: Limbs, i: Limbs)
      requires Magnitude(ax, 8) && Magnitude(ay, 8) && Magnitude(az, 8) && b.Small()
      ensures Residue(u1) == Residue(ax) && Magnitude(u1, 1)
      ensures Residue(s1) == Residue(ay) && Magnitude(s1, 1)
      ensures Residue(h) == Add(Neg(Residue(ax)), Mul(Residue(b.x), Sqr(Residue(az)))) && Magnitude(h, 3)
      ensures Residue(i) == Add(Neg(Residue(ay)), Mul(Mul(Residue(b.y), Sqr(Residue(az))), Residue(az)))
        && Magnitude(i, 3)
    {
      hide Residue, Magnitude, Mul, Sqr, Add, Neg;
      var z12 := FeSqr(az, 8);
      u1 := FeNormalizeWeak(ax, 8);
      var u2 := FeMul(b.x, z12, 8, 1);
      s1 := FeNormalizeWeak(ay, 8);
      var s2 := FeMul(b.y, z12, 8, 1);
      s2 := FeMul(s2, az, 1, 8);
      h := FeNegate(u1, 1);
      h := FeAdd(h, u2, 2, 1);
      i := FeNegate(s1, 1);
      i := FeAdd(i, s2, 2, 1);
    }

    /** The start of the unified addition: numerator and denominator of the slope. */
    static method UnifiedHead(ax: Limbs, ay: Limbs, az: Limbs, b: GeLimbs)
      returns (t: Limbs, m: Limbs, rrAlt: Limbs, mAlt: Limbs, degenerate: bool)
      requires Magnitude(ax, 8) && Magnitude(ay, 8) && Magnitude(az, 8) && b.Small()
      ensures var u2 := Mul(Residue(b.x), Sqr(Residue(az)));
        && Residue(t) == Add(Residue(ax), u2)
        && Residue(m) == Add(Residue(ay), Mul(Mul(Residue(b.y), Sqr(Residue(az))), Residue(az)))
        && var rr := U.Numerator(Residue(ax), u2, Residue(t));
           && degenerate == (Residue(m) == 0 && rr == 0)
           && Residue(rrAlt) == (if degenerate then MulInt(Residue(ay), 2) else rr)
           && Residue(mAlt) == (if degenerate then Add(Neg(u2), Residue(ax)) else Residue(m))
      ensures Magnitude(t, 2) && Magnitude(m, 2) && Magnitude(rrAlt, 2) && Magnitude(mAlt, 3)
    {
      hide Residue, Magnitude, Mul, Sqr, Add, Neg, MulInt;
      var zz := FeSqr(az, 8);
      var u1 := FeNormalizeWeak(ax, 8);
      var u2 := FeMul(b.x, zz, 8, 1);
      var s1 := FeNormalizeWeak(ay, 8);
      var s2 := FeMul(b.y, zz, 8, 1);
      s2 := FeMul(s2, az, 1, 8);
      t := FeAdd(u1, u2, 1, 1);
      m := FeAdd(s1, s2, 1, 1);
      var rr := FeSqr(t, 2);
      mAlt := FeNegate(u2, 1);
      var tt := FeMul(u1, mAlt, 1, 2);
      rr := FeAdd(rr, tt, 1, 1);
      var mZero := FeNormalizesToZero(m, 2);
      var rrZero := FeNormalizesToZero(rr, 2);
      degenerate := mZero && rrZero;
      rrAlt := s1;
      rrAlt := FeMulInt(rrAlt, 2, 1);
      mAlt := FeAdd(mAlt, u1, 2, 1);
      rrAlt := FeCmov(rrAlt, rr, !degenerate, 2, 2);
      mAlt := FeCmov(mAlt, m, !degenerate, 3, 2);
    }

    /** The end of both variable-time additions, where z is still that of the input. */
    method AddTail(az: Limbs, u1: Limbs, s1: Limbs, h: Limbs, i: Limbs)
      requires Magnitude(az, 8) && Magnitude(u1, 1) && Magnitude(s1, 1) && Magnitude(h, 3) && Magnitude(i, 3)
      modifies this`x, this`y, this`z
      ensures Value() == J.AddTail(Residue(az), Residue(u1), Residue(s1), Residue(h), Residue(i)).(infinity := infinity)
      ensures Magnitude(x, 5) && Magnitude(y, 3) && Magnitude(z, 1)
    {
      hide Residue, Magnitude, Mul, Sqr, Add, Neg, MulInt;
      var i2 := FeSqr(i, 3);
      var h2 := FeSqr(h, 3);
      var h3 := FeMul(h, h2, 3, 1);
      z := FeMul(az, h, 8, 3);
      var t := FeMul(u1, h2, 1, 1);
      x := t;
      x := FeMulInt(x, 2, 1);
      x := FeAdd(x, h3, 2, 1);
      x := FeNegate(x, 3);
      x := FeAdd(x, i2, 4, 1);
      y := FeNegate(x, 5);
      y := FeAdd(y, t, 6, 1);
      y := FeMul(y, i, 7, 3);
      h3 := FeMul(h3, s1, 1, 1);
      h3 := FeNegate(h3, 1);
      y := FeAdd(y, h3, 1, 2);
    }

    lemma StaysSmall(l: nat, m: nat, n: nat)
      requires Magnitude(x, l) && Magnitude(y, m) && Magnitude(z, n) && l <= 8 && m <= 8 && n <= 8
      ensures Small()
    {
      hide Magnitude;
      MagnitudeGrows(x, l, 8);
      MagnitudeGrows(y, m, 8);
      MagnitudeGrows(z, n, 8);
    }

    /** `secp256k1_gej_add_ge_var`. */
    method AddGeVar(a: GejLimbs, b: GeLimbs) returns (rzr: Limbs)
      requires a.Usable() && b.Small()
      modifies this
      ensures (Value(), Residue(rzr)) == J.AddGeVar(old(Value()), old(a.Value()), b.Value())
      ensures Usable() && (!infinity ==> Magnitude(rzr, 3))
    {
      hide Residue, Magnitude, Mul, Sqr, Add, Neg, MulInt, J.AddTail, J.DoubleVar;
      if a.infinity {
        rzr := SetInt(1);
        MagnitudeGrows(rzr, 1, 3);
        SetGe(b);
        return;
      }
      if b.infinity {
        rzr := SetInt(1);
        MagnitudeGrows(rzr, 1, 3);
        x, y, z, infinity := a.x, a.y, a.z, a.infinity;
        return;
      }
      ghost var was := Value();
      infinity := false;
      var u1, s1, h, i := AddHead(a.x, a.y, a.z, b);
      var hZero := FeNormalizesToZeroVar(h, 3);
      if hZero {
        var iZero := FeNormalizesToZeroVar(i, 3);
        if iZero {
          DoubleIgnoresFlag(was, a.Value());
          rzr := DoubleVar(a);
          if !infinity {
            StaysSmall(6, 4, 2);
            MagnitudeGrows(rzr, 2, 3);
          }
        } else {
          rzr := SetInt(0);
          infinity := true;
        }
        return;
      }
      rzr := h;
      AddTailFinite(Residue(a.z), Residue(u1), Residue(s1), Residue(h), Residue(i));
      AddTail(a.z, u1, s1, h, i);
      StaysSmall(5, 3, 1);
    }

    /** The start of the addition of two Jacobian points: both over the product of their z coordinates. */
    static method AddVarHead(a: GejLimbs, b: GejLimbs) returns (u1: Limbs, s1: Limbs, h: Limbs, i: Limbs)
      requires a.Small() && b.Small()
      ensures Residue(u1) == Mul(Residue(a.x), Sqr(Residue(b.z))) && Magnitude(u1, 1)
      ensures Residue(s1) == Mul(Mul(Residue(a.y), Sqr(Residue(b.z))), Residue(b.z)) && Magnitude(s1, 1)
      ensures Residue(h) == Add(Neg(Residue(u1)), Mul(Residue(b.x), Sqr(Residue(a.z)))) && Magnitude(h, 3)
      ensures Residue(i) == Add(Neg(Residue(s1)), Mul(Mul(Residue(b.y), Sqr(Residue(a.z))), Residue(a.z)))
      ensures Magnitude(i, 3)
    {
      hide Residue, Magnitude, Mul, Sqr, Add, Neg;
      var z22 := FeSqr(b.z, 8);
      var z12 := FeSqr(a.z, 8);
      u1 := FeMul(a.x, z22, 8, 1);
      var u2 := FeMul(b.x, z12, 8, 1);
      s1 := FeMul(a.y, z22, 8, 1);
      s1 := FeMul(s1, b.z, 1, 8);
      var s2 := FeMul(b.y, z12, 8, 1);
      s2 := FeMul(s2, a.z, 1, 8);
      h := FeNegate(u1, 1);
      h := FeAdd(h, u2, 2, 1);
      i := FeNegate(s1, 1);
      i := FeAdd(i, s2, 2, 1);
    }

    /** `secp256k1_gej_add_var`. */
    method AddVar(a: GejLimbs, b: GejLimbs) returns (rzr: Limbs)
      requires a.Usable() && b.Usable()
      modifies this
      ensures (Value(), Residue(rzr)) == V.AddVar(old(Value()), old(a.Value()), old(b.Value()))
      ensures Usable()
    {
      hide Residue, Magnitude, Mul, Sqr, Add, Neg, MulInt, J.AddTail, J.DoubleVar;
      if a.infinity {
        rzr := SetInt(1);
        x, y, z, infinity := b.x, b.y, b.z, b.infinity;
        return;
      }
      if b.infinity {
        rzr := SetInt(1);
        x, y, z, infinity := a.x, a.y, a.z, a.infinity;
        return;
      }
      ghost var was := Value();
      infinity := false;
      var u1, s1, h, i := AddVarHead(a, b);
      var hZero := FeNormalizesToZeroVar(h, 3);
      if hZero {
        var iZero := FeNormalizesToZeroVar(i, 3);
        if iZero {
          DoubleIgnoresFlag(was, a.Value());
          rzr := DoubleVar(a);
          if !infinity { StaysSmall(6, 4, 2); }
        } else {
          rzr := SetInt(0);
          infinity := true;
        }
        return;
      }
      rzr := FeMul(h, b.z, 3, 8);
      var az := a.z;
      AddTailFinite(Residue(az), Residue(u1), Residue(s1), Residue(h), Residue(i));
      AddTail(az, u1, s1, h, i);
      z := FeMul(az, rzr, 8, 1);
      StaysSmall(5, 3, 1);
    }

    /** `secp256k1_gej_add_zinv_var`. */
    method AddZinvVar(a: GejLimbs, b: GeLimbs, bzinv: Limbs)
      requires a.Usable() && b.Small() && Magnitude(bzinv, 8)
      modifies this
      ensures Value() == J.AddZinvVar(old(Value()), old(a.Value()), b.Value(), Residue(bzinv))
      ensures Usable()
    {
      hide Residue, Magnitude, Mul, Sqr, Add, Neg, MulInt, J.AddTail, J.DoubleVar;
      if b.infinity {
        x, y, z, infinity := a.x, a.y, a.z, a.infinity;
        return;
      }
      if a.infinity {
        infinity := b.infinity;
        var bzinv2 := FeSqr(bzinv, 8);
        var bzinv3 := FeMul(bzinv2, bzinv, 1, 8);
        x := FeMul(b.x, bzinv2, 8, 1);
        y := FeMul(b.y, bzinv3, 8, 1);
        z := SetInt(1);
        StaysSmall(1, 1, 1);
        return;
      }
      ghost var was := Value();
      infinity := false;
      var az := FeMul(a.z, bzinv, 8, 8);
      MagnitudeGrows(az, 1, 8);
      var u1, s1, h, i := AddHead(a.x, a.y, az, b);
      var hZero := FeNormalizesToZeroVar(h, 3);
      if hZero {
        var iZero := FeNormalizesToZeroVar(i, 3);
        if iZero {
          DoubleIgnoresFlag(was, a.Value());
          var _ := DoubleVar(a);
          if !infinity { StaysSmall(6, 4, 2); }
        } else {
          infinity := true;
        }
        return;
      }
      AddTailFinite(Residue(a.z), Residue(u1), Residue(s1), Residue(h), Residue(i));
      AddTail(a.z, u1, s1, h, i);
      StaysSmall(5, 3, 1);
    }

    /** `secp256k1_gej_add_ge`, which reads the coordinates of an infinite point too. */
    method AddGe(a: GejLimbs, b: GeLimbs)
      requires !b.infinity && a.Small() && b.Small()
      modifies this
      ensures Value() == U.AddGe(old(a.Value()), b.Value())
      ensures Small()
    {
      hide Residue, Magnitude, Mul, Sqr, Add, Neg, MulInt;
      var t, m, rrAlt, mAlt, degenerate := UnifiedHead(a.x, a.y, a.z, b);
      var zZero := UnifiedTail(a.z, t, m, rrAlt, mAlt, degenerate);
      var inf := zZero && !a.infinity;
      x := FeCmov(x, b.x, a.infinity, 4, 8);
      y := FeCmov(y, b.y, a.infinity, 4, 8);
      var one := SetInt(1);
      z := FeCmov(z, one, a.infinity, 2, 1);
      infinity := inf;
      StaysSmall(8, 8, 2);
    }

    /** The computation after numerator and denominator of the slope are chosen. */
    method UnifiedTail(az: Limbs, t0: Limbs, m: Limbs, rrAlt: Limbs, mAlt: Limbs, degenerate: bool)
        returns (zZero: bool)
      requires Magnitude(az, 8) && Magnitude(t0, 2) && Magnitude(m, 2) && Magnitude(rrAlt, 2) && Magnitude(mAlt, 3)
      modifies this`x, this`y, this`z
      ensures Value().(infinity := zZero)
           == U.UnifiedTail(Residue(az), Residue(t0), Residue(m), Residue(rrAlt), Residue(mAlt), degenerate)
      ensures Magnitude(x, 4) && Magnitude(y, 4) && Magnitude(z, 2)
    {
      hide Residue, Magnitude, Mul, Sqr, Add, Neg, MulInt;
      var n := FeSqr(mAlt, 3);
      var q := FeMul(n, t0, 1, 2);
      n := FeSqr(n, 1);
      n := FeCmov(n, m, degenerate, 1, 2);
      var t := FeSqr(rrAlt, 2);
      z := FeMul(az, mAlt, 8, 3);
      zZero := FeNormalizesToZero(z, 1);
      z := FeMulInt(z, 2, 1);
      q := FeNegate(q, 1);
      t := FeAdd(t, q, 1, 2);
      t := FeNormalizeWeak(t, 3);
      x := t;
      t := FeMulInt(t, 2, 1);
      t := FeAdd(t, q, 2, 2);
      t := FeMul(t, rrAlt, 4, 2);
      t := FeAdd(t, n, 1, 2);
      y := FeNegate(t, 3);
      y := FeNormalizeWeak(y, 4);
      x := FeMulInt(x, 4, 1);
      y := FeMulInt(y, 4, 1);
    }

    /** `secp256k1_gej_rescale`. */
    method Rescale(s: Limbs)
      requires Small() && Magnitude(s, 8)
      modifies this
      ensures Value() == J.Rescale(old(Value()), Residue(s)) && Small()
    {
      hide Residue, Magnitude, Mul, Sqr;
      var zz := FeSqr(s, 8);
      x := FeMul(x, zz, 8, 1);
      y := FeMul(y, zz, 8, 1);
      y := FeMul(y, s, 1, 8);
      z := FeMul(z, s, 8, 8);
      StaysSmall(1, 1, 1);
    }

    /** `secp256k1_gej_eq_x_var`. */
    method EqXVar(v: Limbs) returns (eq: bool)
      requires !infinity && Small() && Magnitude(v, 8)
      ensures eq <==> J.GejEqXVar(Residue(v), Value())
    {
      hide Residue, Magnitude, Mul, Sqr;
      var r := FeSqr(z, 8);
      r := FeMul(r, v, 1, 8);
      var r2 := FeNormalizeWeak(x, 8);
      eq := FeEqualVar(r, r2, 1);
    }
  }
}
