/** Lazy normalization of field elements: the weak and the full normalization and the tests for zero
    that avoid it, on every representation that `secp256k1_fe_verify` admits. At magnitude 2048, and only
    there, the first addition can wrap; exactly then the residue is lost. */
module FieldNormalize {
  import opened PrimeField
  import opened FieldLimbs
  import opened Powers
  import opened Words

  /** The bounds that `secp256k1_fe_verify` attaches to a magnitude. */
  predicate Magnitude(s: seq<int>, m: nat) {
    && |s| == 5
    && 0 <= s[0] <= 0xF_FFFF_FFFF_FFFF * 2 * m
    && 0 <= s[1] <= 0xF_FFFF_FFFF_FFFF * 2 * m
    && 0 <= s[2] <= 0xF_FFFF_FFFF_FFFF * 2 * m
    && 0 <= s[3] <= 0xF_FFFF_FFFF_FFFF * 2 * m
    && 0 <= s[4] <= 0xFFFF_FFFF_FFFF * 2 * m
  }

  /** The limbs of a residue. */
  predicate Normalized(s: seq<int>) {
    && |s| == 5
    && 0 <= s[0] <= 0xF_FFFF_FFFF_FFFF && 0 <= s[1] <= 0xF_FFFF_FFFF_FFFF && 0 <= s[2] <= 0xF_FFFF_FFFF_FFFF
    && 0 <= s[3] <= 0xF_FFFF_FFFF_FFFF && 0 <= s[4] <= 0xFFFF_FFFF_FFFF
    && Value(s) < P
  }

  lemma NoWrap(x: int)
    requires 0 <= x < 0x1_0000_0000_0000_0000
    ensures Wrap64(x) == x
  {
  }

  /** A normalized representation is determined by its value. */
  lemma NormalizedIsUnique(s: seq<int>, t: seq<int>)
    requires Normalized(s) && Normalized(t) && Value(s) == Value(t)
    ensures s == t
  {
    assert s[4] == t[4];
    assert s[3] == t[3];
    assert s[2] == t[2];
    assert s[1] == t[1];
    assert s == t;
  }

  // ---------------------------------------------------------------- the first pass

  /** Propagate the carries once. */
  function Ripple(a0: int, a1: int, a2: int, a3: int, a4: int): (r: seq<int>)
    ensures |r| == 5
  {
    var t1 := Wrap64(a1 + High52(a0));
    var t2 := Wrap64(a2 + High52(t1));
    var t3 := Wrap64(a3 + High52(t2));
    [Low52(a0), Low52(t1), Low52(t2), Low52(t3), a4 + High52(t3)]
  }

  /** The code all five functions start with: fold the top limb and propagate the carries. */
  function FirstPass(s: seq<int>): (r: seq<int>)
    requires |s| == 5
    ensures |r| == 5
  {
    Ripple(Wrap64(s[0] + High48(s[4]) * 0x1000003D1), s[1], s[2], s[3], Low48(s[4]))
  }

  /** After the first pass the value is less than 2p. */
  predicate Settled(s: seq<int>) {
    && |s| == 5
    && 0 <= s[0] <= 0xF_FFFF_FFFF_FFFF && 0 <= s[1] <= 0xF_FFFF_FFFF_FFFF && 0 <= s[2] <= 0xF_FFFF_FFFF_FFFF
    && 0 <= s[3] <= 0xF_FFFF_FFFF_FFFF && 0 <= s[4] <= 0x1_0000_0000_0FFF
  }

  /** The first addition stays within its word. */
  predicate Fits(s: seq<int>)
    requires |s| == 5
  {
    s[0] + High48(s[4]) * 0x1000003D1 < 0x1_0000_0000_0000_0000
  }

  /** What the first pass adds up: the value, less what the first addition loses. */
  function Kept(s: seq<int>): int
    requires |s| == 5
  {
    if Fits(s) then Value(s) else Value(s) - 0x1_0000_0000_0000_0000
  }

  lemma FirstPassSettles(s: seq<int>)
    requires Magnitude(s, 2048)
    ensures Settled(FirstPass(s)) && Eq(Value(FirstPass(s)), Kept(s))
  {
    hide Low48, High48, Low52, High52, Wrap64, Eq, Res;
    MagnitudeBound(s);
    var x := High48(s[4]);
    Split48(s[4]);
    FirstSum(s[0], x);
    var t0 := Wrap64(s[0] + x * 0x1000003D1);
    Split52(t0);
    var t1 := s[1] + High52(t0);
    NoWrap(t1);
    Split52(t1);
    var t2 := s[2] + High52(t1);
    NoWrap(t2);
    Split52(t2);
    var t3 := s[3] + High52(t2);
    NoWrap(t3);
    Split52(t3);
    EqByMultiple(Value(FirstPass(s)), Kept(s), -x);
  }

  lemma FirstSum(a: nat, x: nat)
    requires a < 0x1_0000_0000_0000_0000 && x < 0x1000
    ensures var t := a + x * 0x1000003D1;
      Wrap64(t) == if t < 0x1_0000_0000_0000_0000 then t else t - 0x1_0000_0000_0000_0000
  {
  }

  lemma MagnitudeBound(s: seq<int>)
    requires Magnitude(s, 2048)
    ensures |s| == 5
    ensures 0 <= s[0] <= 0xFFFF_FFFF_FFFF_F000 && 0 <= s[1] <= 0xFFFF_FFFF_FFFF_F000
    ensures 0 <= s[2] <= 0xFFFF_FFFF_FFFF_F000 && 0 <= s[3] <= 0xFFFF_FFFF_FFFF_F000
    ensures 0 <= s[4] <= 0xFFF_FFFF_FFFF_F000
  {
  }

  /** Below magnitude 2048 the first addition always fits. */
  lemma FitsBelow(s: seq<int>, m: nat)
    requires Magnitude(s, m) && m <= 2047
    ensures Magnitude(s, 2048) && Fits(s)
  {
    hide High48;
    Split48(s[4]);
  }

  /** 2^64 is not a multiple of p, so a wrapped value stands for another residue. */
  lemma LossIsSeen(v: int)
    ensures !Eq(v - 0x1_0000_0000_0000_0000, v)
  {
    if Eq(v - 0x1_0000_0000_0000_0000, v) {
      var k := EqMultiple(v - 0x1_0000_0000_0000_0000, v);
    }
  }

  /** The first pass keeps the residue exactly when the first addition fits. */
  lemma FirstPassExactly(s: seq<int>)
    requires Magnitude(s, 2048)
    ensures Eq(Value(FirstPass(s)), Value(s)) <==> Fits(s)
  {
    hide FirstPass, Value, Fits, Res, Settled;
    FirstPassSettles(s);
    LossIsSeen(Value(s));
  }

  /** The zero tests, which look at what is kept, err exactly when the first addition does not fit and
      either the value or what is kept of it is a multiple of p. */
  lemma ZeroTestExactly(s: seq<int>)
    requires Magnitude(s, 2048)
    ensures (Eq(Kept(s), 0) <==> Eq(Value(s), 0))
       <==> Fits(s) || (!Eq(Value(s), 0) && !Eq(Value(s) - 0x1_0000_0000_0000_0000, 0))
  {
    hide Value, Fits, Res;
    LossIsSeen(Value(s));
  }

  /** A representation of magnitude 2048 that does not fit. */
  lemma MagnitudeLimit()
    ensures var s := [0xF_FFFF_FFFF_FFFF * 4096, 0, 0, 0, 0xFFFF_FFFF_FFFF * 4096]; Magnitude(s, 2048) && !Fits(s)
  {
    assert High48(0xFFFF_FFFF_FFFF * 4096) == 4095;
  }

  // ---------------------------------------------------------------- deciding from the limbs

  /** The test of the full normalization: the value is at least p. */
  predicate AtLeastP(s: seq<int>)
    requires |s| == 5
  {
    High48(s[4]) == 1 ||
    (s[4] == 0xFFFF_FFFF_FFFF && s[1] == 0xF_FFFF_FFFF_FFFF && s[2] == 0xF_FFFF_FFFF_FFFF && s[3] == 0xF_FFFF_FFFF_FFFF
     && s[0] >= 0xF_FFFE_FFFF_FC2F)
  }

  lemma AtLeastPMeans(s: seq<int>)
    requires Settled(s)
    ensures |s| == 5 && (AtLeastP(s) <==> Value(s) >= P)
    ensures |s| == 5 && 0 <= Value(s) < 2 * P
    ensures 0 <= High48(s[4]) <= 1
  {
  }

  /** `z0`, which tracks a possible raw value of 0, and `z1`, which tracks one of p. */
  function ZeroMask(t0: nat, t1: nat, t2: nat, t3: nat, t4: nat): nat {
    BitOr(BitOr(BitOr(BitOr(t0, t1), t2), t3), t4)
  }

  function PMask(t0: nat, t1: nat, t2: nat, t3: nat, t4: nat): nat {
    BitAnd(BitAnd(BitAnd(BitAnd(BitXor(t0, 0x1000003D0), t1), t2), t3), BitXor(t4, 0xF_0000_0000_0000))
  }

  /** The masks of the zero tests: `z0` is zero exactly for the limbs of 0, and `z1` is all ones exactly for the
      limbs of p. */
  lemma ZeroMasks(t0: nat, t1: nat, t2: nat, t3: nat, t4: nat)
    requires t0 <= 0xF_FFFF_FFFF_FFFF && t1 <= 0xF_FFFF_FFFF_FFFF && t2 <= 0xF_FFFF_FFFF_FFFF
    requires t3 <= 0xF_FFFF_FFFF_FFFF && t4 <= 0x1_FFFF_FFFF_FFFF
    ensures ZeroMask(t0, t1, t2, t3, t4) == 0 <==> [t0, t1, t2, t3, t4] == [0, 0, 0, 0, 0]
    ensures PMask(t0, t1, t2, t3, t4) == 0xF_FFFF_FFFF_FFFF <==> [t0, t1, t2, t3, t4] == P_LIMBS
  {
    hide BitOr, BitAnd, BitXor, Pow2;
    Pow2FiftyTwo();
    OrIsZero(t0, t1);
    OrIsZero(BitOr(t0, t1), t2);
    OrIsZero(BitOr(BitOr(t0, t1), t2), t3);
    OrIsZero(BitOr(BitOr(BitOr(t0, t1), t2), t3), t4);
    var x0, x4 := BitXor(t0, 0x1000003D0), BitXor(t4, 0xF_0000_0000_0000);
    XorIsOnes(t0, 0x1000003D0, 52);
    XorIsOnes(t4, 0xF_0000_0000_0000, 52);
    AndIsOnes(x0, t1, 52);
    AndIsOnes(BitAnd(x0, t1), t2, 52);
    AndIsOnes(BitAnd(BitAnd(x0, t1), t2), t3, 52);
    AndIsOnes(BitAnd(BitAnd(BitAnd(x0, t1), t2), t3), x4, 52);
  }

  const P_LIMBS: seq<int> :=
    [0xF_FFFE_FFFF_FC2F, 0xF_FFFF_FFFF_FFFF, 0xF_FFFF_FFFF_FFFF, 0xF_FFFF_FFFF_FFFF, 0xFFFF_FFFF_FFFF]

  /** The limbs of 0, or those of p. */
  predicate RawZero(s: seq<int>) {
    s == [0, 0, 0, 0, 0] || s == P_LIMBS
  }

  lemma SameDigits(s: seq<int>, t: seq<int>)
    requires Settled(s) && Settled(t) && Value(s) == Value(t)
    ensures s == t
  {
    assert s[4] == t[4];
    assert s[3] == t[3];
    assert s[2] == t[2];
    assert s[1] == t[1];
    assert s == t;
  }

  lemma ZeroLimbs(s: seq<int>)
    requires s == [0, 0, 0, 0, 0]
    ensures Settled(s) && Value(s) == 0
  {
  }

  lemma PLimbs(s: seq<int>)
    requires s == P_LIMBS
    ensures Settled(s) && Value(s) == P
  {
  }

  lemma RawZeroMeans(s: seq<int>)
    requires Settled(s)
    ensures RawZero(s) <==> Eq(Value(s), 0)
  {
    hide Value, Settled, Eq, AtLeastP, High48;
    AtLeastPMeans(s);
    var z, p := [0, 0, 0, 0, 0], P_LIMBS;
    ZeroLimbs(z);
    PLimbs(p);
    ZeroBelowTwoP(Value(s));
    if Value(s) == 0 {
      SameDigits(s, z);
    } else if Value(s) == P {
      SameDigits(s, p);
    }
  }

  lemma EqTransitive(a: int, b: int, c: int)
    requires Eq(a, b)
    ensures Eq(a, c) <==> Eq(b, c)
  {
  }

  lemma ZeroBelowTwoP(v: int)
    requires 0 <= v < 2 * P
    ensures Eq(v, 0) <==> v == 0 || v == P
  {
    ResPeriod(v - P);
  }

  // ---------------------------------------------------------------- the second pass

  /** The final reduction, for x = 1 when the value is at least p and x = 0 otherwise. */
  function SecondPass(s: seq<int>, x: int): (r: seq<int>)
    requires |s| == 5
    ensures |r| == 5
  {
    var t0 := s[0] + x * 0x1000003D1;
    var t1 := s[1] + High52(t0);
    var t2 := s[2] + High52(t1);
    var t3 := s[3] + High52(t2);
    [Low52(t0), Low52(t1), Low52(t2), Low52(t3), s[4] + High52(t3)]
  }

  lemma SecondPassReduces(s: seq<int>, x: int)
    requires Settled(s) && x == if AtLeastP(s) then 1 else 0
    ensures var r := SecondPass(s, x);
      && High48(r[4]) == x
      && var t := r[4 := Low48(r[4])]; Normalized(t) && Value(t) == Value(s) - x * P
  {
    AtLeastPMeans(s);
    hide AtLeastP, Low52, High52, Low48, High48, Value;
    SecondPassAdds(s, x);
    var r := SecondPass(s, x);
    SecondPassTop(s, r, x);
  }

  lemma SecondPassAdds(s: seq<int>, x: int)
    requires Settled(s) && 0 <= x <= 1
    ensures var r := SecondPass(s, x);
      && 0 <= r[0] <= 0xF_FFFF_FFFF_FFFF && 0 <= r[1] <= 0xF_FFFF_FFFF_FFFF && 0 <= r[2] <= 0xF_FFFF_FFFF_FFFF
      && 0 <= r[3] <= 0xF_FFFF_FFFF_FFFF && 0 <= r[4]
      && Value(r) == Value(s) + x * 0x1000003D1
  {
    hide Low52, High52;
    var t0 := s[0] + x * 0x1000003D1;
    Split52(t0);
    var t1 := s[1] + High52(t0);
    Split52(t1);
    var t2 := s[2] + High52(t1);
    Split52(t2);
    Split52(s[3] + High52(t2));
  }

  lemma SecondPassTop(s: seq<int>, r: seq<int>, x: int)
    requires |s| == 5 && |r| == 5 && 0 <= x <= 1
    requires 0 <= Value(s) < 2 * P && (x == 1 <==> Value(s) >= P)
    requires 0 <= r[0] <= 0xF_FFFF_FFFF_FFFF && 0 <= r[1] <= 0xF_FFFF_FFFF_FFFF && 0 <= r[2] <= 0xF_FFFF_FFFF_FFFF
    requires 0 <= r[3] <= 0xF_FFFF_FFFF_FFFF && 0 <= r[4] && Value(r) == Value(s) + x * 0x1000003D1
    ensures High48(r[4]) == x
    ensures var t := r[4 := Low48(r[4])]; Normalized(t) && Value(t) == Value(s) - x * P
  {
    hide Low48, High48;
    Split48(r[4]);
  }

  // ---------------------------------------------------------------- the functions

  /** The carries on local variables. */
  method RippleLimbs(a0: u64, a1: u64, a2: u64, a3: u64, a4: u64) returns (t0: u64, t1: u64, t2: u64, t3: u64, t4: u64)
    requires a4 < 0x1_0000_0000_0000
    ensures [t0, t1, t2, t3, t4] == Ripple(a0, a1, a2, a3, a4)
  {
    hide Low48, High48, Low52, High52, Wrap64;
    t0, t1, t2, t3, t4 := a0, a1, a2, a3, a4;
    Split52(t0);
    t1 := Wrap64(t1 + High52(t0)); t0 := Low52(t0);
    Split52(t1);
    t2 := Wrap64(t2 + High52(t1)); t1 := Low52(t1);
    Split52(t2);
    t3 := Wrap64(t3 + High52(t2)); t2 := Low52(t2);
    Split52(t3);
    t4 := t4 + High52(t3); t3 := Low52(t3);
  }

  /** The pass itself, on local variables as in the original. */
  method Fold(s: seq<u64>) returns (t0: u64, t1: u64, t2: u64, t3: u64, t4: u64)
    requires Magnitude(s, 2048)
    ensures [t0, t1, t2, t3, t4] == FirstPass(s)
    ensures Settled([t0, t1, t2, t3, t4])
  {
    hide Settled, Low48, High48, Low52, High52, Wrap64, Magnitude, Value, Ripple, Eq;
    FirstPassSettles(s);
    MagnitudeBound(s);
    t0, t1, t2, t3, t4 := s[0], s[1], s[2], s[3], s[4];
    Split48(t4);
    var x: u64 := High48(t4); t4 := Low48(t4);
    t0 := Wrap64(t0 + x * 0x1000003D1);
    t0, t1, t2, t3, t4 := RippleLimbs(t0, t1, t2, t3, t4);
  }

  /** `secp256k1_fe_normalize_weak`: magnitude one, and the same residue exactly when nothing wraps. */
  method NormalizeWeak(r: array<u64>)
    requires r.Length == 5 && Magnitude(r[..], 2048)
    modifies r
    ensures Settled(r[..]) && Magnitude(r[..], 1) && Eq(Value(r[..]), old(Kept(r[..])))
    ensures Eq(Value(r[..]), old(Value(r[..]))) <==> old(Fits(r[..]))
  {
    FirstPassSettles(r[..]);
    FirstPassExactly(r[..]);
    hide FirstPass, Value, Eq, Kept, Fits;
    var t0, t1, t2, t3, t4 := Fold(r[..]);
    assert t4 < 0x2_0000_0000_0000;
    r[0], r[1], r[2], r[3], r[4] := t0, t1, t2, t3, t4;
    assert r[..] == [t0, t1, t2, t3, t4];
  }

  lemma KeptResidue(s: seq<int>)
    requires |s| == 5
    ensures Res(Kept(s)) == Res(Value(s)) <==> Fits(s)
  {
    hide Value, Fits, Res;
    LossIsSeen(Value(s));
  }

  lemma ReducedIs(s: seq<int>, t: seq<int>, v: int, x: int)
    requires |s| == 5 && Eq(Value(s), v) && Normalized(t) && |t| == 5 && Value(t) == Value(s) - x * P
    ensures Value(t) == Res(v)
  {
    hide Normalized, Value;
    EqByMultiple(Value(t), Value(s), -x);
    assert 0 <= Value(t) < P by {
      NormalizedRange(t);
    }
  }

  lemma SettledLength(s: seq<int>)
    requires Settled(s)
    ensures |s| == 5
  {
  }

  lemma NormalizedRange(t: seq<int>)
    requires Normalized(t)
    ensures |t| == 5 && 0 <= Value(t) < P
  {
  }

  /** The second pass on local variables. */
  method FinalAdd(s: seq<u64>, x: u64) returns (r: seq<u64>)
    requires Settled(s) && x == if AtLeastP(s) then 1 else 0
    ensures Normalized(r) && Value(r) == Value(s) - x * P
  {
    SecondPassReduces(s, x);
    var t := CarryOnce(s, x);
    hide Value, Low48, High48, Normalized, AtLeastP, SecondPass, Settled;
    assert High48(t[4]) == x;
    Split48(t[4]);
    r := t[4 := Low48(t[4])];
  }

  method CarryOnce(s: seq<u64>, x: u64) returns (r: seq<u64>)
    requires Settled(s) && x <= 1
    ensures r == SecondPass(s, x)
  {
    SettledSplits(s, x);
    assert |s| == 5;
    hide Settled, Low52, High52;
    var t0: int, t1: int, t2: int, t3: int, t4: int := s[0], s[1], s[2], s[3], s[4];
    t0 := t0 + x * 0x1000003D1;
    t1 := t1 + High52(t0); t0 := Low52(t0);
    t2 := t2 + High52(t1); t1 := Low52(t1);
    t3 := t3 + High52(t2); t2 := Low52(t2);
    t4 := t4 + High52(t3); t3 := Low52(t3);
    r := [t0, t1, t2, t3, t4];
  }

  /** The decision of both normalizations. */
  method NeedsFinalAdd(s: seq<u64>) returns (x: bool)
    requires Settled(s)
    ensures x <==> AtLeastP(s)
  {
    x := High48(s[4]) == 1 || (s[4] == 0xFFFF_FFFF_FFFF && s[1] == 0xF_FFFF_FFFF_FFFF && s[2] == 0xF_FFFF_FFFF_FFFF
           && s[3] == 0xF_FFFF_FFFF_FFFF && s[0] >= 0xF_FFFE_FFFF_FC2F);
  }

  /** The second half of `secp256k1_fe_normalize`, which always adds x times 2^256 - p. */
  method Finish(s: seq<u64>, ghost v: int) returns (t: seq<u64>)
    requires Settled(s) && Eq(Value(s), v)
    ensures |t| == 5 && Normalized(t) && Value(t) == Res(v)
  {
    hide *;
    var x := NeedsFinalAdd(s);
    t := FinalAdd(s, if x then 1 else 0);
    SettledLength(s);
    NormalizedRange(t);
    ReducedIs(s, t, v, if x then 1 else 0);
  }

  /** That of `secp256k1_fe_normalize_var`, which adds 2^256 - p only when needed. */
  method FinishVar(s: seq<u64>, ghost v: int) returns (t: seq<u64>)
    requires Settled(s) && Eq(Value(s), v)
    ensures |t| == 5 && Normalized(t) && Value(t) == Res(v)
  {
    hide *;
    SettledLength(s);
    var x := NeedsFinalAdd(s);
    if x {
      t := FinalAdd(s, 1);
    } else {
      t := s;
      SettledBelowP(s);
    }
    NormalizedRange(t);
    ReducedIs(s, t, v, if x then 1 else 0);
  }

  /** `secp256k1_fe_normalize`. */
  method Normalize(r: array<u64>)
    requires r.Length == 5 && Magnitude(r[..], 2048)
    modifies r
    ensures Normalized(r[..]) && Value(r[..]) == Res(old(Kept(r[..])))
    ensures Value(r[..]) == Res(old(Value(r[..]))) <==> old(Fits(r[..]))
  {
    FirstPassSettles(r[..]);
    hide *;
    KeptResidue(r[..]);
    var t0, t1, t2, t3, t4 := Fold(r[..]);
    var s := Finish([t0, t1, t2, t3, t4], Kept(r[..]));
    r[0], r[1], r[2], r[3], r[4] := s[0], s[1], s[2], s[3], s[4];
    assert r[..] == s;
  }

  /** `secp256k1_fe_normalize_var`. */
  method NormalizeVar(r: array<u64>)
    requires r.Length == 5 && Magnitude(r[..], 2048)
    modifies r
    ensures Normalized(r[..]) && Value(r[..]) == Res(old(Kept(r[..])))
    ensures Value(r[..]) == Res(old(Value(r[..]))) <==> old(Fits(r[..]))
  {
    FirstPassSettles(r[..]);
    hide *;
    KeptResidue(r[..]);
    var t0, t1, t2, t3, t4 := Fold(r[..]);
    var s := FinishVar([t0, t1, t2, t3, t4], Kept(r[..]));
    r[0], r[1], r[2], r[3], r[4] := s[0], s[1], s[2], s[3], s[4];
    assert r[..] == s;
  }

  /** The carries of the second pass stay within 64 bits. */
  lemma SettledSplits(s: seq<int>, x: int)
    requires Settled(s) && 0 <= x <= 1
    ensures var t0 := s[0] + x * 0x1000003D1; var t1 := s[1] + High52(t0); var t2 := s[2] + High52(t1);
      var t3 := s[3] + High52(t2);
      && 0 <= t0 < 0x1_0000_0000_0000_0000 && 0 <= t1 < 0x1_0000_0000_0000_0000
      && 0 <= t2 < 0x1_0000_0000_0000_0000 && 0 <= t3 < 0x1_0000_0000_0000_0000
      && 0 <= Low52(t0) < 0x1_0000_0000_0000_0000 && 0 <= Low52(t1) < 0x1_0000_0000_0000_0000
      && 0 <= Low52(t2) < 0x1_0000_0000_0000_0000 && 0 <= Low52(t3) < 0x1_0000_0000_0000_0000
      && 0 <= s[4] + High52(t3) < 0x1_0000_0000_0000_0000
  {
  }

  lemma SettledBelowP(s: seq<int>)
    requires Settled(s) && !AtLeastP(s)
    ensures Normalized(s)
  {
    AtLeastPMeans(s);
  }

  /** `secp256k1_fe_normalizes_to_zero`. */
  method NormalizesToZero(s: seq<u64>) returns (zero: bool)
    requires Magnitude(s, 2048)
    ensures zero <==> Eq(Kept(s), 0)
  {
    hide FirstPass, Value, Kept, Settled, Magnitude, Eq, BitOr, BitAnd, BitXor;
    FirstPassSettles(s);
    MagnitudeBound(s);
    var t0, t1, t2, t3, t4 := Fold(s);
    EqTransitive(Value(FirstPass(s)), Kept(s), 0);
    RawZeroMeans([t0, t1, t2, t3, t4]);
    SettledLimbs(t0, t1, t2, t3, t4);
    ZeroMasks(t0, t1, t2, t3, t4);
    var z0, z1 := t0, BitXor(t0, 0x1000003D0);
    z0 := BitOr(z0, t1); z1 := BitAnd(z1, t1);
    z0 := BitOr(z0, t2); z1 := BitAnd(z1, t2);
    z0 := BitOr(z0, t3); z1 := BitAnd(z1, t3);
    z0 := BitOr(z0, t4); z1 := BitAnd(z1, BitXor(t4, 0xF_0000_0000_0000));
    zero := z0 == 0 || z1 == 0xF_FFFF_FFFF_FFFF;
  }

  lemma SettledLimbs(t0: int, t1: int, t2: int, t3: int, t4: int)
    requires Settled([t0, t1, t2, t3, t4])
    ensures 0 <= t0 <= 0xF_FFFF_FFFF_FFFF && 0 <= t1 <= 0xF_FFFF_FFFF_FFFF && 0 <= t2 <= 0xF_FFFF_FFFF_FFFF
    ensures 0 <= t3 <= 0xF_FFFF_FFFF_FFFF && 0 <= t4 <= 0x1_FFFF_FFFF_FFFF
  {
  }

  /** The lowest limb decides unless it is that of 0 or of p. */
  lemma LowestDecides(t0: int, t1: int, t2: int, t3: int, t4: int)
    requires 0 <= t0 <= 0xF_FFFF_FFFF_FFFF
    ensures t0 != 0 && BitXor(t0, 0x1000003D0) != 0xF_FFFF_FFFF_FFFF ==> !RawZero([t0, t1, t2, t3, t4])
  {
    hide BitXor, Pow2;
    Pow2FiftyTwo();
    XorIsOnes(t0, 0x1000003D0, 52);
  }

  /** `secp256k1_fe_normalizes_to_zero_var`, which decides most cases from the lowest limb. */
  method NormalizesToZeroVar(s: seq<u64>) returns (zero: bool)
    requires Magnitude(s, 2048)
    ensures zero <==> Eq(Kept(s), 0)
  {
    hide Value, Kept, Settled, Wrap64, High48, Low48, High52, Low52, Eq, Magnitude, BitOr, BitAnd, BitXor, RawZero;
    MagnitudeBound(s);
    FirstPassSettles(s);
    EqTransitive(Value(FirstPass(s)), Kept(s), 0);
    RawZeroMeans(FirstPass(s));
    var x := High48(s[4]);
    var t0 := Wrap64(s[0] + x * 0x1000003D1);
    var z0 := Low52(t0);
    ghost var f := FirstPass(s);
    assert f[0] == z0 && f == [f[0], f[1], f[2], f[3], f[4]];
    SettledLimbs(f[0], f[1], f[2], f[3], f[4]);
    LowestDecides(f[0], f[1], f[2], f[3], f[4]);
    ZeroMasks(f[0], f[1], f[2], f[3], f[4]);
    RawZeroIs(f);
    var z1 := BitXor(z0, 0x1000003D0);
    if z0 != 0 && z1 != 0xF_FFFF_FFFF_FFFF {
      return false;
    }
    var t1 := Wrap64(s[1] + High52(t0));
    var t2 := Wrap64(s[2] + High52(t1)); t1 := Low52(t1);
    var t3 := Wrap64(s[3] + High52(t2)); t2 := Low52(t2);
    var t4 := Low48(s[4]) + High52(t3); t3 := Low52(t3);
    assert f[1] == t1 && f[2] == t2 && f[3] == t3 && f[4] == t4;
    z0 := BitOr(z0, t1); z1 := BitAnd(z1, t1);
    z0 := BitOr(z0, t2); z1 := BitAnd(z1, t2);
    z0 := BitOr(z0, t3); z1 := BitAnd(z1, t3);
    z0 := BitOr(z0, t4); z1 := BitAnd(z1, BitXor(t4, 0xF_0000_0000_0000));
    zero := z0 == 0 || z1 == 0xF_FFFF_FFFF_FFFF;
  }

  lemma RawZeroIs(s: seq<int>)
    ensures RawZero(s) <==> s == [0, 0, 0, 0, 0] || s == P_LIMBS
  {
  }

  /** Through the whole normalization, the limit is met by an element that loses its residue. */
  method NormalizeAtTheLimit() returns (r: array<u64>, ghost v: int)
    ensures fresh(r) && r.Length == 5 && Normalized(r[..]) && Value(r[..]) != Res(v)
    ensures v == Value([0xF_FFFF_FFFF_FFFF * 4096, 0, 0, 0, 0xFFFF_FFFF_FFFF * 4096])
  {
    hide Value, Fits, Magnitude, Normalized, Res;
    MagnitudeLimit();
    r := new u64[5][0xF_FFFF_FFFF_FFFF * 4096, 0, 0, 0, 0xFFFF_FFFF_FFFF * 4096];
    assert r[..] == [0xF_FFFF_FFFF_FFFF * 4096, 0, 0, 0, 0xFFFF_FFFF_FFFF * 4096];
    v := Value(r[..]);
    Normalize(r);
  }
}
