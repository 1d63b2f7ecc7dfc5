/** Blinded multiplication of the generator, by a table of masked 4-bit multiples (ecmult_gen_impl.h). */
module EcmultGen {
  import opened GroupOrder
  import opened Powers
  import opened PrimeField
  import opened Curve
  import opened CurveGroup
  import opened Jacobian
  import UnifiedAddition
  import opened FullAddition
  import BatchConversion
  import opened FieldNormalize
  import opened FieldElement
  import opened GroupLimbs
  import opened TableLimbs
  import opened Ecmult
  import opened Words
  import opened Scalars
  import ScalarBits
  import ScalarField
  import ScalarLimbs
  import ScalarReduction

  // ---------------------------------------------------------------- the masks

  /** The factor of the masking point U in column j: 2^j, and 1 - 2^63 in the last column. */
  function Mask(j: nat): int {
    if j == 63 then 1 - Pow2(63) else Pow2(j)
  }

  function MaskSum(n: nat): int {
    if n == 0 then 0 else MaskSum(n - 1) + Mask(n - 1)
  }

  lemma {:induction false} MaskSumBelow(n: nat)
    requires n <= 63
    ensures MaskSum(n) == Pow2(n) - 1
  {
    if n == 0 {
    } else {
      MaskSumBelow(n - 1);
    }
  }

  /** The masking points of the 64 columns sum to zero. */
  lemma MasksCancel()
    ensures MaskSum(64) == 0
  {
    MaskSumBelow(63);
    LastMask(63);
  }

  lemma LastMask(n: nat)
    requires n == 63 && MaskSum(n) == Pow2(n) - 1
    ensures MaskSum(n + 1) == 0
  {
  }

  // ---------------------------------------------------------------- the table

  /** Entry i of column j, at index k = 16 j + i, is i 16^j G + U_j. */
  ghost function Cell(k: nat, u: CurvePoint): CurvePoint
    requires PIsPrime()
  {
    Mix(Mask(k / 16), k % 16 * Pow2(4 * (k / 16)), u)
  }

  lemma CellIs(k: nat, j: nat, i: nat, u: CurvePoint)
    requires PIsPrime() && k == 16 * j + i && i < 16
    ensures Cell(k, u) == Mix(Mask(j), i * Pow2(4 * j), u)
  {
    hide PIsPrime, Mix, Mask, Pow2;
    assert k / 16 == j && k % 16 == i;
  }

  ghost predicate Filled(precj: seq<GejCell>, m: nat, u: CurvePoint)
    requires PIsPrime()
  {
    m <= |precj| && forall k | 0 <= k < m :: GejIs(precj[k].Value(), Cell(k, u)) && precj[k].Usable()
  }

  /** The finished table, in storage form. */
  ghost predicate Built(prec: seq<GeStorage>, u: CurvePoint)
    requires PIsPrime()
  {
    |prec| == 1024 && forall k | 0 <= k < 1024 :: Stored(prec[k], Cell(k, u))
  }

  lemma BuiltCell(prec: seq<GeStorage>, u: CurvePoint, j: nat, i: nat)
    requires PIsPrime() && Built(prec, u) && j < 64 && i < 16
    ensures |prec| == 1024 && Stored(prec[16 * j + i], Mix(Mask(j), i * Pow2(4 * j), u))
  {
    hide PIsPrime, Cell, Mix, Mask, Pow2, Stored;
    CellIs(16 * j + i, j, i, u);
  }

  /** One more entry of a column. */
  lemma NextCell(r: Gej, c: Gej, g: Gej, j: nat, i: nat, u: CurvePoint)
    requires CurveFacts() && PIsPrime()
    requires GejIs(c, Mix(Mask(j), i * Pow2(4 * j), u)) && GejIs(g, Mix(0, Pow2(4 * j), u))
    ensures GejIs(AddVar(r, c, g).0, Mix(Mask(j), (i + 1) * Pow2(4 * j), u))
  {
    hide GejIs, Sum, PIsPrime, OnCurve, Mix, CurveFacts, AddVar, Mask, Pow2, Eq;
    Facts();
    AddVarIsSum(r, c, g, Mix(Mask(j), i * Pow2(4 * j), u), Mix(0, Pow2(4 * j), u));
    MixSum(Mask(j), i * Pow2(4 * j), 0, Pow2(4 * j), u);
    assert i * Pow2(4 * j) + Pow2(4 * j) == (i + 1) * Pow2(4 * j);
  }

  /** Column j of the table: numsbase, numsbase + gbase, ..., numsbase + 15 gbase. */
  method FillColumn(precj: array<GejCell>, j: nat, gbase: GejLimbs, numsbase: GejLimbs, ghost u: CurvePoint)
    requires CurveFacts() && PIsPrime() && precj.Length == 1024 && j < 64 && gbase.Usable() && numsbase.Usable()
    requires GejIs(gbase.Value(), Mix(0, Pow2(4 * j), u)) && GejIs(numsbase.Value(), Mix(Mask(j), 0, u))
    requires Filled(precj[..], 16 * j, u)
    modifies precj
    ensures Filled(precj[..], 16 * (j + 1), u)
  {
    hide GejIs, Mix, PIsPrime, Mask, CurveFacts, Pow2, Cell, Filled, Residue, Magnitude;
    ghost var before := precj[..];
    precj[j * 16] := numsbase.Cell();
    CellIs(16 * j, j, 0, u);
    FillOne(before, 16 * j, numsbase.Cell(), u);
    assert precj[..] == before[16 * j := numsbase.Cell()];
    var i := 1;
    while i < 16
      invariant 1 <= i <= 16
      invariant Filled(precj[..], 16 * j + i, u)
    {
      AddCell(precj, j, i, gbase, u);
      i := i + 1;
    }
  }

  /** One addition of the inner loop. */
  method AddCell(precj: array<GejCell>, j: nat, i: nat, gbase: GejLimbs, ghost u: CurvePoint)
    requires CurveFacts() && PIsPrime() && precj.Length == 1024 && j < 64 && 1 <= i < 16
    requires gbase.Usable() && GejIs(gbase.Value(), Mix(0, Pow2(4 * j), u)) && Filled(precj[..], 16 * j + i, u)
    modifies precj
    ensures Filled(precj[..], 16 * j + i + 1, u)
  {
    hide GejIs, Mix, PIsPrime, Mask, CurveFacts, AddVar, Pow2, Cell, Filled, Residue, Magnitude;
    ghost var was := precj[..];
    FilledAt(was, 16 * j + i, 16 * j + (i - 1), u);
    CellIs(16 * j + (i - 1), j, i - 1, u);
    CellIs(16 * j + i, j, i, u);
    var c := new GejLimbs(precj[j * 16 + i]);
    var before := new GejLimbs(precj[j * 16 + i - 1]);
    NextCell(c.Value(), before.Value(), gbase.Value(), j, i - 1, u);
    var _ := c.AddVar(before, gbase);
    FillOne(was, 16 * j + i, c.Cell(), u);
    precj[j * 16 + i] := c.Cell();
    assert precj[..] == was[16 * j + i := c.Cell()];
  }

  lemma FilledAt(precj: seq<GejCell>, m: nat, k: nat, u: CurvePoint)
    requires PIsPrime() && Filled(precj, m, u) && k < m
    ensures m <= |precj| && GejIs(precj[k].Value(), Cell(k, u)) && precj[k].Usable()
  {
    hide GejIs, PIsPrime, Cell, GejCell.Usable;
  }

  lemma FillOne(precj: seq<GejCell>, m: nat, c: GejCell, u: CurvePoint)
    requires PIsPrime() && Filled(precj, m, u) && m < |precj| && GejIs(c.Value(), Cell(m, u)) && c.Usable()
    ensures Filled(precj[m := c], m + 1, u)
  {
    hide GejIs, PIsPrime, Cell, GejCell.Usable;
  }

  /** A doubling in place. */
  method DoubleInPlace(a: GejLimbs, ghost j: int, ghost k: int, ghost u: CurvePoint)
    requires CurveFacts() && PIsPrime() && GejIs(a.Value(), Mix(j, k, u)) && a.Usable()
    modifies a
    ensures GejIs(a.Value(), Mix(2 * j, 2 * k, u)) && a.Usable() && (old(a.Small()) ==> a.Small())
  {
    hide GejIs, Mix, PIsPrime, CurveFacts, DoubleVar, Residue, Magnitude;
    DoubleMix(a.Value(), j, k, u);
    var _ := a.DoubleVar(a);
    if !a.infinity {
      a.StaysSmall(6, 4, 2);
    }
  }

  /** Four doublings of gbase. */
  method Sixteenfold(gbase: GejLimbs, ghost j: nat, ghost u: CurvePoint)
    requires CurveFacts() && PIsPrime() && GejIs(gbase.Value(), Mix(0, Pow2(4 * j), u)) && gbase.Usable()
    modifies gbase
    ensures GejIs(gbase.Value(), Mix(0, Pow2(4 * (j + 1)), u)) && gbase.Usable()
  {
    hide GejIs, Mix, PIsPrime, CurveFacts, Pow2, GejLimbs.Usable;
    var i := 0;
    while i < 4
      invariant 0 <= i <= 4
      invariant GejIs(gbase.Value(), Mix(0, Pow2(4 * j + i), u)) && gbase.Usable()
    {
      Pow2Step(4 * j + i);
      DoubleInPlace(gbase, 0, Pow2(4 * j + i), u);
      i := i + 1;
    }
  }

  lemma DoubleMix(a: Gej, j: int, k: int, u: CurvePoint)
    requires CurveFacts() && PIsPrime() && GejIs(a, Mix(j, k, u))
    ensures GejIs(DoubleVar(a, a).0, Mix(2 * j, 2 * k, u))
  {
    hide GejIs, Mix, PIsPrime, CurveFacts, DoubleVar, Sum, OnCurve;
    Facts();
    DoubleVarIsSum(a, a, Mix(j, k, u));
    MixSum(j, k, j, k, u);
    assert j + j == 2 * j && k + k == 2 * k;
  }

  /** The mask of the next column. */
  method NextMask(numsbase: GejLimbs, nums: GejLimbs, j: nat, ghost u: CurvePoint)
    requires CurveFacts() && PIsPrime() && j < 64 && nums != numsbase && nums.Small()
    requires GejIs(nums.Value(), Mix(1, 0, u)) && GejIs(numsbase.Value(), Mix(Mask(j), 0, u))
    requires numsbase.Usable() && (j < 63 ==> numsbase.Small())
    modifies numsbase
    ensures j < 63 ==> GejIs(numsbase.Value(), Mix(Mask(j + 1), 0, u)) && numsbase.Usable()
    ensures j < 62 ==> numsbase.Small()
  {
    hide GejIs, Mix, PIsPrime, CurveFacts, AddVar, Pow2, OnCurve, GejNeg, Sum, Eq, Residue, Magnitude;
    Pow2Step(j);
    DoubleInPlace(numsbase, Mask(j), 0, u);
    if j == 62 {
      LastColumn(numsbase.Value(), nums.Value(), u);
      numsbase.Negate(numsbase);
      var _ := numsbase.AddVar(numsbase, nums);
    }
  }

  lemma LastColumn(a: Gej, nums: Gej, u: CurvePoint)
    requires CurveFacts() && PIsPrime() && GejIs(a, Mix(Pow2(63), 0, u)) && GejIs(nums, Mix(1, 0, u))
    ensures GejIs(AddVar(GejNeg(a), GejNeg(a), nums).0, Mix(1 - Pow2(63), 0, u))
  {
    hide *;
    Facts();
    GejNegIsNegative(a, Mix(Pow2(63), 0, u));
    NegativeMix(Pow2(63), 0, u);
    AddVarIsSum(GejNeg(a), GejNeg(a), nums, Mix(0 - Pow2(63), 0, u), Mix(1, 0, u));
    MixSum(0 - Pow2(63), 0, 1, 0, u);
  }

  lemma NegativeMix(j: int, k: int, u: CurvePoint)
    requires CurveFacts()
    ensures PIsPrime() && Negative(Mix(j, k, u)) == Mix(0 - j, 0 - k, u)
  {
    hide PIsPrime, CurveFacts, Sum, OnCurve, Times, G, Eq, Negative;
    PrimeFacts();
    NegativeSum(Times(j, u), Times(k, G()));
    TimesNegative(j, u);
    TimesNegative(k, G());
  }

  /** The construction loop of `secp256k1_ecmult_gen_context_build`, from any masking point. The points
      must come out finite, as the storage format demands. */
  method BuildTable(prec: array<GeStorage>, nums: GejLimbs, ghost u: CurvePoint)
    requires CurveFacts() && PIsPrime() && prec.Length == 1024 && nums.Small()
    requires GejIs(nums.Value(), u) && forall k: nat | k < 1024 :: Cell(k, u).Affine?
    modifies prec
    ensures Built(prec[..], u)
  {
    hide GejIs, PIsPrime, CurveFacts, Cell, Cells, Filled, GeIs, BatchConversion.Converted, Stored, GejCell.Usable;
    var precj := FillTable(nums, u);
    ghost var cells := Cells(1024, u);
    CellsAre(1024, u);
    forall k | 0 <= k < 1024 ensures GejIs(precj[k].Value(), cells[k]) && precj[k].Usable() {
      FilledAt(precj[..], 1024, k, u);
    }
    var affine := new GeLimbs[1024](_ => GeLimbs([0, 0, 0, 0, 0], [0, 0, 0, 0, 0], true));
    BatchConversion.SetAllGejVar(affine, precj, cells);
    for k := 0 to 1024
      invariant forall i | 0 <= i < 1024 :: BatchConversion.Converted(affine[i], cells[i])
      invariant forall i | 0 <= i < k :: Stored(prec[i], cells[i])
    {
      prec[k] := StoreFinite(affine[k], cells[k]);
    }
  }

  /** The points of the table in Jacobian form. */
  method FillTable(nums: GejLimbs, ghost u: CurvePoint) returns (precj: array<GejCell>)
    requires CurveFacts() && PIsPrime() && nums.Small() && GejIs(nums.Value(), u)
    ensures fresh(precj) && precj.Length == 1024 && Filled(precj[..], 1024, u)
  {
    hide GejIs, Mix, PIsPrime, Mask, CurveFacts, Pow2, Cell, Filled, Residue, Magnitude, G;
    precj := new GejCell[1024](_ => NOWHERE);
    var gbase := new GejLimbs(NOWHERE);
    gbase.SetGe(GENERATOR) by { GeneratorLimbs(); }
    gbase.SmallUsable();
    var numsbase := new GejLimbs(nums.Cell());
    numsbase.SmallUsable();
    BuildStart(nums.Value(), u, precj[..]);
    var j := 0;
    while j < 64
      invariant 0 <= j <= 64
      invariant nums.Cell() == old(nums.Cell()) && gbase.Usable()
      invariant GejIs(gbase.Value(), Mix(0, Pow2(4 * j), u))
      invariant j < 63 ==> numsbase.Small()
      invariant j < 64 ==> GejIs(numsbase.Value(), Mix(Mask(j), 0, u)) && numsbase.Usable()
      invariant Filled(precj[..], 16 * j, u)
    {
      FillColumn(precj, j, gbase, numsbase, u);
      ghost var filled := precj[..];
      Sixteenfold(gbase, j, u);
      NextMask(numsbase, nums, j, u);
      assert precj[..] == filled;
      j := j + 1;
    }
  }

  method StoreFinite(a: GeLimbs, ghost p: Point) returns (r: GeStorage)
    requires BatchConversion.Converted(a, p) && p.Affine?
    ensures Stored(r, p)
  {
    hide Residue, Magnitude, GeLimbs.Small, GeStorage.Valid;
    r := GeToStorage(a);
  }

  ghost function Cells(n: nat, u: CurvePoint): seq<CurvePoint>
    requires PIsPrime()
  {
    if n == 0 then [] else Cells(n - 1, u) + [Cell(n - 1, u)]
  }

  lemma {:induction false} CellsAre(n: nat, u: CurvePoint)
    requires PIsPrime()
    ensures |Cells(n, u)| == n && forall k: nat | k < n :: Cells(n, u)[k] == Cell(k, u)
  {
    hide PIsPrime, Cell, OnCurve;
    if n == 0 {
    } else {
      CellsAre(n - 1, u);
    }
  }

  lemma BuildStart(nums: Gej, u: CurvePoint, precj: seq<GejCell>)
    requires CurveFacts() && PIsPrime() && GejIs(nums, u)
    ensures GejIs(Gej(Residue(GENERATOR.x), Residue(GENERATOR.y), 1, false), Mix(0, Pow2(0), u))
    ensures GejIs(nums, Mix(Mask(0), 0, u)) && GejIs(nums, Mix(1, 0, u)) && Filled(precj, 0, u)
  {
    hide PIsPrime, CurveFacts, Mix, OnCurve, Times, GejIs, Residue, G;
    GeneratorLimbs();
    MixOne(1, u);
    TimesOne(u);
    TimesOne(G());
  }

  // ---------------------------------------------------------------- multiplication and blinding

  /** The starting point carries minus the blinding scalar. */
  ghost predicate Blinded(blind: nat, initial: Gej)
    requires PIsPrime()
  {
    blind < N && GejIs(initial, Times(0 - blind, G()))
  }

  /** After n columns, the accumulator is initial plus the masked multiples so far. */
  ghost predicate Partway(r: Gej, blind: nat, gnb: nat, n: nat, u: CurvePoint)
    requires PIsPrime()
  {
    GejIs(r, Mix(MaskSum(n), gnb % Pow2(4 * n) - blind, u))
  }

  lemma MaskSumStep(n: nat)
    ensures MaskSum(n + 1) == MaskSum(n) + Mask(n)
  {
  }

  lemma ColumnBits(gnb: nat, n: nat)
    ensures gnb % Pow2(4 * (n + 1)) == gnb % Pow2(4 * n) + Bits(gnb, 4 * n, 4) * Pow2(4 * n)
  {
    hide Pow2, Bits;
    BitsSplit(gnb, 4 * n, 4);
    assert 4 * (n + 1) == 4 * n + 4;
  }

  lemma OneColumn(r: Gej, b: Ge, blind: nat, gnb: nat, n: nat, u: CurvePoint)
    requires CurveFacts() && PIsPrime() && Partway(r, blind, gnb, n, u) && !b.infinity
    requires GeIs(b, Mix(Mask(n), Bits(gnb, 4 * n, 4) * Pow2(4 * n), u))
    ensures Partway(UnifiedAddition.AddGe(r, b), blind, gnb, n + 1, u)
  {
    hide PIsPrime, CurveFacts, Mix, OnCurve, GejIs, GeIs, Pow2, Bits, Mask, UnifiedAddition.AddGe, Sum, MaskSum;
    MaskSumStep(n);
    var s, t := MaskSum(n), gnb % Pow2(4 * n) - blind;
    var m, v := Mask(n), Bits(gnb, 4 * n, 4) * Pow2(4 * n);
    UnifiedAddition.AddGeIsSum(r, b, Mix(s, t, u), Mix(m, v, u));
    MixSum(s, t, m, v, u);
    ColumnBits(gnb, n);
  }

  lemma Ends(r: Gej, blind: nat, gn: nat, gnb: nat, u: CurvePoint)
    requires CurveFacts() && PIsPrime() && Partway(r, blind, gnb, 64, u) && gn < N && blind < N
    requires gnb == (gn + blind) % N
    ensures GejIs(r, Times(gn, G()))
  {
    Pow2Values();
    MasksCancel();
    hide PIsPrime, CurveFacts, Mix, OnCurve, GejIs, Pow2, MaskSum, Sum, Times;
    MixOne(gnb - blind, u);
    OrderIs();
    if gn + blind >= N {
      TimesModN(gn, -1, G());
    }
  }

  lemma Starts(initial: Gej, blind: nat, gnb: nat, u: CurvePoint)
    requires CurveFacts() && PIsPrime() && Blinded(blind, initial)
    ensures Partway(initial, blind, gnb, 0, u)
  {
    hide PIsPrime, CurveFacts, Mix, OnCurve, GejIs, Sum, Times;
    MixOne(0 - blind, u);
    assert gnb % Pow2(0) == 0;
  }

  /** What one blinding draws: the first accepted outputs of the generator, as words, and whether the context is
      reset before because no seed is given. */
  datatype Randomness = Randomness(reset: bool, s: Limbs, b: seq<u64>) {
    ghost predicate Accepted() {
      Normalized(s) && Residue(s) != 0 && |b| == 4 && 0 < Number(b) < N
    }
  }

  class GenContext {
    const prec: array<GeStorage>
    const blind: array<u64>
    const initial: GejLimbs

    ghost predicate Valid(u: CurvePoint)
      reads this, prec, blind, initial
    {
      && PIsPrime() && Built(prec[..], u)
      && blind.Length == 4 && Blinded(Number(blind[..]), initial.Value()) && initial.Small()
    }

    /** `secp256k1_ecmult_gen`: r = gn G, for every gn and every blinding. */
    method Multiply(r: GejLimbs, gn: array<u64>, ghost u: CurvePoint)
      requires CurveFacts() && Valid(u) && gn.Length == 4 && Number(gn[..]) < N && r != initial
      modifies r
      ensures PIsPrime() && GejIs(r.Value(), Times(Number(gn[..]), G())) && r.Small()
    {
      hide PIsPrime, CurveFacts, Mix, OnCurve, GejIs, Sum, Times, Built, Partway, Pow2, Bits, G, Mask, Number,
        Residue, Magnitude, ScalarField.ModN;
      r.Set(initial.Cell());
      var gnb := new u64[4];
      Numbers(gn[..], blind[..]);
      var _ := ScalarReduction.Add(gnb, gn, blind);
      NumberIs(gnb[..]);
      ghost var m, b := Number(gnb[..]), Number(blind[..]);
      Starts(initial.Value(), b, m, u);
      ghost var limbs := gnb[..];
      var j := 0;
      while j < 64
        invariant 0 <= j <= 64 && gnb[..] == limbs
        invariant Partway(r.Value(), b, m, j, u) && r.Small()
      {
        Column(r, gnb, j, b, u);
        j := j + 1;
      }
      ScalarField.ModNIsRemainder(Number(gn[..]) + b);
      Ends(r.Value(), b, Number(gn[..]), m, u);
    }

    /** One column. */
    method Column(r: GejLimbs, gnb: array<u64>, j: nat, ghost b: nat, ghost u: CurvePoint)
      requires CurveFacts() && PIsPrime() && Built(prec[..], u) && gnb.Length == 4 && j < 64 && r.Small()
      requires Partway(r.Value(), b, Number(gnb[..]), j, u)
      modifies r
      ensures Partway(r.Value(), b, Number(gnb[..]), j + 1, u) && r.Small()
    {
      hide PIsPrime, CurveFacts, Mix, GejIs, GeIs, Built, Partway, Pow2, Bits, Mask, Number, Residue, Magnitude,
        ScalarBits.GetBits, UnifiedAddition.AddGe, GeStorage.Valid;
      ReadsNibble(gnb[..], j);
      var bits := ScalarBits.GetBits(gnb[..], 4 * j, 4);
      BuiltCell(prec[..], u, j, bits);
      var adds := Select(j, bits, u);
      var add := GeFromStorage(adds);
      OneColumn(r.Value(), add.Value(), b, Number(gnb[..]), j, u);
      r.AddGe(r, add);
    }

    /** The entry is selected without an index that depends on the scalar. */
    method Select(j: nat, bits: nat, ghost u: CurvePoint) returns (adds: GeStorage)
      requires PIsPrime() && Built(prec[..], u) && j < 64 && bits < 16
      ensures prec.Length == 1024 && adds == prec[16 * j + bits]
    {
      hide PIsPrime, Built, GeStorage.Valid;
      BuiltShape(prec[..], u, j, bits);
      adds := GeStorage([0, 0, 0, 0], [0, 0, 0, 0]);
      var i := 0;
      while i < 16
        invariant 0 <= i <= 16 && |adds.x| == |adds.y| == 4
        invariant bits < i ==> adds == prec[16 * j + bits]
      {
        BuiltShape(prec[..], u, j, i);
        adds := GeStorageCmov(adds, prec[16 * j + i], i == bits);
        i := i + 1;
      }
    }

    /** `secp256k1_ecmult_gen_blind` without a seed starts from -G; with one, from what is there. The
        generator's accepted outputs are the projection factor s and the scalar b. */
    method Blind(draw: Randomness, ghost u: CurvePoint)
      requires CurveFacts() && PIsPrime() && Built(prec[..], u) && blind.Length == 4 && (draw.reset || Valid(u))
      requires draw.Accepted()
      modifies blind, initial
      ensures Valid(u) && Number(blind[..]) == N - Number(draw.b)
      ensures GejIs(initial.Value(), Times(Number(draw.b), G()))
    {
      hide CurveFacts, GejIs, Times, Built, G, Number, Residue, Magnitude, Normalized, PIsPrime;
      if draw.reset {
        StartOver(u);
      }
      Project(draw.s, u);
      Advance(draw.b, u);
    }

    /** The projection is randomized. */
    method Project(s: Limbs, ghost u: CurvePoint)
      requires CurveFacts() && Valid(u) && Normalized(s) && Residue(s) != 0
      modifies initial
      ensures Valid(u)
    {
      hide PIsPrime, CurveFacts, GejIs, Times, Built, G, Number, Residue, Magnitude, Normalized, Rescale;
      RescaleIsSame(initial.Value(), Residue(s), Times(0 - Number(blind[..]), G()));
      NormalizedMagnitude(s);
      MagnitudeGrows(s, 1, 8);
      initial.Rescale(s);
    }

    /** The next blinding value and its starting point. */
    method Advance(b: seq<u64>, ghost u: CurvePoint)
      requires CurveFacts() && Valid(u) && |b| == 4 && 0 < Number(b) < N
      modifies blind, initial
      ensures Valid(u) && Number(blind[..]) == N - Number(b) && GejIs(initial.Value(), Times(Number(b), G()))
    {
      hide PIsPrime, CurveFacts, GejIs, Times, Built, G, Number, Residue, Magnitude;
      var nb := new u64[4](i requires 0 <= i < 4 => b[i]);
      assert nb[..] == b;
      var gb := new GejLimbs(NOWHERE);
      Multiply(gb, nb, u);
      NegateScalar(nb);
      OrderIs();
      TimesModN(Number(b) - N, 1, G());
      Install(nb, gb.Cell(), u);
    }

    /** The assignment of the new blinding value and starting point. */
    method Install(nb: array<u64>, gb: GejCell, ghost u: CurvePoint)
      requires PIsPrime() && Built(prec[..], u) && blind.Length == 4 && nb.Length == 4 && nb != blind
      requires Blinded(Number(nb[..]), gb.Value()) && gb.Small()
      modifies blind, initial
      ensures Valid(u) && blind[..] == old(nb[..]) && initial.Value() == gb.Value()
    {
      hide PIsPrime, Built, Blinded, Number, Residue, Magnitude;
      ghost var table, words := prec[..], nb[..];
      blind[0], blind[1], blind[2], blind[3] := nb[0], nb[1], nb[2], nb[3];
      assert blind[..] == words;
      initial.Set(gb);
      assert prec[..] == table && blind[..] == words;
    }

    /** The reset of a blinding without a seed. */
    method StartOver(ghost u: CurvePoint)
      requires CurveFacts() && PIsPrime() && Built(prec[..], u) && blind.Length == 4
      modifies blind, initial
      ensures Valid(u) && Number(blind[..]) == 1
    {
      hide PIsPrime, CurveFacts, GejIs, Times, Built, G, GejNeg, Residue, Magnitude;
      GeneratorLimbs();
      initial.SetGe(GENERATOR);
      initial.Negate(initial);
      blind[0], blind[1], blind[2], blind[3] := 1, 0, 0, 0;
      assert blind[..] == [1, 0, 0, 0];
      Reset();
    }

    /** `secp256k1_context_randomize`, called any number of times: a call without a seed resets the
        context first. The context still multiplies the generator afterwards. */
    method RandomizeAll(seeds: seq<Randomness>, ghost u: CurvePoint)
      requires CurveFacts() && Valid(u)
      requires forall k | 0 <= k < |seeds| :: seeds[k].Accepted()
      modifies blind, initial
      ensures Valid(u)
    {
      hide CurveFacts, Built, Randomness.Accepted, Number;
      for k := 0 to |seeds|
        invariant Valid(u)
      {
        Blind(seeds[k], u);
      }
    }

    /** `secp256k1_ecmult_gen_context_build`, which ends in a blinding without a seed. */
    constructor (nums: GejLimbs, first: Randomness, ghost u: CurvePoint)
      requires CurveFacts() && PIsPrime() && nums.Small() && GejIs(nums.Value(), u)
      requires (forall k: nat | k < 1024 :: Cell(k, u).Affine?) && first.reset && first.Accepted()
      ensures Valid(u) && fresh(prec) && fresh(blind) && fresh(initial)
    {
      hide *;
      prec := new GeStorage[1024](_ => GeStorage([0, 0, 0, 0], [0, 0, 0, 0]));
      blind := new u64[4](_ => 0);
      initial := new GejLimbs(NOWHERE);
      new;
      BuildTable(prec, nums, u);
      Blind(first, u);
    }
  }

  /** From the build of a context over any sequence of randomizations to a multiplication. */
  method BuiltAndRandomized(nums: GejLimbs, first: Randomness, seeds: seq<Randomness>, gn: array<u64>,
                            ghost u: CurvePoint)
    returns (r: GejLimbs)
    requires CurveFacts() && PIsPrime() && nums.Small() && GejIs(nums.Value(), u)
    requires forall k: nat | k < 1024 :: Cell(k, u).Affine?
    requires first.reset && first.Accepted() && (forall k | 0 <= k < |seeds| :: seeds[k].Accepted())
    requires gn.Length == 4 && Number(gn[..]) < N
    ensures fresh(r) && GejIs(r.Value(), Times(Number(gn[..]), G()))
  {
    hide CurveFacts, PIsPrime, Cell, GejIs, Times, Randomness.Accepted, Number, GejLimbs.Usable;
    var ctx := new GenContext(nums, first, u);
    ghost var limbs := gn[..];
    ctx.RandomizeAll(seeds, u);
    r := new GejLimbs(NOWHERE);
    assert gn[..] == limbs;
    ctx.Multiply(r, gn, u);
  }

  method NegateScalar(a: array<u64>)
    requires a.Length == 4 && 0 < Number(a[..]) < N
    modifies a
    ensures Number(a[..]) == N - old(Number(a[..]))
  {
    hide Number, ScalarField.ModN;
    NumberIs(a[..]);
    ghost var n := Number(a[..]);
    ScalarReduction.Negate(a, a);
    NumberIs(a[..]);
    NegatedMod(n);
  }

  lemma Numbers(a: seq<u64>, b: seq<u64>)
    requires |a| == 4 && |b| == 4
    ensures Number(a) == ScalarLimbs.Value(a) && Number(b) == ScalarLimbs.Value(b)
  {
  }

  lemma ReadsNibble(a: seq<u64>, j: nat)
    requires |a| == 4 && j < 64
    ensures (4 * j + 3) / 64 == 4 * j / 64
    ensures ScalarBits.GetBits(a, 4 * j, 4) == Bits(Number(a), 4 * j, 4) < 16
  {
    hide Bits, ScalarBits.GetBits, ScalarLimbs.Value;
    NibbleBelow(Number(a), 4 * j);
    NibbleIndex(j);
    ScalarBits.GetBitsReads(a, 4 * j, 4);
  }

  lemma NibbleIndex(j: nat)
    ensures (4 * j + 3) / 64 == 4 * j / 64
  {
  }

  lemma BuiltShape(prec: seq<GeStorage>, u: CurvePoint, j: nat, i: nat)
    requires PIsPrime() && Built(prec, u) && j < 64 && i < 16
    ensures |prec| == 1024 && |prec[16 * j + i].x| == |prec[16 * j + i].y| == 4
  {
    hide PIsPrime, Cell;
    assert Stored(prec[16 * j + i], Cell(16 * j + i, u));
  }

  lemma NibbleBelow(gnb: nat, offset: nat)
    ensures Bits(gnb, offset, 4) < 16
  {
    assert Pow2(4) == 16;
  }

  lemma Reset()
    requires CurveFacts()
    ensures PIsPrime() && Number([1, 0, 0, 0]) == 1
    ensures GejIs(GejNeg(Gej(Residue(GENERATOR.x), Residue(GENERATOR.y), 1, false)), Times(-1, G()))
  {
    hide PIsPrime, CurveFacts, OnCurve, GejIs, Sum, Times, GejNeg, Negative, Residue, G;
    PrimeFacts();
    GeneratorLimbs();
    GejNegIsNegative(Gej(Residue(GENERATOR.x), Residue(GENERATOR.y), 1, false), G());
    TimesOne(G());
    TimesNegative(1, G());
  }
}
