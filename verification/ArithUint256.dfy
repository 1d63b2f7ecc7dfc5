/** 256-bit unsigned integers as eight 32-bit words (arith_uint256.h and arith_uint256.cpp). Every
    operation is arithmetic modulo 2^256 on the number that the words stand for. */
module ArithUint256 {
  import opened Primes
  import opened Powers
  import opened Limbs32
  import opened Words

  const WIDTH: nat := 8

  /** 2^256. */
  function Modulus(): (m: nat)
    ensures m == Weight(WIDTH) > 0
  {
    Weight(WIDTH)
  }

  lemma ModulusIs()
    ensures Modulus() == Pow2(256) == 0x1_00000000_00000000_00000000_00000000_00000000_00000000_00000000_00000000
  {
    hide *;
    WidthIs();
    WeightIsPow2(WIDTH);
    Pow2Values();
  }

  lemma WidthIs()
    ensures WIDTH == 8
  {
  }

  class BaseUint {
    const pn: array<u32>

    predicate Valid() { pn.Length == WIDTH }

    /** The number that the words stand for. */
    function Num(): nat
      requires Valid()
      reads pn
    {
      Value(pn[..])
    }

    constructor ()
      ensures Valid() && fresh(pn) && Num() == 0
    {
      pn := new u32[WIDTH](_ => 0);
      new;
      ValueZero(pn[..]);
    }

    constructor Copy(b: BaseUint)
      requires b.Valid()
      ensures Valid() && fresh(pn) && Num() == b.Num() && pn[..] == b.pn[..]
    {
      pn := new u32[WIDTH](i requires 0 <= i < b.pn.Length reads b.pn => b.pn[i]);
      new;
      assert pn[..] == b.pn[..];
    }

    /** Both operands are the same object, or they share nothing. */
    predicate Apart(b: BaseUint) { b == this || b.pn != pn }

    /** `operator=(uint64_t)` with 0. */
    method Clear()
      requires Valid()
      modifies pn
      ensures Num() == 0 && forall i | 0 <= i < WIDTH :: pn[i] == 0
    {
      var i := 0;
      while i < WIDTH
        invariant 0 <= i <= WIDTH && forall j | 0 <= j < i :: pn[j] == 0
      {
        pn[i] := 0;
        i := i + 1;
      }
      ValueZero(pn[..]);
    }

    /** `operator+=`: the sum modulo 2^256, also when both operands are the same object. */
    method AddAssign(b: BaseUint)
      requires Valid() && b.Valid() && Apart(b)
      modifies pn
      ensures Num() == (old(Num()) + old(b.Num())) % Modulus()
    {
      hide Value, Weight, Low32, High32, Modulus;
      ghost var x, y := pn[..], b.pn[..];
      var carry: u64 := 0;
      var i := 0;
      NoWords();
      assert pn[..0] == x[..0] == y[..0] == [];
      while i < WIDTH
        invariant 0 <= i <= WIDTH && carry <= 1
        invariant pn[i..] == x[i..] && b.pn[i..] == y[i..]
        invariant Value(pn[..i]) + carry * Weight(i) == Value(x[..i]) + Value(y[..i])
      {
        ghost var was, c := pn[..i], carry;
        assert pn[i] == pn[i..][0] == x[i] && b.pn[i] == b.pn[i..][0] == y[i];
        var n: u64 := carry + pn[i] + b.pn[i];
        Split32(n);
        pn[i] := Low32(n);
        carry := High32(n);
        assert pn[..i] == was;
        Next(pn[..], i); ValueNext(x, i); ValueNext(y, i);
        AddStep(Value(was), c, carry, Weight(i), Value(x[..i]), Value(y[..i]), x[i], y[i], pn[i]);
        i := i + 1;
        assert b.pn[i..] == y[i..];
      }
      assert pn[..WIDTH] == pn[..] && x[..WIDTH] == x && y[..WIDTH] == y;
      ValueBound(pn[..]);
      Reduced(Num(), Value(x) + Value(y), carry);
    }

    /** `operator~`, then `++`: the negation of two's complement. */
    method Negated() returns (ret: BaseUint)
      requires Valid()
      ensures fresh(ret) && fresh(ret.pn) && ret.Valid() && ret.Num() == (Modulus() - Num()) % Modulus()
    {
      hide Value, Weight, Modulus;
      ret := new BaseUint();
      var i := 0;
      NoWords();
      assert ret.pn[..0] == pn[..0] == [];
      while i < WIDTH
        invariant 0 <= i <= WIDTH
        invariant Value(ret.pn[..i]) + Value(pn[..i]) + 1 == Weight(i)
        invariant fresh(ret) && fresh(ret.pn) && ret.Valid()
      {
        ghost var was := ret.pn[..i];
        ret.pn[i] := 0xFFFF_FFFF - pn[i];
        assert ret.pn[..i] == was;
        Next(ret.pn[..], i);
        Next(pn[..], i);
        i := i + 1;
      }
      assert ret.pn[..WIDTH] == ret.pn[..] && pn[..WIDTH] == pn[..];
      ModulusWeight();
      ret.Increment();
    }

    /** Prefix `operator++`. */
    method Increment()
      requires Valid()
      modifies pn
      ensures Num() == (old(Num()) + 1) % Modulus()
    {
      hide Value, Weight, Modulus;
      ghost var x := pn[..];
      var i := 0;
      NoWords();
      assert pn[..0] == x[..0] == [];
      Bump(0);
      while pn[i] == 0 && i < WIDTH - 1
        invariant 0 <= i < WIDTH
        invariant pn[i + 1..] == x[i + 1..] && pn[i] == (x[i] as int + 1) % 0x1_0000_0000
        invariant pn[i] == 0 <==> x[i] == 0xFFFF_FFFF
        invariant Value(pn[..i]) + Weight(i) == Value(x[..i]) + 1
      {
        ghost var before := pn[..];
        IncrementStep(before, x, i);
        i := i + 1;
        assert pn[i] == pn[i..][0] == x[i];
        Bump(i);
        assert pn[..i] == before[..i];
      }
      Incremented(x, pn[..], i);
    }

    /** `++pn[i]` on a 32-bit word. */
    method Bump(i: nat)
      requires Valid() && i < WIDTH
      modifies pn
      ensures pn[i] == (old(pn[i]) as int + 1) % 0x1_0000_0000
      ensures forall j | 0 <= j < WIDTH && j != i :: pn[j] == old(pn[j])
      ensures pn[..i] == old(pn[..i]) && pn[i + 1..] == old(pn[i + 1..])
    {
      pn[i] := if pn[i] == 0xFFFF_FFFF then 0 else pn[i] + 1;
    }

    /** `operator-=`: addition of the negation. */
    method SubAssign(b: BaseUint)
      requires Valid() && b.Valid() && Apart(b)
      modifies pn
      ensures Num() == (old(Num()) + Modulus() - old(b.Num())) % Modulus()
    {
      hide Value, Weight, Modulus;
      ghost var y := b.Num();
      NumBound(b.pn[..]);
      var n := b.Negated();
      AddAssign(n);
      SubModulo(old(Num()), y, Modulus());
    }

    /** `CompareTo`. */
    method CompareTo(b: BaseUint) returns (c: int)
      requires Valid() && b.Valid()
      ensures c == if Num() < b.Num() then -1 else if Num() > b.Num() then 1 else 0
    {
      hide Value;
      var i := WIDTH - 1;
      while i >= 0
        invariant -1 <= i < WIDTH && pn[i + 1..] == b.pn[i + 1..]
      {
        if pn[i] < b.pn[i] {
          CompareAt(pn[..], b.pn[..], i);
          return -1;
        }
        if pn[i] > b.pn[i] {
          CompareAt(b.pn[..], pn[..], i);
          return 1;
        }
        assert pn[i..] == [pn[i]] + pn[i + 1..] && b.pn[i..] == [b.pn[i]] + b.pn[i + 1..];
        i := i - 1;
      }
      assert pn[0..] == pn[..] && b.pn[0..] == b.pn[..];
      c := 0;
    }

    /** `bits()`: the length of the binary representation. */
    method BitLength() returns (r: nat)
      requires Valid()
      ensures r <= 256 && (r == 0 <==> Num() == 0)
      ensures r > 0 ==> Pow2(r - 1) <= Num() < Pow2(r)
    {
      hide Value, Weight, Pow2;
      var pos := WIDTH - 1;
      while pos >= 0
        invariant -1 <= pos < WIDTH && forall j | pos < j < WIDTH :: pn[j] == 0
      {
        if pn[pos] != 0 {
          TopWord(pn[..], pos);
          var bits := 31;
          Pow2ThirtyTwo();
          while bits > 0
            invariant 0 <= bits <= 31 && pn[pos] < Pow2(bits + 1)
          {
            TestBit(pn[pos], bits);
            if pn[pos] / Pow2(bits) % 2 == 1 {
              TopBit(pn[..], pos, bits);
              return 32 * pos + bits + 1;
            }
            bits := bits - 1;
          }
          Pow2Zero();
          TopBit(pn[..], pos, 0);
          return 32 * pos + 1;
        }
        pos := pos - 1;
      }
      ValueZero(pn[..]);
      r := 0;
    }

    /** `operator*=` with a 32-bit factor. */
    method MulAssign32(b32: u32)
      requires Valid()
      modifies pn
      ensures Num() == old(Num()) * b32 % Modulus()
    {
      hide Value, Weight, Low32, High32, Modulus;
      ghost var x := pn[..];
      var carry: u64 := 0;
      var i := 0;
      NoWords();
      assert pn[..0] == x[..0] == [];
      while i < WIDTH
        invariant 0 <= i <= WIDTH && carry < 0x1_0000_0000
        invariant pn[i..] == x[i..]
        invariant Value(pn[..i]) + carry * Weight(i) == Value(x[..i]) * b32
      {
        ghost var was, c := pn[..i], carry;
        assert pn[i] == pn[i..][0] == x[i];
        WordProduct(b32, pn[i], carry, 0);
        var n: u64 := carry + b32 * pn[i];
        Split32(n);
        pn[i] := Low32(n);
        carry := High32(n);
        assert pn[..i] == was;
        Next(pn[..], i); ValueNext(x, i);
        MulStep(Value(was), c, carry, Weight(i), Value(x[..i]), b32, x[i], pn[i]);
        i := i + 1;
      }
      assert pn[..WIDTH] == pn[..] && x[..WIDTH] == x;
      ValueBound(pn[..]);
      Reduced(Num(), Value(x) * b32, carry);
    }

    /** `operator<<=`: multiplication by 2^shift, modulo 2^256. */
    method ShiftLeftAssign(shift: nat)
      requires Valid()
      modifies pn
      ensures Num() == old(Num()) * Pow2(shift) % Modulus()
    {
      hide Value, Weight, Modulus, Pow2, BitOr, ShiftL, ShiftR;
      var a := pn[..];
      Clear();
      var k, s := shift / 32, shift % 32;
      ghost var dropped: nat := 0;
      NoWords();
      assert a[..0] == [];
      LeftStart(a, k, s);
      var i := 0;
      while i < WIDTH
        invariant 0 <= i <= WIDTH && (i + k < WIDTH ==> dropped == 0 && pn[i + k] < Pow2(s))
        invariant forall j | i + k < j < WIDTH :: pn[j] == 0
        invariant Value(pn[..]) + dropped * Weight(WIDTH) == Weight(k) * (Pow2(s) * Value(a[..i]))
      {
        ghost var was := pn[..];
        WordShift(a[i], s);
        if i + k + 1 < WIDTH && s != 0 {
          OrZero(pn[i + k + 1], ShiftR(a[i], 32 - s));
          pn[i + k + 1] := BitOr(pn[i + k + 1], ShiftR(a[i], 32 - s));
        }
        if i + k < WIDTH {
          OrLow(pn[i + k], a[i], s);
          pn[i + k] := BitOr(pn[i + k], ShiftL(a[i], s));
        }
        dropped := LeftStep(a, i, k, Pow2(s), ShiftL(a[i], s), ShiftR(a[i], 32 - s), was, pn[..], dropped);
        i := i + 1;
      }
      assert a[..WIDTH] == a;
      ShiftWeight(shift, k, s, Value(a));
      ValueBound(pn[..]);
      Reduced(Num(), Value(a) * Pow2(shift), dropped);
    }

    /** `operator>>=`: division by 2^shift, rounded down. */
    method ShiftRightAssign(shift: nat)
      requires Valid()
      modifies pn
      ensures Num() == old(Num()) / Pow2(shift)
    {
      hide Value, Weight, Modulus, Pow2, BitOr, ShiftL, ShiftR, RightDone;
      var a := pn[..];
      Clear();
      var k, s := shift / 32, shift % 32;
      var i := 0;
      RightNone(a, k, Pow2(s), Pow2(32 - s), pn[..]);
      while i < WIDTH
        invariant 0 <= i <= WIDTH
        invariant RightDone(a, i, k, Pow2(s), Pow2(32 - s), pn[..])
      {
        ghost var was := pn[..];
        RightWord(a[i], s);
        RightPrevious(a, i, k, s, was);
        if i - k - 1 >= 0 && s != 0 {
          pn[i - k - 1] := BitOr(pn[i - k - 1], ShiftL(a[i], 32 - s));
        }
        if i - k >= 0 {
          OrZero(pn[i - k], ShiftR(a[i], s));
          pn[i - k] := BitOr(pn[i - k], ShiftR(a[i], s));
        }
        ghost var y := if s == 0 then 0 else ShiftL(a[i], 32 - s);
        assert RightWritten(i, k, ShiftR(a[i], s), y, was, pn[..]);
        RightStep(a, i, k, Pow2(s), Pow2(32 - s), ShiftR(a[i], s), a[i] % Pow2(s), y, was, pn[..]);
        i := i + 1;
      }
      RightEnd(a, k, s, shift, pn[..]);
    }

    /** `operator*=`: the product modulo 2^256, unless both operands are the same object. Then the factor is
        overwritten with zero before it is read, and so is the product. */
    method MulAssign(b: BaseUint)
      requires Valid() && b.Valid() && Apart(b)
      modifies pn
      ensures b != this ==> Num() == old(Num()) * old(b.Num()) % Modulus()
      ensures b == this ==> Num() == 0
    {
      hide Value, Weight, Modulus, Low32, High32;
      var a := pn[..];
      Clear();
      ghost var y := b.pn[..];
      ghost var dropped: nat := 0;
      NoWords();
      assert a[..0] == [];
      var j := 0;
      while j < WIDTH
        invariant 0 <= j <= WIDTH && b.pn[..] == y
        invariant b == this ==> forall t | 0 <= t < WIDTH :: pn[t] == 0
        invariant Value(pn[..]) + dropped * Weight(WIDTH) == Value(a[..j]) * Value(y)
      {
        ghost var was := Value(pn[..]);
        var carry := MulRow(b, a[j], j);
        dropped := RowDrops(a, j, y, dropped, carry, was, Value(pn[..]));
        j := j + 1;
      }
      assert a[..WIDTH] == a;
      ValueBound(pn[..]);
      Reduced(Num(), Value(a) * Value(y), dropped);
      if b == this {
        ValueZero(pn[..]);
      }
    }

    /** The inner loop of the multiplication: word x times the factor is added from word j on. */
    method MulRow(b: BaseUint, x: u32, j: nat) returns (carry: u64)
      requires Valid() && b.Valid() && Apart(b) && j < WIDTH
      requires b == this ==> forall t | 0 <= t < WIDTH :: pn[t] == 0
      modifies pn
      ensures b.pn[..] == old(b.pn[..]) && carry < 0x1_0000_0000
      ensures b == this ==> forall t | 0 <= t < WIDTH :: pn[t] == 0
      ensures Value(pn[..]) + carry * Weight(WIDTH)
           == old(Value(pn[..])) + Weight(j) * (x * Value(old(b.pn[..])[..WIDTH - j]))
    {
      hide Value, Weight, Low32, High32;
      ghost var y, before := b.pn[..], Value(pn[..]);
      carry := 0;
      var i := 0;
      NoWords();
      assert y[..0] == [] && x * 0 == 0 && Weight(j) * 0 == 0;
      while i + j < WIDTH
        invariant 0 <= i && i + j <= WIDTH && carry < 0x1_0000_0000 && b.pn[..] == y
        invariant b == this ==> carry == 0 && forall t | 0 <= t < WIDTH :: pn[t] == 0
        invariant Value(pn[..]) + carry * Weight(i + j) == before + Weight(j) * (x * Value(y[..i]))
      {
        ghost var was, c := pn[..], carry;
        assert b.pn[i] == y[i];
        WordProduct(x, b.pn[i], carry, pn[i + j]);
        var n: u64 := carry + pn[i + j] + x * b.pn[i];
        Split32(n);
        if b == this { ZeroWord(x); }
        pn[i + j] := Low32(n);
        carry := High32(n);
        assert pn[..] == was[i + j := pn[i + j]];
        ValueUpdate(was, i + j, pn[i + j]);
        ValueNext(y, i);
        WeightSum(i, j);
        WeightStep(i + j);
        RowStep(Value(was), c, carry, Weight(i), Weight(j), Weight(i + j), before, x, Value(y[..i]), y[i], was[i + j],
          pn[i + j]);
        i := i + 1;
      }
    }

    /** One bit of the quotient. */
    method DivStep(num: BaseUint, div: BaseUint, shift: nat, ghost n: nat, ghost d: nat)
      requires Valid() && num.Valid() && div.Valid() && div.pn != num.pn && pn != num.pn && pn != div.pn && shift < 256
      requires LowClear(pn[..], shift + 1) && div.Num() == d * Pow2(shift)
      requires n == Num() * d + num.Num() && num.Num() < d * Pow2(shift + 1)
      modifies pn, num.pn
      ensures LowClear(pn[..], shift) && n == Num() * d + num.Num() && num.Num() < d * Pow2(shift)
    {
      hide Value, Weight, Modulus, Pow2, BitOr, LowClear;
      Pow2Step(shift);
      ghost var q, r := Num(), num.Num();
      var c := num.CompareTo(div);
      if c >= 0 {
        Subtract(r, div.Num(), num.pn[..]);
        num.SubAssign(div);
        SetBit(pn[..], shift);
        ghost var was := pn[..];
        pn[shift / 32] := BitOr(pn[shift / 32], Pow2(shift % 32));
        assert pn[..] == was[shift / 32 := pn[shift / 32]];
        QuotientBit(n, q, d, r, Pow2(shift));
      } else {
        LowerClear(pn[..], shift);
      }
    }

    /** `operator/=`: throws on a zero divisor, when the dividend is already overwritten with zero; otherwise
        leaves the quotient, and `num` ends as the remainder. */
    method DivAssign(b: BaseUint) returns (ok: bool, ghost rem: nat)
      requires Valid() && b.Valid() && Apart(b)
      modifies pn
      ensures ok <==> old(b.Num()) != 0
      ensures !ok ==> Num() == 0
      ensures ok ==> Num() == old(Num()) / old(b.Num()) && rem == old(Num()) % old(b.Num())
    {
      hide Value, Weight, Modulus, Pow2, BitOr, LowClear;
      ghost var n, d := Num(), b.Num();
      var div := new BaseUint.Copy(b);
      var num := new BaseUint.Copy(this);
      Clear();
      rem := n;
      var numBits := num.BitLength();
      var divBits := div.BitLength();
      if divBits == 0 {
        return false, rem;
      }
      ok := true;
      if divBits > numBits {
        SmallDividend(n, d, numBits, divBits);
        return;
      }
      var shift: int := numBits - divBits;
      Aligned(n, d, numBits, divBits);
      div.ShiftLeftAssign(shift);
      NoBits(pn[..], shift + 1);
      while shift >= 0
        invariant -1 <= shift < 256
        invariant div.Valid() && num.Valid() && fresh(div.pn) && fresh(num.pn) && div.pn != num.pn
        invariant LowClear(pn[..], shift + 1)
        invariant n == Num() * d + num.Num() && num.Num() < d * Pow2(shift + 1)
        invariant shift >= 0 ==> div.Num() == d * Pow2(shift)
      {
        DivStep(num, div, shift, n, d);
        if shift > 0 {
          Halve(d, shift);
        }
        div.ShiftRightAssign(1);
        shift := shift - 1;
      }
      rem := num.Num();
      Pow2Zero();
      ModUnique(n, d, Num(), rem);
    }
  }

  // ---------------------------------------------------------------- arithmetic of the loops

  lemma NoWords()
    ensures Value([]) == 0 && Weight(0) == 1
  {
  }

  lemma ModulusWeight()
    ensures Modulus() == Weight(WIDTH)
  {
  }

  /** One more word, and its weight. */
  lemma Next(s: seq<u32>, i: nat)
    requires i < |s|
    ensures Value(s[..i + 1]) == Value(s[..i]) + Weight(i) * s[i]
    ensures Weight(i + 1) == 0x1_0000_0000 * Weight(i)
  {
    ValueNext(s, i);
  }

  lemma NumBound(s: seq<u32>)
    requires |s| == WIDTH
    ensures Value(s) < Modulus()
  {
    ValueBound(s);
  }

  /** A word that wrapped passes the carry on. */
  lemma IncrementStep(s: seq<u32>, x: seq<u32>, i: nat)
    requires i < |s| == |x| && s[i] == 0 && x[i] == 0xFFFF_FFFF
    requires Value(s[..i]) + Weight(i) == Value(x[..i]) + 1
    ensures Value(s[..i + 1]) + Weight(i + 1) == Value(x[..i + 1]) + 1
  {
    hide *;
    Next(s, i);
    Next(x, i);
    assert Weight(i) * 0 == 0;
  }

  /** The words after an increment that stopped at word i. */
  lemma Incremented(x: seq<u32>, s: seq<u32>, i: nat)
    requires i < |x| == |s| == WIDTH && s[i + 1..] == x[i + 1..]
    requires s[i] == (x[i] as int + 1) % 0x1_0000_0000 && (s[i] == 0 ==> i == WIDTH - 1)
    requires Value(s[..i]) + Weight(i) == Value(x[..i]) + 1
    ensures Value(s) == (Value(x) + 1) % Modulus()
  {
    hide *;
    CarryOut(x, s, i, if s[i] == 0 then 1 else 0);
  }

  lemma CarryOut(x: seq<u32>, s: seq<u32>, i: nat, carry: nat)
    requires i < |x| == |s| == WIDTH && s[i + 1..] == x[i + 1..]
    requires s[i] as int == x[i] as int + 1 - carry * 0x1_0000_0000
    requires carry == 0 || (carry == 1 && i == WIDTH - 1)
    requires Value(s[..i]) + Weight(i) == Value(x[..i]) + 1
    ensures Value(s) == (Value(x) + 1) % Modulus()
  {
    hide *;
    ValueSplit(s, i + 1); ValueSplit(x, i + 1);
    Next(s, i); ValueNext(x, i);
    ValueBound(s);
    if carry == 1 {
      assert s[WIDTH..] == x[WIDTH..] == [];
      NoWords();
    }
    IncrementArithmetic(Value(s[..i]), Value(x[..i]), Weight(i), s[i], x[i], carry, Value(s[i + 1..]), Weight(i + 1));
    Reduced(Value(s), Value(x) + 1, carry);
  }

  lemma IncrementArithmetic(v: nat, vx: nat, w: nat, d: int, x: int, carry: nat, rest: nat, next: nat)
    requires v + w == vx + 1 && next == 0x1_0000_0000 * w && (carry == 0 || carry == 1)
    requires d == x + 1 - carry * 0x1_0000_0000
    ensures v + w * d + next * rest + carry * next == vx + w * x + next * rest + 1
  {
    if carry == 0 {
      assert w * d == w * x + w;
    } else {
      assert w * d == w * x + w - 0x1_0000_0000 * w;
    }
  }

  /** What is left in the carry is dropped. */
  lemma Reduced(v: nat, w: nat, carry: nat)
    requires v + carry * Weight(WIDTH) == w && v < Weight(WIDTH)
    ensures v == w % Modulus()
  {
    var m := Modulus();
    hide *;
    ModulusWeight();
    ModUnique(w, m, carry, v);
  }

  lemma AddStep(v: nat, c: nat, carry: nat, w: nat, vx: nat, vy: nat, x: nat, y: nat, d: nat)
    requires v + c * w == vx + vy && c + x + y == carry * 0x1_0000_0000 + d
    ensures v + w * d + carry * (0x1_0000_0000 * w) == vx + w * x + (vy + w * y)
  {
    assert w * (c + x + y) == w * (carry * 0x1_0000_0000 + d);
  }

  lemma MulStep(v: nat, c: nat, carry: nat, w: nat, vx: nat, f: nat, x: nat, d: nat)
    requires v + c * w == vx * f && c + f * x == carry * 0x1_0000_0000 + d
    ensures v + w * d + carry * (0x1_0000_0000 * w) == (vx + w * x) * f
  {
    assert w * (c + f * x) == w * (carry * 0x1_0000_0000 + d);
  }

  /** A product of two words with two more words added fits 64 bits. */
  lemma WordProduct(a: int, b: int, c: nat, d: nat)
    requires 0 <= a < 0x1_0000_0000 && 0 <= b < 0x1_0000_0000 && c < 0x1_0000_0000 && d < 0x1_0000_0000
    ensures 0 <= a * b && c + d + a * b < 0x1_0000_0000_0000_0000
  {
    MulBounds(a, b, 0xFFFF_FFFF, 0xFFFF_FFFF);
  }

  lemma OneMore(w: nat, x: int)
    ensures w * (x + 1) == w * x + w
  {
  }

  lemma SubModulo(x: nat, y: nat, m: nat)
    requires m > 0 && y < m
    ensures (x + (m - y) % m) % m == (x + m - y) % m
  {
    if y == 0 {
      ModUnique(m, m, 1, 0);
      ModUnique(x + m, m, x / m + 1, x % m);
    } else {
      ModUnique(m - y, m, 0, m - y);
    }
  }

  /** The highest word that is not zero. */
  lemma TopWord(s: seq<u32>, pos: nat)
    requires pos < |s| && forall j | pos < j < |s| :: s[j] == 0
    ensures Weight(pos) * s[pos] <= Value(s) < Weight(pos) * (s[pos] as int + 1)
  {
    hide Value, Weight;
    ValueSplit(s, pos + 1);
    ValueZero(s[pos + 1..]);
    ValueNext(s, pos);
    ValueBound(s[..pos]);
    OneMore(Weight(pos), s[pos]);
    assert Weight(pos + 1) * 0 == 0;
  }

  lemma TestBit(x: nat, bits: nat)
    requires x < Pow2(bits + 1)
    ensures x / Pow2(bits) % 2 == 1 <==> x >= Pow2(bits)
    ensures x / Pow2(bits) % 2 == 0 ==> x < Pow2(bits)
  {
    Pow2Step(bits);
    var p := Pow2(bits);
    hide Pow2;
    if x >= p {
      ModUnique(x, p, 1, x - p);
    } else {
      ModUnique(x, p, 0, x);
    }
  }

  lemma TopBit(s: seq<u32>, pos: nat, bits: nat)
    requires pos < |s| == WIDTH && bits <= 31 && Pow2(bits) <= s[pos] < Pow2(bits + 1)
    requires Weight(pos) * s[pos] <= Value(s) < Weight(pos) * (s[pos] as int + 1)
    ensures 32 * pos + bits + 1 <= 256 && Pow2(32 * pos + bits) <= Value(s) < Pow2(32 * pos + bits + 1)
  {
    hide Value, Weight, Pow2;
    WidthIs();
    WeightIsPow2(pos);
    Pow2Sum(32 * pos, bits);
    Pow2Sum(32 * pos, bits + 1);
    TopArithmetic(Weight(pos), s[pos], Pow2(bits), Pow2(bits + 1));
  }

  lemma TopArithmetic(w: nat, x: int, p: nat, q: nat)
    requires p <= x < q
    ensures w * p <= w * x && w * (x + 1) <= w * q
  {
  }

  // ---------------------------------------------------------------- shifts

  /** `x << s` and `x >> s` on a 32-bit word. */
  function ShiftL(x: u32, s: nat): u32 { Low32(x * Pow2(s)) }

  function ShiftR(x: u32, s: nat): nat { Quotient(x, Pow2(s)) }

  function Quotient(x: nat, d: nat): nat
    requires d > 0
  {
    x / d
  }

  lemma OrZero(x: nat, y: nat)
    ensures x == 0 ==> BitOr(x, y) == y
  {
  }

  lemma Pow2Parts(s: nat)
    requires s < 32
    ensures Pow2(s) * Pow2(32 - s) == 0x1_0000_0000
  {
    Pow2Sum(s, 32 - s);
    Pow2ThirtyTwo();
  }

  /** A shifted word has a low part, a multiple of 2^s, and a high part below 2^s. */
  lemma WordShift(x: u32, s: nat)
    requires s < 32
    ensures x * Pow2(s) == ShiftL(x, s) + 0x1_0000_0000 * ShiftR(x, 32 - s)
    ensures ShiftL(x, s) == Pow2(s) * (x % Pow2(32 - s))
    ensures ShiftR(x, 32 - s) < Pow2(s) && (s == 0 ==> ShiftR(x, 32 - s) == 0) && Pow2(s) <= 0x1_0000_0000
  {
    Pow2Parts(s);
    if s == 0 {
      Pow2Zero();
    }
    var p, q := Pow2(s), Pow2(32 - s);
    hide Pow2;
    ShiftParts(x, p, q);
    ModUnique(x * p, 0x1_0000_0000, x / q, p * (x % q));
  }

  lemma ShiftParts(x: nat, p: nat, q: nat)
    requires p > 0 && q > 0 && p * q == 0x1_0000_0000 && x < 0x1_0000_0000
    ensures x * p == p * (x % q) + 0x1_0000_0000 * (x / q) && 0 <= p * (x % q) < 0x1_0000_0000
    ensures x / q < p && p <= 0x1_0000_0000
  {
    var h, l := x / q, x % q;
    ShiftProducts(x, p, q, h, l);
  }

  lemma ShiftProducts(x: nat, p: nat, q: nat, h: nat, l: nat)
    requires p > 0 && q > 0 && p * q == 0x1_0000_0000 && x < 0x1_0000_0000 && x == h * q + l && l < q
    ensures x * p == p * l + 0x1_0000_0000 * h && p * l < 0x1_0000_0000 && h < p && p <= 0x1_0000_0000
  {
    assert x * p == h * (p * q) + p * l;
    assert p * l <= p * (q - 1) == p * q - p;
    if h >= p {
      MulBounds(p, q, h, q);
    }
    assert p * 1 <= p * q;
  }

  lemma OrLow(prev: nat, x: u32, s: nat)
    requires s < 32 && prev < Pow2(s)
    ensures BitOr(prev, ShiftL(x, s)) == prev + ShiftL(x, s) < 0x1_0000_0000
  {
    hide *;
    WordShift(x, s);
    Pow2Parts(s);
    var p, q := Pow2(s), Pow2(32 - s);
    OrDisjoint(prev, x % q, s);
    SumFits(prev, p, q, x % q);
  }

  lemma SumFits(prev: nat, p: nat, q: nat, l: nat)
    requires prev < p && l < q && p * q == 0x1_0000_0000
    ensures prev + p * l < 0x1_0000_0000
  {
    assert p * l <= p * (q - 1) == p * q - p;
  }

  lemma LeftStart(a: seq<u32>, k: nat, s: nat)
    ensures Weight(k) * (Pow2(s) * Value(a[..0])) == 0 && 0 < Pow2(s)
  {
    assert a[..0] == [];
    assert Pow2(s) * 0 == 0 && Weight(k) * 0 == 0;
  }

  /** The words after one step of a left shift: hi in the word above, where there was nothing, and lo added
      to its own word. */
  ghost predicate LeftWritten(j: nat, lo: nat, hi: nat, was: seq<u32>, now: seq<u32>)
    requires |was| == |now| == WIDTH
  {
    if j >= WIDTH then now == was
    else
      && was[j] + lo < 0x1_0000_0000
      && if j + 1 < WIDTH then was[j + 1] == 0 && hi < 0x1_0000_0000 && now == was[j + 1 := hi][j := was[j] + lo]
         else now == was[j := was[j] + lo]
  }

  /** One word of a left shift: what falls off the top is a multiple of 2^256. */
  lemma LeftStep(a: seq<u32>, i: nat, k: nat, p: nat, lo: nat, hi: nat, was: seq<u32>, now: seq<u32>, dropped: nat)
    returns (d: nat)
    requires i < |a| == |was| == |now| == WIDTH && a[i] * p == lo + 0x1_0000_0000 * hi
    requires i + k < WIDTH ==> dropped == 0
    requires Value(was) + dropped * Weight(WIDTH) == Weight(k) * (p * Value(a[..i]))
    requires LeftWritten(i + k, lo, hi, was, now)
    ensures i + 1 + k < WIDTH ==> d == 0
    ensures Value(now) + d * Weight(WIDTH) == Weight(k) * (p * Value(a[..i + 1]))
  {
    hide Value, Weight;
    ValueNext(a, i);
    WeightSum(k, i);
    LeftGrowth(Weight(k), p, Value(a[..i]), Weight(i), a[i], lo, hi);
    if i + k < WIDTH {
      d := LeftAdded(i + k, lo, hi, was, now);
    } else {
      WeightSum(WIDTH, i + k - WIDTH);
      d := dropped + Weight(i + k - WIDTH) * (a[i] * p);
      DropMore(dropped, Weight(WIDTH), Weight(i + k - WIDTH), a[i] * p);
    }
  }

  lemma LeftAdded(j: nat, lo: nat, hi: nat, was: seq<u32>, now: seq<u32>) returns (d: nat)
    requires |was| == |now| == WIDTH && j < WIDTH && LeftWritten(j, lo, hi, was, now)
    ensures j + 1 < WIDTH ==> d == 0
    ensures Value(now) + d * Weight(WIDTH) == Value(was) + Weight(j) * lo + 0x1_0000_0000 * Weight(j) * hi
  {
    hide Value, Weight;
    WeightStep(j);
    Low(Weight(j), was[j], lo);
    High(Weight(j), hi);
    if j + 1 < WIDTH {
      ValueUpdate(was, j + 1, hi);
      ValueUpdate(was[j + 1 := hi], j, was[j] + lo);
      d := 0;
    } else {
      ValueUpdate(was, j, was[j] + lo);
      assert hi * Weight(WIDTH) == Weight(j + 1) * hi;
      d := hi;
    }
  }

  lemma WeightStep(i: nat)
    ensures Weight(i + 1) == 0x1_0000_0000 * Weight(i)
  {
  }

  lemma LeftGrowth(wk: nat, p: nat, v: nat, wi: nat, x: nat, lo: nat, hi: nat)
    requires x * p == lo + 0x1_0000_0000 * hi
    ensures wk * (p * (v + wi * x)) == wk * (p * v) + wk * wi * lo + 0x1_0000_0000 * (wk * wi) * hi
    ensures wk * (p * (v + wi * x)) == wk * (p * v) + wk * wi * (x * p)
  {
    assert p * (v + wi * x) == p * v + wi * (x * p);
    assert wk * (wi * (x * p)) == wk * wi * (lo + 0x1_0000_0000 * hi);
  }

  lemma Low(w: nat, x: int, lo: nat)
    ensures w * (x + lo - x) == w * lo
  {
  }

  lemma High(w: nat, hi: nat)
    ensures 0x1_0000_0000 * w * (hi - 0) == 0x1_0000_0000 * w * hi
  {
  }

  lemma DropMore(d: nat, m: nat, w: nat, x: nat)
    ensures (d + w * x) * m == d * m + m * w * x
  {
  }

  lemma ShiftWeight(shift: nat, k: nat, s: nat, v: nat)
    requires shift == 32 * k + s
    ensures Weight(k) * (Pow2(s) * v) == v * Pow2(shift)
  {
    WeightIsPow2(k);
    Pow2Sum(32 * k, s);
    Regroup(Pow2(32 * k), Pow2(s), v);
  }

  lemma Regroup(a: nat, b: nat, v: nat)
    ensures a * (b * v) == v * (a * b)
  {
  }

  /** The two parts of a word shifted right, and the part that goes to the word below. */
  lemma RightWord(x: u32, s: nat)
    requires s < 32
    ensures var p, q := Pow2(s), Pow2(32 - s);
      && p * q == 0x1_0000_0000 && x == p * ShiftR(x, s) + x % p && ShiftR(x, s) < q && ShiftR(x, s) < 0x1_0000_0000
      && (s > 0 ==> ShiftL(x, 32 - s) == q * (x % p)) && (s == 0 ==> q * (x % p) == 0)
  {
    hide Pow2, Low32, ShiftL;
    Pow2Parts(s);
    var p, q := Pow2(s), Pow2(32 - s);
    if s == 0 {
      Pow2Zero();
      ModUnique(x, 1, x, 0);
      assert q * 0 == 0;
    } else {
      WordShift(x, 32 - s);
    }
    ShiftParts(x, q, p);
    RightParts(x, p);
  }

  lemma RightParts(x: nat, p: nat)
    requires p > 0 && x < 0x1_0000_0000
    ensures x == p * (x / p) + x % p && x / p < 0x1_0000_0000
  {
    QuotientBound(x, p, x / p, x % p);
  }

  lemma QuotientBound(x: nat, p: nat, h: nat, r: nat)
    requires p > 0 && x == p * h + r
    ensures h <= x
  {
    MulBounds(1, h, p, h);
  }

  /** A right shift by words and by p = 2^s, with q = 2^(32 - s), after i words. */
  ghost predicate RightDone(a: seq<u32>, i: nat, k: nat, p: nat, q: nat, now: seq<u32>)
    requires i <= |a| == |now| == WIDTH && p > 0
  {
    && (forall j | 0 <= j < WIDTH && j >= i - k :: now[j] == 0)
    && (if i <= k then Value(now) == 0
        else now[i - k - 1] < q && p * Value(now) + a[k] % p == Value(a[k..i]))
  }

  lemma RightNone(a: seq<u32>, k: nat, p: nat, q: nat, now: seq<u32>)
    requires |a| == |now| == WIDTH && p > 0 && Value(now) == 0 && forall j | 0 <= j < WIDTH :: now[j] == 0
    ensures RightDone(a, 0, k, p, q, now)
  {
  }

  lemma RightPrevious(a: seq<u32>, i: nat, k: nat, s: nat, now: seq<u32>)
    requires i < |a| == |now| == WIDTH && s < 32 && RightDone(a, i, k, Pow2(s), Pow2(32 - s), now)
    ensures i > k && s != 0 ==>
      BitOr(now[i - k - 1], ShiftL(a[i], 32 - s)) == now[i - k - 1] + ShiftL(a[i], 32 - s) < 0x1_0000_0000
    ensures i >= k ==> now[i - k] == 0
  {
    hide Value, Pow2, BitOr, ShiftL;
    if i > k && s != 0 {
      OrLow(now[i - k - 1], a[i], 32 - s);
    }
  }

  /** The words after one more step: h in its own word, and q l added to the word below. */
  ghost predicate RightWritten(i: nat, k: nat, h: nat, y: nat, was: seq<u32>, now: seq<u32>)
    requires i < |was| == |now| == WIDTH
  {
    if i < k then now == was
    else
      && h < 0x1_0000_0000 && was[i - k] == 0
      && if i == k then now == was[i - k := h]
         else was[i - k - 1] + y < 0x1_0000_0000 && now == was[i - k - 1 := was[i - k - 1] + y][i - k := h]
  }

  lemma RightStep(a: seq<u32>, i: nat, k: nat, p: nat, q: nat, h: nat, l: nat, y: nat, was: seq<u32>, now: seq<u32>)
    requires i < |a| == |was| == |now| == WIDTH && p > 0 && p * q == 0x1_0000_0000
    requires a[i] == p * h + l && l == a[i] % p && h < q && y == q * l
    requires RightDone(a, i, k, p, q, was) && RightWritten(i, k, h, y, was, now)
    ensures RightDone(a, i + 1, k, p, q, now)
  {
    hide Value, Weight;
    if i >= k {
      ValueNext(a[k..], i - k);
      assert a[k..][..i - k] == a[k..i] && a[k..][..i - k + 1] == a[k..i + 1];
      if i == k {
        RightFirst(a[i], was, now, h);
        assert a[k..k] == [];
      } else {
        RightLater(was, now, i - k, p, q, h, l, a[i]);
      }
    }
  }

  lemma RightFirst(x: u32, was: seq<u32>, now: seq<u32>, h: nat)
    requires |was| > 0 && was[0] == 0 && h < 0x1_0000_0000 && now == was[0 := h]
    ensures Value(now) == Value(was) + h && Value([]) == 0 && Weight(0) * x == x
  {
    ValueUpdate(was, 0, h);
  }

  lemma RightLater(was: seq<u32>, now: seq<u32>, j: nat, p: nat, q: nat, h: nat, l: nat, x: nat)
    requires 0 < j < |was| && was[j] == 0 && p * q == 0x1_0000_0000 && x == p * h + l
    requires h < 0x1_0000_0000 && was[j - 1] + q * l < 0x1_0000_0000
    requires now == was[j - 1 := was[j - 1] + q * l][j := h]
    ensures p * Value(now) == p * Value(was) + Weight(j) * x
  {
    hide Value, Weight;
    var mid := was[j - 1 := was[j - 1] + q * l];
    ValueUpdate(was, j - 1, was[j - 1] + q * l);
    ValueUpdate(mid, j, h);
    WeightStep(j - 1);
    RightGrowth(Value(was), p, q, l, h, x, Weight(j - 1), was[j - 1], q * l);
  }

  lemma RightGrowth(v: nat, p: nat, q: nat, l: nat, h: nat, x: nat, w: nat, d: int, y: nat)
    requires p * q == 0x1_0000_0000 && x == p * h + l && y == q * l
    ensures p * (v + w * (d + y - d) + 0x1_0000_0000 * w * (h - 0)) == p * v + 0x1_0000_0000 * w * x
  {
    assert w * (d + y - d) == w * y;
    assert p * (w * y) == w * (p * q) * l;
    assert p * (0x1_0000_0000 * w * h) == 0x1_0000_0000 * w * (p * h);
    assert 0x1_0000_0000 * w * x == 0x1_0000_0000 * w * (p * h) + 0x1_0000_0000 * w * l;
  }

  lemma RightEnd(a: seq<u32>, k: nat, s: nat, shift: nat, now: seq<u32>)
    requires |a| == |now| == WIDTH && s < 32 && shift == 32 * k + s
      && RightDone(a, WIDTH, k, Pow2(s), Pow2(32 - s), now)
    ensures Value(now) == Value(a) / Pow2(shift)
  {
    hide *;
    WeightIsPow2(k);
    Pow2Sum(32 * k, s);
    if WIDTH <= k {
      RightNothing(a, k, Pow2(s), Pow2(32 - s), now);
      ModUnique(Value(a), Pow2(shift), 0, Value(a));
    } else {
      var rest := RightRest(a, k, Pow2(s), Pow2(32 - s), now);
      ModUnique(Value(a), Pow2(shift), Value(now), rest);
    }
  }

  lemma RightNothing(a: seq<u32>, k: nat, p: nat, q: nat, now: seq<u32>)
    requires |a| == |now| == WIDTH && p > 0 && RightDone(a, WIDTH, k, p, q, now) && WIDTH <= k
    ensures Value(now) == 0 && Value(a) < Weight(k) * p
  {
    hide Value, Weight;
    ValueBound(a);
    WeightSum(WIDTH, k - WIDTH);
    TooFar(Weight(WIDTH), Weight(k - WIDTH), p);
  }

  lemma TooFar(m: nat, w: nat, p: nat)
    requires w > 0 && p > 0
    ensures m <= m * w * p
  {
    MulBounds(m, 1, m, w);
    MulBounds(m * w, 1, m * w, p);
  }

  lemma RightRest(a: seq<u32>, k: nat, p: nat, q: nat, now: seq<u32>) returns (rest: nat)
    requires |a| == |now| == WIDTH && p > 0 && RightDone(a, WIDTH, k, p, q, now) && k < WIDTH
    ensures rest < Weight(k) * p && Value(a) == Value(now) * (Weight(k) * p) + rest
  {
    hide Value, Weight;
    assert a[k..WIDTH] == a[k..];
    ValueSplit(a, k);
    ValueBound(a[..k]);
    var l := a[k] % p;
    rest := Value(a[..k]) + Weight(k) * l;
    RightQuotient(Value(a[..k]), Weight(k), p, Value(now), l);
  }

  lemma RightQuotient(low: nat, w: nat, p: nat, r: nat, l: nat)
    requires low < w && l < p
    ensures low + w * (p * r + l) == r * (w * p) + (low + w * l) && low + w * l < w * p
  {
    assert w * (p * r + l) == r * (w * p) + w * l;
    assert w * l + w == w * (l + 1) <= w * p;
  }

  // ---------------------------------------------------------------- multiplication

  lemma ZeroWord(x: int)
    ensures x * 0 == 0 && Low32(0) == 0 && High32(0) == 0
  {
  }

  lemma RowStep(v: nat, c: nat, carry: nat, wi: nat, wj: nat, w: nat, before: nat, x: nat, vy: nat, y: nat, old0: int,
      d: int)
    requires v + c * w == before + wj * (x * vy) && w == wi * wj
    requires c + old0 + x * y == carry * 0x1_0000_0000 + d
    ensures v + w * (d - old0) + carry * (0x1_0000_0000 * w) == before + wj * (x * (vy + wi * y))
  {
    assert w * (c + old0 + x * y) == w * (carry * 0x1_0000_0000 + d);
    assert wj * (x * (vy + wi * y)) == wj * (x * vy) + wi * wj * (x * y);
  }

  /** What a row of the product loses at the top. */
  lemma RowDrops(a: seq<u32>, j: nat, y: seq<u32>, dropped: nat, carry: nat, was: nat, now: nat) returns (d: nat)
    requires j < |a| == |y| == WIDTH
    requires was + dropped * Weight(WIDTH) == Value(a[..j]) * Value(y)
    requires now + carry * Weight(WIDTH) == was + Weight(j) * (a[j] * Value(y[..WIDTH - j]))
    ensures now + d * Weight(WIDTH) == Value(a[..j + 1]) * Value(y)
  {
    hide Value, Weight;
    ValueNext(a, j);
    ValueSplit(y, WIDTH - j);
    WeightSum(j, WIDTH - j);
    var top := Value(y[WIDTH - j..]);
    d := dropped + carry + a[j] * top;
    DropArithmetic(Weight(j), Weight(WIDTH - j), Weight(WIDTH), a[j], Value(y[..WIDTH - j]), top, Value(a[..j]),
      Value(y), dropped, carry);
  }

  lemma DropArithmetic(wj: nat, wr: nat, m: nat, x: nat, low: nat, top: nat, va: nat, vy: nat, dropped: nat, carry: nat)
    requires m == wj * wr && vy == low + wr * top
    ensures (va + wj * x) * vy == va * vy + wj * (x * low) + x * top * m
    ensures (dropped + carry + x * top) * m == dropped * m + carry * m + x * top * m
  {
    assert (va + wj * x) * vy == va * vy + wj * x * (low + wr * top);
    assert wj * x * (wr * top) == x * top * (wj * wr);
  }

  /** A square is a multiple of 4^k exactly when the root is one of 2^k. */
  lemma {:induction false} SquareMultiple(v: nat, k: nat)
    ensures v * v % Pow2(2 * k) == 0 <==> v % Pow2(k) == 0
  {
    if k == 0 {
    } else {
      Pow2Step(k - 1);
      Pow2Step(2 * k - 1);
      Pow2Step(2 * k - 2);
      assert 2 * (k - 1) == 2 * k - 2;
      var p, q := Pow2(k - 1), Pow2(2 * k - 2);
      SquareMultiple(v / 2, k - 1);
      hide Pow2;
      var u := v / 2;
      if v % 2 == 1 {
        OddSquare(v);
        OddMod(v * v, 2 * q);
        OddMod(v, p);
      } else {
        assert v == 2 * u && v * v == 4 * (u * u);
        ScaledMod(u * u, q, 4);
        ScaledMod(u, p, 2);
      }
    }
  }

  lemma OddSquare(v: nat)
    requires v % 2 == 1
    ensures v * v % 2 == 1
  {
    var u := v / 2;
    assert v * v == 2 * (2 * (u * u) + 2 * u) + 1;
  }

  lemma OddMod(x: nat, p: nat)
    requires x % 2 == 1 && p > 0
    ensures x % (2 * p) != 0
  {
    var q := x / (2 * p);
    assert x == 2 * (p * q) + x % (2 * p) by {
      assert 2 * p * q == 2 * (p * q);
    }
    HalfDouble(p * q);
  }

  lemma ScaledMod(x: nat, p: nat, c: nat)
    requires p > 0 && c > 0
    ensures c * p > 0 && c * x % (c * p) == c * (x % p)
    ensures c * x % (c * p) == 0 <==> x % p == 0
  {
    var q, r := x / p, x % p;
    assert c * x == q * (c * p) + c * r;
    assert c * r < c * p;
    ModUnique(c * x, c * p, q, c * r);
  }

  /** Multiplying an object by itself in place gives 0; that is the square modulo 2^256 exactly for the
      multiples of 2^128, so not for 1. */
  lemma SelfProduct(v: nat)
    ensures 0 == v * v % Modulus() <==> v % Pow2(128) == 0
    ensures 1 * 1 % Modulus() != 0
  {
    SquareMultiple(v, 128);
    ModulusIs();
    hide Modulus, Pow2;
  }

  // ---------------------------------------------------------------- division

  /** The bits below n are clear. */
  ghost predicate LowClear(s: seq<u32>, n: nat)
    requires |s| == WIDTH
  {
    && (forall j | 0 <= j < n / 32 && j < WIDTH :: s[j] == 0)
    && (n / 32 < WIDTH ==> s[n / 32] % Pow2(n % 32) == 0)
  }

  lemma NoBits(s: seq<u32>, n: nat)
    requires |s| == WIDTH && forall j | 0 <= j < WIDTH :: s[j] == 0
    ensures LowClear(s, n)
  {
    hide Pow2;
    ModUnique(0, Pow2(n % 32), 0, 0);
  }

  lemma LowerClear(s: seq<u32>, shift: nat)
    requires |s| == WIDTH && shift < 256 && LowClear(s, shift + 1)
    ensures LowClear(s, shift)
  {
    hide Pow2;
    var k, t := shift / 32, shift % 32;
    assert shift == 32 * k + t;
    if t < 31 {
      assert (shift + 1) / 32 == k && (shift + 1) % 32 == t + 1;
      Pow2Step(t);
      EvenMultiple(s[k], Pow2(t));
    } else {
      assert (shift + 1) / 32 == k + 1;
      ModUnique(0, Pow2(t), 0, 0);
    }
  }

  lemma EvenMultiple(x: nat, p: nat)
    requires p > 0 && x % (2 * p) == 0
    ensures x % p == 0
  {
    var q := x / (2 * p);
    assert x == q * (2 * p) == (2 * q) * p;
    ModUnique(x, p, 2 * q, 0);
  }

  /** Setting a bit below which all is clear is an addition. */
  lemma SetBit(s: seq<u32>, shift: nat)
    requires |s| == WIDTH && shift < 256 && LowClear(s, shift + 1)
    ensures var k := shift / 32; k < WIDTH && BitOr(s[k], Pow2(shift % 32)) < 0x1_0000_0000
    ensures var k := shift / 32; var t := s[k := BitOr(s[k], Pow2(shift % 32))];
      LowClear(t, shift) && Value(t) == Value(s) + Pow2(shift)
  {
    hide Value, Weight, Pow2, BitOr;
    var k, t := shift / 32, shift % 32;
    LowerClear(s, shift);
    SetWordBit(s[k], t, shift, s);
    ValueUpdate(s, k, BitOr(s[k], Pow2(t)));
    WeightIsPow2(k);
    Pow2Sum(32 * k, t);
    assert Weight(k) * (s[k] + Pow2(t) - s[k]) == Weight(k) * Pow2(t);
  }

  lemma SetWordBit(x: u32, t: nat, shift: nat, s: seq<u32>)
    requires |s| == WIDTH && shift < 256 && t == shift % 32 && x == s[shift / 32] && LowClear(s, shift + 1)
    ensures BitOr(x, Pow2(t)) == x + Pow2(t) < 0x1_0000_0000 && (x + Pow2(t)) % Pow2(t) == 0
  {
    hide *;
    var y := ClearWord(s, shift);
    OrBit(x, t, y);
    BitFits(x, t, y);
    MultipleMod(2 * y + 1, Pow2(t));
  }

  lemma OrBit(x: u32, t: nat, y: nat)
    requires x == Pow2(t + 1) * y
    ensures BitOr(x, Pow2(t)) == x + Pow2(t)
  {
    hide *;
    Pow2Step(t);
    OrDisjoint(Pow2(t), y, t + 1);
    OrCommutes(x, Pow2(t));
  }

  lemma BitFits(x: u32, t: nat, y: nat)
    requires t < 32 && x == Pow2(t + 1) * y
    ensures x + Pow2(t) < 0x1_0000_0000 && x + Pow2(t) == (2 * y + 1) * Pow2(t)
  {
    hide *;
    Pow2Step(t);
    Pow2Parts32(t);
    BelowWord(x, Pow2(t), Pow2(t + 1), y, Pow2(31 - t));
  }

  /** The word of a bit below which, and at which, all is clear. */
  lemma ClearWord(s: seq<u32>, shift: nat) returns (y: nat)
    requires |s| == WIDTH && shift < 256 && LowClear(s, shift + 1)
    ensures s[shift / 32] == Pow2(shift % 32 + 1) * y
  {
    hide Pow2;
    var k, t := shift / 32, shift % 32;
    assert shift == 32 * k + t;
    if t < 31 {
      assert (shift + 1) / 32 == k && (shift + 1) % 32 == t + 1;
      y := s[k] / Pow2(t + 1);
    } else {
      assert (shift + 1) / 32 == k + 1;
      y := 0;
      assert Pow2(t + 1) * 0 == 0;
    }
  }

  lemma Pow2Parts32(t: nat)
    requires t < 32
    ensures Pow2(t + 1) * Pow2(31 - t) == 0x1_0000_0000
  {
    hide *;
    Pow2Sum(t + 1, 31 - t);
    Pow2ThirtyTwo();
  }

  lemma BelowWord(x: nat, p: nat, q: nat, y: nat, c: nat)
    requires q == 2 * p && x == q * y && q * c == 0x1_0000_0000 && x < 0x1_0000_0000
    ensures x + p < 0x1_0000_0000 && x + p == (2 * y + 1) * p
  {
    if y >= c {
      MulBounds(q, c, q, y);
    }
    MulBounds(q, y + 1, q, c);
    assert q * (y + 1) == q * y + q;
    assert q * y == 2 * y * p;
  }

  lemma SmallDividend(n: nat, d: nat, nb: nat, db: nat)
    requires nb < db && (nb > 0 ==> n < Pow2(nb)) && (nb == 0 ==> n == 0) && Pow2(db - 1) <= d
    ensures n / d == 0 && n % d == n
  {
    if nb > 0 && nb < db - 1 {
      Pow2Monotone(nb, db - 1);
    }
    ModUnique(n, d, 0, n);
  }

  /** The divisor shifted under the dividend still fits, and reaches more than half of it. */
  lemma Aligned(n: nat, d: nat, nb: nat, db: nat)
    requires 1 <= db <= nb <= 256 && n < Pow2(nb) && Pow2(db - 1) <= d < Pow2(db)
    ensures d * Pow2(nb - db) % Modulus() == d * Pow2(nb - db)
    ensures n < d * Pow2(nb - db + 1)
  {
    Pow2Sum(db, nb - db);
    Pow2Sum(db - 1, nb - db + 1);
    ModulusIs();
    if nb < 256 {
      Pow2Monotone(nb, 256);
    }
    var x := d * Pow2(nb - db);
    hide Modulus, Pow2;
    AlignedProducts(d, Pow2(db), Pow2(nb - db), Pow2(db - 1), Pow2(nb - db + 1));
    ModUnique(x, Modulus(), 0, x);
  }

  lemma AlignedProducts(d: nat, p: nat, q: nat, p': nat, q': nat)
    requires p' <= d < p && q > 0
    ensures d * q < p * q && p' * q' <= d * q'
  {
  }

  lemma Subtract(r: nat, d: nat, s: seq<u32>)
    requires r >= d && |s| == WIDTH && r == Value(s)
    ensures (r + Modulus() - d) % Modulus() == r - d
  {
    NumBound(s);
    var m := Modulus();
    hide Value, Modulus;
    ModUnique(r + m - d, m, 1, r - d);
  }

  lemma QuotientBit(n: nat, q: nat, d: nat, r: nat, p: nat)
    requires n == q * d + r && r >= d * p && r < d * (2 * p)
    ensures n == (q + p) * d + (r - d * p) && r - d * p < d * p
  {
  }

  /** The shifted divisor is even until it is back in place. */
  lemma Halve(d: nat, shift: nat)
    requires shift > 0
    ensures d * Pow2(shift) / Pow2(1) == d * Pow2(shift - 1)
  {
    Pow2Step(shift - 1);
    Pow2Step(0);
    Pow2Zero();
    var p := Pow2(shift - 1);
    hide Pow2;
    assert d * (2 * p) == d * p * 2 + 0;
    ModUnique(d * (2 * p), 2, d * p, 0);
  }
}
