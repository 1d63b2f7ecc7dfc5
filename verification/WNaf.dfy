/** The windowed non-adjacent form of a scalar, as ecmult_impl.h computes it. */
module WNaf {
  import opened Powers
  import opened GroupOrder
  import opened Primes
  import opened Scalars
  import opened Words
  import ScalarBits
  import ScalarField
  import ScalarReduction

  /** The value of the first n digits. */
  function Value(d: seq<int>, n: nat): int
    requires n <= |d|
  {
    if n == 0 then 0 else Value(d, n - 1) + d[n - 1] * Pow2(n - 1)
  }

  /** What a digit may be: zero, or odd and below half a window. */
  predicate Digit(d: int, w: nat)
    requires w >= 1
  {
    d == 0 || (d % 2 != 0 && 0 - Pow2(w - 1) < d < Pow2(w - 1))
  }

  /** Nonzero digits are at least w apart. */
  ghost predicate Apart(d: seq<int>, w: nat) {
    forall i, j | 0 <= i < j < |d| && d[i] != 0 && d[j] != 0 :: j - i >= w
  }

  lemma {:induction false} ValuePrefix(d: seq<int>, e: seq<int>, n: nat)
    requires n <= |d| && n <= |e| && forall i | 0 <= i < n :: d[i] == e[i]
    ensures Value(d, n) == Value(e, n)
  {
    if n == 0 {
    } else {
      ValuePrefix(d, e, n - 1);
    }
  }

  lemma {:induction false} ValueZeros(d: seq<int>, m: nat, n: nat)
    requires m <= n <= |d| && forall i | m <= i < n :: d[i] == 0
    ensures Value(d, n) == Value(d, m)
  {
    if m == n {
    } else {
      ValueZeros(d, m, n - 1);
    }
  }

  /** One digit written over zeros. */
  lemma ValueWrite(d: seq<int>, bit: nat, next: nat, x: int)
    requires bit < next <= |d| && forall i | bit <= i < |d| :: d[i] == 0
    ensures Value(d[bit := x], next) == Value(d, bit) + x * Pow2(bit)
  {
    var e := d[bit := x];
    ValuePrefix(d, e, bit);
    ValueZeros(e, bit + 1, next);
  }

  // ---------------------------------------------------------------- the windows

  /** `(word >> (w-1)) & 1`. */
  function HighBit(word: int, w: nat): int
    requires w >= 1
  {
    word / Pow2(w - 1) % 2
  }

  /** The digit and carry that a window gives. */
  lemma WindowDigit(s: nat, bit: nat, now: nat, w: nat, carry: int, word: int, next: int)
    requires 1 <= now <= w && 2 <= w && 0 <= carry <= 1 && Bits(s, bit, 1) != carry
    requires word == Bits(s, bit, now) + carry && next == HighBit(word, w)
    requires now < w ==> s < Pow2(bit + now - 1)
    ensures 0 < word < Pow2(w) && word % 2 != 0
    ensures next == 0 || next == 1
    ensures next == 1 ==> now == w && s >= Pow2(bit + w - 1)
    ensures Digit(word - next * Pow2(w), w) && word - next * Pow2(w) != 0
  {
    hide *;
    var half := Pow2(w - 1);
    Pow2Step(w - 1);
    Pow2Step(w - 2);
    WindowWord(s, bit, now, carry);
    if now < w {
      ShortWindow(s, bit, now);
      Pow2Monotone(now - 1, w - 1);
    }
    WordHalf(word, w);
    if word >= half {
      BitsTop(s, bit, w);
    }
    DigitOf(word, next, w);
  }

  lemma DigitOf(word: int, next: int, w: nat)
    requires w >= 2 && 0 < word < Pow2(w) && word % 2 == 1 && word != Pow2(w - 1)
    requires next == if word >= Pow2(w - 1) then 1 else 0
    ensures Digit(word - next * Pow2(w), w) && word - next * Pow2(w) != 0
  {
    Pow2Step(w - 1);
    hide Pow2;
    assert next * Pow2(w) == if next == 1 then Pow2(w) else 0;
  }

  /** The lowest bit of a window differs from the carry, so their sum is odd. */
  lemma WindowWord(s: nat, bit: nat, now: nat, carry: int)
    requires 1 <= now && 0 <= carry <= 1 && Bits(s, bit, 1) != carry
    ensures (Bits(s, bit, now) + carry) % 2 == 1 && 0 < Bits(s, bit, now) + carry && Bits(s, bit, now) < Pow2(now)
    ensures Pow2(now) % 2 == 0
  {
    hide *;
    BitsParity(s, bit, now);
    BitsBelow(s, bit, 1);
    BitsBelow(s, bit, now);
    Pow2Step(0);
    Pow2Zero();
    Pow2Step(now - 1);
  }

  lemma WordHalf(word: int, w: nat)
    requires w >= 1 && 0 <= word < 2 * Pow2(w - 1)
    ensures HighBit(word, w) == if word >= Pow2(w - 1) then 1 else 0
  {
    var half := Pow2(w - 1);
    hide Pow2;
    if word >= half {
      ModUnique(word, half, 1, word - half);
    } else {
      ModUnique(word, half, 0, word);
    }
  }

  /** The window at the end is short, but its top bit is clear. */
  lemma ShortWindow(s: nat, bit: nat, now: nat)
    requires now >= 1 && s < Pow2(bit + now - 1)
    ensures Bits(s, bit, now) < Pow2(now - 1)
  {
    if Bits(s, bit, now) >= Pow2(now - 1) {
      BitsTop(s, bit, now);
    }
  }

  /** What has been read, in digits and carry. */
  predicate ReadSoFar(s: nat, d: seq<int>, bit: nat, sign: int, carry: int)
    requires bit <= |d|
  {
    sign * (s % Pow2(bit)) == Value(d, bit) + sign * carry * Pow2(bit)
  }

  lemma Skip(s: nat, d: seq<int>, bit: nat, sign: int, carry: int)
    requires bit < |d| && ReadSoFar(s, d, bit, sign, carry) && d[bit] == 0
    requires Bits(s, bit, 1) == carry
    ensures ReadSoFar(s, d, bit + 1, sign, carry)
  {
    BitsSplit(s, bit, 1);
    assert Pow2(bit + 1) == 2 * Pow2(bit);
    SkipArithmetic(s % Pow2(bit), Value(d, bit), sign, carry, Pow2(bit));
  }

  lemma SkipArithmetic(low: int, v: int, sign: int, carry: int, p: int)
    requires sign * low == v + sign * carry * p
    ensures sign * (low + p * carry) == v + sign * carry * (2 * p)
  {
  }

  lemma Take(s: nat, d: seq<int>, bit: nat, now: nat, w: nat, sign: int, carry: int, word: int, next: int)
    requires bit + now <= |d| && 1 <= now && ReadSoFar(s, d, bit, sign, carry)
    requires forall i | bit <= i < |d| :: d[i] == 0
    requires word == Bits(s, bit, now) + carry && (next == 0 || (next == 1 && now == w))
    ensures ReadSoFar(s, d[bit := sign * (word - next * Pow2(w))], bit + now, sign, next)
  {
    var x := sign * (word - next * Pow2(w));
    BitsSplit(s, bit, now);
    Pow2Sum(bit, now);
    ValueWrite(d, bit, bit + now, x);
    TakeArithmetic(s % Pow2(bit), Value(d, bit), sign, carry, Pow2(bit), Bits(s, bit, now), next * Pow2(w), Pow2(now),
      next);
  }

  lemma TakeArithmetic(low: int, v: int, sign: int, carry: int, p: int, b: int, e: int, q: int, next: int)
    requires sign * low == v + sign * carry * p && e == next * q
    ensures sign * (low + p * b) == v + sign * (b + carry - e) * p + sign * next * (p * q)
  {
    assert sign * next * (p * q) == sign * e * p;
  }

  // ---------------------------------------------------------------- the recoding

  /** The scalar whose bits are read: the negation when the top bit is set. */
  function Stripped(a: nat): nat
    requires a < N
  {
    if Bits(a, 255, 1) == 1 then N - a else a
  }

  /** The stripped scalar has at most 255 bits. */
  lemma StrippedBelow(a: nat)
    requires a < N
    ensures Stripped(a) < Pow2(255)
  {
    Pow2Values();
    assert Pow2(1) == 2;
    hide Pow2;
  }

  /** `secp256k1_ecmult_wnaf`. The scalar must fit the length, as the final checks of the source demand;
      for length 256 every scalar does. */
  method Recode(wnaf: array<int>, a: array<u64>, w: nat) returns (bits: nat)
    requires a.Length == 4 && Number(a[..]) < N && 1 <= wnaf.Length <= 256 && 2 <= w <= 31
    requires Stripped(Number(a[..])) < Pow2(wnaf.Length - 1)
    modifies wnaf
    ensures var n := old(Number(a[..])); Value(wnaf[..], wnaf.Length) == if Stripped(n) == n then n else n - N
    ensures forall i | 0 <= i < wnaf.Length :: Digit(wnaf[i], w)
    ensures Apart(wnaf[..], w)
    ensures bits <= wnaf.Length && forall i | bits <= i < wnaf.Length :: wnaf[i] == 0
    ensures forall l: nat | old(Stripped(Number(a[..]))) < Pow2(l) :: bits <= l + 1
  {
    hide *;
    ghost var n := Number(a[..]);
    var s, sign := Strip(a);
    var carry;
    bits, carry := Digits(wnaf, s, w, sign, n);
    assert carry == 0;
    CheckAbove(s, wnaf.Length);
  }

  /** A copy of the scalar, negated when its top bit is set. */
  method Strip(a: array<u64>) returns (s: array<u64>, sign: int)
    requires a.Length == 4 && Number(a[..]) < N
    ensures fresh(s) && s.Length == 4 && Number(s[..]) == Stripped(Number(a[..]))
    ensures if Bits(Number(a[..]), 255, 1) != 0 then sign == -1 else sign == 1
  {
    hide Bits, Number, ScalarBits.GetBits, ScalarField.ModN;
    s := new u64[4](i requires 0 <= i < 4 reads a => a[i]);
    assert s[..] == a[..];
    sign := 1;
    ScalarBits.GetBitsReads(s[..], 255, 1);
    NumberIs(s[..]);
    ghost var n := Number(s[..]);
    var top := ScalarBits.GetBits(s[..], 255, 1);
    if top != 0 {
      ScalarReduction.Negate(s, s);
      NumberIs(s[..]);
      NegatedScalar(n);
      sign := -1;
    }
    TopBit(n);
  }

  lemma NegatedScalar(n: nat)
    requires n < N && Bits(n, 255, 1) != 0
    ensures ScalarField.ModN(0 - n) == N - n
  {
    BitsNonzero(n, 255);
    NegatedMod(n);
  }

  lemma BitsNonzero(n: nat, offset: nat)
    requires Bits(n, offset, 1) != 0
    ensures n != 0
  {
  }

  lemma TopBit(n: nat)
    ensures Bits(n, 255, 1) < 2
  {
    hide *;
    BitsBelow(n, 255, 1);
    Pow2One();
  }

  lemma Pow2One()
    ensures Pow2(1) == 2
  {
  }

  /** Where the loop stands at a bit: the digits written so far, the position of the last one, the carry. */
  ghost predicate Recoded(n: nat, d: seq<int>, bit: nat, last: int, w: nat, sign: int, carry: int)
    requires w >= 1
  {
    && bit <= |d| && (carry == 0 || carry == 1)
    && -1 <= last < bit && (last >= 0 ==> last + w <= bit || bit == |d|)
    && (forall i | last < i < |d| :: d[i] == 0)
    && ReadSoFar(n, d, bit, sign, carry)
    && (carry == 1 ==> bit > 0 && n >= Pow2(bit - 1))
    && (last >= 0 ==> 2 * n >= Pow2(last))
    && (forall i | 0 <= i < |d| :: Digit(d[i], w))
    && Apart(d, w)
  }

  /** A bit that equals the carry. */
  lemma SkipStep(n: nat, d: seq<int>, bit: nat, last: int, w: nat, sign: int, carry: int)
    requires w >= 1 && bit < |d| && Recoded(n, d, bit, last, w, sign, carry) && Bits(n, bit, 1) == carry
    ensures Recoded(n, d, bit + 1, last, w, sign, carry)
  {
    hide Pow2, Bits, Digit, ReadSoFar;
    Skip(n, d, bit, sign, carry);
    if carry == 1 {
      BitsReach(n, bit, 1);
    }
  }

  /** A window, and the digit it gives. */
  lemma TakeStep(n: nat, d: seq<int>, bit: nat, last: int, w: nat, sign: int, carry: int, now: nat, word: int,
      next: int)
    requires w >= 2 && bit < |d| && Recoded(n, d, bit, last, w, sign, carry) && Bits(n, bit, 1) != carry
    requires n < Pow2(|d| - 1) && (sign == 1 || sign == -1) && now == if w > |d| - bit then |d| - bit else w
    requires word == Bits(n, bit, now) + carry && next == HighBit(word, w)
    ensures Recoded(n, d[bit := sign * (word - next * Pow2(w))], bit + now, bit, w, sign, next)
  {
    hide Pow2, Bits, Digit, ReadSoFar;
    WindowDigit(n, bit, now, w, carry, word, next);
    Reach(n, bit, carry);
    Signed(sign, word - next * Pow2(w), w);
    Take(n, d, bit, now, w, sign, carry, word, next);
  }

  /** The windows, from the lowest bit up. */
  method Digits(wnaf: array<int>, s: array<u64>, w: nat, sign: int, ghost a: nat) returns (bits: nat, carry: int)
    requires a < N && s.Length == 4 && 1 <= wnaf.Length <= 256 && 2 <= w <= 31
    requires Number(s[..]) == Stripped(a) < Pow2(wnaf.Length - 1)
    requires if Bits(a, 255, 1) != 0 then sign == -1 else sign == 1
    modifies wnaf
    ensures Value(wnaf[..], wnaf.Length) == (if Stripped(a) == a then a else a - N) && carry == 0
    ensures forall i | 0 <= i < wnaf.Length :: Digit(wnaf[i], w)
    ensures Apart(wnaf[..], w)
    ensures bits <= wnaf.Length && forall i | bits <= i < wnaf.Length :: wnaf[i] == 0
    ensures forall l: nat | Stripped(a) < Pow2(l) :: bits <= l + 1
    ensures s[..] == old(s[..])
  {
    hide *;
    var len := wnaf.Length;
    ghost var limbs, n := s[..], Number(s[..]);
    Clear(wnaf);
    var bit, last := 0, -1;
    carry := 0;
    Begin(a, n, sign, wnaf[..], w);
    while bit < len
      invariant s[..] == limbs && 0 <= bit <= len
      invariant Recoded(n, wnaf[..], bit, last, w, sign, carry)
    {
      ReadsOne(limbs, bit);
      if ScalarBits.GetBits(s[..], bit, 1) == carry {
        SkipStep(n, wnaf[..], bit, last, w, sign, carry);
        bit := bit + 1;
        continue;
      }
      var now := w;
      if now > len - bit {
        now := len - bit;
      }
      ReadsWindow(limbs, bit, now);
      var word := ScalarBits.GetBitsVar(s[..], bit, now) + carry;
      var next := HighBit(word, w);
      TakeStep(n, wnaf[..], bit, last, w, sign, carry, now, word, next);
      ghost var was := wnaf[..];
      carry := next;
      word := word - carry * Pow2(w);
      wnaf[bit] := sign * word;
      assert wnaf[..] == was[bit := sign * word];
      last := bit;
      bit := bit + now;
    }
    bits := Ended(a, n, wnaf[..], last, w, sign, carry);
  }

  /** `memset`. */
  method Clear(wnaf: array<int>)
    modifies wnaf
    ensures forall i | 0 <= i < wnaf.Length :: wnaf[i] == 0
  {
    for i := 0 to wnaf.Length
      invariant forall j | 0 <= j < i :: wnaf[j] == 0
    {
      wnaf[i] := 0;
    }
  }

  /** The number of digits in use. */
  method Ended(ghost a: nat, ghost n: nat, ghost d: seq<int>, last: int, ghost w: nat, ghost sign: int,
      ghost carry: int)
    returns (bits: nat)
    requires a < N && n == Stripped(a) && w >= 1 && 1 <= |d| && n < Pow2(|d| - 1)
    requires if Bits(a, 255, 1) != 0 then sign == -1 else sign == 1
    requires Recoded(n, d, |d|, last, w, sign, carry)
    ensures Value(d, |d|) == (if n == a then a else a - N) && carry == 0
    ensures bits <= |d| && (forall i | bits <= i < |d| :: d[i] == 0) && (forall l: nat | n < Pow2(l) :: bits <= l + 1)
    ensures (forall i | 0 <= i < |d| :: Digit(d[i], w)) && Apart(d, w)
  {
    hide Pow2, Bits, Digit, Value, ReadSoFar, Stripped, Apart;
    Finish(a, n, sign, d, carry);
    bits := last + 1;
    forall l: nat | n < Pow2(l) ensures bits <= l + 1 {
      LastBit(n, last, l);
    }
  }

  lemma ReadsOne(a: seq<u64>, bit: nat)
    requires |a| == 4 && bit < 256
    ensures ScalarBits.GetBits(a, bit, 1) == Bits(Number(a), bit, 1)
  {
    ScalarBits.GetBitsReads(a, bit, 1);
  }

  lemma ReadsWindow(a: seq<u64>, bit: nat, now: nat)
    requires |a| == 4 && 1 <= now < 32 && bit + now <= 256
    ensures ScalarBits.GetBitsVar(a, bit, now) == Bits(Number(a), bit, now)
  {
    ScalarBits.GetBitsVarReads(a, bit, now);
  }

  /** The last check of the source: nothing is set above the digits. */
  method CheckAbove(s: array<u64>, len: nat)
    requires s.Length == 4 && 1 <= len <= 256 && Number(s[..]) < Pow2(len - 1)
  {
    hide *;
    var bit := len;
    while bit < 256
      invariant len <= bit <= 256
    {
      ReadsOne(s[..], bit);
      NothingAbove(Number(s[..]), len - 1, bit);
      assert ScalarBits.GetBits(s[..], bit, 1) == 0;
      bit := bit + 1;
    }
  }

  lemma NothingAbove(n: nat, k: nat, bit: nat)
    requires n < Pow2(k) && k <= bit
    ensures Bits(n, bit, 1) == 0
  {
    if k < bit {
      Pow2Monotone(k, bit);
    }
    hide Pow2;
    ModUnique(n, Pow2(bit), 0, n);
  }

  lemma Begin(a: nat, s: nat, sign: int, d: seq<int>, w: nat)
    requires a < N && s == Stripped(a) && 1 <= |d| && w >= 2 && forall i | 0 <= i < |d| :: d[i] == 0
    requires sign == 1 || sign == -1
    ensures Recoded(s, d, 0, -1, w, sign, 0)
  {
  }

  lemma Reach(s: nat, bit: nat, carry: int)
    requires Bits(s, bit, 1) != carry && (carry == 0 || (carry == 1 && bit > 0 && s >= Pow2(bit - 1)))
    ensures 2 * s >= Pow2(bit)
  {
    if carry == 0 {
      BitsReach(s, bit, 1);
    } else {
      assert Pow2(bit) == 2 * Pow2(bit - 1);
    }
  }

  lemma Signed(sign: int, d: int, w: nat)
    requires w >= 1 && (sign == 1 || sign == -1) && Digit(d, w) && d != 0
    ensures Digit(sign * d, w) && sign * d != 0
  {
  }

  /** At the end nothing is left in the carry, so the digits are the number. */
  lemma Finish(a: nat, s: nat, sign: int, d: seq<int>, carry: int)
    requires a < N && s == Stripped(a) && 1 <= |d| && s < Pow2(|d| - 1)
    requires ReadSoFar(s, d, |d|, sign, carry) && (sign == 1 || sign == -1)
    requires sign == -1 <==> Bits(a, 255, 1) != 0
    requires carry == 0 || (carry == 1 && s >= Pow2(|d| - 1))
    ensures Value(d, |d|) == (if Stripped(a) == a then a else a - N) && carry == 0
  {
    assert Pow2(1) == 2;
    Pow2Monotone(|d| - 1, |d|);
    ModUnique(s, Pow2(|d|), 0, s);
    assert N - a != a by { assert N % 2 == 1; }
  }

  lemma LastBit(s: nat, last: int, l: nat)
    requires -1 <= last && (last >= 0 ==> 2 * s >= Pow2(last)) && s < Pow2(l)
    ensures last <= l
  {
    if last >= 0 {
      assert Pow2(l + 1) == 2 * Pow2(l);
      Pow2Below(last, l + 1);
    }
  }
}
