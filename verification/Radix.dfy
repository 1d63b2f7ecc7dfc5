/** Numerals in any base, most significant digit first. */
module Radix {
  import opened Primes

  function Pow(b: nat, k: nat): (r: nat)
    ensures b > 0 ==> r > 0
  {
    if k == 0 then 1 else b * Pow(b, k - 1)
  }

  predicate Digits(d: seq<nat>, b: nat) {
    forall i | 0 <= i < |d| :: d[i] < b
  }

  /** The number that a numeral stands for. */
  function Value(d: seq<nat>, b: nat): nat {
    if d == [] then 0 else d[0] * Pow(b, |d| - 1) + Value(d[1..], b)
  }

  /** The numeral without leading zeros. */
  function Numeral(v: nat, b: nat): seq<nat>
    requires b >= 2
  {
    if v == 0 then [] else Numeral(v / b, b) + [v % b]
  }

  /** How many zeros a numeral starts with. */
  function LeadingZeros(d: seq<nat>): (n: nat)
    ensures n <= |d| && (forall i | 0 <= i < n :: d[i] == 0) && (n < |d| ==> d[n] != 0)
  {
    if d == [] || d[0] != 0 then 0 else 1 + LeadingZeros(d[1..])
  }

  lemma {:induction false} PowSum(b: nat, j: nat, k: nat)
    ensures Pow(b, j + k) == Pow(b, j) * Pow(b, k)
  {
    if j == 0 {
    } else {
      PowSum(b, j - 1, k);
      Reassociate(b, Pow(b, j - 1), Pow(b, k));
    }
  }

  lemma Reassociate(a: nat, b: nat, c: nat)
    ensures a * (b * c) == a * b * c
  {
  }

  lemma {:induction false} PowPow(b: nat, j: nat, k: nat)
    ensures Pow(Pow(b, j), k) == Pow(b, j * k)
  {
    if k == 0 {
      assert j * k == 0;
    } else {
      PowPow(b, j, k - 1);
      PowSum(b, j, j * (k - 1));
      assert j + j * (k - 1) == j * k;
    }
  }

  lemma {:induction false} PowBase(a: nat, b: nat, k: nat)
    requires a <= b
    ensures Pow(a, k) <= Pow(b, k)
  {
    if k == 0 {
    } else {
      PowBase(a, b, k - 1);
      Monotone(a, b, Pow(a, k - 1), Pow(b, k - 1));
    }
  }

  lemma Monotone(a: nat, b: nat, c: nat, d: nat)
    requires a <= b && c <= d
    ensures a * c <= b * d
  {
    assert a * c <= b * c <= b * d;
  }

  lemma {:induction false} PowBaseStrict(a: nat, b: nat, k: nat)
    requires a < b && k > 0
    ensures Pow(a, k) < Pow(b, k)
  {
    if k > 1 {
      PowBaseStrict(a, b, k - 1);
      Monotone(a, b - 1, Pow(a, k - 1), Pow(b, k - 1));
      assert (b - 1) * Pow(b, k - 1) == b * Pow(b, k - 1) - Pow(b, k - 1);
    }
  }

  lemma PowExponent(b: nat, j: nat, k: nat)
    requires b > 0 && j <= k
    ensures Pow(b, j) <= Pow(b, k)
  {
    hide Pow;
    PowSum(b, j, k - j);
    Monotone(Pow(b, j), Pow(b, j), 1, Pow(b, k - j));
  }

  /** If a^m <= b^n then a^k fits into ceil(k n / m) digits of base b. */
  lemma FitsByRate(a: nat, b: nat, m: nat, n: nat, k: nat, size: nat)
    requires m > 0 && a > 0 && b > 0 && Pow(a, m) <= Pow(b, n) && n * k <= m * size
    ensures Pow(a, k) <= Pow(b, size)
  {
    var nk, ms := n * k, m * size;
    hide *;
    RateToPower(a, b, m, n, k);
    PowExponent(b, nk, ms);
    PowExchange(b, size, m);
    if Pow(a, k) > Pow(b, size) {
      PowBaseStrict(Pow(b, size), Pow(a, k), m);
    }
  }

  lemma RateToPower(a: nat, b: nat, m: nat, n: nat, k: nat)
    requires Pow(a, m) <= Pow(b, n)
    ensures Pow(Pow(a, k), m) <= Pow(b, n * k)
  {
    hide *;
    PowExchange(a, k, m);
    PowBase(Pow(a, m), Pow(b, n), k);
    PowPow(b, n, k);
  }

  lemma PowExchange(b: nat, j: nat, k: nat)
    ensures Pow(Pow(b, j), k) == Pow(Pow(b, k), j) == Pow(b, k * j)
  {
    hide Pow;
    PowPow(b, j, k);
    PowPow(b, k, j);
    assert j * k == k * j;
  }

  lemma Squares(b: nat)
    ensures Pow(b, 2) == b * b
    ensures Pow(b, 4) == Pow(b, 2) * Pow(b, 2) && Pow(b, 8) == Pow(b, 4) * Pow(b, 4)
    ensures Pow(b, 16) == Pow(b, 8) * Pow(b, 8) && Pow(b, 32) == Pow(b, 16) * Pow(b, 16)
    ensures Pow(b, 64) == Pow(b, 32) * Pow(b, 32)
  {
    PowTwo(b);
    hide Pow;
    PowSum(b, 2, 2); PowSum(b, 4, 4); PowSum(b, 8, 8); PowSum(b, 16, 16); PowSum(b, 32, 32);
  }

  lemma PowTwo(b: nat)
    ensures Pow(b, 0) == 1 && Pow(b, 1) == b && Pow(b, 2) == b * b
  {
    assert Pow(b, 1) == b * Pow(b, 0);
  }

  // ---------------------------------------------------------------- values

  lemma {:induction false} ValueAppend(d: seq<nat>, x: nat, b: nat)
    ensures Value(d + [x], b) == Value(d, b) * b + x
  {
    if d == [] {
      assert d + [x] == [x];
      assert Value([x], b) == x * Pow(b, 0) + Value([], b);
    } else {
      ValueAppend(d[1..], x, b);
      assert (d + [x])[1..] == d[1..] + [x];
      Distribute(d[0], Pow(b, |d| - 1), Value(d[1..], b), b, x);
    }
  }

  lemma Distribute(d: nat, p: nat, v: nat, b: nat, x: nat)
    ensures d * (b * p) + (v * b + x) == (d * p + v) * b + x
  {
  }

  lemma {:induction false} ValueBound(d: seq<nat>, b: nat)
    requires Digits(d, b)
    ensures Value(d, b) < Pow(b, |d|)
  {
    if d == [] {
    } else {
      ValueBound(d[1..], b);
      Monotone(d[0], b - 1, Pow(b, |d| - 1), Pow(b, |d| - 1));
      assert (b - 1) * Pow(b, |d| - 1) == b * Pow(b, |d| - 1) - Pow(b, |d| - 1);
    }
  }

  /** Leading zeros do not change the value. */
  lemma {:induction false} ValueZeros(d: seq<nat>, b: nat)
    ensures Value(d[LeadingZeros(d)..], b) == Value(d, b)
  {
    if d == [] || d[0] != 0 {
      assert d[0..] == d;
    } else {
      ValueZeros(d[1..], b);
      assert d[1..][LeadingZeros(d[1..])..] == d[LeadingZeros(d)..];
    }
  }

  lemma DivMod(v: nat, b: nat)
    requires b >= 2
    ensures v == v / b * b + v % b && 0 <= v % b < b && (v > 0 ==> v / b < v) && (v / b == 0 ==> v % b == v)
  {
  }

  lemma NumeralStep(v: nat, b: nat)
    requires b >= 2 && v > 0
    ensures v / b < v && v % b < b && Numeral(v, b) == Numeral(v / b, b) + [v % b]
    ensures v / b == 0 ==> Numeral(v, b) == [v % b]
  {
    DivMod(v, b);
  }

  lemma {:induction false} ValueOfNumeral(v: nat, b: nat)
    requires b >= 2
    ensures Value(Numeral(v, b), b) == v && Digits(Numeral(v, b), b)
    ensures v > 0 ==> Numeral(v, b) != [] && Numeral(v, b)[0] != 0
    ensures LeadingZeros(Numeral(v, b)) == 0
  {
    if v == 0 {
    } else {
      hide Numeral, Value, LeadingZeros;
      NumeralStep(v, b);
      DivMod(v, b);
      var q, x := v / b, v % b;
      ValueOfNumeral(q, b);
      ValueAppend(Numeral(q, b), x, b);
      NoLeadingZero(Numeral(v, b));
    }
  }

  lemma NoLeadingZero(d: seq<nat>)
    requires d != [] && d[0] != 0
    ensures LeadingZeros(d) == 0
  {
  }

  /** A numeral that does not start with zero is the one of its value. */
  lemma {:induction false} NumeralOfValue(d: seq<nat>, b: nat)
    requires b >= 2 && Digits(d, b) && LeadingZeros(d) == 0
    ensures Numeral(Value(d, b), b) == d
    decreases |d|
  {
    if d == [] {
    } else {
      var e, x := d[..|d| - 1], d[|d| - 1];
      assert d == e + [x];
      ValueAppend(e, x, b);
      ModUnique(Value(d, b), b, Value(e, b), x);
      NumeralOfValue(e, b);
      ValuePositive(d, b);
    }
  }

  lemma ValuePositive(d: seq<nat>, b: nat)
    requires b > 0 && d != [] && d[0] != 0
    ensures Value(d, b) > 0
  {
    Monotone(1, d[0], Pow(b, |d| - 1), Pow(b, |d| - 1));
  }

  /** Without its leading zeros, any numeral is the one of its value. */
  lemma StripIsNumeral(d: seq<nat>, b: nat)
    requires b >= 2 && Digits(d, b)
    ensures d[LeadingZeros(d)..] == Numeral(Value(d, b), b)
  {
    var e := d[LeadingZeros(d)..];
    assert LeadingZeros(e) == 0;
    ValueZeros(d, b);
    NumeralOfValue(e, b);
  }

  // ---------------------------------------------------------------- multiplying a numeral in place

  function Rem(x: nat, b: nat): nat
    requires b > 0
  {
    x % b
  }

  function Quot(x: nat, b: nat): nat
    requires b > 0
  {
    x / b
  }

  lemma Carry(x: nat, b: nat)
    requires b > 0
    ensures b * Quot(x, b) + Rem(x, b) == x && Rem(x, b) < b
  {
  }

  /** d := d * factor + carry, from the last digit to the first; what does not fit is returned. */
  method MultiplyAdd(d: array<nat>, b: nat, factor: nat, addend: nat) returns (carry: nat)
    requires b >= 2
    modifies d
    ensures Digits(d[..], b)
    ensures Value(d[..], b) + carry * Pow(b, d.Length) == old(Value(d[..], b)) * factor + addend
  {
    hide Pow, Value, Rem, Quot;
    var n := d.Length;
    ghost var was := d[..];
    carry := addend;
    Empty(b);
    var i := n;
    assert d[n..] == [] && was[n..] == [];
    while i > 0
      invariant 0 <= i <= n
      invariant d[..i] == was[..i]
      invariant Digits(d[i..], b)
      invariant Value(d[i..], b) + carry * Pow(b, n - i) == Value(was[i..], b) * factor + addend
    {
      i := i - 1;
      ghost var tail, wasTail := d[i + 1..], was[i + 1..];
      assert d[i] == d[..i + 1][i] == was[i];
      ghost var c := carry;
      carry := carry + factor * d[i];
      Carry(carry, b);
      d[i] := Rem(carry, b);
      carry := Quot(carry, b);
      assert d[i..] == [d[i]] + tail && was[i..] == [was[i]] + wasTail;
      Prepend(d[i], tail, b);
      Prepend(was[i], wasTail, b);
      DigitStep(d[i], carry, c, was[i], factor, b, Pow(b, n - i - 1), Value(tail, b), Value(wasTail, b), addend);
      assert d[..i] == was[..i];
    }
    assert d[0..] == d[..] && was[0..] == was;
  }

  lemma Empty(b: nat)
    ensures Value([], b) == 0 && Pow(b, 0) == 1
  {
  }

  lemma Prepend(x: nat, d: seq<nat>, b: nat)
    ensures Value([x] + d, b) == x * Pow(b, |d|) + Value(d, b)
    ensures Pow(b, |d| + 1) == b * Pow(b, |d|)
  {
    assert ([x] + d)[1..] == d;
  }

  lemma DigitStep(x: nat, carry: nat, c: nat, w: nat, factor: nat, b: nat, p: nat, v: nat, wv: nat, addend: nat)
    requires b * carry + x == c + factor * w && v + c * p == wv * factor + addend
    ensures x * p + v + carry * (b * p) == (w * p + wv) * factor + addend
  {
    assert (b * carry + x) * p == (c + factor * w) * p;
  }
}
