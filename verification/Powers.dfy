/** Powers of two, and the bits of a number. */
module Powers {
  import opened Primes

  function Pow2(k: nat): (r: nat)
    ensures r > 0
  {
    if k == 0 then 1 else 2 * Pow2(k - 1)
  }

  lemma {:induction false} Pow2Sum(j: nat, k: nat)
    ensures Pow2(j + k) == Pow2(j) * Pow2(k)
  {
    if j == 0 {
    } else {
      Pow2Sum(j - 1, k);
      assert 2 * (Pow2(j - 1) * Pow2(k)) == 2 * Pow2(j - 1) * Pow2(k);
    }
  }

  lemma Pow2Step(k: nat)
    ensures Pow2(k + 1) == 2 * Pow2(k)
  {
  }

  lemma Pow2Sixteen()
    ensures Pow2(8) == 256 && Pow2(16) == 0x10000
  {
    assert Pow2(2) == 4;
    Pow2Sum(2, 2);
    Pow2Sum(4, 4);
    Pow2Sum(8, 8);
  }

  lemma Pow2Values()
    ensures Pow2(64) == 0x1_00000000_00000000
    ensures Pow2(255) == 0x80000000_00000000_00000000_00000000_00000000_00000000_00000000_00000000
    ensures Pow2(256) == 0x1_00000000_00000000_00000000_00000000_00000000_00000000_00000000_00000000
  {
    hide *;
    Pow2Sixteen();
    Pow2Sum(16, 16);
    Pow2Sum(32, 32);
    Pow2Sum(64, 64);
    Pow2Sum(128, 128);
    Pow2Step(255);
  }

  lemma {:induction false} Pow2Monotone(j: nat, k: nat)
    requires j < k
    ensures 2 * Pow2(j) <= Pow2(k)
  {
    if k > j + 1 {
      Pow2Monotone(j, k - 1);
    }
  }

  lemma Pow2Below(j: nat, k: nat)
    requires Pow2(j) < Pow2(k)
    ensures j < k
  {
    if k < j {
      Pow2Monotone(k, j);
    }
  }

  /** Bits offset, ..., offset + count - 1 of a number. */
  function Bits(s: nat, offset: nat, count: nat): nat {
    s / Pow2(offset) % Pow2(count)
  }

  /** A remainder by a product, digit by digit. */
  lemma ModProduct(s: nat, a: nat, b: nat)
    requires a > 0 && b > 0
    ensures a * b > 0 && s % (a * b) == s % a + a * (s / a % b)
    ensures s / (a * b) == s / a / b
  {
    var q, r := s / a, s % a;
    var q2, r2 := q / b, q % b;
    TwoDigits(s, a, b, q, r, q2, r2);
    ModUnique(s, a * b, q2, r + a * r2);
  }

  lemma TwoDigits(s: nat, a: nat, b: nat, q: nat, r: nat, q2: nat, r2: nat)
    requires s == q * a + r && r < a && q == q2 * b + r2 && r2 < b
    ensures a * b > 0 && s == q2 * (a * b) + (r + a * r2) && r + a * r2 < a * b
  {
    Distribute(q2, b, r2, a);
    DigitBound(a, b, r, r2);
  }

  lemma Distribute(x: int, y: int, z: int, a: int)
    ensures (x * y + z) * a == x * (a * y) + a * z
  {
  }

  lemma DigitBound(a: int, b: int, r: int, r2: int)
    requires 0 <= r < a && 0 <= r2 < b
    ensures 0 <= r + a * r2 < a * b
  {
    var rest := b - 1 - r2;
    NatProduct(a, rest);
    NatProduct(a, r2);
    Distribute(1, r2, rest, a);
    assert a * b == a * (1 + (r2 + rest));
    Distribute(1, 1, r2 + rest, a);
  }

  lemma NatProduct(a: int, b: int)
    requires 0 <= a && 0 <= b
    ensures 0 <= a * b
  {
  }

  lemma BitsBelow(s: nat, offset: nat, count: nat)
    ensures Bits(s, offset, count) < Pow2(count)
  {
    hide Pow2;
  }

  lemma Pow2Zero()
    ensures Pow2(0) == 1
  {
  }

  lemma BitsSplit(s: nat, offset: nat, count: nat)
    ensures s % Pow2(offset + count) == s % Pow2(offset) + Pow2(offset) * Bits(s, offset, count)
  {
    Pow2Sum(offset, count);
    ModProduct(s, Pow2(offset), Pow2(count));
  }

  /** A nonzero window means that the number reaches its lowest bit. */
  lemma BitsReach(s: nat, offset: nat, count: nat)
    requires Bits(s, offset, count) > 0
    ensures s >= Pow2(offset)
  {
    hide Pow2;
    var a, m := Pow2(offset), Pow2(count);
    if s < a {
      ModUnique(s, a, 0, s);
      ModUnique(0, m, 0, 0);
    }
  }

  /** The lowest bit of a window. */
  lemma BitsParity(s: nat, offset: nat, count: nat)
    requires count > 0
    ensures Bits(s, offset, count) % 2 == Bits(s, offset, 1)
  {
    var t := s / Pow2(offset);
    var m := Pow2(count - 1);
    ModProduct(t, 2, m);
    assert Pow2(1) == 2;
    ModUnique(t % 2 + 2 * (t / 2 % m), 2, t / 2 % m, t % 2);
  }

  /** A window whose top half is reached means that the number reaches the window's top bit. */
  lemma BitsTop(s: nat, offset: nat, count: nat)
    requires count > 0 && Bits(s, offset, count) >= Pow2(count - 1)
    ensures s >= Pow2(offset + count - 1)
  {
    hide Pow2;
    var a := Pow2(offset);
    AtMost(s / a, Pow2(count));
    Pow2Sum(offset, count - 1);
    Multiply(s, a, Pow2(count - 1));
  }

  lemma Multiply(s: nat, a: nat, c: nat)
    requires a > 0 && s / a >= c
    ensures s >= a * c
  {
    assert s >= s / a * a;
    assert s / a * a >= c * a;
  }

  lemma AtMost(t: nat, m: nat)
    requires m > 0
    ensures t % m <= t
  {
    if t < m {
      ModUnique(t, m, 0, t);
    }
  }

  /** Bitwise or. */
  function BitOr(x: nat, y: nat): nat
    decreases x
  {
    if x == 0 then y
    else (if x % 2 == 1 || y % 2 == 1 then 1 else 0) + 2 * BitOr(x / 2, y / 2)
  }

  lemma {:induction false} OrWithZero(x: nat)
    ensures BitOr(x, 0) == x
  {
    if x == 0 {
    } else {
      OrWithZero(x / 2);
    }
  }

  /** Without common bits it is a sum. */
  lemma {:induction false} OrDisjoint(x: nat, y: nat, k: nat)
    requires x < Pow2(k)
    ensures BitOr(x, Pow2(k) * y) == x + Pow2(k) * y
    decreases k
  {
    if k == 0 {
      assert x == 0;
    } else if x > 0 {
      var p := Pow2(k - 1);
      assert Pow2(k) * y == 2 * (p * y);
      HalfDouble(p * y);
      OrDisjoint(x / 2, y, k - 1);
    }
  }

  lemma HalfDouble(z: nat)
    ensures 2 * z / 2 == z && 2 * z % 2 == 0
  {
  }

  lemma {:induction false} OrCommutes(x: nat, y: nat)
    ensures BitOr(x, y) == BitOr(y, x)
    decreases x + y
  {
    if x == 0 {
      OrWithZero(y);
    } else if y == 0 {
      OrWithZero(x);
    } else {
      OrCommutes(x / 2, y / 2);
    }
  }

  /** Bitwise and. */
  function BitAnd(x: nat, y: nat): nat
    decreases x
  {
    if x == 0 then 0
    else (if x % 2 == 1 && y % 2 == 1 then 1 else 0) + 2 * BitAnd(x / 2, y / 2)
  }

  lemma {:induction false} AndWithZero(x: nat)
    ensures BitAnd(x, 0) == 0
  {
    if x == 0 {
    } else {
      AndWithZero(x / 2);
    }
  }

  /** A mask of ones keeps what it covers. */
  lemma {:induction false} AndWithOnes(x: nat, k: nat)
    requires x < Pow2(k)
    ensures BitAnd(x, Pow2(k) - 1) == x
    decreases k
  {
    if k == 0 || x == 0 {
    } else {
      HalfOnes(Pow2(k - 1));
      AndWithOnes(x / 2, k - 1);
    }
  }

  lemma HalfOnes(p: nat)
    requires p > 0
    ensures (2 * p - 1) / 2 == p - 1 && (2 * p - 1) % 2 == 1
  {
  }

  function BitXor(x: nat, y: nat): nat
    decreases x
  {
    if x == 0 then y
    else (if x % 2 != y % 2 then 1 else 0) + 2 * BitXor(x / 2, y / 2)
  }

  lemma Halves(x: nat)
    ensures x == 2 * (x / 2) + x % 2 && (x % 2 == 0 || x % 2 == 1)
  {
  }

  /** An OR is zero only when both words are. */
  lemma {:induction false} OrIsZero(x: nat, y: nat)
    ensures BitOr(x, y) == 0 <==> x == 0 && y == 0
    decreases x
  {
    if x == 0 {
    } else {
      OrIsZero(x / 2, y / 2);
      Halves(x);
    }
  }

  /** An AND is all ones only when both words are. */
  lemma {:induction false} AndIsOnes(x: nat, y: nat, k: nat)
    requires x < Pow2(k) && y < Pow2(k)
    ensures BitAnd(x, y) < Pow2(k)
    ensures BitAnd(x, y) == Pow2(k) - 1 <==> x == Pow2(k) - 1 && y == Pow2(k) - 1
    decreases k
  {
    if k == 0 {
    } else {
      Halves(x);
      Halves(y);
      AndIsOnes(x / 2, y / 2, k - 1);
    }
  }

  /** An XOR is all ones only for complements. */
  lemma {:induction false} XorIsOnes(x: nat, y: nat, k: nat)
    requires x < Pow2(k) && y < Pow2(k)
    ensures BitXor(x, y) < Pow2(k)
    ensures BitXor(x, y) == Pow2(k) - 1 <==> x + y == Pow2(k) - 1
    decreases k
  {
    if k == 0 {
    } else {
      Halves(x);
      Halves(y);
      XorIsOnes(x / 2, y / 2, k - 1);
    }
  }

  lemma Pow2FiftyTwo()
    ensures Pow2(52) == 0x10_0000_0000_0000
  {
    hide *;
    Pow2Sixteen();
    Pow2Sum(16, 16);
    Pow2Sum(32, 16);
    Pow2Step(48);
    Pow2Step(49);
    Pow2Step(50);
    Pow2Step(51);
  }
}
