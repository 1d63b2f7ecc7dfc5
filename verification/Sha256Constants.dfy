/** The bit functions and the constants of SHA-256 as FIPS 180-4 describes them in words: sections 4.1.2, 4.2.2 and
    5.3.3. The rounds of the schedule and the unrolled code share these definitions. */
module Sha256Constants {
  import opened Primes
  import opened Sha256Compression
  import Sha256

  // ---------------------------------------------------------------- rotations, bit by bit

  /** The place of a bit in a word; places are added modulo 32. */
  type Place = bv5

  /** Bit i of a word, from the right. */
  function Bit(x: Word, i: Place): Word { (x >> i) & 1 }

  lemma BitOfSum(x: Word, y: Word, z: Word, i: Place)
    ensures Bit(x ^ y ^ z, i) == Bit(x, i) ^ Bit(y, i) ^ Bit(z, i)
  {
  }

  /** Each bit of the result is the exclusive or of three bits of the word, so many places to the left, cyclically. */
  lemma Sigma0Bits(x: Word, i: Place)
    ensures Bit(Sigma0(x), i) == Bit(x, i + 2) ^ Bit(x, i + 13) ^ Bit(x, i + 22)
  {
    Sigma0Parts(x, i);
    BitOfSum((x >> 2) | (x << 30), (x >> 13) | (x << 19), (x >> 22) | (x << 10), i);
  }

  lemma Sigma0Parts(x: Word, i: Place)
    ensures Bit((x >> 2) | (x << 30), i) == Bit(x, i + 2)
    ensures Bit((x >> 13) | (x << 19), i) == Bit(x, i + 13)
    ensures Bit((x >> 22) | (x << 10), i) == Bit(x, i + 22)
  {
  }

  lemma Sigma1Bits(x: Word, i: Place)
    ensures Bit(Sigma1(x), i) == Bit(x, i + 6) ^ Bit(x, i + 11) ^ Bit(x, i + 25)
  {
    Sigma1Parts(x, i);
    BitOfSum((x >> 6) | (x << 26), (x >> 11) | (x << 21), (x >> 25) | (x << 7), i);
  }

  lemma Sigma1Parts(x: Word, i: Place)
    ensures Bit((x >> 6) | (x << 26), i) == Bit(x, i + 6)
    ensures Bit((x >> 11) | (x << 21), i) == Bit(x, i + 11)
    ensures Bit((x >> 25) | (x << 7), i) == Bit(x, i + 25)
  {
  }

  /** Here the third bit comes from a shift, which runs out of bits at the left end. */
  lemma LowerSigma0Bits(x: Word, i: Place)
    ensures Bit(LowerSigma0(x), i) == Bit(x, i + 7) ^ Bit(x, i + 18) ^ (if i < 29 then Bit(x, i + 3) else 0)
  {
    LowerSigma0Parts(x, i);
    BitOfSum((x >> 7) | (x << 25), (x >> 18) | (x << 14), x >> 3, i);
  }

  lemma LowerSigma0Parts(x: Word, i: Place)
    ensures Bit((x >> 7) | (x << 25), i) == Bit(x, i + 7)
    ensures Bit((x >> 18) | (x << 14), i) == Bit(x, i + 18)
    ensures Bit(x >> 3, i) == if i < 29 then Bit(x, i + 3) else 0
  {
  }

  lemma LowerSigma1Bits(x: Word, i: Place)
    ensures Bit(LowerSigma1(x), i) == Bit(x, i + 17) ^ Bit(x, i + 19) ^ (if i < 22 then Bit(x, i + 10) else 0)
  {
    LowerSigma1Parts(x, i);
    BitOfSum((x >> 17) | (x << 15), (x >> 19) | (x << 13), x >> 10, i);
  }

  lemma LowerSigma1Parts(x: Word, i: Place)
    ensures Bit((x >> 17) | (x << 15), i) == Bit(x, i + 17)
    ensures Bit((x >> 19) | (x << 13), i) == Bit(x, i + 19)
    ensures Bit(x >> 10, i) == if i < 22 then Bit(x, i + 10) else 0
  {
  }

  // ---------------------------------------------------------------- the first 64 primes

  const PRIMES: seq<seq<nat>> :=
    [[2, 3, 5, 7, 11, 13, 17, 19],
     [23, 29, 31, 37, 41, 43, 47, 53],
     [59, 61, 67, 71, 73, 79, 83, 89],
     [97, 101, 103, 107, 109, 113, 127, 131],
     [137, 139, 149, 151, 157, 163, 167, 173],
     [179, 181, 191, 193, 197, 199, 211, 223],
     [227, 229, 233, 239, 241, 251, 257, 263],
     [269, 271, 277, 281, 283, 293, 307, 311]]

  /** The t-th prime, counted from 0. */
  function PrimeAt(t: nat): nat
    requires t < 64
  {
    PRIMES[t / 8][t % 8]
  }

  /** No prime up to 17 divides the number, unless it is that prime. */
  predicate Sifted(m: int) {
    && (m % 2 == 0 ==> m == 2) && (m % 3 == 0 ==> m == 3) && (m % 5 == 0 ==> m == 5) && (m % 7 == 0 ==> m == 7)
    && (m % 11 == 0 ==> m == 11) && (m % 13 == 0 ==> m == 13) && (m % 17 == 0 ==> m == 17)
  }

  lemma DividesFurther(m: int, f: int, p: int, k: int)
    requires f == p * k && p > 0 && f > 0 && m % f == 0
    ensures m % p == 0
  {
    var q := m / f;
    assert m == (k * q) * p;
    MultipleMod(k * q, p);
  }

  /** A number with a small proper divisor is not sifted. */
  lemma SmallDivisor(m: int, f: int)
    requires 1 < f <= 17 && f < m && m % f == 0
    ensures !Sifted(m)
  {
    if f % 2 == 0 {
      DividesFurther(m, f, 2, f / 2);
    } else if f % 3 == 0 {
      DividesFurther(m, f, 3, f / 3);
    } else if f % 5 == 0 {
      DividesFurther(m, f, 5, f / 5);
    }
  }

  lemma ProductSign(a: int, b: int)
    requires a >= 0 && b >= 0
    ensures a * b >= 0
  {
  }

  lemma CoBounds(m: int, d: int, e: int)
    requires 1 < d < m && m == d * e
    ensures 1 < e < m && (m < 324 ==> d <= 17 || e <= 17)
  {
    if e <= 1 {
      ProductSign(d, 1 - e);
    }
    if e >= m {
      ProductSign(d - 2, e);
    }
    if d >= 18 && e >= 18 {
      ProductSign(d - 18, e - 18);
    }
  }

  lemma CoDivisor(m: int, d: int) returns (e: int)
    requires 1 < d < m && m % d == 0
    ensures 1 < e < m && m % e == 0 && (m < 324 ==> d <= 17 || e <= 17)
  {
    e := m / d;
    CoBounds(m, d, e);
    MultipleMod(d, e);
  }

  lemma SiftedIsPrime(m: nat)
    requires 1 < m < 324 && Sifted(m)
    ensures IsPrime(m)
  {
    hide Sifted;
    forall d: nat | 1 < d < m ensures m % d != 0 {
      if m % d == 0 {
        var e := CoDivisor(m, d);
        SmallDivisor(m, if d <= 17 then d else e);
      }
    }
  }

  lemma UnsiftedIsComposite(m: nat)
    requires 1 < m && !Sifted(m)
    ensures !IsPrime(m)
  {
  }

  /** The number is one of the next fourteen. */
  predicate Near(m: int, p: int) {
    || m == p + 1 || m == p + 2 || m == p + 3 || m == p + 4 || m == p + 5 || m == p + 6 || m == p + 7
    || m == p + 8 || m == p + 9 || m == p + 10 || m == p + 11 || m == p + 12 || m == p + 13 || m == p + 14
  }

  lemma Row0(t: int, p: int, q: int, m: int)
    requires 0 <= t < 8 && p == PrimeAt(t) && q == PrimeAt(t + 1)
    ensures 1 < p < q && Sifted(p) && (p < m < q ==> !Sifted(m))
  {
    if p < m < q {
      assert Near(m, p);
    }
  }

  lemma Row1(t: int, p: int, q: int, m: int)
    requires 8 <= t < 16 && p == PrimeAt(t) && q == PrimeAt(t + 1)
    ensures 1 < p < q && Sifted(p) && (p < m < q ==> !Sifted(m))
  {
    if p < m < q {
      assert Near(m, p);
    }
  }

  lemma Row2(t: int, p: int, q: int, m: int)
    requires 16 <= t < 24 && p == PrimeAt(t) && q == PrimeAt(t + 1)
    ensures 1 < p < q && Sifted(p) && (p < m < q ==> !Sifted(m))
  {
    if p < m < q {
      assert Near(m, p);
    }
  }

  lemma Row3(t: int, p: int, q: int, m: int)
    requires 24 <= t < 32 && p == PrimeAt(t) && q == PrimeAt(t + 1)
    ensures 1 < p < q && Sifted(p) && (p < m < q ==> !Sifted(m))
  {
    if p < m < q {
      assert Near(m, p);
    }
  }

  lemma Row4(t: int, p: int, q: int, m: int)
    requires 32 <= t < 40 && p == PrimeAt(t) && q == PrimeAt(t + 1)
    ensures 1 < p < q && Sifted(p) && (p < m < q ==> !Sifted(m))
  {
    if p < m < q {
      assert Near(m, p);
    }
  }

  lemma Row5(t: int, p: int, q: int, m: int)
    requires 40 <= t < 48 && p == PrimeAt(t) && q == PrimeAt(t + 1)
    ensures 1 < p < q && Sifted(p) && (p < m < q ==> !Sifted(m))
  {
    if p < m < q {
      assert Near(m, p);
    }
  }

  lemma Row6(t: int, p: int, q: int, m: int)
    requires 48 <= t < 56 && p == PrimeAt(t) && q == PrimeAt(t + 1)
    ensures 1 < p < q && Sifted(p) && (p < m < q ==> !Sifted(m))
  {
    if p < m < q {
      assert Near(m, p);
    }
  }

  lemma Row7(t: int, p: int, q: int, m: int)
    requires 56 <= t < 63 && p == PrimeAt(t) && q == PrimeAt(t + 1)
    ensures 1 < p < q && Sifted(p) && (p < m < q ==> !Sifted(m))
  {
    if p < m < q {
      assert Near(m, p);
    }
  }

  lemma Sieve(t: int, m: int)
    requires 0 <= t < 63
    ensures 1 < PrimeAt(t) < PrimeAt(t + 1) && Sifted(PrimeAt(t))
    ensures PrimeAt(t) < m < PrimeAt(t + 1) ==> !Sifted(m)
  {
    hide *;
    var p, q := PrimeAt(t), PrimeAt(t + 1);
    if t < 8 {
      Row0(t, p, q, m);
    } else if t < 16 {
      Row1(t, p, q, m);
    } else if t < 24 {
      Row2(t, p, q, m);
    } else if t < 32 {
      Row3(t, p, q, m);
    } else if t < 40 {
      Row4(t, p, q, m);
    } else if t < 48 {
      Row5(t, p, q, m);
    } else if t < 56 {
      Row6(t, p, q, m);
    } else {
      Row7(t, p, q, m);
    }
  }

  lemma Ends()
    ensures PrimeAt(0) == 2 && PrimeAt(63) == 311 && Sifted(PrimeAt(63))
  {
  }

  lemma {:induction false} AtMostLast(t: nat)
    requires t < 64
    ensures PrimeAt(t) <= PrimeAt(63)
    decreases 63 - t
  {
    hide *;
    if t < 63 {
      Sieve(t, 0);
      AtMostLast(t + 1);
    }
  }

  /** The list starts with 2, and each entry is the next prime after the one before. */
  lemma FirstPrimes(t: nat)
    requires t < 64
    ensures IsPrime(PrimeAt(t))
    ensures PrimeAt(0) == 2
    ensures t > 0 ==> PrimeAt(t - 1) < PrimeAt(t) && forall m: nat | PrimeAt(t - 1) < m < PrimeAt(t) :: !IsPrime(m)
  {
    hide *;
    Ends();
    AtMostLast(t);
    if t < 63 {
      Sieve(t, 0);
    }
    SiftedIsPrime(PrimeAt(t));
    if t > 0 {
      Sieve(t - 1, 0);
      forall m: nat | PrimeAt(t - 1) < m < PrimeAt(t) ensures !IsPrime(m) {
        Sieve(t - 1, m);
        UnsiftedIsComposite(m);
      }
    }
  }

  // ---------------------------------------------------------------- the constants

  /** a is the integer part of the square root of n. */
  predicate SquareRoot(a: nat, n: nat) {
    a * a <= n < (a + 1) * (a + 1)
  }

  /** a is the integer part of the cube root of n. */
  predicate CubeRoot(a: nat, n: nat) {
    a * a * a <= n < (a + 1) * (a + 1) * (a + 1)
  }

  /** The integer part of the cube root of one of the primes. */
  function Cubic(p: nat): nat {
    if p < 8 then 1 else if p < 27 then 2 else if p < 64 then 3 else if p < 125 then 4 else if p < 216 then 5 else 6
  }

  lemma Roots0(t: nat, k: int, p: int, c: int)
    requires 0 <= t < 16 && k == K(t) as int && p == PrimeAt(t) && c == Cubic(p)
    ensures CubeRoot(0x1_0000_0000 * c + k, 0x1_0000_0000_0000_0000_0000_0000 * p)
  {
  }

  lemma Roots1(t: nat, k: int, p: int, c: int)
    requires 16 <= t < 32 && k == K(t) as int && p == PrimeAt(t) && c == Cubic(p)
    ensures CubeRoot(0x1_0000_0000 * c + k, 0x1_0000_0000_0000_0000_0000_0000 * p)
  {
  }

  lemma Roots2(t: nat, k: int, p: int, c: int)
    requires 32 <= t < 48 && k == K(t) as int && p == PrimeAt(t) && c == Cubic(p)
    ensures CubeRoot(0x1_0000_0000 * c + k, 0x1_0000_0000_0000_0000_0000_0000 * p)
  {
  }

  lemma Roots3(t: nat, k: int, p: int, c: int)
    requires 48 <= t < 64 && k == K(t) as int && p == PrimeAt(t) && c == Cubic(p)
    ensures CubeRoot(0x1_0000_0000 * c + k, 0x1_0000_0000_0000_0000_0000_0000 * p)
  {
  }

  /** Section 4.2.2: the t-th constant consists of the first 32 bits of the fractional part of the cube root of the
      t-th prime. With the integer part c in front they are the integer part of 2^32 times that root. */
  lemma RoundConstants(t: nat) returns (c: nat)
    requires t < 64
    ensures CubeRoot(0x1_0000_0000 * c + K(t) as nat, 0x1_0000_0000_0000_0000_0000_0000 * PrimeAt(t))
  {
    hide *;
    var k: int, p: int := K(t) as int, PrimeAt(t);
    c := Cubic(p);
    if t < 16 {
      Roots0(t, k, p, c);
    } else if t < 32 {
      Roots1(t, k, p, c);
    } else if t < 48 {
      Roots2(t, k, p, c);
    } else {
      Roots3(t, k, p, c);
    }
  }

  /** Section 5.3.3: the words of the initial hash value are the first 32 bits of the fractional parts of the square
      roots of the first eight primes. */
  lemma InitialWords(t: nat) returns (c: nat)
    requires t < 8
    ensures var s := Sha256.INITIAL;
      SquareRoot(0x1_0000_0000 * c + [s.a, s.b, s.c, s.d, s.e, s.f, s.g, s.h][t] as nat,
        0x1_0000_0000_0000_0000 * PrimeAt(t))
  {
    var p := PrimeAt(t);
    c := if p < 4 then 1 else if p < 9 then 2 else if p < 16 then 3 else 4;
  }
}
