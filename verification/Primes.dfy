/** The inverse that a prime modulus gives to every number it does not divide. */
module Primes {

  ghost predicate IsPrime(m: nat) {
    m > 1 && forall d: nat | 1 < d < m :: m % d != 0
  }

  /** Bezout's identity, by the Euclidean algorithm. */
  lemma {:induction false} Bezout(a: nat, b: nat) returns (g: nat, u: int, v: int)
    requires a > 0 || b > 0
    ensures g > 0 && u * a + v * b == g && a % g == 0 && b % g == 0
    decreases b
  {
    if b == 0 {
      g, u, v := a, 1, 0;
    } else {
      var q, r := a / b, a % b;
      var s, t;
      g, s, t := Bezout(b, r);
      u, v := t, s - q * t;
      calc {
        u * a + v * b;
        t * a + (s - q * t) * b;
        { assert a == q * b + r; }
        t * (q * b + r) + (s - q * t) * b;
        s * b + t * r;
        g;
      }
      DividesSum(b, r, q, g);
    }
  }

  lemma DividesSum(b: nat, r: nat, q: nat, g: nat)
    requires g > 0 && b % g == 0 && r % g == 0
    ensures (q * b + r) % g == 0
  {
    var m, n := b / g, r / g;
    assert q * b + r == (q * m + n) * g by {
      assert b == m * g && r == n * g;
    }
    MultipleMod(q * m + n, g);
  }

  lemma MultipleMod(k: int, g: nat)
    requires g > 0
    ensures (k * g) % g == 0
  {
    ModUnique(k * g, g, k, 0);
  }

  lemma AtLeast(k: int, m: nat)
    requires k >= 1
    ensures k * m >= m
  {
  }

  lemma TwoDivisions(m: nat, q: int, r: int, q2: int, r2: int)
    requires q * m + r == q2 * m + r2 && 0 <= r < m && 0 <= r2 < m
    ensures q == q2 && r == r2
  {
    assert (q - q2) * m == r2 - r;
    assert (q2 - q) * m == r - r2;
    if q > q2 {
      AtLeast(q - q2, m);
    } else if q < q2 {
      AtLeast(q2 - q, m);
    }
  }

  /** Quotient and remainder are unique. */
  lemma ModUnique(x: int, m: nat, q: int, r: int)
    requires m > 0 && x == q * m + r && 0 <= r < m
    ensures x / m == q && x % m == r
  {
    assert x == (x / m) * m + x % m;
    TwoDivisions(m, q, r, x / m, x % m);
  }

  /** Below a prime, every positive number has an inverse. */
  lemma InverseExists(a: nat, m: nat) returns (b: nat)
    requires IsPrime(m) && 0 < a < m
    ensures b < m && (a * b) % m == 1
  {
    var g, u, v := Bezout(a, m);
    DivisorBound(a, g);
    assert g == 1;
    b := u % m;
    var k := u / m;
    assert a * b == (-v - k * a) * m + 1 by {
      assert u == k * m + b;
      assert u * a == (k * m + b) * a == k * a * m + a * b;
    }
    ModUnique(a * b, m, -v - k * a, 1);
  }

  lemma DivisorBound(a: nat, g: nat)
    requires a > 0 && g > 0 && a % g == 0
    ensures g <= a
  {
  }

  /** Products of congruent numbers differ by a multiple of the modulus. */
  lemma CongruentProducts(a: int, a': int, b: int, b': int, j: int, k: int, m: int)
    requires a - a' == j * m && b - b' == k * m
    ensures a * b - a' * b' == (a * k + j * b') * m
  {
    assert a * b - a' * b' == a * (b - b') + (a - a') * b';
    assert a * (k * m) + j * m * b' == (a * k + j * b') * m;
  }
}
