/** Congruence modulo the secp256k1 field characteristic p = 2^256 - 2^32 - 977. */
module PrimeField {
  import opened Primes

  const P := 0xFFFFFFFF_FFFFFFFF_FFFFFFFF_FFFFFFFF_FFFFFFFF_FFFFFFFF_FFFFFFFE_FFFFFC2F

  /** Field elements by their canonical representative. */
  type Fe = x: int | 0 <= x < 0xFFFFFFFF_FFFFFFFF_FFFFFFFF_FFFFFFFF_FFFFFFFF_FFFFFFFF_FFFFFFFE_FFFFFC2F

  /** The residue of an integer: p is added or subtracted until it is in range. */
  function Res(a: int): Fe
    decreases if a < 0 then 0xFFFFFFFF_FFFFFFFF_FFFFFFFF_FFFFFFFF_FFFFFFFF_FFFFFFFF_FFFFFFFE_FFFFFC2F - a else a
  {
    if a < 0 then Res(a + 0xFFFFFFFF_FFFFFFFF_FFFFFFFF_FFFFFFFF_FFFFFFFF_FFFFFFFF_FFFFFFFE_FFFFFC2F)
    else if a < 0xFFFFFFFF_FFFFFFFF_FFFFFFFF_FFFFFFFF_FFFFFFFF_FFFFFFFF_FFFFFFFE_FFFFFC2F then a
    else Res(a - 0xFFFFFFFF_FFFFFFFF_FFFFFFFF_FFFFFFFF_FFFFFFFF_FFFFFFFF_FFFFFFFE_FFFFFC2F)
  }

  /** Two integers stand for the same field element. */
  predicate Eq(a: int, b: int) {
    Res(a) == Res(b)
  }

  lemma ResPeriod(a: int)
    ensures Res(a + P) == Res(a)
  {
  }

  /** Congruence is equality up to a multiple of p. */
  lemma {:induction false} EqByMultiple(a: int, b: int, k: int)
    requires a - b == k * P
    ensures Eq(a, b)
    decreases if k < 0 then -k else k
  {
    if k > 0 {
      ResPeriod(a - P);
      EqByMultiple(a - P, b, k - 1);
    } else if k < 0 {
      ResPeriod(a);
      EqByMultiple(a + P, b, k + 1);
    }
  }

  lemma {:induction false} Quotient(a: int) returns (q: int)
    ensures a == Res(a) + q * P
    decreases if a < 0 then P - a else a
  {
    if a < 0 {
      q := Quotient(a + P);
      q := q - 1;
    } else if a < P {
      q := 0;
    } else {
      q := Quotient(a - P);
      q := q + 1;
    }
  }

  lemma EqMultiple(a: int, b: int) returns (k: int)
    requires Eq(a, b)
    ensures a - b == k * P
  {
    var q := Quotient(a);
    var r := Quotient(b);
    k := q - r;
  }

  /** The residue is the remainder. */
  lemma ResIsRemainder(a: int)
    ensures Res(a) == a % P
  {
    var q := Quotient(a);
    ModUnique(a, P, q, Res(a));
  }

  // ---------------------------------------------------------------- congruence is a ring congruence

  lemma EqAdd(a: int, a': int, b: int, b': int)
    requires Eq(a, a') && Eq(b, b')
    ensures Eq(a + b, a' + b') && Eq(a - b, a' - b')
  {
    var j := EqMultiple(a, a');
    var k := EqMultiple(b, b');
    hide *;
    EqByMultiple(a + b, a' + b', j + k);
    EqByMultiple(a - b, a' - b', j - k);
  }

  lemma EqMul(a: int, a': int, b: int, b': int)
    requires Eq(a, a') && Eq(b, b')
    ensures Eq(a * b, a' * b')
  {
    var j := EqMultiple(a, a');
    var k := EqMultiple(b, b');
    hide *;
    CongruentProducts(a, a', b, b', j, k, P);
    EqByMultiple(a * b, a' * b', a * k + j * b');
  }

  // ---------------------------------------------------------------- the field

  lemma ResOf(a: int)
    ensures Eq(Res(a), a)
  {
  }

  lemma Canonical(a: Fe, b: Fe)
    requires Eq(a, b)
    ensures a == b
  {
  }

  function Mul(a: Fe, b: Fe): (r: Fe)
    ensures Eq(r, a * b)
  {
    Res(a * b)
  }

  function Sqr(a: Fe): (r: Fe)
    ensures Eq(r, a * a)
  {
    Res(a * a)
  }

  function Add(a: Fe, b: Fe): (r: Fe)
    ensures Eq(r, a + b)
  {
    Res(a + b)
  }

  function Neg(a: Fe): (r: Fe)
    ensures Eq(r, 0 - a)
  {
    Res(0 - a)
  }

  /** `secp256k1_fe_mul_int`. */
  function MulInt(a: Fe, k: nat): (r: Fe)
    ensures Eq(r, k * a)
  {
    Res(k * a)
  }

  // ---------------------------------------------------------------- what primality gives

  ghost predicate PIsPrime() {
    IsPrime(P)
  }

  lemma Inverse(a: int) returns (b: int)
    requires PIsPrime() && !Eq(a, 0)
    ensures Eq(a * b, 1)
  {
    var r := Res(a);
    b := InverseExists(r, P);
    ResIsRemainder(r * b);
    EqMul(a, r, b, b);
  }

  /** A field has no zero divisors. */
  lemma Cancel(a: int, b: int, c: int)
    requires PIsPrime() && !Eq(a, 0) && Eq(a * b, a * c)
    ensures Eq(b, c)
  {
    var i := Inverse(a);
    hide *;
    EqMul(i, i, a * b, a * c);
    assert i * (a * b) == (a * i) * b && i * (a * c) == (a * i) * c;
    EqMul(a * i, 1, b, b);
    EqMul(a * i, 1, c, c);
  }

  lemma NonzeroProduct(a: int, b: int)
    requires PIsPrime() && !Eq(a, 0) && !Eq(b, 0)
    ensures !Eq(a * b, 0)
  {
    if Eq(a * b, 0) {
      assert a * 0 == 0;
      Cancel(a, b, 0);
    }
  }
}
