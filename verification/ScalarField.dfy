/** Congruence modulo the group order n. */
module ScalarField {
  import opened GroupOrder
  import opened Primes

  /** Scalars by their canonical representative. */
  type Scalar = x: int | 0 <= x < 0xFFFFFFFF_FFFFFFFF_FFFFFFFF_FFFFFFFE_BAAEDCE6_AF48A03B_BFD25E8C_D0364141

  /** The residue of an integer modulo n: n is added or subtracted until it is in range. */
  function ModN(x: int): Scalar
    decreases if x < 0 then 0xFFFFFFFF_FFFFFFFF_FFFFFFFF_FFFFFFFE_BAAEDCE6_AF48A03B_BFD25E8C_D0364141 - x else x
  {
    if x < 0 then ModN(x + 0xFFFFFFFF_FFFFFFFF_FFFFFFFF_FFFFFFFE_BAAEDCE6_AF48A03B_BFD25E8C_D0364141)
    else if x < 0xFFFFFFFF_FFFFFFFF_FFFFFFFF_FFFFFFFE_BAAEDCE6_AF48A03B_BFD25E8C_D0364141 then x
    else ModN(x - 0xFFFFFFFF_FFFFFFFF_FFFFFFFF_FFFFFFFE_BAAEDCE6_AF48A03B_BFD25E8C_D0364141)
  }

  predicate EqN(a: int, b: int) {
    ModN(a) == ModN(b)
  }

  lemma ModNPeriod(a: int)
    ensures ModN(a + N) == ModN(a)
  {
  }

  lemma {:induction false} EqNByMultiple(a: int, b: int, k: int)
    requires a - b == k * N
    ensures EqN(a, b)
    decreases if k < 0 then -k else k
  {
    if k > 0 {
      ModNPeriod(a - N);
      EqNByMultiple(a - N, b, k - 1);
    } else if k < 0 {
      ModNPeriod(a);
      EqNByMultiple(a + N, b, k + 1);
    }
  }

  lemma {:induction false} QuotientN(a: int) returns (q: int)
    ensures a == ModN(a) + q * N
    decreases if a < 0 then N - a else a
  {
    if a < 0 {
      q := QuotientN(a + N);
      q := q - 1;
    } else if a < N {
      q := 0;
    } else {
      q := QuotientN(a - N);
      q := q + 1;
    }
  }

  lemma EqNMultiple(a: int, b: int) returns (k: int)
    requires EqN(a, b)
    ensures a - b == k * N
  {
    var q := QuotientN(a);
    var r := QuotientN(b);
    k := q - r;
  }

  /** The residue is the remainder. */
  lemma ModNIsRemainder(a: int)
    ensures ModN(a) == a % N
  {
    var q := QuotientN(a);
    ModUnique(a, N, q, ModN(a));
  }

  lemma ModNOf(a: int)
    ensures EqN(ModN(a), a)
  {
  }

  lemma ModNUnique(x: int, r: int, q: int)
    requires x == r + q * N
    requires 0 <= r < N
    ensures ModN(x) == r
  {
    EqNByMultiple(x, r, q);
  }

  lemma CanonicalN(a: Scalar, b: Scalar)
    requires EqN(a, b)
    ensures a == b
  {
  }

  lemma EqNAdd(a: int, a': int, b: int, b': int)
    requires EqN(a, a') && EqN(b, b')
    ensures EqN(a + b, a' + b') && EqN(a - b, a' - b')
  {
    var j := EqNMultiple(a, a');
    var k := EqNMultiple(b, b');
    hide *;
    EqNByMultiple(a + b, a' + b', j + k);
    EqNByMultiple(a - b, a' - b', j - k);
  }

  lemma EqNMul(a: int, a': int, b: int, b': int)
    requires EqN(a, a') && EqN(b, b')
    ensures EqN(a * b, a' * b')
  {
    var j := EqNMultiple(a, a');
    var k := EqNMultiple(b, b');
    hide *;
    CongruentProducts(a, a', b, b', j, k, N);
    EqNByMultiple(a * b, a' * b', a * k + j * b');
  }

  lemma InverseN(a: Scalar) returns (b: Scalar)
    requires IsPrime(N) && a != 0
    ensures EqN(a * b, 1)
  {
    b := InverseExists(a, N);
    ModNIsRemainder(a * b);
  }

  /** Inverses are unique modulo n. */
  lemma InverseUnique(a: int, v: int, w: int)
    requires EqN(a * v, 1) && EqN(a * w, 1)
    ensures EqN(v, w)
  {
    hide ModN;
    EqNMul(a * v, 1, w, w);
    EqNMul(a * w, 1, v, v);
    assert a * v * w == a * w * v;
  }

  // ---------------------------------------------------------------- the operations

  function SMul(a: Scalar, b: Scalar): (r: Scalar)
    ensures EqN(r, a * b)
  {
    ModN(a * b)
  }

  function SNeg(a: Scalar): (r: Scalar)
    ensures EqN(r, 0 - a) && (a != 0 ==> r == N - a)
  {
    ModNPeriod(0 - a);
    ModN(0 - a)
  }

  /** `secp256k1_scalar_is_high`. */
  predicate IsHigh(a: Scalar) { a > N / 2 }
}
