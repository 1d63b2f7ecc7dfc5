/** Scalars as 32 bytes, most significant first. */
module ScalarBytes {
  import opened FieldStorage
  import opened GroupOrder
  import opened Powers
  import opened Words
  import Radix
  import ScalarBits
  import ScalarField
  import ScalarLimbs
  import ScalarReduction

  // ---------------------------------------------------------------- from bytes

  /** The OR of n bytes, each shifted to its place: `b[last] | b[last - 1] << 8 | ...`. */
  function OrBytes(b: seq<nat>, last: nat, n: nat): nat
    requires last < |b| && 1 <= n <= last + 1
  {
    if n == 1 then b[last] else BitOr(OrBytes(b, last, n - 1), Pow2(8 * (n - 1)) * b[last + 1 - n])
  }

  /** The shifted bytes have no bits in common, so the OR is the number they stand for. */
  lemma {:induction false} OrBytesIs(b: seq<nat>, last: nat, n: nat)
    requires last < |b| && 1 <= n <= last + 1 && Radix.Digits(b, 256)
    ensures OrBytes(b, last, n) == Radix.Value(b[last + 1 - n..last + 1], 256) < Pow2(8 * n)
  {
    hide Pow2, Radix.Value, BitOr;
    var d := b[last + 1 - n..last + 1];
    Radix.ValueBound(d, 256);
    BytePower(n);
    if n == 1 {
      assert d == [b[last]];
      OneByte(b[last]);
    } else {
      OrBytesIs(b, last, n - 1);
      var rest := b[last + 2 - n..last + 1];
      assert d == [b[last + 1 - n]] + rest;
      Radix.Prepend(b[last + 1 - n], rest, 256);
      BytePower(n - 1);
      OrDisjoint(OrBytes(b, last, n - 1), b[last + 1 - n], 8 * (n - 1));
      Commute(Pow2(8 * (n - 1)), b[last + 1 - n]);
    }
  }

  lemma OneByte(x: nat)
    ensures Radix.Value([x], 256) == x
  {
    Radix.Empty(256);
    Radix.Prepend(x, [], 256);
    assert [x] + [] == [x];
    assert Radix.Pow(256, 0) == 1;
  }

  lemma Commute(x: int, y: int)
    ensures x * y == y * x
  {
  }

  lemma {:induction false} ValueConcat(x: seq<nat>, y: seq<nat>)
    ensures Radix.Value(x + y, 256) == Radix.Value(x, 256) * Radix.Pow(256, |y|) + Radix.Value(y, 256)
    decreases |y|
  {
    hide Radix.Value, Radix.Pow;
    if y == [] {
      assert x + y == x;
      NoBytes(x);
    } else {
      var init, last := y[..|y| - 1], y[|y| - 1];
      ValueConcat(x, init);
      assert y == init + [last] && x + y == x + init + [last];
      Radix.ValueAppend(x + init, last, 256);
      Radix.ValueAppend(init, last, 256);
      Radix.Prepend(0, init, 256);
      Regroup(Radix.Value(x, 256), Radix.Pow(256, |init|), Radix.Value(init, 256));
    }
  }

  lemma NoBytes(x: seq<nat>)
    ensures Radix.Value([], 256) == 0 && Radix.Value(x, 256) * Radix.Pow(256, 0) == Radix.Value(x, 256)
  {
  }

  lemma Regroup(x: int, p: int, v: int)
    ensures (x * p + v) * 256 == x * (256 * p) + v * 256
  {
  }

  /** Four limbs of eight bytes. */
  lemma FourLimbs(b: seq<nat>)
    requires |b| == 32 && Radix.Digits(b, 256)
    ensures OrBytes(b, 31, 8) < 0x1_0000_0000_0000_0000 && OrBytes(b, 23, 8) < 0x1_0000_0000_0000_0000
    ensures OrBytes(b, 15, 8) < 0x1_0000_0000_0000_0000 && OrBytes(b, 7, 8) < 0x1_0000_0000_0000_0000
    ensures Radix.Value(b, 256)
      == ScalarLimbs.Value4(OrBytes(b, 31, 8), OrBytes(b, 23, 8), OrBytes(b, 15, 8), OrBytes(b, 7, 8))
  {
    hide Radix.Value, OrBytes, Pow2, Radix.Pow;
    Pow2Values();
    BytePower(8);
    OrBytesIs(b, 31, 8);
    OrBytesIs(b, 23, 8);
    OrBytesIs(b, 15, 8);
    OrBytesIs(b, 7, 8);
    assert b[..8] == b[0..8] && b[..16] == b[0..8] + b[8..16];
    assert b[..24] == b[..16] + b[16..24] && b == b[..24] + b[24..32];
    ValueConcat(b[0..8], b[8..16]);
    ValueConcat(b[..16], b[16..24]);
    ValueConcat(b[..24], b[24..32]);
  }

  /** `secp256k1_scalar_set_b32`: the residue of the number, and whether it had to be reduced. */
  method SetB32(r: array<u64>, b32: seq<nat>) returns (overflow: bool)
    requires r.Length == 4 && |b32| == 32 && Radix.Digits(b32, 256)
    modifies r
    ensures ScalarLimbs.Value(r[..]) == ScalarField.ModN(Radix.Value(b32, 256))
    ensures overflow <==> Radix.Value(b32, 256) >= N
  {
    hide *;
    FourLimbs(b32);
    var d0: u64, d1: u64 := OrBytes(b32, 31, 8), OrBytes(b32, 23, 8);
    var d2: u64, d3: u64 := OrBytes(b32, 15, 8), OrBytes(b32, 7, 8);
    overflow := ScalarReduction.CheckOverflow(d0, d1, d2, d3);
    var r0, r1, r2, r3 := ScalarReduction.Reduce(d0, d1, d2, d3, if overflow then 1 else 0);
    r[0], r[1], r[2], r[3] := r0, r1, r2, r3;
    assert r[..] == [r0, r1, r2, r3];
    ScalarReduction.ValueOf(r[..]);
    ScalarLimbs.Limbs4(d0, d1, d2, d3);
    ScalarLimbs.Limbs4(r0, r1, r2, r3);
    OneSubtraction(Radix.Value(b32, 256), ScalarLimbs.Value(r[..]), overflow);
  }

  /** Adding the complement of n modulo 2^256 subtracts n. */
  lemma OneSubtraction(v: int, r: int, overflow: bool)
    requires 0 <= v < 0x1_0000_0000_0000_0000_0000_0000_0000_0000_0000_0000_0000_0000_0000_0000_0000_0000
    requires 0 <= r < 0x1_0000_0000_0000_0000_0000_0000_0000_0000_0000_0000_0000_0000_0000_0000_0000_0000
    requires overflow <==> v >= N
    requires var e := v + (if overflow then 1 else 0) * 0x1_4551231950B75FC4_402DA1732FC9BEBF;
      r == e || r == e - 0x1_0000_0000_0000_0000_0000_0000_0000_0000_0000_0000_0000_0000_0000_0000_0000_0000
    ensures r == ScalarField.ModN(v)
  {
    if overflow {
      ScalarField.ModNUnique(v, r, 1);
    } else {
      ScalarField.ModNUnique(v, r, 0);
    }
  }

  // ---------------------------------------------------------------- to bytes

  /** `a->d[3 - i / 8] >> (56 - 8 * (i % 8))`, cut to a byte. */
  function ByteOf(a: seq<u64>, i: nat): nat
    requires |a| == 4 && i < 32
  {
    ByteIndex(31 - i);
    ScalarBits.GetBits(a, 8 * (31 - i), 8)
  }

  lemma ByteIndex(k: nat)
    requires k < 32
    ensures (8 * k + 7) / 64 == 8 * k / 64
  {
  }

  /** `secp256k1_scalar_get_b32`. */
  method GetB32(a: array<u64>) returns (bin: seq<nat>)
    requires a.Length == 4
    ensures |bin| == 32 && Radix.Digits(bin, 256) && Radix.Value(bin, 256) == ScalarLimbs.Value(a[..])
  {
    hide ByteOf, Radix.Value, ScalarLimbs.Value4;
    ghost var limbs := a[..];
    ScalarLimbs.Limbs4(limbs[0], limbs[1], limbs[2], limbs[3]);
    ScalarReduction.ValueOf(limbs);
    bin := seq(32, i requires 0 <= i < 32 reads a => ByteOf(a[..], i));
    forall k | 0 <= k < 32 ensures bin[31 - k] == Bits(ScalarLimbs.Value(limbs), 8 * k, 8) {
      ByteReads(limbs, 31 - k);
    }
    BytesOfNumber(bin, ScalarLimbs.Value(limbs), 32);
    AllWritten(bin, ScalarLimbs.Value(limbs));
  }

  lemma ByteReads(a: seq<u64>, i: nat)
    requires |a| == 4 && i < 32
    ensures ByteOf(a, i) == Bits(ScalarLimbs.Value(a), 8 * (31 - i), 8)
  {
    ByteIndex(31 - i);
    ScalarBits.GetBitsReads(a, 8 * (31 - i), 8);
  }

  lemma {:induction false} BytesOfNumber(b: seq<nat>, v: nat, i: nat)
    requires |b| == 32 && i <= 32 && forall k | 0 <= k < 32 :: b[31 - k] == Bits(v, 8 * k, 8)
    ensures Written(b, v, i)
  {
    hide Written, Bits;
    if i == 0 {
      NoneWritten(b, v);
    } else {
      BytesOfNumber(b, v, i - 1);
      ByteBelow(v, i - 1);
      WriteOne(b, v, i - 1, b[31 - (i - 1)]);
      assert b[31 - (i - 1) := b[31 - (i - 1)]] == b;
    }
  }

  lemma ByteBelow(v: nat, i: nat)
    ensures Bits(v, 8 * i, 8) < 256
  {
    hide *;
    BitsBelow(v, 8 * i, 8);
    Pow2Sixteen();
  }
}
