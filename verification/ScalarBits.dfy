/** Reading a window of bits from the limbs of a scalar. */
module ScalarBits {
  import opened Powers
  import opened Primes
  import opened ScalarLimbs
  import opened Words

  /** A number below a power of two is dropped by the shift. */
  lemma BitsAbove(v: nat, low: nat, k: nat, u: nat, t: nat, count: nat)
    requires v == low + Pow2(k) * u && low < Pow2(k)
    ensures Bits(v, k + t, count) == Bits(u, t, count)
  {
    Pow2Sum(k, t);
    var w := Pow2(k);
    hide Pow2;
    ModProduct(v, w, Pow2(t));
    assert v == u * w + low;
    ModUnique(v, w, u, low);
  }

  /** What lies above the window does not count. */
  lemma BitsBelowWindow(x: nat, r: nat, t: nat, count: nat, rest: nat)
    requires count <= rest
    ensures Bits(x + Pow2(t) * (Pow2(rest) * r), t, count) == Bits(x, t, count)
  {
    hide Pow2;
    Pow2Sum(count, rest - count);
    WindowArithmetic(x, r, Pow2(t), Pow2(count), Pow2(rest - count));
  }

  lemma WindowArithmetic(x: nat, r: nat, p: nat, c: nat, e: nat)
    requires p > 0 && c > 0
    ensures (x + p * (c * e * r)) / p % c == x / p % c
  {
    QuotientSum(x, p, c * e * r);
    Associate(c, e, r);
    RemainderSum(x / p, c, e * r);
  }

  lemma Associate(a: nat, b: nat, c: nat)
    ensures a * b * c == a * (b * c)
  {
  }

  lemma QuotientSum(x: nat, p: nat, z: nat)
    requires p > 0
    ensures (x + p * z) / p == x / p + z
  {
    assert x + p * z == (x / p + z) * p + x % p;
    ModUnique(x + p * z, p, x / p + z, x % p);
  }

  lemma RemainderSum(x: nat, c: nat, m: nat)
    requires c > 0
    ensures (x + c * m) % c == x % c
  {
    assert x + c * m == (x / c + m) * c + x % c;
    ModUnique(x + c * m, c, x / c + m, x % c);
  }

  /** The number above limb k, and what is below it. */
  lemma LimbSplit(d0: int, d1: int, d2: int, d3: int, k: nat) returns (low: nat, x: nat, above: nat)
    requires k < 4 && 0 <= d0 < 0x1_0000_0000_0000_0000 && 0 <= d1 < 0x1_0000_0000_0000_0000
    requires 0 <= d2 < 0x1_0000_0000_0000_0000 && 0 <= d3 < 0x1_0000_0000_0000_0000
    ensures x == if k == 0 then d0 else if k == 1 then d1 else if k == 2 then d2 else d3
    ensures above == if k == 0 then d1 + 0x1_0000_0000_0000_0000 * (d2 + 0x1_0000_0000_0000_0000 * d3)
                     else if k == 1 then d2 + 0x1_0000_0000_0000_0000 * d3 else if k == 2 then d3 else 0
    ensures low < Pow2(64 * k) && Value4(d0, d1, d2, d3) == low + Pow2(64 * k) * (x + 0x1_0000_0000_0000_0000 * above)
  {
    LimbWeights();
    hide Pow2;
    if k == 0 {
      low, x, above := 0, d0, d1 + 0x1_0000_0000_0000_0000 * (d2 + 0x1_0000_0000_0000_0000 * d3);
    } else if k == 1 {
      low, x, above := d0, d1, d2 + 0x1_0000_0000_0000_0000 * d3;
    } else if k == 2 {
      low, x, above := d0 + 0x1_0000_0000_0000_0000 * d1, d2, d3;
    } else {
      low, x, above := d0 + 0x1_0000_0000_0000_0000 * d1 + 0x1_0000_0000_0000_0000_0000_0000_0000_0000 * d2, d3, 0;
    }
  }

  lemma LimbWeights()
    ensures Pow2(64 * 0) == 1 && Pow2(64 * 1) == 0x1_0000_0000_0000_0000
    ensures Pow2(64 * 2) == 0x1_0000_0000_0000_0000_0000_0000_0000_0000
    ensures Pow2(64 * 3) == 0x1_0000_0000_0000_0000_0000_0000_0000_0000_0000_0000_0000_0000
  {
    hide *;
    Pow2Zero();
    Pow2Values();
    Pow2Sum(64, 64);
    Pow2Sum(64, 128);
  }

  /** `secp256k1_scalar_get_bits`: a window inside one limb. */
  function GetBits(a: seq<u64>, offset: nat, count: nat): nat
    requires |a| == 4 && 1 <= count <= 32 && offset + count <= 256 && (offset + count - 1) / 64 == offset / 64
  {
    Window(a[offset / 64], offset % 64, count)
  }

  function Window(x: nat, t: nat, count: nat): nat { Bits(x, t, count) }

  lemma GetBitsReads(a: seq<u64>, offset: nat, count: nat)
    requires |a| == 4 && 1 <= count <= 32 && offset + count <= 256 && (offset + count - 1) / 64 == offset / 64
    ensures GetBits(a, offset, count) == Bits(Value(a), offset, count)
  {
    var k, t := offset / 64, offset % 64;
    assert offset == 64 * k + t && t + count <= 64;
    hide Bits, Pow2, Value4;
    var low, x, above := LimbSplit(a[0], a[1], a[2], a[3], k);
    BitsAbove(Value(a), low, 64 * k, x + 0x1_0000_0000_0000_0000 * above, t, count);
    BitsOfLimb(x, above, t, count);
  }

  lemma BitsOfLimb(x: nat, above: nat, t: nat, count: nat)
    requires t + count <= 64
    ensures Bits(x + 0x1_0000_0000_0000_0000 * above, t, count) == Bits(x, t, count)
  {
    hide *;
    Pow2Sum(t, 64 - t);
    Pow2Values();
    Associate(Pow2(t), Pow2(64 - t), above);
    BitsBelowWindow(x, above, t, count, 64 - t);
  }

  /** `secp256k1_scalar_get_bits_var`: the window may reach into the next limb. */
  function GetBitsVar(a: seq<u64>, offset: nat, count: nat): nat
    requires |a| == 4 && 1 <= count < 32 && offset + count <= 256
  {
    if (offset + count - 1) / 64 == offset / 64 then GetBits(a, offset, count)
    else
      var t := offset % 64;
      BitOr(ShiftDown(a[offset / 64], t), ShiftUp(a[offset / 64 + 1], 64 - t)) % Pow2(count)
  }

  /** `x >> t` and `x << t` on 64 bits. */
  function ShiftDown(x: u64, t: nat): nat { Div(x, Pow2(t)) }

  function ShiftUp(x: u64, t: nat): nat { x * Pow2(t) % 0x1_0000_0000_0000_0000 }

  function Div(x: nat, d: nat): nat
    requires d > 0
  {
    x / d
  }

  lemma GetBitsVarReads(a: seq<u64>, offset: nat, count: nat)
    requires |a| == 4 && 1 <= count < 32 && offset + count <= 256
    ensures GetBitsVar(a, offset, count) == Bits(Value(a), offset, count)
  {
    if (offset + count - 1) / 64 == offset / 64 {
      GetBitsReads(a, offset, count);
    } else {
      assert offset == 64 * (offset / 64) + offset % 64;
      assert 0 < offset % 64 && offset / 64 < 3;
      CrossingReads(a, offset / 64, offset % 64, count);
    }
  }

  lemma CrossingReads(a: seq<u64>, k: nat, t: nat, count: nat)
    requires |a| == 4 && k < 3 && 0 < t < 64 && count < 32
    ensures BitOr(ShiftDown(a[k], t), ShiftUp(a[k + 1], 64 - t)) % Pow2(count) == Bits(Value(a), 64 * k + t, count)
  {
    hide *;
    var low, above, r := TwoLimbs(a, k);
    BitsAbove(Value(a), low, 64 * k, a[k] + 0x1_0000_0000_0000_0000 * above, t, count);
    Crossing(a[k], a[k + 1], r, t, count);
  }

  /** A limb, the one above it, and the rest. */
  lemma TwoLimbs(a: seq<u64>, k: nat) returns (low: nat, above: nat, r: nat)
    requires |a| == 4 && k < 3
    ensures low < Pow2(64 * k) && Value(a) == low + Pow2(64 * k) * (a[k] + 0x1_0000_0000_0000_0000 * above)
    ensures above == a[k + 1] + 0x1_0000_0000_0000_0000 * r
  {
    hide Pow2, Value4;
    var x;
    low, x, above := LimbSplit(a[0], a[1], a[2], a[3], k);
    r := Above(a[1], a[2], a[3], k, above);
  }

  lemma Above(d1: nat, d2: nat, d3: nat, k: nat, above: nat) returns (r: nat)
    requires k < 3
    requires above == if k == 0 then d1 + 0x1_0000_0000_0000_0000 * (d2 + 0x1_0000_0000_0000_0000 * d3)
                      else if k == 1 then d2 + 0x1_0000_0000_0000_0000 * d3 else d3
    ensures above == (if k == 0 then d1 else if k == 1 then d2 else d3) + 0x1_0000_0000_0000_0000 * r
  {
    r := if k == 0 then d2 + 0x1_0000_0000_0000_0000 * d3 else if k == 1 then d3 else 0;
  }

  /** The two shifted limbs have no bits in common, and agree with the number up to bit 64. */
  lemma Crossing(x: nat, y: nat, r: nat, t: nat, count: nat)
    requires 0 < t < 64 && count < 32 && x < 0x1_0000_0000_0000_0000 && y < 0x1_0000_0000_0000_0000
    ensures BitOr(ShiftDown(x, t), ShiftUp(y, 64 - t)) % Pow2(count)
         == Bits(x + 0x1_0000_0000_0000_0000 * (y + 0x1_0000_0000_0000_0000 * r), t, count)
  {
    hide Pow2, BitOr;
    WordParts(t);
    WordParts(count);
    var p, q := Pow2(t), Pow2(64 - t);
    CrossingParts(x, y, p, q);
    OrDisjoint(x / p, y % p, 64 - t);
    CrossingQuotient(x, p, q, y + 0x1_0000_0000_0000_0000 * r);
    CrossingRemainder(x / p, y, p, q, r, Pow2(count), Pow2(64 - count));
  }

  lemma WordParts(t: nat)
    requires t <= 64
    ensures Pow2(t) * Pow2(64 - t) == 0x1_0000_0000_0000_0000
  {
    hide *;
    Pow2Sum(t, 64 - t);
    Pow2Values();
  }

  lemma CrossingQuotient(x: nat, p: nat, q: nat, z: nat)
    requires p > 0 && p * q == 0x1_0000_0000_0000_0000
    ensures (x + 0x1_0000_0000_0000_0000 * z) / p == x / p + q * z
  {
    Associate(p, q, z);
    QuotientSum(x, p, q * z);
  }

  lemma CrossingParts(x: nat, y: nat, p: nat, q: nat)
    requires p > 0 && q > 0 && p * q == 0x1_0000_0000_0000_0000 && x < 0x1_0000_0000_0000_0000
    ensures x / p < q && y * q % 0x1_0000_0000_0000_0000 == q * (y % p)
  {
    ScaledRemainder(y, p, q);
    QuotientBelow(x, p, q, x / p, x % p);
  }

  lemma QuotientBelow(x: nat, p: nat, q: nat, h: nat, r: nat)
    requires p > 0 && q > 0 && x == p * h + r && x < p * q
    ensures h < q
  {
    if h >= q {
      MulBounds(p, q, p, h);
    }
  }

  lemma ScaledRemainder(y: nat, p: nat, q: nat)
    requires p > 0 && q > 0
    ensures p * q > 0 && y * q % (p * q) == q * (y % p)
  {
    var h, l := y / p, y % p;
    assert y * q == h * (p * q) + q * l;
    assert q * l <= q * (p - 1) == p * q - q;
    assert p * q > 0;
    ModUnique(y * q, p * q, h, q * l);
  }

  lemma CrossingRemainder(h: nat, y: nat, p: nat, q: nat, r: nat, c: nat, d: nat)
    requires p > 0 && c > 0 && p * q == 0x1_0000_0000_0000_0000 && c * d == 0x1_0000_0000_0000_0000
    ensures (h + q * (y % p)) % c == (h + q * (y + 0x1_0000_0000_0000_0000 * r)) % c
  {
    var l, m := y % p, y / p;
    assert y == p * m + l;
    CrossingSum(h, y, p, q, r, c, d, l, m);
    RemainderSum(h + q * l, c, d * m + q * (d * r));
  }

  lemma CrossingSum(h: nat, y: nat, p: nat, q: nat, r: nat, c: nat, d: nat, l: nat, m: nat)
    requires p * q == 0x1_0000_0000_0000_0000 && c * d == 0x1_0000_0000_0000_0000 && y == p * m + l
    ensures h + q * (y + 0x1_0000_0000_0000_0000 * r) == h + q * l + c * (d * m + q * (d * r))
  {
    assert q * (p * m) == p * q * m;
    assert c * (d * m) == c * d * m;
    assert c * (q * (d * r)) == q * (c * d * r);
  }
}
