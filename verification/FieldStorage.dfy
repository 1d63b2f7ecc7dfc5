/** The compact forms of a normalized field element: four 64-bit words, and 32 bytes. */
module FieldStorage {
  import opened FieldElement
  import opened FieldLimbs
  import opened FieldNormalize
  import opened Powers
  import opened Primes
  import opened PrimeField
  import opened Words
  import Radix
  import ScalarBits
  import Words4 = ScalarLimbs

  /** `lo | hi << k` on 64 bits. */
  function OrShifted(lo: nat, hi: nat, k: nat): nat {
    BitOr(lo, hi * Pow2(k) % 0x1_0000_0000_0000_0000)
  }

  /** Bits of `hi` above the word are lost; the others do not meet those of `lo`. */
  lemma OrShiftedIs(lo: nat, hi: nat, k: nat, w: nat, m: nat)
    requires w == Pow2(k) && lo < w && w * m == 0x1_0000_0000_0000_0000
    ensures m > 0 && OrShifted(lo, hi, k) == lo + w * (hi % m) < 0x1_0000_0000_0000_0000
  {
    hide Pow2, BitOr;
    assert m > 0;
    ScalarBits.ScaledRemainder(hi, m, w);
    OrDisjoint(lo, hi % m, k);
    Fits(lo, hi % m, w, m);
  }

  lemma Fits(lo: nat, r: nat, w: nat, m: nat)
    requires lo < w && r < m
    ensures lo + w * r < w * m
  {
    assert w * r <= w * (m - 1) == w * m - w;
  }

  /** The powers of two among the shifts. */
  lemma Shifts()
    ensures Pow2(12) == 0x1000 && Pow2(16) == 0x1_0000 && Pow2(24) == 0x100_0000 && Pow2(28) == 0x1000_0000
    ensures Pow2(36) == 0x10_0000_0000 && Pow2(40) == 0x100_0000_0000 && Pow2(52) == 0x10_0000_0000_0000
  {
    hide *;
    Pow2Sixteen();
    assert Pow2(4) == 16 by { Four(); }
    Pow2Sum(4, 8); Pow2Sum(8, 16); Pow2Sum(12, 16); Pow2Sum(12, 24); Pow2Sum(16, 24); Pow2Sum(12, 40);
  }

  lemma Four()
    ensures Pow2(4) == 16
  {
    assert Pow2(2) == 4;
  }

  /** `secp256k1_fe_to_storage`. */
  method ToStorage(a: Limbs) returns (r: seq<u64>)
    requires Normalized(a)
    ensures |r| == 4 && Words4.Value(r) == Value(a)
  {
    hide Pow2, BitOr, OrShifted, Value, Normalized;
    Shifts();
    Widths(a);
    var n1, n2, n3 := a[1], a[2], a[3];
    OrShiftedIs(a[0], n1, 52, 0x10_0000_0000_0000, 0x1000);
    OrShiftedIs(n1 / 0x1000, n2, 40, 0x100_0000_0000, 0x100_0000);
    OrShiftedIs(n2 / 0x100_0000, n3, 28, 0x1000_0000, 0x10_0000_0000);
    OrShiftedIs(n3 / 0x10_0000_0000, a[4], 16, 0x1_0000, 0x1_0000_0000_0000);
    r := [OrShifted(a[0], n1, 52), OrShifted(n1 / 0x1000, n2, 40),
          OrShifted(n2 / 0x100_0000, n3, 28), OrShifted(n3 / 0x10_0000_0000, a[4], 16)];
    Regrouped(r, a, n1 % 0x1000, n1 / 0x1000, n2 % 0x100_0000, n2 / 0x100_0000, n3 % 0x10_0000_0000,
      n3 / 0x10_0000_0000);
  }

  lemma Widths(a: Limbs)
    requires Normalized(a)
    ensures a[0] < 0x10_0000_0000_0000 && a[1] < 0x10_0000_0000_0000 && a[2] < 0x10_0000_0000_0000
    ensures a[3] < 0x10_0000_0000_0000 && a[4] < 0x1_0000_0000_0000
  {
  }

  /** The same bits, cut at multiples of 64 and of 52. */
  lemma Regrouped(r: seq<u64>, a: Limbs, l1: int, h1: int, l2: int, h2: int, l3: int, h3: int)
    requires |r| == 4
    requires a[1] == l1 + 0x1000 * h1 && a[2] == l2 + 0x100_0000 * h2 && a[3] == l3 + 0x10_0000_0000 * h3
    requires r[0] == a[0] + 0x10_0000_0000_0000 * l1 && r[1] == h1 + 0x100_0000_0000 * l2
    requires r[2] == h2 + 0x1000_0000 * l3 && r[3] == h3 + 0x1_0000 * (a[4] as int)
    ensures Words4.Value(r) == Value(a)
  {
  }

  /** `secp256k1_fe_from_storage`. */
  method FromStorage(s: seq<u64>) returns (r: Limbs)
    requires |s| == 4
    ensures Value(r) == Words4.Value(s)
    ensures Words4.Value(s) < P ==> Normalized(r)
  {
    hide Pow2, BitOr, OrShifted, Value;
    Shifts();
    var s0, s1, s2, s3 := s[0], s[1], s[2], s[3];
    MaskedIs(s0 / 0x10_0000_0000_0000, s1, 12, 0x1000, 0x100_0000_0000);
    MaskedIs(s1 / 0x100_0000_0000, s2, 24, 0x100_0000, 0x1000_0000);
    MaskedIs(s2 / 0x1000_0000, s3, 36, 0x10_0000_0000, 0x1_0000);
    r := [s0 % 0x10_0000_0000_0000, OrMasked(s0 / 0x10_0000_0000_0000, s1, 12),
          OrMasked(s1 / 0x100_0000_0000, s2, 24), OrMasked(s2 / 0x1000_0000, s3, 36), s3 / 0x1_0000];
    Regrouped(s, r, s0 / 0x10_0000_0000_0000, s1 % 0x100_0000_0000, s1 / 0x100_0000_0000, s2 % 0x1000_0000,
              s2 / 0x1000_0000, s3 % 0x1_0000);
    assert 0 <= r[4] <= 0xFFFF_FFFF_FFFF;
  }

  /** `lo | ((hi << k) & M)`. */
  function OrMasked(lo: nat, hi: nat, k: nat): nat {
    BitOr(lo, hi * Pow2(k) % 0x1_0000_0000_0000_0000 % 0x10_0000_0000_0000)
  }

  lemma MaskedIs(lo: nat, hi: nat, k: nat, w: nat, m: nat)
    requires w == Pow2(k) && lo < w && w * m == 0x10_0000_0000_0000
    ensures m > 0 && OrMasked(lo, hi, k) == lo + w * (hi % m) < 0x10_0000_0000_0000
  {
    hide Pow2, BitOr;
    assert m > 0;
    MaskAfterWrap(hi * w);
    ScalarBits.ScaledRemainder(hi, m, w);
    OrDisjoint(lo, hi % m, k);
    Fits(lo, hi % m, w, m);
  }

  lemma MaskAfterWrap(x: nat)
    ensures x % 0x1_0000_0000_0000_0000 % 0x10_0000_0000_0000 == x % 0x10_0000_0000_0000
  {
  }

  /** Storage and back gives the same limbs, and the other way round for what stands for a residue. */
  method StoreAndLoad(a: Limbs) returns (r: Limbs)
    requires Normalized(a)
    ensures r == a
  {
    hide Value;
    var s := ToStorage(a);
    NormalizedRange(a);
    r := FromStorage(s);
    NormalizedIsUnique(r, a) by {
      assert Normalized(r);
    }
  }

  method LoadAndStore(s: seq<u64>) returns (t: seq<u64>)
    requires |s| == 4 && Words4.Value(s) < P
    ensures t == s
  {
    hide Value;
    var r := FromStorage(s);
    t := ToStorage(r);
    Words4.Limbs4Unique(s[0], s[1], s[2], s[3], t[0], t[1], t[2], t[3]);
    assert t == [t[0], t[1], t[2], t[3]] == s;
  }

  /** `secp256k1_fe_storage_cmov`. */
  method StorageCmov(r: seq<u64>, a: seq<u64>, flag: bool) returns (s: seq<u64>)
    requires |r| == 4 && |a| == 4
    ensures s == if flag then a else r
  {
    hide BitAnd, BitOr;
    var mask0: u64 := Wrap64((if flag then 1 else 0) + 0xFFFF_FFFF_FFFF_FFFF);
    var mask1: u64 := 0xFFFF_FFFF_FFFF_FFFF - mask0;
    assert mask0 == if flag then 0 else 0xFFFF_FFFF_FFFF_FFFF;
    Masked(r[0], a[0], flag); Masked(r[1], a[1], flag); Masked(r[2], a[2], flag); Masked(r[3], a[3], flag);
    s := [BitOr(BitAnd(r[0], mask0), BitAnd(a[0], mask1)), BitOr(BitAnd(r[1], mask0), BitAnd(a[1], mask1)),
          BitOr(BitAnd(r[2], mask0), BitAnd(a[2], mask1)), BitOr(BitAnd(r[3], mask0), BitAnd(a[3], mask1))];
  }

  // ---------------------------------------------------------------- 32 bytes

  /** The value above limb k, and what is below it. */
  lemma LimbSplit(a0: int, a1: int, a2: int, a3: int, a4: int, k: nat) returns (low: nat, x: nat, above: nat)
    requires k < 5 && Packed([a0, a1, a2, a3, a4])
    ensures x == [a0, a1, a2, a3, a4][k]
    ensures low < Pow2(52 * k) && Digits5(a0, a1, a2, a3, a4) == low + Pow2(52 * k) * (x + 0x10_0000_0000_0000 * above)
  {
    LimbWeights();
    hide Pow2;
    if k == 0 {
      low, x, above := 0, a0, a1 + 0x10_0000_0000_0000 * (a2 + 0x10_0000_0000_0000 * (a3 + 0x10_0000_0000_0000 * a4));
    } else if k == 1 {
      low, x, above := a0, a1, a2 + 0x10_0000_0000_0000 * (a3 + 0x10_0000_0000_0000 * a4);
    } else if k == 2 {
      low, x, above := a0 + 0x10_0000_0000_0000 * a1, a2, a3 + 0x10_0000_0000_0000 * a4;
    } else if k == 3 {
      low, x, above := a0 + 0x10_0000_0000_0000 * (a1 + 0x10_0000_0000_0000 * a2), a3, a4;
    } else {
      low, x, above := a0 + 0x10_0000_0000_0000 * (a1 + 0x10_0000_0000_0000 * (a2 + 0x10_0000_0000_0000 * a3)), a4, 0;
    }
  }

  /** No limb reaches into the next, and there are 256 bits in all. */
  predicate Packed(a: seq<int>) {
    && |a| == 5
    && 0 <= a[0] < 0x10_0000_0000_0000 && 0 <= a[1] < 0x10_0000_0000_0000 && 0 <= a[2] < 0x10_0000_0000_0000
    && 0 <= a[3] < 0x10_0000_0000_0000 && 0 <= a[4] < 0x1_0000_0000_0000
  }

  lemma PackedRange(a: seq<int>)
    requires Packed(a)
    ensures |a| == 5 && 0 <= Value(a)
      < 0x1_0000_0000_0000_0000_0000_0000_0000_0000_0000_0000_0000_0000_0000_0000_0000_0000
    ensures Value(a) == Digits5(a[0], a[1], a[2], a[3], a[4]) && a == [a[0], a[1], a[2], a[3], a[4]]
  {
  }

  lemma LimbWeights()
    ensures Pow2(52 * 0) == 1 && Pow2(52 * 1) == 0x10_0000_0000_0000
    ensures Pow2(52 * 2) == 0x100_0000_0000_0000_0000_0000_0000
    ensures Pow2(52 * 3) == 0x1000_0000_0000_0000_0000_0000_0000_0000_0000_0000
    ensures Pow2(52 * 4) == 0x1_0000_0000_0000_0000_0000_0000_0000_0000_0000_0000_0000_0000_0000
  {
    hide *;
    Pow2Zero();
    Shifts();
    Pow2Sum(52, 52); Pow2Sum(52, 104); Pow2Sum(52, 156);
  }

  /** `(n[limb] >> shift) & 0xF`. */
  function Nibble(a: Limbs, t: nat): nat
    requires t < 64
  {
    Bits(a[t / 13], 4 * (t % 13), 4)
  }

  lemma NibbleReads(a: Limbs, t: nat)
    requires t < 64 && Packed(a)
    ensures Value(a) >= 0 && Nibble(a, t) == Bits(Value(a), 4 * t, 4)
  {
    var k, i := t / 13, t % 13;
    hide Bits, Pow2, Value, Packed, Digits5;
    PackedRange(a);
    var low, x, above := LimbSplit(a[0], a[1], a[2], a[3], a[4], k);
    ScalarBits.BitsAbove(Value(a), low, 52 * k, x + 0x10_0000_0000_0000 * above, 4 * i, 4);
    assert 52 * k + 4 * i == 4 * t;
    WindowInLimb(a[k], above, 4 * i);
  }

  lemma WindowInLimb(x: nat, above: nat, t: nat)
    requires t + 4 <= 52
    ensures Bits(x + 0x10_0000_0000_0000 * above, t, 4) == Bits(x, t, 4)
  {
    hide *;
    Pow2Sum(t, 52 - t);
    Shifts();
    ScalarBits.Associate(Pow2(t), Pow2(52 - t), above);
    ScalarBits.BitsBelowWindow(x, above, t, 4, 52 - t);
  }

  /** Two nibbles make a byte. */
  lemma ByteOfNibbles(v: nat, i: nat)
    ensures BitOr(Bits(v, 8 * i, 4), 16 * Bits(v, 8 * i + 4, 4)) == Bits(v, 8 * i, 8) < 256
  {
    hide BitOr, Bits, Pow2;
    Four();
    Pow2Sixteen();
    BitsBelow(v, 8 * i, 4);
    BitsBelow(v, 8 * i, 8);
    OrDisjoint(Bits(v, 8 * i, 4), Bits(v, 8 * i + 4, 4), 4);
    TwoWindows(v, 8 * i);
  }

  lemma TwoWindows(v: nat, o: nat)
    ensures Bits(v, o, 8) == Bits(v, o, 4) + 16 * Bits(v, o + 4, 4)
  {
    Four();
    Pow2Sixteen();
    Pow2Sum(o, 4);
    hide Pow2;
    ModProduct(v, Pow2(o), 16);
    LowNibbles(v / Pow2(o));
  }

  lemma LowNibbles(x: nat)
    ensures x % 256 == x % 16 + 16 * (x / 16 % 16)
  {
  }

  /** The inner loop of `secp256k1_fe_get_b32`. */
  method ReadByte(a: Limbs, i: nat) returns (c: nat)
    requires i < 32 && Packed(a)
    ensures Value(a) >= 0 && c == Bits(Value(a), 8 * i, 8) < 256
  {
    hide Value, Packed, Bits, BitOr, Pow2, Nibble;
    NibbleReads(a, 2 * i);
    NibbleReads(a, 2 * i + 1);
    ByteOfNibbles(Value(a), i);
    c := 0;
    var j := 0;
    while j < 2
      invariant 0 <= j <= 2
      invariant c == if j == 0 then 0 else if j == 1 then Nibble(a, 2 * i) else Bits(Value(a), 8 * i, 8)
    {
      OrFromZero(Nibble(a, 2 * i + j));
      c := BitOr(c, Nibble(a, 2 * i + j) * (if j == 0 then 1 else 16));
      j := j + 1;
    }
  }

  lemma OrFromZero(x: nat)
    ensures BitOr(0, x) == x
  {
  }

  /** The last i bytes are the lowest 8 i bits. */
  ghost predicate Written(r: seq<nat>, v: nat, i: nat)
    requires |r| == 32 && i <= 32
  {
    (forall u | 32 - i <= u < 32 :: r[u] < 256) && Radix.Value(r[32 - i..], 256) == v % Pow2(8 * i)
  }

  lemma NoneWritten(r: seq<nat>, v: nat)
    requires |r| == 32
    ensures Written(r, v, 0)
  {
    hide Pow2, Radix.Value;
    assert r[32..] == [];
    Radix.Empty(256);
    BitsNone(v);
  }

  lemma WriteOne(r: seq<nat>, v: nat, i: nat, c: nat)
    requires |r| == 32 && i < 32 && Written(r, v, i) && c == Bits(v, 8 * i, 8) && c < 256
    ensures Written(r[31 - i := c], v, i + 1)
  {
    hide Pow2, Bits, Radix.Value;
    Prepended(r, r[31 - i := c], 31 - i, c);
    OneMoreByte(v, c, r[32 - i..], i);
  }

  lemma AllWritten(r: seq<nat>, v: nat)
    requires |r| == 32 && Written(r, v, 32)
    requires v < 0x1_0000_0000_0000_0000_0000_0000_0000_0000_0000_0000_0000_0000_0000_0000_0000_0000
    ensures Radix.Digits(r, 256) && Radix.Value(r, 256) == v
  {
    hide Pow2, Radix.Value;
    assert r[0..] == r;
    AllBytes(v);
  }

  /** `secp256k1_fe_get_b32`: the number as 32 bytes, most significant first. */
  method GetB32(a: Limbs) returns (r: array<nat>)
    requires Normalized(a)
    ensures fresh(r) && r.Length == 32 && Radix.Digits(r[..], 256) && Radix.Value(r[..], 256) == Value(a)
  {
    hide *;
    NormalizedIsPacked(a);
    var i := 0;
    r := new nat[32];
    NoneWritten(r[..], Value(a));
    while i < 32
      invariant 0 <= i <= 32
      invariant Written(r[..], Value(a), i)
    {
      var c := ReadByte(a, i);
      WriteOne(r[..], Value(a), i, c);
      ghost var was := r[..];
      r[31 - i] := c;
      assert r[..] == was[31 - i := c];
      i := i + 1;
    }
    AllWritten(r[..], Value(a));
  }

  lemma Prepended(was: seq<nat>, r: seq<nat>, k: nat, c: nat)
    requires k < |was| && r == was[k := c]
    ensures r[k..] == [c] + was[k + 1..]
  {
  }

  lemma NormalizedIsPacked(a: Limbs)
    requires Normalized(a)
    ensures Packed(a) && 0 <= Value(a)
      < 0x1_0000_0000_0000_0000_0000_0000_0000_0000_0000_0000_0000_0000_0000_0000_0000_0000
  {
  }

  lemma BitsNone(v: nat)
    ensures v % Pow2(0) == 0
  {
  }

  lemma AllBytes(v: nat)
    requires v < 0x1_0000_0000_0000_0000_0000_0000_0000_0000_0000_0000_0000_0000_0000_0000_0000_0000
    ensures v % Pow2(256) == v
  {
    hide *;
    Pow2Values();
    ModUnique(v, Pow2(256), 0, v);
  }

  lemma OneMoreByte(v: nat, c: nat, rest: seq<nat>, i: nat)
    requires c == Bits(v, 8 * i, 8) && |rest| == i && Radix.Value(rest, 256) == v % Pow2(8 * i)
    ensures Radix.Value([c] + rest, 256) == v % Pow2(8 * (i + 1))
  {
    hide *;
    Radix.Prepend(c, rest, 256);
    BitsSplit(v, 8 * i, 8);
    BytePower(i);
  }

  lemma {:induction false} BytePower(i: nat)
    ensures Radix.Pow(256, i) == Pow2(8 * i)
  {
    if i == 0 {
    } else {
      BytePower(i - 1);
      Pow2Sum(8, 8 * (i - 1));
      Pow2Sixteen();
    }
  }

  // ---------------------------------------------------------------- and back

  /** The bytes of a number are its bits, eight at a time. */
  lemma {:induction false} ByteIsBits(b: seq<nat>, i: nat)
    requires Radix.Digits(b, 256) && i < |b|
    ensures Bits(Radix.Value(b, 256), 8 * i, 8) == b[|b| - 1 - i]
  {
    var init, last := b[..|b| - 1], b[|b| - 1];
    var v := Radix.Value(init, 256);
    assert b == init + [last] && last < 256;
    assert Radix.Digits(init, 256);
    hide Radix.Value, Radix.Digits, Pow2;
    Radix.ValueAppend(init, last, 256);
    Pow2Sixteen();
    if i == 0 {
      LowestByte(v, last);
    } else {
      ByteIsBits(init, i - 1);
      hide Bits;
      assert 256 * v == v * 256;
      assert 8 + 8 * (i - 1) == 8 * i;
      ScalarBits.BitsAbove(v * 256 + last, last, 8, v, 8 * (i - 1), 8);
    }
  }

  lemma LowestByte(v: nat, last: nat)
    requires last < 256
    ensures Bits(v * 256 + last, 0, 8) == last
  {
    Pow2Sixteen();
    Pow2Zero();
    hide Pow2;
    ModUnique(v * 256 + last, 256, v, last);
    assert (v * 256 + last) / 1 == v * 256 + last;
  }

  /** What is in the limbs after t nibbles: all of them below limb k, and those of j bits in limb k. */
  ghost predicate FilledAt(r: Limbs, v: nat, t: nat, k: nat, j: nat)
    requires k < 5
  {
    Packed(r) && Value(r) == v % Pow2(4 * t) && (forall u | k < u < 5 :: r[u] == 0) && r[k] < Pow2(j)
  }

  ghost predicate Filled(r: Limbs, v: nat, t: nat)
    requires t <= 64
  {
    FilledAt(r, v, t, t / 13, 4 * (t % 13))
  }

  lemma NextIndex(t: nat)
    requires t < 64
    ensures t / 13 < 5 && 4 * t == 52 * (t / 13) + 4 * (t % 13) && 4 * (t % 13) + 4 <= 52
    ensures t / 13 == 4 ==> 4 * (t % 13) + 4 <= 48
    ensures if t % 13 == 12 then (t + 1) / 13 == t / 13 + 1 && (t + 1) % 13 == 0
            else (t + 1) / 13 == t / 13 && (t + 1) % 13 == t % 13 + 1
  {
  }

  lemma ValueAt(a0: int, a1: int, a2: int, a3: int, a4: int, k: nat, d: int)
    requires k < 5
    ensures var r := [a0, a1, a2, a3, a4]; Value(r[k := r[k] + d]) == Value(r) + Pow2(52 * k) * d
  {
    LimbWeights();
    hide Pow2;
  }

  lemma FillLimb(x: nat, nib: nat, j: nat, top: nat)
    requires x < Pow2(j) && nib < 16 && j + 4 <= top <= 52
    ensures OrShifted(x, nib, j) == x + Pow2(j) * nib < Pow2(j + 4) <= Pow2(top) < 0x1_0000_0000_0000_0000
  {
    hide *;
    Pow2Sum(j, 64 - j);
    Pow2Values();
    Pow2Monotone(top, 64);
    if j + 4 < top { Pow2Monotone(j + 4, top); }
    var m := Pow2(64 - j);
    Pow2Monotone(4, 64 - j);
    Four();
    OrShiftedIs(x, nib, j, Pow2(j), m);
    ModUnique(nib, m, 0, nib);
    Fits(x, nib, Pow2(j), 16);
    Pow2Sum(j, 4);
  }

  lemma NibbleWeight(k: nat, j: nat, t: nat, nib: nat)
    requires 4 * t == 52 * k + j
    ensures Pow2(52 * k) * (Pow2(j) * nib) == Pow2(4 * t) * nib
  {
    hide *;
    Pow2Sum(52 * k, j);
    ScalarBits.Associate(Pow2(52 * k), Pow2(j), nib);
  }

  /** One more nibble finds its bits of the limb clear. */
  lemma FillOne(r: Limbs, v: nat, t: nat, nib: nat)
    requires t < 64 && Filled(r, v, t) && nib == Bits(v, 4 * t, 4)
    ensures var k, i := t / 13, t % 13;
      && OrShifted(r[k], nib, 4 * i) < 0x1_0000_0000_0000_0000
      && Filled(r[k := OrShifted(r[k], nib, 4 * i)], v, t + 1)
  {
    var k, i := t / 13, t % 13;
    NextIndex(t);
    hide Pow2, Bits, OrShifted, FilledAt;
    FillAt(r, v, t, nib, k, 4 * i);
    if i == 12 {
      NextLimb(r[k := OrShifted(r[k], nib, 4 * i)], v, t + 1, k);
    }
  }

  lemma FillAt(r: Limbs, v: nat, t: nat, nib: nat, k: nat, j: nat)
    requires k < 5 && 4 * t == 52 * k + j && j + 4 <= (if k == 4 then 48 else 52)
    requires FilledAt(r, v, t, k, j) && nib == Bits(v, 4 * t, 4)
    ensures OrShifted(r[k], nib, j) < 0x1_0000_0000_0000_0000
    ensures FilledAt(r[k := OrShifted(r[k], nib, j)], v, t + 1, k, j + 4)
  {
    hide Pow2, Bits, OrShifted, Digits5, BitOr, Value;
    BitsBelow(v, 4 * t, 4);
    Four();
    FillLimb(r[k], nib, j, if k == 4 then 48 else 52);
    Shifts();
    Pow2Sum(24, 24);
    ValueAt(r[0], r[1], r[2], r[3], r[4], k, Pow2(j) * nib);
    assert r == [r[0], r[1], r[2], r[3], r[4]];
    NibbleWeight(k, j, t, nib);
    BitsSplit(v, 4 * t, 4);
  }

  lemma NextLimb(r: Limbs, v: nat, t: nat, k: nat)
    requires k < 4 && FilledAt(r, v, t, k, 52)
    ensures FilledAt(r, v, t, k + 1, 0)
  {
    hide Value, Packed;
    Pow2Zero();
  }

  /** `secp256k1_fe_set_b32`: the limbs of the number that 32 bytes stand for, and whether it is below p. */
  method SetB32(a: seq<nat>) returns (r: Limbs, ok: bool)
    requires |a| == 32 && Radix.Digits(a, 256)
    ensures Value(r) == Radix.Value(a, 256)
    ensures ok <==> Radix.Value(a, 256) < P
    ensures ok ==> Normalized(r)
  {
    hide Pow2, Bits, OrShifted, Value, Filled, Normalized, Packed;
    ghost var v := Radix.Value(a, 256);
    r := [0, 0, 0, 0, 0];
    FillNone(v);
    var i := 0;
    while i < 32
      invariant 0 <= i <= 32
      invariant Filled(r, v, 2 * i)
    {
      ByteIsBits(a, i);
      NibblesOfByte(v, i);
      var j := 0;
      while j < 2
        invariant 0 <= j <= 2
        invariant Filled(r, v, 2 * i + j)
      {
        var limb, shift := (8 * i + 4 * j) / 52, (8 * i + 4 * j) % 52;
        var nib := if j == 0 then a[31 - i] % 16 else a[31 - i] / 16 % 16;
        SameIndex(2 * i + j);
        FillOne(r, v, 2 * i + j, nib);
        r := r[limb := OrShifted(r[limb], nib, shift)];
        j := j + 1;
      }
      i := i + 1;
    }
    FillAll(r, v);
    Radix.ValueBound(a, 256);
    BytePower(32);
    Pow2Values();
    AllBytes(v);
    ok := !(r[4] == 0xFFFF_FFFF_FFFF && r[3] == r[2] == r[1] == 0xF_FFFF_FFFF_FFFF && r[0] >= 0xF_FFFE_FFFF_FC2F);
    BelowP(r);
  }

  lemma FillNone(v: nat)
    ensures Filled([0, 0, 0, 0, 0], v, 0)
  {
    hide Pow2, Value, Packed;
    BitsNone(v);
    Pow2Zero();
    NoLimbs();
  }

  lemma NoLimbs()
    ensures Packed([0, 0, 0, 0, 0]) && Value([0, 0, 0, 0, 0]) == 0
  {
  }

  lemma FillAll(r: Limbs, v: nat)
    requires Filled(r, v, 64)
    ensures Packed(r) && Value(r) == v % Pow2(256)
  {
  }

  /** The limb and the shift of a nibble, as the source computes them. */
  lemma SameIndex(t: nat)
    ensures 4 * t / 52 == t / 13 && 4 * t % 52 == 4 * (t % 13)
  {
  }

  lemma NibblesOfByte(v: nat, i: nat)
    ensures Bits(v, 8 * i, 8) % 16 == Bits(v, 8 * i, 4) && Bits(v, 8 * i, 8) / 16 % 16 == Bits(v, 8 * i + 4, 4)
  {
    hide *;
    TwoWindows(v, 8 * i);
    Four();
    BitsBelow(v, 8 * i, 4);
    BitsBelow(v, 8 * i + 4, 4);
    TwoNibbles(Bits(v, 8 * i, 4), Bits(v, 8 * i + 4, 4));
  }

  lemma TwoNibbles(x: nat, y: nat)
    requires x < 16 && y < 16
    ensures (x + 16 * y) % 16 == x && (x + 16 * y) / 16 % 16 == y
  {
  }

  lemma BelowP(r: Limbs)
    requires Packed(r)
    ensures Value(r) < P <==>
      !(r[4] == 0xFFFF_FFFF_FFFF && r[3] == r[2] == r[1] == 0xF_FFFF_FFFF_FFFF && r[0] >= 0xF_FFFE_FFFF_FC2F)
    ensures Value(r) < P ==> Normalized(r)
  {
  }
}
