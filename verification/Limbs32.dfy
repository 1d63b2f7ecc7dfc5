/** Numbers as 32-bit words, the lowest first, and the bits of a word. */
module Limbs32 {
  import opened Powers
  import opened Words

  /** The weight of word i. */
  function Weight(i: nat): (w: nat)
    ensures w > 0
  {
    if i == 0 then 1 else 0x1_0000_0000 * Weight(i - 1)
  }

  function Value(s: seq<u32>): nat {
    if s == [] then 0 else s[0] + 0x1_0000_0000 * Value(s[1..])
  }

  lemma {:induction false} WeightSum(i: nat, j: nat)
    ensures Weight(i + j) == Weight(i) * Weight(j)
  {
    if i == 0 {
    } else {
      WeightSum(i - 1, j);
      Triple(Weight(i - 1), Weight(j));
    }
  }

  lemma Triple(a: nat, b: nat)
    ensures 0x1_0000_0000 * (a * b) == 0x1_0000_0000 * a * b
  {
  }

  lemma {:induction false} WeightIsPow2(i: nat)
    ensures Weight(i) == Pow2(32 * i)
  {
    if i == 0 {
      Pow2Zero();
    } else {
      WeightIsPow2(i - 1);
      Pow2Sum(32, 32 * (i - 1));
      Pow2ThirtyTwo();
    }
  }

  lemma Pow2ThirtyTwo()
    ensures Pow2(32) == 0x1_0000_0000
  {
    Pow2Sixteen();
    Pow2Sum(16, 16);
  }

  lemma {:induction false} ValueSplit(s: seq<u32>, i: nat)
    requires i <= |s|
    ensures Value(s) == Value(s[..i]) + Weight(i) * Value(s[i..])
  {
    if i == 0 {
      assert s[0..] == s;
    } else {
      ValueSplit(s[1..], i - 1);
      assert s[1..][..i - 1] == s[..i][1..] && s[1..][i - 1..] == s[i..];
      Triple(Weight(i - 1), Value(s[i..]));
    }
  }

  /** One more word. */
  lemma ValueNext(s: seq<u32>, i: nat)
    requires i < |s|
    ensures Value(s[..i + 1]) == Value(s[..i]) + Weight(i) * s[i]
  {
    var t := s[..i + 1];
    ValueSplit(t, i);
    assert t[..i] == s[..i] && t[i..] == [s[i]];
    assert Value([s[i]]) == s[i] + 0x1_0000_0000 * Value([s[i]][1..]);
  }

  lemma {:induction false} ValueBound(s: seq<u32>)
    ensures Value(s) < Weight(|s|)
  {
    if s == [] {
    } else {
      ValueBound(s[1..]);
    }
  }

  lemma {:induction false} ValueZero(s: seq<u32>)
    requires forall i | 0 <= i < |s| :: s[i] == 0
    ensures Value(s) == 0
  {
    if s == [] {
    } else {
      ValueZero(s[1..]);
    }
  }

  /** Changing one word. */
  lemma ValueUpdate(s: seq<u32>, i: nat, x: u32)
    requires i < |s|
    ensures Value(s[i := x]) == Value(s) + Weight(i) * (x - s[i])
  {
    var t := s[i := x];
    ValueSplit(s, i);
    ValueSplit(t, i);
    assert t[..i] == s[..i] && t[i..] == [x] + s[i + 1..] && s[i..] == [s[i]] + s[i + 1..];
    assert t[i..][1..] == s[i..][1..];
    UpdateArithmetic(Weight(i), s[i], x, Value(s[i..][1..]));
  }

  lemma UpdateArithmetic(w: nat, a: int, x: int, v: nat)
    ensures w * (x + 0x1_0000_0000 * v) == w * (a + 0x1_0000_0000 * v) + w * (x - a)
  {
  }

  /** Words that agree above a position are compared there. */
  lemma CompareAt(s: seq<u32>, t: seq<u32>, i: nat)
    requires i < |s| == |t| && s[i + 1..] == t[i + 1..] && s[i] < t[i]
    ensures Value(s) < Value(t)
  {
    ValueSplit(s, i + 1);
    ValueSplit(t, i + 1);
    ValueNext(s, i);
    ValueNext(t, i);
    ValueBound(s[..i]);
    CompareArithmetic(Value(s[..i]), Value(t[..i]), Weight(i), s[i], t[i]);
  }

  lemma CompareArithmetic(a: nat, b: nat, w: nat, x: int, y: int)
    requires a < w && x < y
    ensures a + w * x < b + w * y
  {
    assert w * (x + 1) <= w * y;
  }

  // ---------------------------------------------------------------- words

  /** `n & 0xffffffff` and `n >> 32`. */
  function Low32(x: nat): u32 { x % 0x1_0000_0000 }

  function High32(x: nat): nat { x / 0x1_0000_0000 }

  lemma Split32(x: nat)
    ensures x == High32(x) * 0x1_0000_0000 + Low32(x)
  {
  }
}
