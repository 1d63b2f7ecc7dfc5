/** The digest of the message "abc", worked out from the definitions alone: 48 words of the message schedule, eight at a
    time, and 64 rounds, four at a time. */
module Sha256Example {
  import opened Sha256Compression
  import opened Sha256

  /** "abc" and its padding, as one block of words. */
  const BLOCK: seq<Word> := [0x61626380, 0, 0, 0, 0, 0, 0, 0, 0, 0, 0, 0, 0, 0, 0, 0x18]

  // ---------------------------------------------------------------- the message schedule

  predicate Eight(b: seq<Word>, t: nat, w0: Word, w1: Word, w2: Word, w3: Word, w4: Word, w5: Word, w6: Word, w7: Word)
    requires |b| == 16
  {
    && W(b, t) == w0 && W(b, t + 1) == w1 && W(b, t + 2) == w2 && W(b, t + 3) == w3
    && W(b, t + 4) == w4 && W(b, t + 5) == w5 && W(b, t + 6) == w6 && W(b, t + 7) == w7
  }

  lemma NextWords(b: seq<Word>, t: nat)
    requires |b| == 16 && t >= 16
    ensures W(b, t) == Schedule(W(b, t - 16), W(b, t - 2), W(b, t - 7), W(b, t - 15))
    ensures W(b, t + 1) == Schedule(W(b, t - 15), W(b, t - 1), W(b, t - 6), W(b, t - 14))
    ensures W(b, t + 2) == Schedule(W(b, t - 14), W(b, t), W(b, t - 5), W(b, t - 13))
    ensures W(b, t + 3) == Schedule(W(b, t - 13), W(b, t + 1), W(b, t - 4), W(b, t - 12))
  {
    hide W, Schedule;
    NextWord(b, t);
    NextWord(b, t + 1);
    NextWord(b, t + 2);
    NextWord(b, t + 3);
  }

  lemma FirstWords(b: seq<Word>, t: nat)
    requires |b| == 16 && t < 16
    ensures W(b, t) == b[t]
  {
  }

  lemma Words0(b: seq<Word>, t: nat)
    requires b == BLOCK && t == 0
    ensures Eight(b, t, 0x61626380, 0x00000000, 0x00000000, 0x00000000, 0x00000000, 0x00000000, 0x00000000, 0x00000000)
  {
    hide W;
    FirstWords(b, t + 0);
    FirstWords(b, t + 1);
    FirstWords(b, t + 2);
    FirstWords(b, t + 3);
    FirstWords(b, t + 4);
    FirstWords(b, t + 5);
    FirstWords(b, t + 6);
    FirstWords(b, t + 7);
  }

  lemma Words8(b: seq<Word>, t: nat)
    requires b == BLOCK && t == 8
    ensures Eight(b, t, 0x00000000, 0x00000000, 0x00000000, 0x00000000, 0x00000000, 0x00000000, 0x00000000, 0x00000018)
  {
    hide W;
    FirstWords(b, t + 0);
    FirstWords(b, t + 1);
    FirstWords(b, t + 2);
    FirstWords(b, t + 3);
    FirstWords(b, t + 4);
    FirstWords(b, t + 5);
    FirstWords(b, t + 6);
    FirstWords(b, t + 7);
  }

  lemma Words16(b: seq<Word>, t: nat)
    requires |b| == 16 && t >= 16
    requires Eight(b, t - 16, 0x61626380, 0x00000000, 0x00000000, 0x00000000, 0x00000000, 0x00000000, 0x00000000,
      0x00000000)
    requires Eight(b, t - 8, 0x00000000, 0x00000000, 0x00000000, 0x00000000, 0x00000000, 0x00000000, 0x00000000,
      0x00000018)
    ensures Eight(b, t, 0x61626380, 0x000f0000, 0x7da86405, 0x600003c6, 0x3e9d7b78, 0x0183fc00, 0x12dcbfdb, 0xe2e2c38e)
  {
    hide W;
    NextWords(b, t);
    NextWords(b, t + 4);
  }

  lemma Words24(b: seq<Word>, t: nat)
    requires |b| == 16 && t >= 16
    requires Eight(b, t - 16, 0x00000000, 0x00000000, 0x00000000, 0x00000000, 0x00000000, 0x00000000, 0x00000000,
      0x00000018)
    requires Eight(b, t - 8, 0x61626380, 0x000f0000, 0x7da86405, 0x600003c6, 0x3e9d7b78, 0x0183fc00, 0x12dcbfdb,
      0xe2e2c38e)
    ensures Eight(b, t, 0xc8215c1a, 0xb73679a2, 0xe5bc3909, 0x32663c5b, 0x9d209d67, 0xec8726cb, 0x702138a4, 0xd3b7973b)
  {
    hide W;
    NextWords(b, t);
    NextWords(b, t + 4);
  }

  lemma Words32(b: seq<Word>, t: nat)
    requires |b| == 16 && t >= 16
    requires Eight(b, t - 16, 0x61626380, 0x000f0000, 0x7da86405, 0x600003c6, 0x3e9d7b78, 0x0183fc00, 0x12dcbfdb,
      0xe2e2c38e)
    requires Eight(b, t - 8, 0xc8215c1a, 0xb73679a2, 0xe5bc3909, 0x32663c5b, 0x9d209d67, 0xec8726cb, 0x702138a4,
      0xd3b7973b)
    ensures Eight(b, t, 0x93f5997f, 0x3b68ba73, 0xaff4ffc1, 0xf10a5c62, 0x0a8b3996, 0x72af830a, 0x9409e33e, 0x24641522)
  {
    hide W;
    NextWords(b, t);
    NextWords(b, t + 4);
  }

  lemma Words40(b: seq<Word>, t: nat)
    requires |b| == 16 && t >= 16
    requires Eight(b, t - 16, 0xc8215c1a, 0xb73679a2, 0xe5bc3909, 0x32663c5b, 0x9d209d67, 0xec8726cb, 0x702138a4,
      0xd3b7973b)
    requires Eight(b, t - 8, 0x93f5997f, 0x3b68ba73, 0xaff4ffc1, 0xf10a5c62, 0x0a8b3996, 0x72af830a, 0x9409e33e,
      0x24641522)
    ensures Eight(b, t, 0x9f47bf94, 0xf0a64f5a, 0x3e246a79, 0x27333ba3, 0x0c4763f2, 0x840abf27, 0x7a290d5d, 0x065c43da)
  {
    hide W;
    NextWords(b, t);
    NextWords(b, t + 4);
  }

  lemma Words48(b: seq<Word>, t: nat)
    requires |b| == 16 && t >= 16
    requires Eight(b, t - 16, 0x93f5997f, 0x3b68ba73, 0xaff4ffc1, 0xf10a5c62, 0x0a8b3996, 0x72af830a, 0x9409e33e,
      0x24641522)
    requires Eight(b, t - 8, 0x9f47bf94, 0xf0a64f5a, 0x3e246a79, 0x27333ba3, 0x0c4763f2, 0x840abf27, 0x7a290d5d,
      0x065c43da)
    ensures Eight(b, t, 0xfb3e89cb, 0xcc7617db, 0xb9e66c34, 0xa9993667, 0x84badedd, 0xc21462bc, 0x1487472c, 0xb20f7a99)
  {
    hide W;
    NextWords(b, t);
    NextWords(b, t + 4);
  }

  lemma Words56(b: seq<Word>, t: nat)
    requires |b| == 16 && t >= 16
    requires Eight(b, t - 16, 0x9f47bf94, 0xf0a64f5a, 0x3e246a79, 0x27333ba3, 0x0c4763f2, 0x840abf27, 0x7a290d5d,
      0x065c43da)
    requires Eight(b, t - 8, 0xfb3e89cb, 0xcc7617db, 0xb9e66c34, 0xa9993667, 0x84badedd, 0xc21462bc, 0x1487472c,
      0xb20f7a99)
    ensures Eight(b, t, 0xef57b9cd, 0xebe6b238, 0x9fe3095e, 0x78bc8d4b, 0xa43fcf15, 0x668b2ff8, 0xeeaba2cc, 0x12b1edeb)
  {
    hide W;
    NextWords(b, t);
    NextWords(b, t + 4);
  }

  // ---------------------------------------------------------------- the constants

  predicate Keys(t: nat, k0: Word, k1: Word, k2: Word, k3: Word, k4: Word, k5: Word, k6: Word, k7: Word) {
    && K(t) == k0 && K(t + 1) == k1 && K(t + 2) == k2 && K(t + 3) == k3
    && K(t + 4) == k4 && K(t + 5) == k5 && K(t + 6) == k6 && K(t + 7) == k7
  }

  lemma Constants0(t: nat)
    requires t == 0
    ensures Keys(t, 0x428a2f98, 0x71374491, 0xb5c0fbcf, 0xe9b5dba5, 0x3956c25b, 0x59f111f1, 0x923f82a4, 0xab1c5ed5)
  {
  }

  lemma Constants8(t: nat)
    requires t == 8
    ensures Keys(t, 0xd807aa98, 0x12835b01, 0x243185be, 0x550c7dc3, 0x72be5d74, 0x80deb1fe, 0x9bdc06a7, 0xc19bf174)
  {
  }

  lemma Constants16(t: nat)
    requires t == 16
    ensures Keys(t, 0xe49b69c1, 0xefbe4786, 0x0fc19dc6, 0x240ca1cc, 0x2de92c6f, 0x4a7484aa, 0x5cb0a9dc, 0x76f988da)
  {
  }

  lemma Constants24(t: nat)
    requires t == 24
    ensures Keys(t, 0x983e5152, 0xa831c66d, 0xb00327c8, 0xbf597fc7, 0xc6e00bf3, 0xd5a79147, 0x06ca6351, 0x14292967)
  {
  }

  lemma Constants32(t: nat)
    requires t == 32
    ensures Keys(t, 0x27b70a85, 0x2e1b2138, 0x4d2c6dfc, 0x53380d13, 0x650a7354, 0x766a0abb, 0x81c2c92e, 0x92722c85)
  {
  }

  lemma Constants40(t: nat)
    requires t == 40
    ensures Keys(t, 0xa2bfe8a1, 0xa81a664b, 0xc24b8b70, 0xc76c51a3, 0xd192e819, 0xd6990624, 0xf40e3585, 0x106aa070)
  {
  }

  lemma Constants48(t: nat)
    requires t == 48
    ensures Keys(t, 0x19a4c116, 0x1e376c08, 0x2748774c, 0x34b0bcb5, 0x391c0cb3, 0x4ed8aa4a, 0x5b9cca4f, 0x682e6ff3)
  {
  }

  lemma Constants56(t: nat)
    requires t == 56
    ensures Keys(t, 0x748f82ee, 0x78a5636f, 0x84c87814, 0x8cc70208, 0x90befffa, 0xa4506ceb, 0xbef9a3f7, 0xc67178f2)
  {
  }

  // ---------------------------------------------------------------- the rounds

  lemma NextRound(s: Regs, b: seq<Word>, t: nat)
    requires |b| == 16
    ensures Rounds(s, b, t + 1) == Step(Rounds(s, b, t), K(t), W(b, t))
  {
  }

  lemma NextRounds(s: Regs, b: seq<Word>, t: nat)
    requires |b| == 16
    ensures Rounds(s, b, t + 4)
      == Step(Step(Step(Step(Rounds(s, b, t), K(t), W(b, t)), K(t + 1), W(b, t + 1)), K(t + 2), W(b, t + 2)),
           K(t + 3), W(b, t + 3))
  {
    hide W, Step, K;
    NextRound(s, b, t);
    NextRound(s, b, t + 1);
    NextRound(s, b, t + 2);
    NextRound(s, b, t + 3);
  }

  const AFTER_4 := Regs(0xd550f666, 0xc8c347a7, 0x5a6ad9ad, 0x5d6aebcd, 0x24e00850, 0xf92939eb, 0x78ce7989, 0xfa2a4622)
  const AFTER_8 := Regs(0x85a07b5f, 0xe5030380, 0x2b4209f5, 0x04409a6a, 0x0c657a79, 0x9b27a401, 0x714260ad, 0x43ada245)
  const AFTER_12 := Regs(0xf71fc5a9, 0x4798a3f4, 0x8c87346b, 0x8e04ecb9, 0x816fd6e9, 0x436b23e8, 0x1cc92596, 0x32ca2d8c)
  const AFTER_16 := Regs(0xb0fa238e, 0xc0645fde, 0xd932eb16, 0x87912990, 0x07590dcd, 0x0b92f20c, 0x745a48de, 0x1e578218)
  const AFTER_20 := Regs(0xe1f20c33, 0xfe777bbf, 0xc2fbd9d1, 0x21da9a9b, 0xb0638179, 0xcc899961, 0x846ee454, 0x8034229c)
  const AFTER_24 := Regs(0xc5d53d8d, 0xa7a3623f, 0xc2606d6d, 0x9dc68b63, 0xaa47c347, 0x49f5114a, 0xe1257970, 0x8ada8930)
  const AFTER_28 := Regs(0x77d37528, 0xb62ec4bc, 0xcde8037d, 0x1c2c2838, 0xedffbff8, 0xc74c6516, 0x14383d8e, 0x2823ef91)
  const AFTER_32 := Regs(0x73b33bf5, 0xea992a22, 0xa0060b30, 0x363482c9, 0xba591112, 0x0109ab3a, 0xade79437, 0x6112a3b7)
  const AFTER_36 := Regs(0x65a0cfe4, 0xa9a7738c, 0xfe604df5, 0x98e12507, 0xf4b002d6, 0x085f3833, 0x59249dd3, 0x9cd9f5f6)
  const AFTER_40 := Regs(0x79ea687a, 0x6dc57a8a, 0x34df1604, 0x41a65cb1, 0x1efbc0a0, 0xf0781bc8, 0xa507a53d, 0x0772a26b)
  const AFTER_44 := Regs(0x9d4baf93, 0x17aa0dfe, 0xdf46652f, 0xd6670766, 0xfda24c2e, 0xdecd4715, 0x838b2711, 0x26352d63)
  const AFTER_48 := Regs(0x4172328d, 0xa14c14b0, 0x72ab4b91, 0x26628815, 0xfecf0bc6, 0xd57b94a9, 0xb7755da1, 0xa80f11f0)
  const AFTER_52 := Regs(0x886e7a22, 0x7a0508a1, 0xf11bfaa8, 0x05757ceb, 0x49231c1e, 0x52f1ccf7, 0x6e5c390c, 0xbd714038)
  const AFTER_56 := Regs(0x38cc9913, 0x3ec45cdb, 0xf5702fdb, 0x101fd28f, 0x54cb266b, 0xe50e1b4f, 0x9f4787c3, 0x529e7d00)
  const AFTER_60 := Regs(0xb6ae8fff, 0xffb70472, 0xc062d46f, 0xfcd1887b, 0xb21bad3d, 0x6d83bfc6, 0x7e44008e, 0x9b5e906c)
  const AFTER_64 := Regs(0x506e3058, 0xd39a2165, 0x04d24d6c, 0xb85e2ce9, 0x5ef50f24, 0xfb121210, 0x948d25b6, 0x961f4894)

  lemma Rounds0(s: Regs, b: seq<Word>, t: nat)
    requires |b| == 16 && Rounds(s, b, t) == INITIAL
    requires Keys(t, 0x428a2f98, 0x71374491, 0xb5c0fbcf, 0xe9b5dba5, 0x3956c25b, 0x59f111f1, 0x923f82a4, 0xab1c5ed5)
    requires Eight(b, t, 0x61626380, 0x00000000, 0x00000000, 0x00000000, 0x00000000, 0x00000000, 0x00000000,
      0x00000000)
    ensures Rounds(s, b, t + 4) == AFTER_4
  {
    hide W, K, Rounds;
    NextRounds(s, b, t);
  }

  lemma Rounds4(s: Regs, b: seq<Word>, t: nat)
    requires |b| == 16 && Rounds(s, b, t + 4) == AFTER_4
    requires Keys(t, 0x428a2f98, 0x71374491, 0xb5c0fbcf, 0xe9b5dba5, 0x3956c25b, 0x59f111f1, 0x923f82a4, 0xab1c5ed5)
    requires Eight(b, t, 0x61626380, 0x00000000, 0x00000000, 0x00000000, 0x00000000, 0x00000000, 0x00000000,
      0x00000000)
    ensures Rounds(s, b, t + 8) == AFTER_8
  {
    hide W, K, Rounds;
    NextRounds(s, b, t + 4);
  }

  lemma Rounds8(s: Regs, b: seq<Word>, t: nat)
    requires |b| == 16 && Rounds(s, b, t) == AFTER_8
    requires Keys(t, 0xd807aa98, 0x12835b01, 0x243185be, 0x550c7dc3, 0x72be5d74, 0x80deb1fe, 0x9bdc06a7, 0xc19bf174)
    requires Eight(b, t, 0x00000000, 0x00000000, 0x00000000, 0x00000000, 0x00000000, 0x00000000, 0x00000000,
      0x00000018)
    ensures Rounds(s, b, t + 4) == AFTER_12
  {
    hide W, K, Rounds;
    NextRounds(s, b, t);
  }

  lemma Rounds12(s: Regs, b: seq<Word>, t: nat)
    requires |b| == 16 && Rounds(s, b, t + 4) == AFTER_12
    requires Keys(t, 0xd807aa98, 0x12835b01, 0x243185be, 0x550c7dc3, 0x72be5d74, 0x80deb1fe, 0x9bdc06a7, 0xc19bf174)
    requires Eight(b, t, 0x00000000, 0x00000000, 0x00000000, 0x00000000, 0x00000000, 0x00000000, 0x00000000,
      0x00000018)
    ensures Rounds(s, b, t + 8) == AFTER_16
  {
    hide W, K, Rounds;
    NextRounds(s, b, t + 4);
  }

  lemma Rounds16(s: Regs, b: seq<Word>, t: nat)
    requires |b| == 16 && Rounds(s, b, t) == AFTER_16
    requires Keys(t, 0xe49b69c1, 0xefbe4786, 0x0fc19dc6, 0x240ca1cc, 0x2de92c6f, 0x4a7484aa, 0x5cb0a9dc, 0x76f988da)
    requires Eight(b, t, 0x61626380, 0x000f0000, 0x7da86405, 0x600003c6, 0x3e9d7b78, 0x0183fc00, 0x12dcbfdb,
      0xe2e2c38e)
    ensures Rounds(s, b, t + 4) == AFTER_20
  {
    hide W, K, Rounds;
    NextRounds(s, b, t);
  }

  lemma Rounds20(s: Regs, b: seq<Word>, t: nat)
    requires |b| == 16 && Rounds(s, b, t + 4) == AFTER_20
    requires Keys(t, 0xe49b69c1, 0xefbe4786, 0x0fc19dc6, 0x240ca1cc, 0x2de92c6f, 0x4a7484aa, 0x5cb0a9dc, 0x76f988da)
    requires Eight(b, t, 0x61626380, 0x000f0000, 0x7da86405, 0x600003c6, 0x3e9d7b78, 0x0183fc00, 0x12dcbfdb,
      0xe2e2c38e)
    ensures Rounds(s, b, t + 8) == AFTER_24
  {
    hide W, K, Rounds;
    NextRounds(s, b, t + 4);
  }

  lemma Rounds24(s: Regs, b: seq<Word>, t: nat)
    requires |b| == 16 && Rounds(s, b, t) == AFTER_24
    requires Keys(t, 0x983e5152, 0xa831c66d, 0xb00327c8, 0xbf597fc7, 0xc6e00bf3, 0xd5a79147, 0x06ca6351, 0x14292967)
    requires Eight(b, t, 0xc8215c1a, 0xb73679a2, 0xe5bc3909, 0x32663c5b, 0x9d209d67, 0xec8726cb, 0x702138a4,
      0xd3b7973b)
    ensures Rounds(s, b, t + 4) == AFTER_28
  {
    hide W, K, Rounds;
    NextRounds(s, b, t);
  }

  lemma Rounds28(s: Regs, b: seq<Word>, t: nat)
    requires |b| == 16 && Rounds(s, b, t + 4) == AFTER_28
    requires Keys(t, 0x983e5152, 0xa831c66d, 0xb00327c8, 0xbf597fc7, 0xc6e00bf3, 0xd5a79147, 0x06ca6351, 0x14292967)
    requires Eight(b, t, 0xc8215c1a, 0xb73679a2, 0xe5bc3909, 0x32663c5b, 0x9d209d67, 0xec8726cb, 0x702138a4,
      0xd3b7973b)
    ensures Rounds(s, b, t + 8) == AFTER_32
  {
    hide W, K, Rounds;
    NextRounds(s, b, t + 4);
  }

  lemma Rounds32(s: Regs, b: seq<Word>, t: nat)
    requires |b| == 16 && Rounds(s, b, t) == AFTER_32
    requires Keys(t, 0x27b70a85, 0x2e1b2138, 0x4d2c6dfc, 0x53380d13, 0x650a7354, 0x766a0abb, 0x81c2c92e, 0x92722c85)
    requires Eight(b, t, 0x93f5997f, 0x3b68ba73, 0xaff4ffc1, 0xf10a5c62, 0x0a8b3996, 0x72af830a, 0x9409e33e,
      0x24641522)
    ensures Rounds(s, b, t + 4) == AFTER_36
  {
    hide W, K, Rounds;
    NextRounds(s, b, t);
  }

  lemma Rounds36(s: Regs, b: seq<Word>, t: nat)
    requires |b| == 16 && Rounds(s, b, t + 4) == AFTER_36
    requires Keys(t, 0x27b70a85, 0x2e1b2138, 0x4d2c6dfc, 0x53380d13, 0x650a7354, 0x766a0abb, 0x81c2c92e, 0x92722c85)
    requires Eight(b, t, 0x93f5997f, 0x3b68ba73, 0xaff4ffc1, 0xf10a5c62, 0x0a8b3996, 0x72af830a, 0x9409e33e,
      0x24641522)
    ensures Rounds(s, b, t + 8) == AFTER_40
  {
    hide W, K, Rounds;
    NextRounds(s, b, t + 4);
  }

  lemma Rounds40(s: Regs, b: seq<Word>, t: nat)
    requires |b| == 16 && Rounds(s, b, t) == AFTER_40
    requires Keys(t, 0xa2bfe8a1, 0xa81a664b, 0xc24b8b70, 0xc76c51a3, 0xd192e819, 0xd6990624, 0xf40e3585, 0x106aa070)
    requires Eight(b, t, 0x9f47bf94, 0xf0a64f5a, 0x3e246a79, 0x27333ba3, 0x0c4763f2, 0x840abf27, 0x7a290d5d,
      0x065c43da)
    ensures Rounds(s, b, t + 4) == AFTER_44
  {
    hide W, K, Rounds;
    NextRounds(s, b, t);
  }

  lemma Rounds44(s: Regs, b: seq<Word>, t: nat)
    requires |b| == 16 && Rounds(s, b, t + 4) == AFTER_44
    requires Keys(t, 0xa2bfe8a1, 0xa81a664b, 0xc24b8b70, 0xc76c51a3, 0xd192e819, 0xd6990624, 0xf40e3585, 0x106aa070)
    requires Eight(b, t, 0x9f47bf94, 0xf0a64f5a, 0x3e246a79, 0x27333ba3, 0x0c4763f2, 0x840abf27, 0x7a290d5d,
      0x065c43da)
    ensures Rounds(s, b, t + 8) == AFTER_48
  {
    hide W, K, Rounds;
    NextRounds(s, b, t + 4);
  }

  lemma Rounds48(s: Regs, b: seq<Word>, t: nat)
    requires |b| == 16 && Rounds(s, b, t) == AFTER_48
    requires Keys(t, 0x19a4c116, 0x1e376c08, 0x2748774c, 0x34b0bcb5, 0x391c0cb3, 0x4ed8aa4a, 0x5b9cca4f, 0x682e6ff3)
    requires Eight(b, t, 0xfb3e89cb, 0xcc7617db, 0xb9e66c34, 0xa9993667, 0x84badedd, 0xc21462bc, 0x1487472c,
      0xb20f7a99)
    ensures Rounds(s, b, t + 4) == AFTER_52
  {
    hide W, K, Rounds;
    NextRounds(s, b, t);
  }

  lemma Rounds52(s: Regs, b: seq<Word>, t: nat)
    requires |b| == 16 && Rounds(s, b, t + 4) == AFTER_52
    requires Keys(t, 0x19a4c116, 0x1e376c08, 0x2748774c, 0x34b0bcb5, 0x391c0cb3, 0x4ed8aa4a, 0x5b9cca4f, 0x682e6ff3)
    requires Eight(b, t, 0xfb3e89cb, 0xcc7617db, 0xb9e66c34, 0xa9993667, 0x84badedd, 0xc21462bc, 0x1487472c,
      0xb20f7a99)
    ensures Rounds(s, b, t + 8) == AFTER_56
  {
    hide W, K, Rounds;
    NextRounds(s, b, t + 4);
  }

  lemma Rounds56(s: Regs, b: seq<Word>, t: nat)
    requires |b| == 16 && Rounds(s, b, t) == AFTER_56
    requires Keys(t, 0x748f82ee, 0x78a5636f, 0x84c87814, 0x8cc70208, 0x90befffa, 0xa4506ceb, 0xbef9a3f7, 0xc67178f2)
    requires Eight(b, t, 0xef57b9cd, 0xebe6b238, 0x9fe3095e, 0x78bc8d4b, 0xa43fcf15, 0x668b2ff8, 0xeeaba2cc,
      0x12b1edeb)
    ensures Rounds(s, b, t + 4) == AFTER_60
  {
    hide W, K, Rounds;
    NextRounds(s, b, t);
  }

  lemma Rounds60(s: Regs, b: seq<Word>, t: nat)
    requires |b| == 16 && Rounds(s, b, t + 4) == AFTER_60
    requires Keys(t, 0x748f82ee, 0x78a5636f, 0x84c87814, 0x8cc70208, 0x90befffa, 0xa4506ceb, 0xbef9a3f7, 0xc67178f2)
    requires Eight(b, t, 0xef57b9cd, 0xebe6b238, 0x9fe3095e, 0x78bc8d4b, 0xa43fcf15, 0x668b2ff8, 0xeeaba2cc,
      0x12b1edeb)
    ensures Rounds(s, b, t + 8) == AFTER_64
  {
    hide W, K, Rounds;
    NextRounds(s, b, t + 4);
  }

  // ---------------------------------------------------------------- the digest

  lemma Rounds64(b: seq<Word>, t: nat)
    requires b == BLOCK && |b| == 16 && t == 64
    ensures Rounds(INITIAL, b, t) == AFTER_64
  {
    hide *;
    Words0(b, 0);
    Words8(b, 8);
    Words16(b, 16);
    Words24(b, 24);
    Words32(b, 32);
    Words40(b, 40);
    Words48(b, 48);
    Words56(b, 56);
    NoRounds(INITIAL, b);
    Constants0(0);
    Rounds0(INITIAL, b, 0);
    Rounds4(INITIAL, b, 0);
    Constants8(8);
    Rounds8(INITIAL, b, 8);
    Rounds12(INITIAL, b, 8);
    Constants16(16);
    Rounds16(INITIAL, b, 16);
    Rounds20(INITIAL, b, 16);
    Constants24(24);
    Rounds24(INITIAL, b, 24);
    Rounds28(INITIAL, b, 24);
    Constants32(32);
    Rounds32(INITIAL, b, 32);
    Rounds36(INITIAL, b, 32);
    Constants40(40);
    Rounds40(INITIAL, b, 40);
    Rounds44(INITIAL, b, 40);
    Constants48(48);
    Rounds48(INITIAL, b, 48);
    Rounds52(INITIAL, b, 48);
    Constants56(56);
    Rounds56(INITIAL, b, 56);
    Rounds60(INITIAL, b, 56);
  }

  lemma NoRounds(s: Regs, b: seq<Word>)
    requires |b| == 16
    ensures Rounds(s, b, 0) == s
  {
  }

  lemma Compressed(b: seq<Word>, t: nat)
    requires |b| == 16 && t == 64 && Rounds(INITIAL, b, t) == AFTER_64
    ensures Compress(INITIAL, b)
      == Regs(0xba7816bf, 0x8f01cfea, 0x414140de, 0x5dae2223, 0xb00361a3, 0x96177a9c, 0xb410ff61, 0xf20015ad)
  {
    hide Rounds;
  }

  lemma PaddedBytes(data: seq<Byte>)
    requires data == [0x61, 0x62, 0x63] + Padding(3)
    ensures |data| == 64 && data[0] == 0x61 && data[1] == 0x62 && data[2] == 0x63 && data[3] == 0x80 && data[63] == 0x18
    ensures forall i | 4 <= i < 63 :: data[i] == 0
  {
    hide Zeros, BE64;
    LengthBytes();
  }

  lemma LengthBytes()
    ensures BE64(8 * 3) == [0, 0, 0, 0, 0, 0, 0, 0x18]
  {
  }

  lemma PaddedWords(data: seq<Byte>)
    requires data == [0x61, 0x62, 0x63] + Padding(3)
    ensures |data| == 64 && Words(data) == BLOCK
  {
    hide Padding;
    PaddedBytes(data);
  }

  lemma DigestBytes(s: Regs)
    requires s
      == Regs(0xba7816bf, 0x8f01cfea, 0x414140de, 0x5dae2223, 0xb00361a3, 0x96177a9c, 0xb410ff61, 0xf20015ad)
    ensures Output(s) ==
      [0xba, 0x78, 0x16, 0xbf, 0x8f, 0x01, 0xcf, 0xea,
       0x41, 0x41, 0x40, 0xde, 0x5d, 0xae, 0x22, 0x23,
       0xb0, 0x03, 0x61, 0xa3, 0x96, 0x17, 0x7a, 0x9c,
       0xb4, 0x10, 0xff, 0x61, 0xf2, 0x00, 0x15, 0xad]
  {
  }

  lemma OneBlock(data: seq<Byte>)
    requires |data| == 64
    ensures Absorb(INITIAL, data) == Compress(INITIAL, Words(data))
  {
    hide Compress, Words;
    assert data[..64] == data && data[64..] == [];
  }

  /** The digest of the message "abc". */
  lemma AbcDigest(m: seq<Byte>)
    requires m == [0x61, 0x62, 0x63]
    ensures Digest(m) ==
      [0xba, 0x78, 0x16, 0xbf, 0x8f, 0x01, 0xcf, 0xea,
       0x41, 0x41, 0x40, 0xde, 0x5d, 0xae, 0x22, 0x23,
       0xb0, 0x03, 0x61, 0xa3, 0x96, 0x17, 0x7a, 0x9c,
       0xb4, 0x10, 0xff, 0x61, 0xf2, 0x00, 0x15, 0xad]
  {
    hide Output, Compress, Padding, Words, Absorb, Rounds;
    var data := m + Padding(3);
    PaddedWords(data);
    OneBlock(data);
    Rounds64(BLOCK, 64);
    Compressed(BLOCK, 64);
    DigestBytes(Compress(INITIAL, BLOCK));
  }
}
