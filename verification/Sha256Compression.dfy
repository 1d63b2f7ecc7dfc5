/** The compression function of SHA-256: the 64-round schedule of section 6.2.2 of FIPS 180-4, and the
    unrolled code of sha256.cpp and hash_impl.h, which rotates the names of the registers instead of
    their contents and keeps sixteen words of the message schedule. */
module Sha256Compression {

  type Word = bv32

  /** The working variables, or the hash value between blocks. */
  datatype Regs = Regs(a: Word, b: Word, c: Word, d: Word, e: Word, f: Word, g: Word, h: Word)

  function Plus(x: Word, y: Word): Word { x + y }

  lemma PlusCommutes(x: Word, y: Word)
    ensures Plus(x, y) == Plus(y, x)
  {
  }

  function Ch(x: Word, y: Word, z: Word): Word { z ^ (x & (y ^ z)) }

  function Maj(x: Word, y: Word, z: Word): Word { (x & y) | (z & (x | y)) }

  function Sigma0(x: Word): Word { ((x >> 2) | (x << 30)) ^ ((x >> 13) | (x << 19)) ^ ((x >> 22) | (x << 10)) }

  function Sigma1(x: Word): Word { ((x >> 6) | (x << 26)) ^ ((x >> 11) | (x << 21)) ^ ((x >> 25) | (x << 7)) }

  function LowerSigma0(x: Word): Word { ((x >> 7) | (x << 25)) ^ ((x >> 18) | (x << 14)) ^ (x >> 3) }

  function LowerSigma1(x: Word): Word { ((x >> 17) | (x << 15)) ^ ((x >> 19) | (x << 13)) ^ (x >> 10) }

  /** The code's choice and majority are those of section 4.1.2 of FIPS 180-4. */
  lemma ChoiceAndMajority(x: Word, y: Word, z: Word)
    ensures Ch(x, y, z) == (x & y) ^ (!x & z)
    ensures Maj(x, y, z) == (x & y) ^ (x & z) ^ (y & z)
  {
  }

  /** The constants of section 4.2.2, eight in a row. */
  const CONSTANTS: seq<seq<Word>> :=
    [[0x428a2f98, 0x71374491, 0xb5c0fbcf, 0xe9b5dba5, 0x3956c25b, 0x59f111f1, 0x923f82a4, 0xab1c5ed5],
     [0xd807aa98, 0x12835b01, 0x243185be, 0x550c7dc3, 0x72be5d74, 0x80deb1fe, 0x9bdc06a7, 0xc19bf174],
     [0xe49b69c1, 0xefbe4786, 0x0fc19dc6, 0x240ca1cc, 0x2de92c6f, 0x4a7484aa, 0x5cb0a9dc, 0x76f988da],
     [0x983e5152, 0xa831c66d, 0xb00327c8, 0xbf597fc7, 0xc6e00bf3, 0xd5a79147, 0x06ca6351, 0x14292967],
     [0x27b70a85, 0x2e1b2138, 0x4d2c6dfc, 0x53380d13, 0x650a7354, 0x766a0abb, 0x81c2c92e, 0x92722c85],
     [0xa2bfe8a1, 0xa81a664b, 0xc24b8b70, 0xc76c51a3, 0xd192e819, 0xd6990624, 0xf40e3585, 0x106aa070],
     [0x19a4c116, 0x1e376c08, 0x2748774c, 0x34b0bcb5, 0x391c0cb3, 0x4ed8aa4a, 0x5b9cca4f, 0x682e6ff3],
     [0x748f82ee, 0x78a5636f, 0x84c87814, 0x8cc70208, 0x90befffa, 0xa4506ceb, 0xbef9a3f7, 0xc67178f2]]

  function K(t: nat): Word {
    if t < 64 then CONSTANTS[t / 8][t % 8] else 0
  }

  // ---------------------------------------------------------------- the 64-round schedule

  /** Word t of the message schedule. */
  function W(block: seq<Word>, t: nat): Word
    requires |block| == 16
  {
    if t < 16 then block[t]
    else Plus(Plus(Plus(LowerSigma1(W(block, t - 2)), W(block, t - 7)), LowerSigma0(W(block, t - 15))),
      W(block, t - 16))
  }

  /** One round, by which all registers move on. */
  function Step(r: Regs, k: Word, w: Word): Regs {
    var t1 := Plus(Plus(Plus(Plus(r.h, Sigma1(r.e)), Ch(r.e, r.f, r.g)), k), w);
    var t2 := Plus(Sigma0(r.a), Maj(r.a, r.b, r.c));
    Regs(Plus(t1, t2), r.a, r.b, r.c, Plus(r.d, t1), r.e, r.f, r.g)
  }

  function Rounds(s: Regs, block: seq<Word>, n: nat): Regs
    requires |block| == 16
  {
    if n == 0 then s else Step(Rounds(s, block, n - 1), K(n - 1), W(block, n - 1))
  }

  function Compress(s: Regs, block: seq<Word>): Regs
    requires |block| == 16
  {
    var r := Rounds(s, block, 64);
    Regs(Plus(s.a, r.a), Plus(s.b, r.b), Plus(s.c, r.c), Plus(s.d, r.d),
         Plus(s.e, r.e), Plus(s.f, r.f), Plus(s.g, r.g), Plus(s.h, r.h))
  }

  // ---------------------------------------------------------------- the unrolled code

  /** `Round`: what it assigns to d and h. */
  function Round(a: Word, b: Word, c: Word, d: Word, e: Word, f: Word, g: Word, h: Word,
                 k: Word, w: Word): (Word, Word)
  {
    var t1 := Plus(Plus(Plus(Plus(h, Sigma1(e)), Ch(e, f, g)), k), w);
    var t2 := Plus(Sigma0(a), Maj(a, b, c));
    (Plus(d, t1), Plus(t1, t2))
  }

  /** `w0 += sigma1(w14) + w9 + sigma0(w1)` and the like. */
  function Schedule(w: Word, w14: Word, w9: Word, w1: Word): Word {
    Plus(w, Plus(Plus(LowerSigma1(w14), w9), LowerSigma0(w1)))
  }

  /** A round on the registers under their current names is a step of the schedule. */
  lemma StepTo(s: Regs, block: seq<Word>, t: nat, a: Word, b: Word, c: Word, d: Word, e: Word, f: Word, g: Word,
               h: Word, d': Word, h': Word, w: Word)
    requires |block| == 16 && Rounds(s, block, t) == Regs(a, b, c, d, e, f, g, h) && w == W(block, t)
    requires (d', h') == Round(a, b, c, d, e, f, g, h, K(t), w)
    ensures Rounds(s, block, t + 1) == Regs(h', a, b, c, d', e, f, g)
  {
    hide W, K, Plus, Sigma0, Sigma1, Ch, Maj;
  }

  /** The next word of the schedule, from the sixteen before it. */
  lemma NextWord(block: seq<Word>, t: nat)
    requires |block| == 16 && t >= 16
    ensures W(block, t) == Schedule(W(block, t - 16), W(block, t - 2), W(block, t - 7), W(block, t - 15))
  {
    hide Plus, LowerSigma0, LowerSigma1;
    PlusCommutes(W(block, t - 16),
      Plus(Plus(LowerSigma1(W(block, t - 2)), W(block, t - 7)), LowerSigma0(W(block, t - 15))));
  }

  /** Eight rounds on given words, after which the registers have their old names again. */
  method EightRounds(s: Regs, block: seq<Word>, t: nat, p: Regs, w: seq<Word>) returns (r: Regs)
    requires |block| == 16 && |w| == 8 && p == Rounds(s, block, t)
    requires forall i | 0 <= i < 8 :: w[i] == W(block, t + i)
    ensures r == Rounds(s, block, t + 8)
  {
    hide W, K, Round, Rounds;
    var a, b, c, d, e, f, g, h := p.a, p.b, p.c, p.d, p.e, p.f, p.g, p.h;
    var (d0, h0) := Round(a, b, c, d, e, f, g, h, K(t + 0), w[0]);
    StepTo(s, block, t + 0, a, b, c, d, e, f, g, h, d0, h0, w[0]);
    d, h := d0, h0;
    var (d1, h1) := Round(h, a, b, c, d, e, f, g, K(t + 1), w[1]);
    StepTo(s, block, t + 1, h, a, b, c, d, e, f, g, d1, h1, w[1]);
    c, g := d1, h1;
    var (d2, h2) := Round(g, h, a, b, c, d, e, f, K(t + 2), w[2]);
    StepTo(s, block, t + 2, g, h, a, b, c, d, e, f, d2, h2, w[2]);
    b, f := d2, h2;
    var (d3, h3) := Round(f, g, h, a, b, c, d, e, K(t + 3), w[3]);
    StepTo(s, block, t + 3, f, g, h, a, b, c, d, e, d3, h3, w[3]);
    a, e := d3, h3;
    var (d4, h4) := Round(e, f, g, h, a, b, c, d, K(t + 4), w[4]);
    StepTo(s, block, t + 4, e, f, g, h, a, b, c, d, d4, h4, w[4]);
    h, d := d4, h4;
    var (d5, h5) := Round(d, e, f, g, h, a, b, c, K(t + 5), w[5]);
    StepTo(s, block, t + 5, d, e, f, g, h, a, b, c, d5, h5, w[5]);
    g, c := d5, h5;
    var (d6, h6) := Round(c, d, e, f, g, h, a, b, K(t + 6), w[6]);
    StepTo(s, block, t + 6, c, d, e, f, g, h, a, b, d6, h6, w[6]);
    f, b := d6, h6;
    var (d7, h7) := Round(b, c, d, e, f, g, h, a, K(t + 7), w[7]);
    StepTo(s, block, t + 7, b, c, d, e, f, g, h, a, d7, h7, w[7]);
    e, a := d7, h7;
    r := Regs(a, b, c, d, e, f, g, h);
  }

  /** The first sixteen rounds, on the words of the block. */
  method FirstRounds(s: Regs, block: seq<Word>) returns (r: Regs)
    requires |block| == 16
    ensures r == Rounds(s, block, 16)
  {
    hide W, Rounds;
    FirstWords(s, block);
    r := EightRounds(s, block, 0, s, block[..8]);
    r := EightRounds(s, block, 8, r, block[8..]);
  }

  lemma FirstWords(s: Regs, block: seq<Word>)
    requires |block| == 16
    ensures Rounds(s, block, 0) == s && forall t | 0 <= t < 16 :: W(block, t) == block[t]
  {
    hide Plus, LowerSigma0, LowerSigma1;
  }

  /** The update of word n among w0 to w15; the indexes wrap around as the names do. */
  function UpdateWord(w: seq<Word>, n: nat): (v: seq<Word>)
    requires |w| == 16 && n < 16
    ensures |v| == 16
  {
    w[n := Schedule(w[n], w[(n + 14) % 16], w[(n + 9) % 16], w[(n + 1) % 16])]
  }

  /** The sixteen words that the code keeps, when the first n of them have been updated at time t. */
  predicate Window(block: seq<Word>, t: nat, n: nat, w: seq<Word>)
    requires |block| == 16 && t >= 16
  {
    && |w| == 16
    && forall i | 0 <= i < 16 :: w[i] == W(block, if i < n then t + i else t - 16 + i)
  }

  /** Updating the next word, `w0 += sigma1(w14) + w9 + sigma0(w1)` and the like, moves the window. */
  lemma WindowMoves(block: seq<Word>, t: nat, n: nat, w: seq<Word>)
    requires |block| == 16 && t >= 16 && n < 16 && Window(block, t, n, w)
    ensures Window(block, t, n + 1, UpdateWord(w, n))
  {
    hide W, Schedule;
    NextWord(block, t + n);
  }

  /** The next sixteen rounds. The updates of the sixteen words, which do not depend on the registers, are
      made eight at a time before the rounds that use them. */
  method MoreRounds(s: Regs, block: seq<Word>, t: nat, p: Regs, w: seq<Word>) returns (r: Regs, v: seq<Word>)
    requires |block| == 16 && t >= 16 && p == Rounds(s, block, t) && Window(block, t, 0, w)
    ensures r == Rounds(s, block, t + 16) && Window(block, t + 16, 0, v)
  {
    hide W, Rounds, Window, Schedule;
    v := UpdateLower(block, t, w);
    WindowWords(block, t, 8, v);
    r := EightRounds(s, block, t, p, v[..8]);
    v := UpdateUpper(block, t, v);
    WindowWords(block, t, 16, v);
    r := EightRounds(s, block, t + 8, r, v[8..]);
    WindowTurns(block, t, v);
  }

  /** w0 to w7. */
  method UpdateLower(block: seq<Word>, t: nat, w: seq<Word>) returns (v: seq<Word>)
    requires |block| == 16 && t >= 16 && Window(block, t, 0, w)
    ensures Window(block, t, 8, v)
  {
    hide W, Window, Schedule, UpdateWord;
    WindowSize(block, t, 0, w);
    v := w;
    WindowMoves(block, t, 0, v);
    v := UpdateWord(v, 0);
    WindowMoves(block, t, 1, v);
    v := UpdateWord(v, 1);
    WindowMoves(block, t, 2, v);
    v := UpdateWord(v, 2);
    WindowMoves(block, t, 3, v);
    v := UpdateWord(v, 3);
    WindowMoves(block, t, 4, v);
    v := UpdateWord(v, 4);
    WindowMoves(block, t, 5, v);
    v := UpdateWord(v, 5);
    WindowMoves(block, t, 6, v);
    v := UpdateWord(v, 6);
    WindowMoves(block, t, 7, v);
    v := UpdateWord(v, 7);
  }

  /** w8 to w15. In the last sixteen rounds the code no longer stores w14 and w15, which nothing reads then. */
  method UpdateUpper(block: seq<Word>, t: nat, w: seq<Word>) returns (v: seq<Word>)
    requires |block| == 16 && t >= 16 && Window(block, t, 8, w)
    ensures Window(block, t, 16, v)
  {
    hide W, Window, Schedule, UpdateWord;
    WindowSize(block, t, 8, w);
    v := w;
    WindowMoves(block, t, 8, v);
    v := UpdateWord(v, 8);
    WindowMoves(block, t, 9, v);
    v := UpdateWord(v, 9);
    WindowMoves(block, t, 10, v);
    v := UpdateWord(v, 10);
    WindowMoves(block, t, 11, v);
    v := UpdateWord(v, 11);
    WindowMoves(block, t, 12, v);
    v := UpdateWord(v, 12);
    WindowMoves(block, t, 13, v);
    v := UpdateWord(v, 13);
    WindowMoves(block, t, 14, v);
    v := UpdateWord(v, 14);
    WindowMoves(block, t, 15, v);
    v := UpdateWord(v, 15);
  }

  lemma WindowSize(block: seq<Word>, t: nat, n: nat, w: seq<Word>)
    requires |block| == 16 && t >= 16 && Window(block, t, n, w)
    ensures |w| == 16
  {
  }

  lemma WindowWords(block: seq<Word>, t: nat, n: nat, w: seq<Word>)
    requires |block| == 16 && t >= 16 && Window(block, t, n, w) && 8 <= n
    ensures |w| == 16 && forall i | 0 <= i < 8 :: w[..8][i] == W(block, t + i)
    ensures n == 16 ==> forall i | 0 <= i < 8 :: w[8..][i] == W(block, t + 8 + i)
  {
    hide W;
  }

  lemma WindowTurns(block: seq<Word>, t: nat, w: seq<Word>)
    requires |block| == 16 && t >= 16 && Window(block, t, 16, w)
    ensures Window(block, t + 16, 0, w)
  {
    hide W;
  }

  lemma WindowStarts(block: seq<Word>)
    requires |block| == 16
    ensures Window(block, 16, 0, block)
  {
  }

  // ---------------------------------------------------------------- bytes

  type Byte = x: int | 0 <= x < 256

  /** A byte widened to a word, and the low byte of a word. */
  function Widen(b: Byte): Word { b as bv8 as Word }

  function LowByte(x: Word): Byte { (x & 0xFF) as bv8 as Byte }

  function Pack(b0: Word, b1: Word, b2: Word, b3: Word): Word {
    (b0 << 24) | (b1 << 16) | (b2 << 8) | b3
  }

  /** `ReadBE32`. */
  function ReadBE32(b: seq<Byte>): Word
    requires |b| == 4
  {
    Pack(Widen(b[0]), Widen(b[1]), Widen(b[2]), Widen(b[3]))
  }

  /** The four bytes of a word, the highest first: `WriteBE32`. */
  function BE32(x: Word): (b: seq<Byte>)
    ensures |b| == 4
  {
    [LowByte(x >> 24), LowByte(x >> 16), LowByte(x >> 8), LowByte(x)]
  }

  /** A word read from the memory of a little-endian machine, and one written there. */
  function Load(b: seq<Byte>): Word
    requires |b| == 4
  {
    Widen(b[0]) | (Widen(b[1]) << 8) | (Widen(b[2]) << 16) | (Widen(b[3]) << 24)
  }

  function Store(x: Word): (b: seq<Byte>)
    ensures |b| == 4
  {
    [LowByte(x), LowByte(x >> 8), LowByte(x >> 16), LowByte(x >> 24)]
  }

  /** The byte swap `BE32` of hash_impl.h. */
  function Swap(p: Word): Word {
    ((p & 0xFF) << 24) | ((p & 0xFF00) << 8) | ((p & 0xFF0000) >> 8) | ((p & 0xFF000000) >> 24)
  }

  /** The swapped load reads big-endian, and the swapped store writes big-endian. */
  lemma SwapLoads(b: seq<Byte>)
    requires |b| == 4
    ensures Swap(Load(b)) == ReadBE32(b)
  {
    SwapPacks(b[0] as bv8, b[1] as bv8, b[2] as bv8, b[3] as bv8);
  }

  lemma SwapPacks(b0: bv8, b1: bv8, b2: bv8, b3: bv8)
    ensures Swap(b0 as Word | (b1 as Word << 8) | (b2 as Word << 16) | (b3 as Word << 24))
      == Pack(b0 as Word, b1 as Word, b2 as Word, b3 as Word)
  {
  }

  lemma SwapStores(x: Word)
    ensures Store(Swap(x)) == BE32(x)
  {
    SwapLowBytes(x);
  }

  lemma SwapLowBytes(x: Word)
    ensures Swap(x) & 0xFF == (x >> 24) & 0xFF && (Swap(x) >> 8) & 0xFF == (x >> 16) & 0xFF
    ensures (Swap(x) >> 16) & 0xFF == (x >> 8) & 0xFF && (Swap(x) >> 24) & 0xFF == x & 0xFF
  {
  }

  /** The sixteen big-endian words of 64 bytes. */
  function Words(chunk: seq<Byte>): (w: seq<Word>)
    requires |chunk| == 64
    ensures |w| == 16 && forall i | 0 <= i < 16 :: w[i] == ReadBE32(chunk[4 * i..4 * i + 4])
  {
    seq(16, i requires 0 <= i < 16 => ReadBE32(chunk[4 * i..4 * i + 4]))
  }

  function State(s: seq<Word>): Regs
    requires |s| == 8
  {
    Regs(s[0], s[1], s[2], s[3], s[4], s[5], s[6], s[7])
  }

  /** The rounds of `Transform`. */
  method AllRounds(s: Regs, block: seq<Word>) returns (r: Regs)
    requires |block| == 16
    ensures r == Rounds(s, block, 64)
  {
    hide W, Rounds, Window;
    WindowStarts(block);
    r := FirstRounds(s, block);
    var w := block;
    r, w := MoreRounds(s, block, 16, r, w);
    r, w := MoreRounds(s, block, 32, r, w);
    r, w := MoreRounds(s, block, 48, r, w);
  }

  /** `Transform`: the unrolled rounds compute the compression function. */
  method Transform(s: array<Word>, chunk: seq<Byte>)
    requires s.Length == 8 && |chunk| == 64
    modifies s
    ensures State(s[..]) == Compress(State(old(s[..])), Words(chunk))
  {
    hide *;
    TransformWords(s, Words(chunk));
  }

  /** Both transformations, on the words they read. */
  method TransformWords(s: array<Word>, block: seq<Word>)
    requires s.Length == 8 && |block| == 16
    modifies s
    ensures State(s[..]) == Compress(State(old(s[..])), block)
  {
    hide W, K, Plus, Rounds;
    var p := Regs(s[0], s[1], s[2], s[3], s[4], s[5], s[6], s[7]);
    var r := AllRounds(p, block);
    s[0] := Plus(s[0], r.a);
    s[1] := Plus(s[1], r.b);
    s[2] := Plus(s[2], r.c);
    s[3] := Plus(s[3], r.d);
    s[4] := Plus(s[4], r.e);
    s[5] := Plus(s[5], r.f);
    s[6] := Plus(s[6], r.g);
    s[7] := Plus(s[7], r.h);
  }

  /** `secp256k1_sha256_transform`: the sixteen words in memory are swapped on the way in. */
  method SwappingTransform(s: array<Word>, buf: array<Byte>)
    requires s.Length == 8 && buf.Length == 64
    modifies s
    ensures State(s[..]) == Compress(State(old(s[..])), Words(buf[..]))
  {
    hide *;
    ghost var block, was := Words(buf[..]), s[..];
    var w: seq<Word> := [];
    var i := 0;
    while i < 16
      invariant 0 <= i <= 16 && |w| == i && block == Words(buf[..]) && s[..] == was
      invariant forall k | 0 <= k < i :: w[k] == block[k]
    {
      var chunk := Load(buf[4 * i..4 * i + 4]);
      assert buf[4 * i..4 * i + 4] == buf[..][4 * i..4 * i + 4];
      SwapLoads(buf[4 * i..4 * i + 4]);
      w := w + [Swap(chunk)];
      i := i + 1;
    }
    assert w == block;
    TransformWords(s, w);
    assert State(s[..]) == Compress(State(was), block);
    assert block == Words(buf[..]);
  }
}
