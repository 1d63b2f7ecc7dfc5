/** Streaming SHA-256: `CSHA256` of sha256.cpp and `secp256k1_sha256` of hash_impl.h. Both compute the
    fold of the compression function over the padded message, for every split into writes. */
module Sha256 {
  import opened Sha256Compression

  // ---------------------------------------------------------------- the digest of a message

  const INITIAL := Regs(0x6a09e667, 0xbb67ae85, 0x3c6ef372, 0xa54ff53a, 0x510e527f, 0x9b05688c, 0x1f83d9ab, 0x5be0cd19)

  /** The compression function over whole blocks. */
  function Absorb(s: Regs, data: seq<Byte>): Regs
    requires |data| % 64 == 0
    decreases |data|
  {
    if data == [] then s else Absorb(Compress(s, Words(data[..64])), data[64..])
  }

  function Zeros(n: nat): (z: seq<Byte>)
    ensures |z| == n && forall i | 0 <= i < n :: z[i] == 0
  {
    if n == 0 then [] else [0] + Zeros(n - 1)
  }

  /** The 64-bit length in bits, big-endian. */
  function BE64(x: nat): (b: seq<Byte>)
    requires x < 0x1_0000_0000_0000_0000
    ensures |b| == 8
  {
    BE32(ToWord(x / 0x1_0000_0000)) + BE32(ToWord(x % 0x1_0000_0000))
  }

  function ToWord(x: nat): Word
    requires x < 0x1_0000_0000
  {
    x as Word
  }

  /** The padding of section 5.1.1 of FIPS 180-4: a one bit, the fewest zeros that leave 8 bytes of the
      last block, and the length. */
  function Padding(len: nat): seq<Byte>
    requires len < 0x2000_0000_0000_0000
  {
    [0x80] + Zeros((55 - len) % 64) + BE64(8 * len)
  }

  lemma PaddingFills(len: nat)
    requires len < 0x2000_0000_0000_0000
    ensures (len + |Padding(len)|) % 64 == 0 && 9 <= |Padding(len)| < 9 + 64
    ensures (119 - len % 64) % 64 == (55 - len) % 64
  {
    hide BE64, Zeros;
    PaddingArithmetic(len, len / 64, len % 64);
  }

  lemma PaddingArithmetic(len: nat, q: nat, r: nat)
    requires len == 64 * q + r && r < 64
    ensures (119 - r) % 64 == (55 - len) % 64 && (len + 9 + (55 - len) % 64) % 64 == 0
  {
    if r <= 55 {
      assert (55 - len) % 64 == 55 - r;
    } else {
      assert (55 - len) % 64 == 119 - r;
    }
  }

  /** The bytes of the final hash value. */
  function Output(s: Regs): (b: seq<Byte>)
    ensures |b| == 32
  {
    BE32(s.a) + BE32(s.b) + BE32(s.c) + BE32(s.d) + BE32(s.e) + BE32(s.f) + BE32(s.g) + BE32(s.h)
  }

  function Digest(m: seq<Byte>): (b: seq<Byte>)
    requires |m| < 0x2000_0000_0000_0000
    ensures |b| == 32
  {
    WholeBlocks(m);
    Output(Absorb(INITIAL, m + Padding(|m|)))
  }

  lemma WholeBlocks(m: seq<Byte>)
    requires |m| < 0x2000_0000_0000_0000
    ensures |m + Padding(|m|)| % 64 == 0
  {
    hide Padding;
    PaddingFills(|m|);
  }

  lemma {:induction false} AbsorbAppend(s: Regs, data: seq<Byte>, block: seq<Byte>)
    requires |data| % 64 == 0 && |block| == 64
    ensures |data + block| % 64 == 0 && Absorb(s, data + block) == Compress(Absorb(s, data), Words(block))
    decreases |data|
  {
    hide Compress, Words;
    if data == [] {
      assert data + block == block && block[..64] == block && block[64..] == [];
    } else {
      AbsorbAppend(Compress(s, Words(data[..64])), data[64..], block);
      assert (data + block)[..64] == data[..64] && (data + block)[64..] == data[64..] + block;
    }
  }

  // ---------------------------------------------------------------- the streaming state

  /** The hash value and the buffer after the bytes of a message: the buffer holds what does not fill a block. */
  ghost predicate Absorbed(s: Regs, buf: seq<Byte>, used: nat, m: seq<Byte>) {
    && |buf| == 64 && used < 64 && used <= |m| && (|m| - used) % 64 == 0
    && buf[..used] == m[|m| - used..]
    && s == Absorb(INITIAL, m[..|m| - used])
  }

  /** Bytes that do not complete a block go to the buffer. */
  lemma Buffered(s: Regs, buf: seq<Byte>, used: nat, m: seq<Byte>, data: seq<Byte>, buf': seq<Byte>)
    requires Absorbed(s, buf, used, m) && used + |data| < 64
    requires |buf'| == 64 && buf'[..used + |data|] == buf[..used] + data
    ensures Absorbed(s, buf', used + |data|, m + data)
  {
    hide Absorb;
    var n := m + data;
    assert n[..|n| - (used + |data|)] == m[..|m| - used];
    assert n[|n| - (used + |data|)..] == m[|m| - used..] + data;
  }

  /** Bytes that complete the buffered block are compressed with it. */
  lemma Completed(s: Regs, buf: seq<Byte>, used: nat, m: seq<Byte>, data: seq<Byte>, chunk: seq<Byte>, s': Regs,
      buf': seq<Byte>)
    requires Absorbed(s, buf, used, m) && used + |data| == 64
    requires chunk == buf[..used] + data && s' == Compress(s, Words(chunk)) && |buf'| == 64
    ensures Absorbed(s', buf', 0, m + data)
  {
    hide Absorb, Compress, Words;
    var n := m + data;
    AbsorbAppend(INITIAL, m[..|m| - used], chunk);
    assert n[..|n|] == m[..|m| - used] + chunk;
  }

  /** The padding completes the last block. */
  lemma Finished(s: Regs, buf: seq<Byte>, used: nat, m: seq<Byte>, n: seq<Byte>)
    requires |m| < 0x2000_0000_0000_0000 && n == m + Padding(|m|) && Absorbed(s, buf, used, n)
    ensures used == 0 && Output(s) == Digest(m)
  {
    WholeBlocks(m);
    LastBlock(s, buf, used, n);
    hide Absorbed, Absorb, Output, Padding;
  }

  lemma LastBlock(s: Regs, buf: seq<Byte>, used: nat, n: seq<Byte>)
    requires Absorbed(s, buf, used, n) && |n| % 64 == 0
    ensures used == 0 && s == Absorb(INITIAL, n)
  {
    hide Absorb;
    BlockEnd(|n|, used);
    assert n[..|n|] == n;
  }

  lemma BlockEnd(n: nat, used: nat)
    requires n % 64 == 0 && used < 64 && used <= n && (n - used) % 64 == 0
    ensures used == 0
  {
  }

  // ---------------------------------------------------------------- steps of both implementations

  /** `memcpy` into the buffer. */
  method Fill(buf: array<Byte>, offset: nat, data: seq<Byte>)
    requires buf.Length == 64 && offset + |data| <= 64
    modifies buf
    ensures buf[..offset + |data|] == old(buf[..offset]) + data
  {
    var i := 0;
    while i < |data|
      invariant 0 <= i <= |data| && buf[..offset + i] == old(buf[..offset]) + data[..i]
    {
      buf[offset + i] := data[i];
      assert buf[..offset + i + 1] == buf[..offset + i] + [data[i]];
      i := i + 1;
    }
  }

  /** Fill the buffer, and process it: directly, or with the words in memory swapped. */
  method FillAndTransform(s: array<Word>, buf: array<Byte>, used: nat, chunk: seq<Byte>, swapping: bool,
                          ghost m: seq<Byte>)
    requires s.Length == 8 && buf.Length == 64 && used + |chunk| == 64
    requires Absorbed(State(s[..]), buf[..], used, m)
    modifies s, buf
    ensures Absorbed(State(s[..]), buf[..], 0, m + chunk)
  {
    hide Absorbed, Compress, Words, State;
    ghost var was, held := State(s[..]), buf[..];
    Fill(buf, used, chunk);
    assert buf[..64] == buf[..] && held[..used] == old(buf[..used]);
    if swapping {
      SwappingTransform(s, buf);
    } else {
      Transform(s, buf[..]);
    }
    Completed(was, held, used, m, chunk, buf[..], State(s[..]), buf[..]);
  }

  /** Process a chunk directly from the source. */
  method TransformDirectly(s: array<Word>, buf: array<Byte>, chunk: seq<Byte>, ghost m: seq<Byte>)
    requires s.Length == 8 && buf.Length == 64 && |chunk| == 64
    requires Absorbed(State(s[..]), buf[..], 0, m)
    modifies s
    ensures Absorbed(State(s[..]), buf[..], 0, m + chunk)
  {
    hide Absorbed, Compress, Words, State;
    ghost var was := State(s[..]);
    Transform(s, chunk);
    assert buf[..][..0] + chunk == chunk;
    Completed(was, buf[..], 0, m, chunk, chunk, State(s[..]), buf[..]);
  }

  /** Fill the buffer with what remains. */
  method Keep(s: array<Word>, buf: array<Byte>, used: nat, data: seq<Byte>, ghost m: seq<Byte>)
    requires s.Length == 8 && buf.Length == 64 && used + |data| < 64
    requires Absorbed(State(s[..]), buf[..], used, m)
    modifies buf
    ensures Absorbed(State(s[..]), buf[..], used + |data|, m + data)
  {
    hide Absorbed, State;
    ghost var held := buf[..];
    Fill(buf, used, data);
    assert held[..used] == old(buf[..used]);
    Buffered(State(s[..]), held, used, m, data, buf[..]);
  }

  // ---------------------------------------------------------------- sha256.cpp

  class CSHA256 {
    const s: array<Word>
    const buf: array<Byte>
    var bytes: nat
    /** The message so far. */
    ghost var message: seq<Byte>

    ghost predicate Valid()
      reads this, s, buf
    {
      && s.Length == 8 && buf.Length == 64 && bytes == |message|
      && Absorbed(State(s[..]), buf[..], bytes % 64, message)
    }

    constructor ()
      ensures Valid() && message == [] && fresh(s) && fresh(buf)
    {
      s := new Word[8];
      buf := new Byte[64](_ => 0);
      bytes := 0;
      message := [];
      new;
      Initialize();
      Begin(State(s[..]), buf[..]);
    }

    /** `Initialize`. */
    method Initialize()
      requires s.Length == 8
      modifies s
      ensures State(s[..]) == INITIAL
    {
      s[0], s[1], s[2], s[3] := 0x6a09e667, 0xbb67ae85, 0x3c6ef372, 0xa54ff53a;
      s[4], s[5], s[6], s[7] := 0x510e527f, 0x9b05688c, 0x1f83d9ab, 0x5be0cd19;
    }

    /** `Reset`. */
    method Reset()
      requires s.Length == 8 && buf.Length == 64
      modifies this, s
      ensures Valid() && message == []
    {
      bytes := 0;
      message := [];
      Initialize();
      Begin(State(s[..]), buf[..]);
    }

    /** `Write`: fill and process the buffer, process whole chunks from the source, buffer the rest. */
    method Write(data: seq<Byte>)
      requires Valid()
      modifies this, s, buf
      ensures Valid() && message == old(message) + data
    {
      hide Absorbed, State;
      ghost var m := message;
      var pos := 0;
      var bufsize := bytes % 64;
      assert m + data[..0] == m;
      if bufsize != 0 && bufsize + |data| >= 64 {
        FillAndTransform(s, buf, bufsize, data[..64 - bufsize], false, m);
        NextBlock(bytes, bufsize);
        bytes := bytes + (64 - bufsize);
        pos := 64 - bufsize;
        bufsize := 0;
      }
      while |data| >= pos + 64
        invariant 0 <= pos <= |data| && bytes == |m| + pos && bufsize == bytes % 64
        invariant bufsize == 0 || (pos == 0 && bufsize + |data| < 64)
        invariant Absorbed(State(s[..]), buf[..], bufsize, m + data[..pos])
      {
        var chunk := data[pos..pos + 64];
        TransformDirectly(s, buf, chunk, m + data[..pos]);
        assert m + data[..pos + 64] == m + data[..pos] + chunk;
        NextBlock(bytes, 0);
        bytes := bytes + 64;
        pos := pos + 64;
      }
      assert m + data[..pos] + data[pos..] == m + data;
      if |data| > pos {
        Keep(s, buf, bufsize, data[pos..], m + data[..pos]);
        RestFits(bytes, bufsize, |data| - pos);
        bytes := bytes + (|data| - pos);
      } else {
        assert m + data[..pos] == m + data;
      }
      message := m + data;
    }

    /** `Finalize`: the digest of everything written, for messages below 2^61 bytes. */
    method Finalize() returns (hash: seq<Byte>)
      requires Valid() && |message| < 0x2000_0000_0000_0000
      modifies this, s, buf
      ensures hash == Digest(old(message))
    {
      hide Absorbed, Absorb, BE32, BE64;
      ghost var m := message;
      PaddingFills(|m|);
      var pad := [0x80] + Zeros(63);
      var sizedesc := BE64(bytes * 8);
      var n := 1 + (119 - bytes % 64) % 64;
      PadBytes(n);
      Write(pad[..n]);
      Write(sizedesc);
      assert message == m + Padding(|m|);
      Finished(State(s[..]), buf[..], bytes % 64, m, message);
      hash := Output(State(s[..]));
    }
  }

  lemma Begin(s: Regs, buf: seq<Byte>)
    requires s == INITIAL && |buf| == 64
    ensures Absorbed(s, buf, 0, [])
  {
  }

  lemma NextBlock(n: nat, used: nat)
    requires used == n % 64
    ensures (n + (64 - used)) % 64 == 0
  {
  }

  lemma RestFits(n: nat, used: nat, more: nat)
    requires used == n % 64 && used + more < 64
    ensures (n + more) % 64 == used + more
  {
  }

  lemma PadBytes(n: nat)
    requires 1 <= n <= 64
    ensures ([0x80] + Zeros(63))[..n] == [0x80] + Zeros(n - 1)
  {
  }

  // ---------------------------------------------------------------- hash_impl.h

  class Secp256k1Sha256 {
    const s: array<Word>
    const buf: array<Byte>
    var bytes: nat
    ghost var message: seq<Byte>

    ghost predicate Valid()
      reads this, s, buf
    {
      && s.Length == 8 && buf.Length == 64 && bytes == |message|
      && Absorbed(State(s[..]), buf[..], bytes % 64, message)
    }

    /** `secp256k1_sha256_initialize`. */
    constructor ()
      ensures Valid() && message == [] && fresh(s) && fresh(buf)
    {
      s := new Word[8];
      buf := new Byte[64](_ => 0);
      bytes := 0;
      message := [];
      new;
      s[0], s[1], s[2], s[3] := 0x6a09e667, 0xbb67ae85, 0x3c6ef372, 0xa54ff53a;
      s[4], s[5], s[6], s[7] := 0x510e527f, 0x9b05688c, 0x1f83d9ab, 0x5be0cd19;
      Begin(State(s[..]), buf[..]);
    }

    /** `secp256k1_sha256_write`: every block goes through the buffer. */
    method Write(data: seq<Byte>)
      requires Valid()
      modifies this, s, buf
      ensures Valid() && message == old(message) + data
    {
      hide Absorbed, State;
      ghost var m := message;
      var bufsize := bytes % 64;
      bytes := bytes + |data|;
      var pos, len := 0, |data|;
      assert m + data[..0] == m;
      while bufsize + len >= 64
        invariant 0 <= pos && 0 <= len && pos + len == |data| && bytes == |m| + |data|
        invariant 0 <= bufsize == (|m| + pos) % 64
        invariant Absorbed(State(s[..]), buf[..], bufsize, m + data[..pos])
        decreases bufsize + len
      {
        var chunk := data[pos..pos + (64 - bufsize)];
        FillAndTransform(s, buf, bufsize, chunk, true, m + data[..pos]);
        NextBlock(|m| + pos, bufsize);
        assert m + data[..pos + (64 - bufsize)] == m + data[..pos] + chunk;
        pos := pos + (64 - bufsize);
        len := len - (64 - bufsize);
        bufsize := 0;
      }
      assert m + data[..pos] + data[pos..] == m + data;
      if len != 0 {
        Keep(s, buf, bufsize, data[pos..], m + data[..pos]);
        RestFits(|m| + pos, bufsize, len);
      } else {
        assert m + data[..pos] == m + data;
      }
      message := m + data;
    }

    /** `secp256k1_sha256_finalize`: the same digest, from two swapped 32-bit halves of the length and eight swapped
        words of the hash value, which is cleared. */
    method Finalize() returns (out32: seq<Byte>)
      requires Valid() && |message| < 0x2000_0000_0000_0000
      modifies this, s, buf
      ensures out32 == Digest(old(message))
      ensures forall i | 0 <= i < 8 :: s[i] == 0
    {
      hide Absorbed, Absorb, BE32, BE64, State, Output;
      ghost var m := message;
      PaddingFills(|m|);
      var pad := [0x80] + Zeros(63);
      var sizedesc := SizeInMemory();
      var n := 1 + (119 - bytes % 64) % 64;
      PadBytes(n);
      Write(pad[..n]);
      Write(sizedesc);
      assert message == m + Padding(|m|);
      Finished(State(s[..]), buf[..], bytes % 64, m, message);
      out32 := TakeOutput();
    }

    /** The length in bits as two swapped words in memory. */
    method SizeInMemory() returns (sizedesc: seq<Byte>)
      requires bytes < 0x2000_0000_0000_0000
      ensures sizedesc == BE64(8 * bytes)
    {
      hide BE32, Store, Swap, ToWord;
      LengthHalves(bytes);
      var high, low := ToWord(bytes / 0x2000_0000), ToWord(bytes * 8 % 0x1_0000_0000);
      SwapStores(high);
      SwapStores(low);
      sizedesc := Store(Swap(high)) + Store(Swap(low));
    }

    /** The closing loop of `secp256k1_sha256_finalize`. */
    method TakeOutput() returns (out32: seq<Byte>)
      requires s.Length == 8
      modifies s
      ensures out32 == Output(State(old(s[..])))
      ensures forall i | 0 <= i < 8 :: s[i] == 0
    {
      hide BE32, Store, Swap;
      ghost var was := s[..];
      out32 := [];
      var i := 0;
      while i < 8
        invariant 0 <= i <= 8 && out32 == BytesOf(was, i)
        invariant forall k | 0 <= k < i :: s[k] == 0
        invariant forall k | i <= k < 8 :: s[k] == was[k]
      {
        SwapStores(s[i]);
        out32 := out32 + Store(Swap(s[i]));
        s[i] := 0;
        i := i + 1;
      }
      BytesOfEight(was);
    }
  }

  /** The first n words one after the other, big-endian. */
  function BytesOf(w: seq<Word>, n: nat): seq<Byte>
    requires n <= |w|
  {
    if n == 0 then [] else BytesOf(w, n - 1) + BE32(w[n - 1])
  }

  lemma BytesOfFour(w: seq<Word>)
    requires |w| == 8
    ensures BytesOf(w, 4) == BE32(w[0]) + BE32(w[1]) + BE32(w[2]) + BE32(w[3])
  {
    hide BE32;
    assert BytesOf(w, 0) == [];
    assert BytesOf(w, 1) == BE32(w[0]);
    assert BytesOf(w, 2) == BE32(w[0]) + BE32(w[1]);
  }

  lemma BytesOfEight(w: seq<Word>)
    requires |w| == 8
    ensures BytesOf(w, 8) == Output(State(w))
  {
    hide BE32;
    BytesOfFour(w);
    assert BytesOf(w, 5) == BytesOf(w, 4) + BE32(w[4]);
    assert BytesOf(w, 6) == BytesOf(w, 5) + BE32(w[5]);
    assert BytesOf(w, 7) == BytesOf(w, 6) + BE32(w[6]);
  }

  /** `bytes >> 29` and the low half of `bytes << 3` are the halves of the length in bits. */
  lemma LengthHalves(n: nat)
    requires n < 0x2000_0000_0000_0000
    ensures n / 0x2000_0000 == 8 * n / 0x1_0000_0000 < 0x1_0000_0000
  {
  }
}
