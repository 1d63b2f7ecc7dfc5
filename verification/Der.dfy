/** DER signatures: the strict parser and the serializer of ecdsa_impl.h, and the lax parser of
    pubkey.cpp. Offsets into the input stand for the moving pointers. */
module Der {
  import opened GroupOrder
  import opened Radix

  type Bytes = s: seq<nat> | Digits(s, 256)

  // ---------------------------------------------------------------- lengths

  /** The length octets at `pos`, by sections 8.1.3 and 10.1 of X.690: `next` is the position after them. The
      long form must be the shortest one, and must not exceed what is left of the input. */
  predicate IsLength(input: Bytes, pos: nat, len: int, next: nat) {
    pos < |input| &&
    if input[pos] < 0x80 then len == input[pos] && next == pos + 1
    else
      var n := input[pos] - 0x80;
      && 1 <= n <= 8
      && next == pos + 1 + n <= |input|
      && input[pos + 1] != 0
      && len == Value(input[pos + 1..next], 256)
      && 128 <= len <= |input| - next
  }

  lemma LengthUnique(input: Bytes, pos: nat, len: int, next: nat, len': int, next': nat)
    requires IsLength(input, pos, len, next) && IsLength(input, pos, len', next')
    ensures len == len' && next == next'
  {
  }

  /** One more octet. */
  lemma NextOctet(input: Bytes, i: nat, j: nat)
    requires i <= j < |input|
    ensures Value(input[i..j + 1], 256) == Value(input[i..j], 256) * 256 + input[j]
  {
    ValueAppend(input[i..j], input[j], 256);
    assert input[i..j + 1] == input[i..j] + [input[j]];
  }

  /** More octets do not make the number smaller. */
  lemma {:induction false} PrefixBelow(input: Bytes, i: nat, j: nat, k: nat)
    requires i <= j <= k <= |input|
    ensures Value(input[i..j], 256) <= Value(input[i..k], 256)
    decreases k
  {
    if j == k {
    } else {
      PrefixBelow(input, i, j, k - 1);
      NextOctet(input, i, k - 1);
    }
  }

  /** `secp256k1_der_read_len`. A result of -1 means that there is no valid length. */
  method ReadLen(input: Bytes, pos: nat) returns (len: int, next: nat)
    requires pos <= |input| < 0x8000_0000
    ensures len != -1 ==> IsLength(input, pos, len, next) && 0 <= len < 0x8000_0000
    ensures len == -1 ==> forall l: int, n: nat :: !IsLength(input, pos, l, n)
  {
    hide Value;
    next := pos;
    if next >= |input| {
      return -1, next;
    }
    var b1 := input[next];
    next := next + 1;
    if b1 == 0xFF {
      return -1, next;
    }
    if b1 < 0x80 {
      return b1, next;
    }
    if b1 == 0x80 {
      return -1, next;
    }
    var lenleft := b1 - 0x80;
    if lenleft > |input| - next {
      return -1, next;
    }
    if input[next] == 0 {
      return -1, next;
    }
    if lenleft > 8 {
      return -1, next;
    }
    var ret := 0;
    Empty(256);
    assert input[pos + 1..pos + 1] == [];
    while lenleft > 0
      invariant 0 <= lenleft && next + lenleft == pos + 1 + (b1 - 0x80) <= |input|
      invariant pos + 1 <= next && 0 <= ret == Value(input[pos + 1..next], 256) < 0x8000_0000
      invariant lenleft == 0 ==> ret <= |input| - next
    {
      assert ret * 256 + 255 < 0x1_0000_0000_0000_0000;
      NextOctet(input, pos + 1, next);
      ret := ret * 256 + input[next];
      if ret + lenleft > |input| - next {
        PrefixBelow(input, pos + 1, next + 1, pos + 1 + (b1 - 0x80));
        return -1, next;
      }
      next := next + 1;
      lenleft := lenleft - 1;
    }
    if ret < 128 {
      return -1, next;
    }
    len := ret;
  }

  // ---------------------------------------------------------------- integers

  /** The scalar that the content octets stand for: 0 for a negative number and for one that is not below n. */
  function Content(c: Bytes): nat
    requires c != []
  {
    if c[0] >= 0x80 || Value(c, 256) >= N then 0 else Value(c, 256)
  }

  /** The shortest encoding of section 8.3.2 of X.690: the first nine bits are not all equal. */
  predicate Shortest(c: Bytes)
    requires c != []
  {
    |c| > 1 ==> !(c[0] == 0 && c[1] < 0x80) && !(c[0] == 0xFF && c[1] >= 0x80)
  }

  /** An integer element at `pos` with `len` content octets from `start` on. */
  predicate IsInteger(input: Bytes, pos: nat, start: nat, len: int, v: nat) {
    && pos < |input| && input[pos] == 0x02
    && IsLength(input, pos + 1, len, start)
    && 0 < len && start + len <= |input|
    && Shortest(input[start..start + len])
    && v == Content(input[start..start + len])
  }

  lemma IntegerUnique(input: Bytes, pos: nat, start: nat, len: int, v: nat, start': nat, len': int, v': nat)
    requires IsInteger(input, pos, start, len, v) && IsInteger(input, pos, start', len', v')
    ensures start == start' && len == len' && v == v'
  {
    hide Value;
    LengthUnique(input, pos + 1, len, start, len', start');
  }

  /** Skipping zero octets does not change the value, and a value below 256^32 has 32 octets at most. */
  lemma StrippedContent(c: Bytes)
    ensures Value(c[LeadingZeros(c)..], 256) == Value(c, 256)
    ensures |c| - LeadingZeros(c) > 32 ==> Value(c, 256) >= N
  {
    ValueZeros(c, 256);
    var d := c[LeadingZeros(c)..];
    if |d| > 32 {
      FirstDigit(d, 256);
      PowExponent(256, 32, |d| - 1);
      Bytes32Bound();
    }
  }

  lemma FirstDigit(d: seq<nat>, b: nat)
    requires b > 0 && d != [] && d[0] != 0
    ensures Value(d, b) >= Pow(b, |d| - 1)
  {
    Monotone(1, d[0], Pow(b, |d| - 1), Pow(b, |d| - 1));
  }

  lemma Bytes32Bound()
    ensures Pow(256, 32) > N
  {
    Squares256();
  }

  lemma Squares256()
    ensures Pow(256, 32) == 0x1_00000000_00000000_00000000_00000000_00000000_00000000_00000000_00000000
  {
    hide Pow;
    Squares(256);
  }

  /** From the content octets to the scalar: zeros are skipped, and what does not fit counts as overflow. */
  method ReadContent(input: Bytes, pos: nat, len: nat) returns (v: nat)
    requires 0 < len && pos + len <= |input|
    ensures v == Content(input[pos..pos + len]) < N
  {
    hide Value, LeadingZeros;
    ghost var c := input[pos..pos + len];
    assert c[0] == input[pos];
    var overflow := input[pos] >= 0x80;
    var next, rlen := SkipZeros(input, pos, len);
    StrippedContent(c);
    assert input[next..next + rlen] == c[LeadingZeros(c)..];
    v := 0;
    if rlen > 32 {
      overflow := true;
    }
    if !overflow {
      v := BigEndian(input[next..next + rlen]);
      if v >= N {
        overflow := true;
      }
    }
    if overflow {
      v := 0;
    }
  }

  /** `secp256k1_der_parse_integer`. */
  method ParseInteger(input: Bytes, pos: nat) returns (ok: bool, v: nat, next: nat, ghost start: nat, ghost len: int)
    requires pos <= |input| < 0x8000_0000
    ensures ok ==> IsInteger(input, pos, start, len, v) && next == start + len <= |input| && v < N
    ensures !ok ==> forall s: nat, l: int, w: nat :: !IsInteger(input, pos, s, l, w)
  {
    hide Value, IsLength, Content;
    ok, v, next, start, len := false, 0, pos, 0, 0;
    if pos == |input| || input[pos] != 0x02 {
      return;
    }
    var rlen;
    rlen, next := ReadLen(input, pos + 1);
    if rlen != -1 {
      OnlyLength(input, pos, next, rlen);
    }
    if rlen <= 0 || next + rlen > |input| {
      return;
    }
    start, len := next, rlen;
    ghost var c := input[start..start + len];
    assert c[0] == input[next] && (rlen > 1 ==> c[1] == input[next + 1]);
    if input[next] == 0 && rlen > 1 && input[next + 1] < 0x80 {
      return;
    }
    if input[next] == 0xFF && rlen > 1 && input[next + 1] >= 0x80 {
      return;
    }
    v := ReadContent(input, next, rlen);
    next := next + rlen;
    ok := true;
  }

  lemma OnlyLength(input: Bytes, pos: nat, start: nat, len: int)
    requires IsLength(input, pos + 1, len, start)
    ensures forall s: nat, l: int, w: nat :: IsInteger(input, pos, s, l, w) ==> s == start && l == len
  {
    hide Value, IsLength;
    forall s: nat, l: int, w: nat | IsInteger(input, pos, s, l, w)
      ensures s == start && l == len
    {
      LengthUnique(input, pos + 1, len, start, l, s);
    }
  }

  /** Both parsers skip the zero octets in front of a number. */
  method SkipZeros(input: Bytes, pos: nat, len: nat) returns (pos': nat, len': nat)
    requires pos + len <= |input|
    ensures pos' == pos + LeadingZeros(input[pos..pos + len]) && pos' + len' == pos + len
  {
    hide LeadingZeros;
    pos', len' := pos, len;
    while len' > 0 && input[pos'] == 0
      invariant pos <= pos' && pos' + len' == pos + len
      invariant LeadingZeros(input[pos..pos + len]) == pos' - pos + LeadingZeros(input[pos'..pos + len])
    {
      ZeroOctet(input[pos'..pos + len]);
      assert input[pos'..pos + len][1..] == input[pos' + 1..pos + len];
      pos' := pos' + 1;
      len' := len' - 1;
    }
    NoZeroOctet(input[pos'..pos + len]);
  }

  lemma ZeroOctet(d: seq<nat>)
    requires d != [] && d[0] == 0
    ensures LeadingZeros(d) == 1 + LeadingZeros(d[1..])
  {
  }

  lemma NoZeroOctet(d: seq<nat>)
    requires d == [] || d[0] != 0
    ensures LeadingZeros(d) == 0
  {
  }

  /** What copying octets to the end of 32 zero bytes and reading a scalar from them gives. */
  function BigEndian(c: seq<nat>): nat
    requires |c| <= 32
  {
    Value(c, 256)
  }

  // ---------------------------------------------------------------- signatures

  /** A strictly encoded signature: nothing before, between or after its two integers. */
  predicate IsSignature(input: Bytes, start: nat, p: nat, n: int, r: nat, q: nat, m: int, s: nat) {
    && input != [] && input[0] == 0x30
    && IsLength(input, 1, |input| - start, start)
    && IsInteger(input, start, p, n, r)
    && IsInteger(input, p + n, q, m, s)
    && q + m == |input|
  }

  ghost predicate Strict(input: Bytes, r: nat, s: nat) {
    exists start: nat, p: nat, n: int, q: nat, m: int :: p + n >= 0 && IsSignature(input, start, p, n, r, q, m, s)
  }

  /** An input stands for one pair at most. */
  lemma StrictUnique(input: Bytes, r: nat, s: nat, r': nat, s': nat)
    requires Strict(input, r, s) && Strict(input, r', s')
    ensures r == r' && s == s'
  {
    hide Value, IsLength, IsInteger;
    var start: nat, p: nat, n: int, q: nat, m: int :| p + n >= 0 && IsSignature(input, start, p, n, r, q, m, s);
    var start': nat, p': nat, n': int, q': nat, m': int :| p' + n' >= 0
      && IsSignature(input, start', p', n', r', q', m', s');
    LengthUnique(input, 1, |input| - start, start, |input| - start', start');
    IntegerUnique(input, start, p, n, r, p', n', r');
    IntegerUnique(input, p + n, q, m, s, q', m', s');
  }

  /** `secp256k1_ecdsa_sig_parse`. */
  method SigParse(input: Bytes) returns (ok: bool, r: nat, s: nat)
    requires |input| < 0x8000_0000
    ensures ok ==> Strict(input, r, s) && r < N && s < N
    ensures !ok ==> forall r', s' :: !Strict(input, r', s')
  {
    hide Value, IsLength, IsInteger;
    ok, r, s := false, 0, 0;
    if input == [] || input[0] != 0x30 {
      return;
    }
    var rlen, pos := ReadLen(input, 1);
    if rlen != -1 {
      OnlyStart(input, pos, rlen);
      StartBound(input, pos, rlen);
    }
    if rlen < 0 || pos + rlen > |input| {
      return;
    }
    if pos + rlen != |input| {
      return;
    }
    var okr, next;
    ghost var p, n;
    okr, r, next, p, n := ParseInteger(input, pos);
    if !okr {
      NoFirst(input, pos, rlen);
      return;
    }
    var oks, end;
    ghost var q, m;
    oks, s, end, q, m := ParseInteger(input, next);
    if !oks {
      NoSecond(input, pos, rlen, p, n, r, next);
      return;
    }
    OnlySecond(input, pos, rlen, p, n, r, q, m, s);
    if end != |input| {
      return;
    }
    assert IsSignature(input, pos, p, n, r, q, m, s);
    ok := true;
  }

  lemma StartBound(input: Bytes, pos: nat, len: int)
    requires IsLength(input, 1, len, pos)
    ensures pos <= |input|
  {
  }

  lemma OnlyStart(input: Bytes, pos: nat, len: int)
    requires IsLength(input, 1, len, pos)
    ensures forall r, s :: Strict(input, r, s) ==> len == |input| - pos
  {
    hide Value, IsLength, IsInteger;
    forall r: nat, s: nat | Strict(input, r, s)
      ensures len == |input| - pos
    {
      var start: nat, p: nat, n: int, q: nat, m: int :| p + n >= 0 && IsSignature(input, start, p, n, r, q, m, s);
      LengthUnique(input, 1, len, pos, |input| - start, start);
    }
  }

  lemma NoFirst(input: Bytes, pos: nat, len: int)
    requires IsLength(input, 1, len, pos) && forall p: nat, n: int, r: nat :: !IsInteger(input, pos, p, n, r)
    ensures forall r, s :: !Strict(input, r, s)
  {
    hide Value, IsLength, IsInteger;
    forall r: nat, s: nat
      ensures !Strict(input, r, s)
    {
      if Strict(input, r, s) {
        var start: nat, p: nat, n: int, q: nat, m: int :| p + n >= 0 && IsSignature(input, start, p, n, r, q, m, s);
        LengthUnique(input, 1, len, pos, |input| - start, start);
      }
    }
  }

  lemma NoSecond(input: Bytes, pos: nat, len: int, p: nat, n: int, r: nat, next: nat)
    requires IsLength(input, 1, len, pos) && IsInteger(input, pos, p, n, r) && p + n == next
    requires forall q: nat, m: int, s: nat :: !IsInteger(input, next, q, m, s)
    ensures forall r', s' :: !Strict(input, r', s')
  {
    hide Value, IsLength, IsInteger;
    forall r': nat, s': nat
      ensures !Strict(input, r', s')
    {
      if Strict(input, r', s') {
        var start: nat, p': nat, n': int, q: nat, m: int :|
          p' + n' >= 0 && IsSignature(input, start, p', n', r', q, m, s');
        LengthUnique(input, 1, len, pos, |input| - start, start);
        IntegerUnique(input, pos, p, n, r, p', n', r');
      }
    }
  }

  lemma OnlySecond(input: Bytes, pos: nat, len: int, p: nat, n: int, r: nat, q: nat, m: int, s: nat)
    requires IsLength(input, 1, len, pos) && IsInteger(input, pos, p, n, r) && p + n >= 0
    requires IsInteger(input, p + n, q, m, s)
    ensures forall r', s' :: Strict(input, r', s') ==> q + m == |input|
  {
    hide Value, IsLength, IsInteger;
    forall r': nat, s': nat | Strict(input, r', s')
      ensures q + m == |input|
    {
      var start: nat, p': nat, n': int, q': nat, m': int :|
        p' + n' >= 0 && IsSignature(input, start, p', n', r', q', m', s');
      LengthUnique(input, 1, len, pos, |input| - start, start);
      IntegerUnique(input, pos, p, n, r, p', n', r');
      IntegerUnique(input, p + n, q, m, s, q', m', s');
    }
  }

  // ---------------------------------------------------------------- serialization

  /** The content octets of a nonnegative integer: its numeral, with a zero in front when it is empty or
      its first bit is set. */
  function Octets(v: nat): (c: seq<nat>)
    ensures c != []
  {
    var d := Numeral(v, 256);
    if d == [] || d[0] >= 0x80 then [0] + d else d
  }

  function Serialize(r: nat, s: nat): seq<nat> {
    var cr, cs := Octets(r), Octets(s);
    [0x30, 4 + |cs| + |cr|, 0x02, |cr|] + cr + [0x02, |cs|] + cs
  }

  /** Scalars have 1 to 33 content octets, which are the shortest and stand for the scalar. */
  lemma OctetsOfScalar(v: nat)
    requires v < N
    ensures 1 <= |Octets(v)| <= 33 && Digits(Octets(v), 256) && Octets(v)[0] < 0x80
    ensures Shortest(Octets(v)) && Content(Octets(v)) == v
  {
    ValueOfNumeral(v, 256);
    var d := Numeral(v, 256);
    if |d| > 32 {
      FirstDigit(d, 256);
      PowExponent(256, 32, |d| - 1);
      Bytes32Bound();
    }
    hide Numeral, Pow;
    assert Value([0] + d, 256) == Value(d, 256) by {
      Prepend(0, d, 256);
    }
  }

  /** Nonzero content has the octets of its value. */
  lemma ContentIsOctets(c: Bytes)
    requires c != [] && Shortest(c) && Content(c) != 0
    ensures Content(c) < N && c == Octets(Content(c))
  {
    hide Numeral, Pow;
    var v := Value(c, 256);
    StripIsNumeral(c, 256);
    if c[0] == 0 {
      OneZero(c);
      assert c == [0] + c[1..];
      LoneZero(c);
    } else {
      NoZeroOctet(c);
      assert c[0..] == c;
    }
  }

  lemma OneZero(c: seq<nat>)
    requires c != [] && c[0] == 0 && (|c| > 1 ==> c[1] != 0)
    ensures LeadingZeros(c) == 1
  {
  }

  lemma LoneZero(c: seq<nat>)
    requires c != [] && c[0] == 0 && Value(c, 256) != 0
    ensures |c| > 1
  {
  }

  lemma ShortLength(input: Bytes, pos: nat, len: int)
    requires pos < |input| && input[pos] == len < 0x80
    ensures IsLength(input, pos, len, pos + 1)
  {
  }

  /** Parsing what was serialized gives the pair back. */
  lemma ParseSerialize(r: nat, s: nat)
    requires r < N && s < N
    ensures Digits(Serialize(r, s), 256) && Strict(Serialize(r, s), r, s)
  {
    hide Value, Numeral, Octets, IsLength, Content, Shortest;
    OctetsOfScalar(r);
    OctetsOfScalar(s);
    var cr, cs := Octets(r), Octets(s);
    var input: Bytes := Serialize(r, s);
    ShortLength(input, 1, 4 + |cs| + |cr|);
    ShortLength(input, 3, |cr|);
    ShortLength(input, 5 + |cr|, |cs|);
    assert input[4..4 + |cr|] == cr;
    assert input[6 + |cr|..6 + |cr| + |cs|] == cs;
    assert IsSignature(input, 2, 4, |cr|, r, 6 + |cr|, |cs|, s);
  }

  /** A length below 128 is in the short form. */
  lemma ShortForm(input: Bytes, pos: nat, len: int, next: nat)
    requires IsLength(input, pos, len, next) && len < 128
    ensures pos < |input| && input[pos] == len && next == pos + 1
  {
  }

  /** An element that stands for a nonzero scalar has at most 33 octets and the short form of its length. */
  lemma NonzeroInteger(input: Bytes, pos: nat, start: nat, len: int, v: nat)
    requires IsInteger(input, pos, start, len, v) && v != 0
    ensures v < N && len == |Octets(v)| <= 33 && start == pos + 2 && start + len <= |input|
    ensures input[pos..start + len] == [0x02, len] + Octets(v)
  {
    hide Value, Numeral, Octets, IsLength, Content, Shortest;
    var c := input[start..start + len];
    ContentIsOctets(c);
    OctetsOfScalar(v);
    ShortForm(input, pos + 1, len, start);
    assert input[pos..start + len] == [input[pos], input[pos + 1]] + c;
  }

  /** A strictly accepted signature with nonzero scalars is what serialization makes, octet for octet. */
  lemma SerializeParse(input: Bytes, r: nat, s: nat)
    requires Strict(input, r, s) && r != 0 && s != 0
    ensures r < N && s < N && input == Serialize(r, s)
  {
    hide Value, Numeral, Octets, IsLength, IsInteger;
    var start: nat, p: nat, n: int, q: nat, m: int :| p + n >= 0 && IsSignature(input, start, p, n, r, q, m, s);
    NonzeroInteger(input, start, p, n, r);
    NonzeroInteger(input, p + n, q, m, s);
    ShortForm(input, 1, |input| - start, start);
    assert input == input[..start] + input[start..p + n] + input[p + n..q + m];
    assert input[..start] == [0x30, |input| - start];
  }

  /** The 32 bytes that `secp256k1_scalar_get_b32` writes. */
  function Bytes32(v: nat): (b: seq<nat>)
    requires v < N
    ensures |b| == 32
  {
    NumeralFits(v);
    Zeros(32 - |Numeral(v, 256)|) + Numeral(v, 256)
  }

  function Zeros(n: nat): (z: seq<nat>)
    ensures |z| == n && forall i | 0 <= i < n :: z[i] == 0
  {
    if n == 0 then [] else [0] + Zeros(n - 1)
  }

  lemma NumeralFits(v: nat)
    requires v < N
    ensures |Numeral(v, 256)| <= 32
  {
    OctetsOfScalar(v);
    ValueOfNumeral(v, 256);
    var d := Numeral(v, 256);
    if |d| == 33 {
      FirstDigit(d, 256);
      Bytes32Bound();
    }
  }

  /** Where trimming stops: all that is dropped before is zero and followed by a clear first bit. */
  lemma TrimTarget(v: nat, r: seq<nat>, t: nat)
    requires v < N && r == [0] + Bytes32(v) && t == 33 - |Octets(v)|
    ensures |r| == 33 && 0 <= t <= 32 && r[t..] == Octets(v)
    ensures forall i | 0 <= i < t :: Droppable(r, i)
    ensures t < 32 ==> !Droppable(r, t)
  {
    hide Value, Numeral, Octets, Bytes32, Zeros;
    OctetsCases(v);
    var d := Numeral(v, 256);
    PaddedParts(r, d, 33 - |d|);
    if t == 32 - |d| && d != [] {
      assert r[t..] == [0] + d;
    }
  }

  lemma OctetsCases(v: nat)
    requires v < N
    ensures var d := Numeral(v, 256);
      && |d| <= 32 && Bytes32(v) == Zeros(32 - |d|) + d
      && (d != [] ==> d[0] != 0) && Octets(v) == if d == [] || d[0] >= 0x80 then [0] + d else d
  {
    NumeralFits(v);
    ValueOfNumeral(v, 256);
  }

  predicate Droppable(r: seq<nat>, i: nat)
    requires i + 1 < |r|
  {
    r[i] == 0 && r[i + 1] < 0x80
  }

  lemma PaddedParts(r: seq<nat>, d: seq<nat>, k: nat)
    requires |d| <= 32 && k == 33 - |d| && r == [0] + (Zeros(32 - |d|) + d)
    ensures |r| == 33 && r[k..] == d && (d != [] ==> r[k] == d[0]) && forall i | 0 <= i < k :: r[i] == 0
  {
  }

  lemma TrimStops(r: seq<nat>, rp: nat, t: nat)
    requires |r| == 33 && rp <= t <= 32 && forall i | 0 <= i < t :: Droppable(r, i)
    requires rp < 32 ==> !Droppable(r, rp)
    ensures rp == t
  {
  }

  /** The loop that drops zero bytes in front as long as the number stays nonnegative. */
  method Trim(v: nat) returns (c: seq<nat>)
    requires v < N
    ensures c == Octets(v)
  {
    hide Octets;
    OctetsOfScalar(v);
    var r := [0] + Bytes32(v);
    ghost var t := 33 - |Octets(v)|;
    TrimTarget(v, r, t);
    var rp, len := 0, 33;
    while len > 1 && r[rp] == 0 && r[rp + 1] < 0x80
      invariant 0 <= rp <= t && rp + len == 33
    {
      assert Droppable(r, rp);
      rp := rp + 1;
      len := len - 1;
    }
    TrimStops(r, rp, t);
    c := r[rp..rp + len];
    assert r[rp..33] == r[rp..];
  }

  /** `secp256k1_ecdsa_sig_serialize`, which fails when the buffer is too small and reports the size needed. */
  method SigSerialize(size: nat, r: nat, s: nat) returns (ok: bool, sig: seq<nat>, needed: nat)
    requires r < N && s < N
    ensures needed == |Serialize(r, s)| && (ok <==> needed <= size) && sig == if ok then Serialize(r, s) else []
  {
    var rp := Trim(r);
    var sp := Trim(s);
    needed := 6 + |sp| + |rp|;
    if size < needed {
      return false, [], needed;
    }
    ok := true;
    sig := [0x30, 4 + |sp| + |rp|, 0x02, |rp|] + rp + [0x02, |sp|] + sp;
  }

  // ---------------------------------------------------------------- the lax parser

  datatype Lax = Refused | Pair(r: nat, s: nat)

  /** The sequence length is skipped without being looked at. */
  function LaxSkip(input: Bytes, pos: nat): (next: int)
    ensures next == -1 || pos < next <= |input|
  {
    if pos >= |input| then -1
    else if input[pos] < 0x80 then pos + 1
    else if pos + 1 + (input[pos] - 0x80) > |input| then -1
    else pos + 1 + (input[pos] - 0x80)
  }

  /** The length of an integer: any number of length octets, with zeros in front, of which 7 may count. */
  function LaxLength(input: Bytes, pos: nat): (r: (int, nat))
    ensures r.0 == -1 || (0 <= r.0 && pos < r.1 <= |input|)
  {
    if pos >= |input| then (-1, pos)
    else if input[pos] < 0x80 then (input[pos], pos + 1)
    else
      var n := input[pos] - 0x80;
      if pos + 1 + n > |input| then (-1, pos)
      else
        var octets := input[pos + 1..pos + 1 + n];
        if n - LeadingZeros(octets) >= 8 then (-1, pos) else (Value(octets, 256), pos + 1 + n)
  }

  /** Where the content of an integer lies, or -1. */
  function LaxInteger(input: Bytes, pos: nat): (r: (int, nat))
    ensures r.0 == -1 || (0 <= r.0 && pos < r.1 && r.1 + r.0 <= |input|)
  {
    if pos >= |input| || input[pos] != 0x02 then (-1, pos)
    else
      var (len, start) := LaxLength(input, pos + 1);
      if len == -1 || len > |input| - start then (-1, pos) else (len, start)
  }

  /** What follows the two integers is ignored; a number that is not below n makes both scalars zero. */
  function ParseLax(input: Bytes): Lax {
    if input == [] || input[0] != 0x30 then Refused
    else
      var pos := LaxSkip(input, 1);
      if pos == -1 then Refused
      else
        var (rlen, rpos) := LaxInteger(input, pos);
        if rlen == -1 then Refused
        else
          var (slen, spos) := LaxInteger(input, rpos + rlen);
          if slen == -1 then Refused
          else
            var r, s := Value(input[rpos..rpos + rlen], 256), Value(input[spos..spos + slen], 256);
            if r >= N || s >= N then Pair(0, 0) else Pair(r, s)
  }

  /** The length octets of an integer, read in a loop. */
  method ReadLaxLength(input: Bytes, pos: nat) returns (len: int, next: nat)
    requires pos <= |input|
    ensures (len, if len == -1 then LaxLength(input, pos).1 else next) == LaxLength(input, pos)
  {
    hide Value, LeadingZeros;
    next := pos;
    if next == |input| {
      return -1, next;
    }
    var lenbyte := input[next];
    next := next + 1;
    if lenbyte >= 0x80 {
      lenbyte := lenbyte - 0x80;
      if next + lenbyte > |input| {
        return -1, next;
      }
      ghost var end := next + lenbyte;
      ghost var octets := input[next..end];
      next, lenbyte := SkipZeros(input, next, lenbyte);
      if lenbyte >= 8 {
        return -1, next;
      }
      StrippedContent(octets);
      ghost var first := next;
      assert octets[LeadingZeros(octets)..] == input[first..end];
      len := 0;
      Empty(256);
      assert input[first..first] == [];
      while lenbyte > 0
        invariant 0 <= lenbyte && first <= next && next + lenbyte == end && len == Value(input[first..next], 256)
      {
        NextOctet(input, first, next);
        len := len * 256 + input[next];
        next := next + 1;
        lenbyte := lenbyte - 1;
      }
    } else {
      len := lenbyte;
    }
  }

  /** `ecdsa_signature_parse_der_lax`. The signature structure holds (0, 0) when it refuses. */
  method ParseDerLax(input: Bytes) returns (ok: bool, r: nat, s: nat)
    ensures ParseLax(input) == if ok then Pair(r, s) else Refused
    ensures !ok ==> r == 0 && s == 0
    ensures r < N && s < N
  {
    hide Value, LeadingZeros, LaxLength;
    ok, r, s := false, 0, 0;
    var pos := 0;
    if pos == |input| || input[pos] != 0x30 {
      return;
    }
    pos := pos + 1;
    if pos == |input| {
      return;
    }
    var lenbyte := input[pos];
    pos := pos + 1;
    if lenbyte >= 0x80 {
      lenbyte := lenbyte - 0x80;
      if pos + lenbyte > |input| {
        return;
      }
      pos := pos + lenbyte;
    }
    if pos == |input| || input[pos] != 0x02 {
      return;
    }
    var rlen, rpos := ReadLaxLength(input, pos + 1);
    if rlen == -1 || rlen > |input| - rpos {
      return;
    }
    pos := rpos + rlen;
    if pos == |input| || input[pos] != 0x02 {
      return;
    }
    var slen, spos := ReadLaxLength(input, pos + 1);
    if slen == -1 || slen > |input| - spos {
      return;
    }
    var overflowR, valueR := LaxScalar(input, rpos, rlen);
    var overflowS, valueS := LaxScalar(input, spos, slen);
    ok := true;
    if !overflowR && !overflowS {
      r, s := valueR, valueS;
    }
  }

  /** Skipping zeros, copying at most 32 octets, and reading a scalar. */
  method LaxScalar(input: Bytes, pos: nat, len: nat) returns (overflow: bool, v: nat)
    requires pos + len <= |input|
    ensures overflow <==> Value(input[pos..pos + len], 256) >= N
    ensures !overflow ==> v == Value(input[pos..pos + len], 256)
  {
    hide Value, LeadingZeros;
    ghost var c := input[pos..pos + len];
    var start, left := SkipZeros(input, pos, len);
    StrippedContent(c);
    assert input[start..start + left] == c[LeadingZeros(c)..];
    v := 0;
    if left > 32 {
      overflow := true;
    } else {
      v := BigEndian(input[start..start + left]);
      overflow := v >= N;
    }
  }

  /** On a strictly accepted signature with nonzero scalars both parsers agree. */
  lemma LaxAgrees(input: Bytes, r: nat, s: nat)
    requires Strict(input, r, s) && r != 0 && s != 0
    ensures ParseLax(input) == Pair(r, s)
  {
    hide Value, Octets, Strict, LaxInteger, Serialize;
    SerializeParse(input, r, s);
    ContentOfOctets(r);
    ContentOfOctets(s);
    OctetsOfScalar(r);
    OctetsOfScalar(s);
    SerializedParts(input, r, s);
    LaxShort(input, 2, |Octets(r)|);
    LaxShort(input, 4 + |Octets(r)|, |Octets(s)|);
  }

  lemma SerializedParts(input: seq<nat>, r: nat, s: nat)
    requires input == Serialize(r, s)
    ensures var cr, cs := Octets(r), Octets(s);
      && |input| == 6 + |cr| + |cs| && input[0] == 0x30 && input[1] == 4 + |cs| + |cr|
      && input[2] == 0x02 && input[3] == |cr| && input[4..4 + |cr|] == cr
      && input[4 + |cr|] == 0x02 && input[5 + |cr|] == |cs| && input[6 + |cr|..6 + |cr| + |cs|] == cs
  {
    hide Octets;
  }

  lemma LaxShort(input: Bytes, pos: nat, len: nat)
    requires pos + 2 + len <= |input| && input[pos] == 0x02 && input[pos + 1] == len < 0x80
    ensures LaxInteger(input, pos) == (len, pos + 2)
  {
  }

  lemma ContentOfOctets(v: nat)
    requires v < N
    ensures Value(Octets(v), 256) == v
  {
    OctetsOfScalar(v);
    ValueOfNumeral(v, 256);
    hide Numeral, Pow;
    var d := Numeral(v, 256);
    Prepend(0, d, 256);
  }
}
