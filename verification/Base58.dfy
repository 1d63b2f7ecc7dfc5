/** Base58 in both directions (base58.cpp). The buffers are sized by the rates 138 / 100 and 733 / 1000,
    which suffice for every length, and decoding inverts encoding exactly. */
module Base58 {
  import opened Radix

  /** Letter d of "123456789ABCDEFGHJKLMNPQRSTUVWXYZabcdefghijkmnopqrstuvwxyz": the alphanumeric
      characters in ascending order, without 0, I, O and l. */
  function Letter(d: nat): char
    requires d < 58
  {
    var code := if d < 9 then 49 + d              // 1 .. 9
                else if d < 17 then 65 + (d - 9)  // A .. H
                else if d < 22 then 74 + (d - 17) // J .. N
                else if d < 33 then 80 + (d - 22) // P .. Z
                else if d < 44 then 97 + (d - 33) // a .. k
                else 109 + (d - 44);              // m .. z
    code as char
  }

  // ---------------------------------------------------------------- characters

  /** `isspace` in the C locale. */
  predicate IsSpace(c: char) {
    c == ' ' || c == '\t' || c == '\n' || c == '\r' || c == 11 as char || c == 12 as char
  }

  /** The characters of a C string come before its terminator. */
  predicate CString(s: string) {
    forall i | 0 <= i < |s| :: s[i] != 0 as char
  }

  /** The digit that a letter stands for, or 58: the position that `strchr` finds. */
  function DigitFrom(c: char, i: nat): (d: nat)
    requires i <= 58
    ensures i <= d <= 58 && (d < 58 ==> Letter(d) == c) && forall j | i <= j < d :: Letter(j) != c
    decreases 58 - i
  {
    if i == 58 || Letter(i) == c then i else DigitFrom(c, i + 1)
  }

  function DigitOf(c: char): (d: nat)
    ensures d <= 58 && (d < 58 ==> Letter(d) == c)
  {
    DigitFrom(c, 0)
  }

  /** The letters ascend, so each of them stands for one digit. */
  lemma Ascending(i: nat, j: nat)
    requires i < j < 58
    ensures Letter(i) < Letter(j) && Letter(0) == '1'
  {
  }

  /** The blanks are the space and the five control characters from the tabulator to the carriage return. */
  lemma BlanksAre(c: char)
    ensures IsSpace(c) <==> c as int == 32 || 9 <= c as int <= 13
  {
  }

  predicate IsLetter(c: char, d: nat) {
    d < 58 && Letter(d) == c
  }

  /** The letters are the digits and the letters of ASCII without 0, I, O and l. */
  lemma LettersAre(c: char)
    ensures (exists d: nat :: IsLetter(c, d)) <==>
      '1' <= c <= '9' || ('A' <= c <= 'Z' && c != 'I' && c != 'O') || ('a' <= c <= 'z' && c != 'l')
  {
    var code := c as int;
    var d := if c <= '9' then code - 49
             else if c < 'I' then code - 56
             else if c < 'O' then code - 57
             else if c <= 'Z' then code - 58
             else if c < 'l' then code - 64
             else code - 65;
    if '1' <= c <= '9' || ('A' <= c <= 'Z' && c != 'I' && c != 'O') || ('a' <= c <= 'z' && c != 'l') {
      assert IsLetter(c, d);
    }
  }

  lemma DigitOfLetter(d: nat)
    requires d < 58
    ensures DigitOf(Letter(d)) == d
  {
    hide Letter;
    var e := DigitFrom(Letter(d), 0);
    if e < d {
      Ascending(e, d);
    }
  }

  lemma LettersAreText(d: nat)
    requires d < 58
    ensures !IsSpace(Letter(d)) && Letter(d) != 0 as char
  {
    if d > 0 {
      Ascending(0, d);
    }
  }

  // ---------------------------------------------------------------- what the functions compute

  function Letters(d: seq<nat>): (s: string)
    requires Digits(d, 58)
    ensures |s| == |d| && forall i | 0 <= i < |s| :: s[i] == Letter(d[i])
  {
    if d == [] then "" else [Letter(d[0])] + Letters(d[1..])
  }

  function Repeat<T>(n: nat, x: T): (s: seq<T>)
    ensures |s| == n && forall i | 0 <= i < n :: s[i] == x
  {
    if n == 0 then [] else [x] + Repeat(n - 1, x)
  }

  /** Each leading zero byte becomes the letter 1; the rest is converted as one number. */
  function Encode(b: seq<nat>): string
    requires Digits(b, 256)
  {
    ValueOfNumeral58(Value(b, 256));
    Repeat(LeadingZeros(b), '1') + Letters(Numeral(Value(b, 256), 58))
  }

  lemma ValueOfNumeral58(v: nat)
    ensures Digits(Numeral(v, 58), 58)
  {
    ValueOfNumeral(v, 58);
  }

  function SkipSpaces(s: string, i: nat): (j: nat)
    requires i <= |s|
    ensures i <= j <= |s| && (forall k | i <= k < j :: IsSpace(s[k])) && (j < |s| ==> !IsSpace(s[j]))
    decreases |s| - i
  {
    if i < |s| && IsSpace(s[i]) then SkipSpaces(s, i + 1) else i
  }

  function SkipOnes(s: string, i: nat): (j: nat)
    requires i <= |s|
    ensures i <= j <= |s| && (forall k | i <= k < j :: s[k] == '1') && (j < |s| ==> s[j] != '1')
    decreases |s| - i
  {
    if i < |s| && s[i] == '1' then SkipOnes(s, i + 1) else i
  }

  function SkipText(s: string, i: nat): (j: nat)
    requires i <= |s|
    ensures i <= j <= |s| && (forall k | i <= k < j :: !IsSpace(s[k])) && (j < |s| ==> IsSpace(s[j]))
    decreases |s| - i
  {
    if i < |s| && !IsSpace(s[i]) then SkipText(s, i + 1) else i
  }

  datatype Decoded = Rejected | Accepted(bytes: seq<nat>)

  function DigitsOf(s: string): (d: seq<nat>)
    ensures |d| == |s| && forall i | 0 <= i < |s| :: d[i] == DigitOf(s[i])
  {
    if s == "" then [] else [DigitOf(s[0])] + DigitsOf(s[1..])
  }

  /** Spaces around the text are skipped; any other foreign character rejects it. */
  function Decode(s: string): Decoded {
    var a := SkipSpaces(s, 0);
    var z := SkipOnes(s, a);
    var e := SkipText(s, z);
    var d := DigitsOf(s[z..e]);
    if Digits(d, 58) && SkipSpaces(s, e) == |s| then Accepted(Repeat(z - a, 0) + Numeral(Value(d, 58), 256))
    else Rejected
  }

  /** The text of a string without the spaces around it. */
  function Stripped(s: string): string {
    var a := SkipSpaces(s, 0);
    s[a..SkipText(s, SkipOnes(s, a))]
  }

  // ---------------------------------------------------------------- decoding inverts encoding

  lemma {:induction false} LeadingZerosOf(n: nat, d: seq<nat>)
    requires LeadingZeros(d) == 0
    ensures LeadingZeros(Repeat(n, 0) + d) == n
  {
    if n == 0 {
      assert Repeat(0, 0) + d == d;
    } else {
      LeadingZerosOf(n - 1, d);
      assert (Repeat(n, 0) + d)[1..] == Repeat(n - 1, 0) + d;
    }
  }

  /** A byte sequence is its leading zeros and the numeral of its value. */
  lemma BytesAreNumeral(b: seq<nat>)
    requires Digits(b, 256)
    ensures b == Repeat(LeadingZeros(b), 0) + Numeral(Value(b, 256), 256)
  {
    StripIsNumeral(b, 256);
    assert b[..LeadingZeros(b)] == Repeat(LeadingZeros(b), 0);
    assert b == b[..LeadingZeros(b)] + b[LeadingZeros(b)..];
  }

  lemma DigitsOfLetters(d: seq<nat>)
    requires Digits(d, 58)
    ensures DigitsOf(Letters(d)) == d
    ensures forall i | 0 <= i < |d| :: !IsSpace(Letters(d)[i]) && Letters(d)[i] != 0 as char
  {
    hide Letter, IsSpace;
    forall i | 0 <= i < |d|
      ensures DigitOf(Letters(d)[i]) == d[i] && !IsSpace(Letters(d)[i]) && Letters(d)[i] != 0 as char
    {
      DigitOfLetter(d[i]);
      LettersAreText(d[i]);
    }
  }

  /** Where the parts of ones + text lie. */
  lemma PartsOf(n: nat, t: string)
    requires forall i | 0 <= i < |t| :: !IsSpace(t[i])
    requires t != "" ==> t[0] != '1'
    ensures var s := Repeat(n, '1') + t;
      SkipSpaces(s, 0) == 0 && SkipOnes(s, 0) == n && SkipText(s, n) == |s| && SkipSpaces(s, |s|) == |s|
      && s[n..|s|] == t
  {
    var s := Repeat(n, '1') + t;
    assert s != "" ==> !IsSpace(s[0]);
    assert forall k | 0 <= k < n :: s[k] == '1';
    assert n < |s| ==> s[n] == t[0];
    assert forall k | n <= k < |s| :: s[k] == t[k - n];
  }

  /** Decode(Encode(b)) is b, for every byte sequence. */
  lemma DecodeEncode(b: seq<nat>)
    requires Digits(b, 256)
    ensures Decode(Encode(b)) == Accepted(b)
  {
    var v, n := Value(b, 256), LeadingZeros(b);
    ValueOfNumeral(v, 58);
    var d := Numeral(v, 58);
    var t := Letters(d);
    DigitsOfLetters(d);
    FirstLetter(d);
    PartsOf(n, t);
    BytesAreNumeral(b);
    hide Letter, IsSpace, Value, Numeral, LeadingZeros, Letters, DigitsOf, SkipSpaces, SkipOnes, SkipText;
    assert DigitsOf(t) == d;
  }

  lemma FirstLetter(d: seq<nat>)
    requires Digits(d, 58) && (d != [] ==> d[0] != 0)
    ensures Letters(d) != "" ==> Letters(d)[0] != '1'
  {
    hide Letter;
    if d != [] {
      Ascending(0, d[0]);
    }
  }

  /** What is decoded from n ones and the digits d encodes to n ones and the letters of d. */
  lemma EncodeParts(n: nat, d: seq<nat>)
    requires Digits(d, 58) && LeadingZeros(d) == 0
    ensures var b := Repeat(n, 0) + Numeral(Value(d, 58), 256);
      Digits(b, 256) && Encode(b) == Repeat(n, '1') + Letters(d)
  {
    hide Letter, Value, Numeral, LeadingZeros, Letters;
    var v := Value(d, 58);
    ValueOfNumeral(v, 256);
    LeadingZerosOf(n, Numeral(v, 256));
    ValueWithZeros(n, Numeral(v, 256));
    NumeralOfValue(d, 58);
  }

  /** Encode(Decode(s)) is s without the spaces around it, for every accepted s. */
  lemma EncodeDecode(s: string)
    requires Decode(s).Accepted?
    ensures Digits(Decode(s).bytes, 256) && Encode(Decode(s).bytes) == Stripped(s)
  {
    hide Letter, IsSpace, Value, Numeral, LeadingZeros, Letters, DigitsOf, Encode, SkipSpaces, SkipOnes, SkipText;
    var a := SkipSpaces(s, 0);
    var z := SkipOnes(s, a);
    var e := SkipText(s, z);
    var d := DigitsOf(s[z..e]);
    TextStart(s, z, e, d);
    EncodeParts(z - a, d);
    LettersOfDigits(s[z..e], d);
    assert s[a..z] == Repeat(z - a, '1');
    Joined(s, a, z, e);
  }

  lemma Joined(s: string, a: nat, z: nat, e: nat)
    requires a <= z <= e <= |s|
    ensures s[a..e] == s[a..z] + s[z..e]
  {
  }

  lemma ValueWithZeros(n: nat, d: seq<nat>)
    requires LeadingZeros(d) == 0
    ensures Value(Repeat(n, 0) + d, 256) == Value(d, 256)
  {
    LeadingZerosOf(n, d);
    ValueZeros(Repeat(n, 0) + d, 256);
    assert (Repeat(n, 0) + d)[n..] == d;
  }

  lemma TextStart(s: string, z: nat, e: nat, d: seq<nat>)
    requires z <= e <= |s| && d == DigitsOf(s[z..e]) && Digits(d, 58) && (z < |s| ==> s[z] != '1')
    ensures LeadingZeros(d) == 0
  {
    Ascending(0, 1);
    hide Letter;
    if d != [] {
      assert d[0] == DigitOf(s[z]);
    }
  }

  lemma LettersOfDigits(t: string, d: seq<nat>)
    requires d == DigitsOf(t) && Digits(d, 58)
    ensures Letters(d) == t
  {
    hide Letter;
    forall i | 0 <= i < |t|
      ensures Letters(d)[i] == t[i]
    {
      assert d[i] == DigitOf(t[i]);
    }
  }

  // ---------------------------------------------------------------- the buffers are large enough

  /** 256^50 <= 58^69: 69 / 50 digits per byte suffice. */
  lemma RateUp()
    ensures Pow(256, 50) <= Pow(58, 69)
  {
    hide Pow;
    Squares(256);
    Squares(58);
    PowTwo(58);
    PowSum(256, 32, 16); PowSum(256, 48, 2);
    PowSum(58, 64, 4); PowSum(58, 68, 1);
  }

  /** 58^86 <= 256^63: 63 / 86 bytes per digit suffice. */
  lemma RateDown()
    ensures Pow(58, 86) <= Pow(256, 63)
  {
    hide Pow;
    Squares(256);
    Squares(58);
    PowTwo(256);
    PowSum(58, 64, 16); PowSum(58, 80, 4); PowSum(58, 84, 2);
    PowSum(256, 32, 16); PowSum(256, 48, 8); PowSum(256, 56, 4); PowSum(256, 60, 2); PowSum(256, 62, 1);
  }

  /** n * 138 / 100 + 1 digits hold any n bytes. */
  lemma EncodeBuffer(n: nat)
    ensures Pow(256, n) <= Pow(58, n * 138 / 100 + 1)
  {
    hide Pow;
    RateUp();
    FitsByRate(256, 58, 50, 69, n, n * 138 / 100 + 1);
  }

  /** n * 733 / 1000 + 1 bytes hold any n digits. */
  lemma DecodeBuffer(n: nat)
    ensures Pow(58, n) <= Pow(256, n * 733 / 1000 + 1)
  {
    hide Pow;
    RateDown();
    FitsByRate(58, 256, 86, 63, n, n * 733 / 1000 + 1);
  }

  /** When the result of a step fits, nothing is left in the carry. */
  lemma NoCarry(v: nat, carry: nat, p: nat, w: nat, q: nat)
    requires v + carry * p == w && w < q <= p
    ensures carry == 0
  {
    if carry > 0 {
      Monotone(1, carry, p, p);
    }
  }

  // ---------------------------------------------------------------- the functions

  lemma OneMoreZero(d: seq<nat>)
    requires d != [] && d[0] == 0
    ensures LeadingZeros(d) == 1 + LeadingZeros(d[1..])
  {
  }

  lemma NoMoreZeros(d: seq<nat>)
    requires d == [] || d[0] != 0
    ensures LeadingZeros(d) == 0
  {
  }

  lemma {:induction false} ZeroBuffer(d: seq<nat>, b: nat)
    requires b > 0 && forall i | 0 <= i < |d| :: d[i] == 0
    ensures Digits(d, b) && Value(d, b) == 0
  {
    if d == [] {
    } else {
      ZeroBuffer(d[1..], b);
    }
  }

  lemma LettersAppend(d: seq<nat>, x: nat)
    requires Digits(d, 58) && x < 58
    ensures Letters(d + [x]) == Letters(d) + [Letter(x)]
  {
    hide Letter;
  }

  /** Skipping the leading zeros of a buffer. */
  method CountZeros(d: array<nat>) returns (it: nat)
    ensures it == LeadingZeros(d[..]) <= d.Length
  {
    hide LeadingZeros;
    it := 0;
    assert d[0..] == d[..];
    while it < d.Length && d[it] == 0
      invariant 0 <= it <= d.Length && LeadingZeros(d[..]) == it + LeadingZeros(d[it..])
    {
      OneMoreZero(d[it..]);
      assert d[it..][1..] == d[it + 1..];
      it := it + 1;
    }
    NoMoreZeros(d[it..]);
  }

  /** One step of a conversion leaves no carry, because the buffer holds the whole number. */
  lemma StepFits(d: seq<nat>, x: nat, n: nat, b: nat, v: nat, carry: nat, c: nat, size: nat)
    requires b >= 2 && Digits(d, b) && x < b && |d| < n && Pow(b, n) <= Pow(c, size)
    requires v + carry * Pow(c, size) == Value(d, b) * b + x
    ensures carry == 0 && v == Value(d + [x], b)
  {
    hide Pow, Value;
    ValueAppend(d, x, b);
    ValueBound(d + [x], b);
    PowExponent(b, |d| + 1, n);
    NoCarry(v, carry, Pow(c, size), Value(d + [x], b), Pow(b, n));
  }

  /** The conversion loop of `EncodeBase58`. The assertion that no carry is left is proved. */
  method ToBase58(b: seq<nat>) returns (b58: array<nat>)
    requires Digits(b, 256)
    ensures fresh(b58) && Digits(b58[..], 58) && Value(b58[..], 58) == Value(b, 256)
  {
    hide Pow, Value;
    b58 := new nat[|b| * 138 / 100 + 1](_ => 0);
    ZeroBuffer(b58[..], 58);
    Empty(256);
    EncodeBuffer(|b|);
    var i := 0;
    assert b[..0] == [];
    while i < |b|
      invariant 0 <= i <= |b| && Digits(b58[..], 58) && Value(b58[..], 58) == Value(b[..i], 256)
    {
      var carry := MultiplyAdd(b58, 58, 256, b[i]);
      StepFits(b[..i], b[i], |b|, 256, Value(b58[..], 58), carry, 58, b58.Length);
      assert b[..i + 1] == b[..i] + [b[i]];
      assert carry == 0;
      i := i + 1;
    }
    assert b[..|b|] == b;
  }

  /** `EncodeBase58`. */
  method EncodeBase58(b: seq<nat>) returns (str: string)
    requires Digits(b, 256)
    ensures str == Encode(b)
  {
    hide Pow, Value, Letter, Numeral, LeadingZeros;
    var zeroes, i := 0, 0;
    assert b[0..] == b;
    while i < |b| && b[i] == 0
      invariant zeroes == i <= |b| && LeadingZeros(b) == i + LeadingZeros(b[i..])
    {
      OneMoreZero(b[i..]);
      assert b[i..][1..] == b[i + 1..];
      i := i + 1;
      zeroes := zeroes + 1;
    }
    NoMoreZeros(b[i..]);
    ValueZeros(b, 256);
    var b58 := ToBase58(b[i..]);
    StripIsNumeral(b58[..], 58);
    var it := CountZeros(b58);
    str := Translate(zeroes, b58[it..]);
  }

  /** The ones and the letters of the result. */
  method Translate(zeroes: nat, d: seq<nat>) returns (str: string)
    requires Digits(d, 58)
    ensures str == Repeat(zeroes, '1') + Letters(d)
  {
    hide Letter;
    str := Repeat(zeroes, '1');
    var it := 0;
    while it < |d|
      invariant 0 <= it <= |d| && str == Repeat(zeroes, '1') + Letters(d[..it])
    {
      str := str + [Letter(d[it])];
      LettersAppend(d[..it], d[it]);
      assert d[..it + 1] == d[..it] + [d[it]];
      it := it + 1;
    }
    assert d[..|d|] == d;
  }

  /** The conversion loop of `DecodeBase58`, from position z up to a space or the end. */
  method ToBytes(s: string, z: nat) returns (ok: bool, b256: array<nat>, e: nat)
    requires z <= |s|
    ensures e == SkipText(s, z) && (ok <==> Digits(DigitsOf(s[z..e]), 58))
    ensures fresh(b256)
    ensures ok ==> Digits(b256[..], 256) && Value(b256[..], 256) == Value(DigitsOf(s[z..e]), 58)
  {
    hide Pow, Value, Letter, IsSpace, SkipText, DigitsOf, DigitOf, Digits;
    e := z;
    b256 := new nat[(|s| - z) * 733 / 1000 + 1](_ => 0);
    ZeroBuffer(b256[..], 256);
    Empty(58);
    DecodeBuffer(|s| - z);
    NoDigits(s, z);
    while e < |s| && !IsSpace(s[e])
      invariant z <= e <= |s| && SkipText(s, z) == SkipText(s, e)
      invariant Digits(DigitsOf(s[z..e]), 58)
      invariant Digits(b256[..], 256) && Value(b256[..], 256) == Value(DigitsOf(s[z..e]), 58)
    {
      MoreText(s, e);
      var ch := DigitOf(s[e]);
      if ch == 58 {
        ForeignDigit(s, z, e);
        e := SkipText(s, z);
        ok := false;
        return;
      }
      var carry := MultiplyAdd(b256, 256, 58, ch);
      StepFits(DigitsOf(s[z..e]), ch, |s| - z, 58, Value(b256[..], 256), carry, 256, b256.Length);
      OneMoreDigit(s, z, e);
      assert carry == 0;
      e := e + 1;
    }
    NoMoreText(s, e);
    ok := true;
  }

  lemma NoDigits(s: string, z: nat)
    requires z <= |s|
    ensures DigitsOf(s[z..z]) == [] && Digits([], 58)
  {
  }

  lemma OneMoreDigit(s: string, z: nat, e: nat)
    requires z <= e < |s| && Digits(DigitsOf(s[z..e]), 58) && DigitOf(s[e]) < 58
    ensures DigitsOf(s[z..e + 1]) == DigitsOf(s[z..e]) + [DigitOf(s[e])] && Digits(DigitsOf(s[z..e + 1]), 58)
  {
    hide DigitOf, DigitsOf;
    DigitsAppend(s[z..e], s[e]);
    assert s[z..e + 1] == s[z..e] + [s[e]];
  }

  lemma DigitsAppend(t: string, c: char)
    ensures DigitsOf(t + [c]) == DigitsOf(t) + [DigitOf(c)]
  {
    hide DigitOf;
  }

  lemma ForeignDigit(s: string, z: nat, e: nat)
    requires z <= |s| && z <= e < SkipText(s, z) && DigitOf(s[e]) == 58
    ensures !Digits(DigitsOf(s[z..SkipText(s, z)]), 58)
  {
    hide DigitOf;
    assert DigitsOf(s[z..SkipText(s, z)])[e - z] == 58;
  }

  lemma MoreText(s: string, e: nat)
    requires e < |s| && !IsSpace(s[e])
    ensures SkipText(s, e) == SkipText(s, e + 1) > e
  {
  }

  lemma NoMoreText(s: string, e: nat)
    requires e <= |s| && (e < |s| ==> IsSpace(s[e]))
    ensures SkipText(s, e) == e
  {
  }

  /** The loops over the spaces in front of the text and behind it. */
  method PastSpaces(s: string, start: nat) returns (i: nat)
    requires start <= |s|
    ensures i == SkipSpaces(s, start)
  {
    hide IsSpace;
    i := start;
    while i < |s| && IsSpace(s[i])
      invariant start <= i <= |s| && SkipSpaces(s, start) == SkipSpaces(s, i)
    {
      i := i + 1;
    }
  }

  /** The zeros and the bytes of the result. */
  method Copy(zeroes: nat, d: seq<nat>) returns (vch: seq<nat>)
    ensures vch == Repeat(zeroes, 0) + d
  {
    vch := Repeat(zeroes, 0);
    var it := 0;
    while it < |d|
      invariant 0 <= it <= |d| && vch == Repeat(zeroes, 0) + d[..it]
    {
      vch := vch + [d[it]];
      it := it + 1;
    }
    assert d[..|d|] == d;
  }

  /** `DecodeBase58`, on the characters before the terminator. */
  method DecodeBase58(s: string) returns (ok: bool, vch: seq<nat>)
    requires CString(s)
    ensures Decode(s) == if ok then Accepted(vch) else Rejected
  {
    hide Pow, Value, Letter, Numeral, LeadingZeros, IsSpace, DigitsOf, SkipText;
    var i := PastSpaces(s, 0);
    ghost var a := i;
    var zeroes := 0;
    while i < |s| && s[i] == '1'
      invariant a <= i <= |s| && zeroes == i - a && SkipOnes(s, a) == SkipOnes(s, i)
    {
      zeroes := zeroes + 1;
      i := i + 1;
    }
    var b256;
    ok, b256, i := ToBytes(s, i);
    vch := [];
    if !ok {
      return;
    }
    i := PastSpaces(s, i);
    if i != |s| {
      ok := false;
      return;
    }
    StripIsNumeral(b256[..], 256);
    var it := CountZeros(b256);
    vch := Copy(zeroes, b256[it..]);
  }

  // ---------------------------------------------------------------- with a checksum

  /** A 32-byte hash of any byte sequence. */
  ghost predicate IsHash(hash: seq<nat> -> seq<nat>) {
    forall b: seq<nat> :: |hash(b)| == 32 && Digits(hash(b), 256)
  }

  function Checked(hash: seq<nat> -> seq<nat>, v: seq<nat>): seq<nat>
    requires |hash(v)| >= 4
  {
    v + hash(v)[..4]
  }

  lemma CheckedParts(hash: seq<nat> -> seq<nat>, v: seq<nat>, b: seq<nat>)
    requires |hash(v)| >= 4 && Checked(hash, v) == b
    ensures |b| >= 4 && v == b[..|b| - 4] && hash(v)[..4] == b[|b| - 4..]
  {
  }

  /** `EncodeBase58Check`. */
  method EncodeBase58Check(hash: seq<nat> -> seq<nat>, v: seq<nat>) returns (str: string)
    requires IsHash(hash) && Digits(v, 256)
    ensures Digits(Checked(hash, v), 256) && str == Encode(Checked(hash, v))
  {
    var vch := v;
    vch := vch + hash(v)[..4];
    str := EncodeBase58(vch);
  }

  /** `DecodeBase58Check`: accepts exactly the encodings of some v followed by the first bytes of its hash. */
  method DecodeBase58Check(hash: seq<nat> -> seq<nat>, s: string) returns (ok: bool, vch: seq<nat>)
    requires IsHash(hash) && CString(s)
    ensures ok ==> Decode(s) == Accepted(Checked(hash, vch))
    ensures !ok ==> vch == [] && forall v: seq<nat> :: Decode(s) != Accepted(Checked(hash, v))
  {
    hide Decode;
    ok, vch := DecodeBase58(s);
    if !ok || |vch| < 4 {
      return false, [];
    }
    var body := vch[..|vch| - 4];
    assert vch == body + vch[|vch| - 4..];
    var h := hash(body);
    if h[..4] != vch[|vch| - 4..] {
      forall v: seq<nat>
        ensures Decode(s) != Accepted(Checked(hash, v))
      {
        if Checked(hash, v) == vch {
          CheckedParts(hash, v, vch);
        }
      }
      return false, [];
    }
    vch := body;
  }
}
