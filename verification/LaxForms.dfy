/** What the lax parser of pubkey.cpp accepts, as an encoder: any length octets in front of the integers as long as
    fewer than eight of them count, integers of any sign and padding, and anything behind. */
module LaxForms {
  import opened GroupOrder
  import opened Radix
  import opened Der

  /** Octets in the place of the length of the sequence, of which nothing but their number matters. */
  predicate IsSkipped(form: Bytes) {
    form != [] && |form| == if form[0] < 0x80 then 1 else 1 + (form[0] - 0x80)
  }

  /** The octets of a length: the short form, or the number of octets that follow with bit 8 set and then the length
      in base 256, with zeros in front or not. Lengths of eight significant octets are not accepted. */
  predicate IsLengthForm(form: Bytes, len: nat) {
    && form != []
    && if form[0] < 0x80 then form == [len] else
         |form| == 1 + (form[0] - 0x80) && Value(form[1..], 256) == len < 0x100_0000_0000_0000
  }

  /** An integer element: its tag, its length, its content. */
  function Element(form: Bytes, content: Bytes): seq<nat> {
    [0x02] + form + content
  }

  function Assembled(skipped: Bytes, rform: Bytes, r: Bytes, sform: Bytes, s: Bytes, rest: Bytes): seq<nat> {
    [0x30] + skipped + Element(rform, r) + Element(sform, s) + rest
  }

  /** The parts of an input of the accepted shape. */
  predicate IsLaxForm(input: Bytes, skipped: Bytes, rform: Bytes, r: Bytes, sform: Bytes, s: Bytes, rest: Bytes) {
    && input == Assembled(skipped, rform, r, sform, s, rest)
    && IsSkipped(skipped) && IsLengthForm(rform, |r|) && IsLengthForm(sform, |s|)
  }

  // ---------------------------------------------------------------- lengths

  /** Less than eight octets count exactly when the number is below 256^7. */
  lemma SignificantOctets(octets: Bytes)
    ensures |octets| - LeadingZeros(octets) >= 8 <==> Value(octets, 256) >= 0x100_0000_0000_0000
  {
    hide Value, Pow, LeadingZeros;
    ValueZeros(octets, 256);
    var d := octets[LeadingZeros(octets)..];
    ValueBound(d, 256);
    SevenOctets();
    if |d| >= 8 {
      FirstDigit(d, 256);
      PowExponent(256, 7, |d| - 1);
    } else {
      PowExponent(256, |d|, 7);
    }
  }

  lemma SevenOctets()
    ensures Pow(256, 7) == 0x100_0000_0000_0000
  {
    assert Pow(256, 2) == 0x1_0000;
    assert Pow(256, 4) == 0x1_0000_0000;
  }

  lemma LengthReads(input: Bytes, pos: nat, form: Bytes, len: nat)
    requires pos + |form| <= |input| && input[pos..pos + |form|] == form && IsLengthForm(form, len)
    ensures LaxLength(input, pos) == (len, pos + |form|)
  {
    hide Value, LeadingZeros;
    assert input[pos] == form[0];
    if form[0] >= 0x80 {
      assert input[pos + 1..pos + |form|] == form[1..];
      SignificantOctets(form[1..]);
    }
  }

  lemma LengthShape(input: Bytes, pos: nat)
    requires LaxLength(input, pos).0 != -1
    ensures var (len, next) := LaxLength(input, pos);
      pos < next <= |input| && 0 <= len && IsLengthForm(input[pos..next], len)
  {
    hide Value, LeadingZeros;
    var (len, next) := LaxLength(input, pos);
    if input[pos] >= 0x80 {
      assert input[pos..next][1..] == input[pos + 1..next];
      SignificantOctets(input[pos + 1..next]);
    }
  }

  lemma IntegerReads(input: Bytes, pos: nat, form: Bytes, content: Bytes)
    requires pos + 1 + |form| + |content| <= |input| && IsLengthForm(form, |content|)
    requires input[pos] == 0x02 && input[pos + 1..pos + 1 + |form|] == form
    ensures LaxInteger(input, pos) == (|content|, pos + 1 + |form|)
  {
    hide LaxLength, IsLengthForm;
    LengthReads(input, pos + 1, form, |content|);
  }

  lemma IntegerShape(input: Bytes, pos: nat)
    requires LaxInteger(input, pos).0 != -1
    ensures var (len, start) := LaxInteger(input, pos);
      && 0 <= len && pos + 1 < start && start + len <= |input|
      && IsLengthForm(input[pos + 1..start], len)
      && input[pos..start + len] == Element(input[pos + 1..start], input[start..start + len])
  {
    hide LaxLength, IsLengthForm;
    LengthShape(input, pos + 1);
  }

  // ---------------------------------------------------------------- whole inputs

  /** Every input of the accepted shape is accepted, with the numbers that the contents are, whatever their signs and
      padding; both become zero when one of them is not below n. */
  lemma LaxAccepts(input: Bytes, skipped: Bytes, rform: Bytes, r: Bytes, sform: Bytes, s: Bytes, rest: Bytes)
    requires IsLaxForm(input, skipped, rform, r, sform, s, rest)
    ensures ParseLax(input) ==
      if Value(r, 256) < N && Value(s, 256) < N then Pair(Value(r, 256), Value(s, 256)) else Pair(0, 0)
  {
    hide Value, IsLengthForm, LaxInteger, LaxSkip, ParseLax, Assembled;
    var p, q := 1 + |skipped|, 1 + |skipped| + 1 + |rform| + |r|;
    Parts(input, skipped, rform, r, sform, s, rest);
    SkipReads(input, skipped);
    IntegerReads(input, p, rform, r);
    IntegerReads(input, q, sform, s);
    ParsedPair(input, p, |r|, p + 1 + |rform|, |s|, q + 1 + |sform|);
  }

  lemma SkipReads(input: Bytes, skipped: Bytes)
    requires |input| >= 1 + |skipped| && IsSkipped(skipped) && input[1] == skipped[0]
    ensures LaxSkip(input, 1) == 1 + |skipped|
  {
  }

  lemma ParsedPair(input: Bytes, p: nat, rlen: nat, rpos: nat, slen: nat, spos: nat)
    requires input != [] && input[0] == 0x30 && LaxSkip(input, 1) == p
    requires LaxInteger(input, p) == (rlen, rpos) && LaxInteger(input, rpos + rlen) == (slen, spos)
    ensures rpos + rlen <= |input| && spos + slen <= |input|
    ensures var r, s := Value(input[rpos..rpos + rlen], 256), Value(input[spos..spos + slen], 256);
      ParseLax(input) == if r < N && s < N then Pair(r, s) else Pair(0, 0)
  {
    hide Value, LaxSkip, LaxInteger;
  }

  lemma Parts(input: Bytes, skipped: Bytes, rform: Bytes, r: Bytes, sform: Bytes, s: Bytes, rest: Bytes)
    requires input == Assembled(skipped, rform, r, sform, s, rest)
    ensures var p, q := 1 + |skipped|, 1 + |skipped| + 1 + |rform| + |r|;
      && |input| >= q + 1 + |sform| + |s|
      && input[0] == 0x30 && input[1..p] == skipped && (skipped != [] ==> input[1] == skipped[0])
      && input[p] == 0x02 && input[p + 1..p + 1 + |rform|] == rform && input[p + 1 + |rform|..q] == r
      && input[q] == 0x02 && input[q + 1..q + 1 + |sform|] == sform
      && input[q + 1 + |sform|..q + 1 + |sform| + |s|] == s
  {
  }

  lemma Positions(input: Bytes) returns (p: nat, rpos: nat, q: nat, spos: nat, end: nat)
    requires ParseLax(input) != Refused
    ensures input != [] && input[0] == 0x30 && LaxSkip(input, 1) == p
    ensures 1 < p < rpos <= q < spos <= end <= |input|
    ensures LaxInteger(input, p) == (q - rpos, rpos) && LaxInteger(input, q) == (end - spos, spos)
  {
    hide Value, LaxSkip, LaxInteger;
    p := LaxSkip(input, 1);
    rpos := LaxInteger(input, p).1;
    q := rpos + LaxInteger(input, p).0;
    spos := LaxInteger(input, q).1;
    end := spos + LaxInteger(input, q).0;
  }

  lemma SkipShape(input: Bytes)
    requires |input| > 1 && LaxSkip(input, 1) != -1
    ensures IsSkipped(input[1..LaxSkip(input, 1)])
  {
  }

  /** Every input that is accepted has that shape. */
  lemma LaxShape(input: Bytes)
      returns (skipped: Bytes, rform: Bytes, r: Bytes, sform: Bytes, s: Bytes, rest: Bytes)
    requires ParseLax(input) != Refused
    ensures IsLaxForm(input, skipped, rform, r, sform, s, rest)
  {
    hide IsLengthForm, IsSkipped, LaxInteger, LaxSkip, ParseLax;
    var p, rpos, q, spos, end := Positions(input);
    SkipShape(input);
    IntegerShape(input, p);
    IntegerShape(input, q);
    skipped, rest := input[1..p], input[end..];
    rform, r := input[p + 1..rpos], input[rpos..q];
    sform, s := input[q + 1..spos], input[spos..end];
    Joined(input, p, q, end);
  }

  lemma Joined(input: Bytes, p: nat, q: nat, e: nat)
    requires 1 <= p <= q <= e <= |input| && input[0] == 0x30
    ensures input == [0x30] + input[1..p] + input[p..q] + input[q..e] + input[e..]
  {
  }

  /** An input is refused exactly when it has no such parts. */
  lemma RefusedIff(input: Bytes)
    ensures ParseLax(input) == Refused <==>
      !exists skipped: Bytes, rform: Bytes, r: Bytes, sform: Bytes, s: Bytes, rest: Bytes ::
         IsLaxForm(input, skipped, rform, r, sform, s, rest)
  {
    hide *;
    if ParseLax(input) != Refused {
      var skipped, rform, r, sform, s, rest := LaxShape(input);
    }
    forall skipped: Bytes, rform: Bytes, r: Bytes, sform: Bytes, s: Bytes, rest: Bytes
      | IsLaxForm(input, skipped, rform, r, sform, s, rest)
      ensures ParseLax(input) != Refused
    {
      LaxAccepts(input, skipped, rform, r, sform, s, rest);
    }
  }
}
