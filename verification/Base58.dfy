/** Base58 encoding and decoding (src/base58.cpp:19-127). */
module Base58 {
  import opened Options
  import opened Integers
  import opened Radix

  // ---------- characters ----------

  /** The alphabet: digits and letters without 0, I, O and l. */
  function CharOf(d: int): char
    requires 0 <= d < 58
  {
    if d < 9 then ('1' as int + d) as char
    else if d < 17 then ('A' as int + (d - 9)) as char
    else if d < 22 then ('J' as int + (d - 17)) as char
    else if d < 33 then ('P' as int + (d - 22)) as char
    else if d < 44 then ('a' as int + (d - 33)) as char
    else ('m' as int + (d - 44)) as char
  }

  /** The digit of a character, or -1. */
  function MapBase58(c: char): int {
    if '1' <= c <= '9' then c as int - '1' as int
    else if 'A' <= c <= 'H' then c as int - 'A' as int + 9
    else if 'J' <= c <= 'N' then c as int - 'J' as int + 17
    else if 'P' <= c <= 'Z' then c as int - 'P' as int + 22
    else if 'a' <= c <= 'k' then c as int - 'a' as int + 33
    else if 'm' <= c <= 'z' then c as int - 'm' as int + 44
    else -1
  }

  predicate IsSpace(c: char) {
    c == ' ' || 9 <= c as int <= 13
  }

  /** Spaces are the blank and the five control characters from tab to carriage return. */
  lemma Spaces(c: char)
    ensures IsSpace(c) <==> c in " \t\n\r" || c as int == 11 || c as int == 12
  {
  }

  /** The alphabet is in the order of the character codes, and consists of the letters and digits but 0, I, O and l. */
  lemma Alphabet(c: char)
    ensures forall d, e :: 0 <= d < e < 58 ==> CharOf(d) < CharOf(e)
    ensures MapBase58(c) != -1 <==> ('0' <= c <= '9' || 'A' <= c <= 'Z' || 'a' <= c <= 'z') && c !in "0IOl"
    ensures MapBase58(c) != -1 <==> exists d :: 0 <= d < 58 && CharOf(d) == c
  {
    MapRoundTrip(c);
  }

  lemma CharRoundTrip(d: int)
    requires 0 <= d < 58
    ensures MapBase58(CharOf(d)) == d && !IsSpace(CharOf(d)) && CharOf(d) as int != 0
  {
  }

  lemma MapRoundTrip(c: char)
    ensures -1 <= MapBase58(c) < 58
    ensures MapBase58(c) != -1 ==> CharOf(MapBase58(c)) == c && !IsSpace(c)
  {
  }

  // ---------- what is encoded and decoded ----------

  ghost function LeadingZeros(s: seq<int>): (z: nat)
    ensures z <= |s|
  {
    if s != [] && s[0] == 0 then 1 + LeadingZeros(s[1..]) else 0
  }

  ghost function Zeros(z: nat): seq<int> {
    seq(z, _ => 0)
  }

  /** The number denoted by s in one base, written in another; leading zeros are kept one for one. */
  ghost function Rebase(s: seq<int>, from: nat, to: nat): seq<int>
    requires to >= 2
  {
    var z := LeadingZeros(s);
    var n := From(s[z..], from);
    Zeros(z) + if n >= 0 then To(n, to) else []
  }

  ghost function Chars(ds: seq<int>): string
    requires Digits(ds, 58)
  {
    seq(|ds|, i requires 0 <= i < |ds| => CharOf(ds[i]))
  }

  ghost predicate AllBase58(s: string) {
    forall i :: 0 <= i < |s| ==> MapBase58(s[i]) != -1
  }

  ghost function Values(s: string): seq<int> {
    seq(|s|, i requires 0 <= i < |s| => MapBase58(s[i]))
  }

  /** The first position from i on that is no space. */
  ghost function FirstFrom(s: string, i: nat): (f: nat)
    requires i <= |s|
    ensures i <= f <= |s|
    decreases |s| - i
  {
    if i < |s| && IsSpace(s[i]) then FirstFrom(s, i + 1) else i
  }

  /** The end of what is left of s[f..e] without spaces at its end. */
  ghost function LastTo(s: string, f: nat, e: nat): (r: nat)
    requires f <= e <= |s|
    ensures f <= r <= e
  {
    if f < e && IsSpace(s[e - 1]) then LastTo(s, f, e - 1) else e
  }

  /** The string without leading and trailing spaces. */
  ghost function Strip(s: string): string {
    s[FirstFrom(s, 0)..LastTo(s, FirstFrom(s, 0), |s|)]
  }

  /** The encoding of a byte string. */
  ghost function Encoded(input: seq<int>): string
    requires Digits(input, 256)
  {
    RebaseDigits(input, 256, 58);
    Chars(Rebase(input, 256, 58))
  }

  /** The byte string that a string stands for, if all of it apart from outer spaces is base58. */
  ghost function Decoded(s: string): Option<seq<int>> {
    if AllBase58(Strip(s)) then Some(Rebase(Values(Strip(s)), 58, 256)) else None
  }

  // ---------- inverses ----------

  lemma {:induction false} LeadingZerosFacts(s: seq<int>)
    ensures var z := LeadingZeros(s);
            (forall i :: 0 <= i < z ==> s[i] == 0) && Canonical(s[z..])
  {
    if s != [] && s[0] == 0 {
      LeadingZerosFacts(s[1..]);
      var z := LeadingZeros(s[1..]);
      assert s[1..][z..] == s[z + 1..];
      assert forall i :: 0 <= i < z ==> s[1..][i] == s[i + 1];
    }
  }

  lemma {:induction false} LeadingZerosOf(z: nat, t: seq<int>)
    requires Canonical(t)
    ensures LeadingZeros(Zeros(z) + t) == z
  {
    var s := Zeros(z) + t;
    if z > 0 {
      assert s[1..] == Zeros(z - 1) + t;
      LeadingZerosOf(z - 1, t);
    } else {
      assert s == t;
    }
  }

  lemma RebaseDigits(s: seq<int>, from: nat, to: nat)
    requires from >= 2 && to >= 2 && Digits(s, from)
    ensures Digits(Rebase(s, from, to), to)
  {
    var z := LeadingZeros(s);
    FromBound(s[z..], from);
    ToFacts(From(s[z..], from), to);
  }

  /** Changing the base back restores the digits. */
  lemma RebaseInverse(s: seq<int>, from: nat, to: nat)
    requires from >= 2 && to >= 2 && Digits(s, from)
    ensures Rebase(Rebase(s, from, to), to, from) == s
  {
    hide From, To, LeadingZeros;
    var z := LeadingZeros(s);
    LeadingZerosFacts(s);
    var t := s[z..];
    ToFrom(t, from);
    var n := From(t, from);
    var u := To(n, to);
    ToFacts(n, to);
    var r := Rebase(s, from, to);
    assert r == Zeros(z) + u;
    LeadingZerosOf(z, u);
    assert r[z..] == u;
    assert s == Zeros(z) + t;
  }

  lemma ValuesChars(ds: seq<int>)
    requires Digits(ds, 58)
    ensures AllBase58(Chars(ds)) && Values(Chars(ds)) == ds
  {
    forall i | 0 <= i < |ds|
      ensures MapBase58(Chars(ds)[i]) == ds[i]
    {
      CharRoundTrip(ds[i]);
    }
  }

  lemma CharsValues(s: string)
    requires AllBase58(s)
    ensures Digits(Values(s), 58) && Chars(Values(s)) == s
  {
    forall i | 0 <= i < |s|
      ensures 0 <= Values(s)[i] < 58 && CharOf(Values(s)[i]) == s[i]
    {
      MapRoundTrip(s[i]);
    }
  }

  lemma NoSpaces(s: string)
    requires AllBase58(s)
    ensures Strip(s) == s
  {
    if s != [] {
      MapRoundTrip(s[0]);
      MapRoundTrip(s[|s| - 1]);
    }
    assert FirstFrom(s, 0) == 0 && LastTo(s, 0, |s|) == |s|;
  }

  /** Decoding an encoding gives the bytes back. */
  lemma DecodeEncode(input: seq<int>)
    requires Digits(input, 256)
    ensures Decoded(Encoded(input)) == Some(input)
  {
    hide Rebase, Chars, Values, AllBase58, Strip;
    RebaseDigits(input, 256, 58);
    var ds := Rebase(input, 256, 58);
    ValuesChars(ds);
    NoSpaces(Chars(ds));
    RebaseInverse(input, 256, 58);
  }

  /** Encoding what was decoded gives the string back, without its outer spaces. */
  lemma EncodeDecode(s: string)
    requires Decoded(s).Some?
    ensures Digits(Decoded(s).value, 256) && Encoded(Decoded(s).value) == Strip(s)
  {
    hide Rebase, Chars, Values, AllBase58, Strip;
    CharsValues(Strip(s));
    RebaseDigits(Values(Strip(s)), 58, 256);
    RebaseInverse(Values(Strip(s)), 58, 256);
  }

  // ---------- the digit buffer ----------

  /** The buffer holds the canonical digits of n in its last `length` places, and zeros before. */
  ghost predicate Holds(b: seq<int>, length: nat, base: nat, n: int) {
    && Digits(b, base) && length <= |b|
    && (forall j :: 0 <= j < |b| - length ==> b[j] == 0)
    && Canonical(b[|b| - length..]) && From(b[|b| - length..], base) == n
  }

  lemma HoldsZero(b: seq<int>, base: nat)
    requires base > 0 && forall j :: 0 <= j < |b| ==> b[j] == 0
    ensures Holds(b, 0, base, 0)
  {
    assert b[|b|..] == [];
  }

  lemma HeldDigits(b: seq<int>, length: nat, base: nat, n: int)
    requires base >= 2 && Holds(b, length, base, n)
    ensures n >= 0 && b[|b| - length..] == To(n, base)
  {
    hide From, To;
    ToFrom(b[|b| - length..], base);
  }

  /** One more digit of the product, from the least significant on. */
  lemma CarryStep(low: int, carry: int, p: int, mult: int, oldLow: int, ch: int, d: int, base: int, x: int, carry': int, p': int)
    requires low + carry * p == mult * oldLow + ch && carry + mult * d == carry' * base + x && p' == base * p
    ensures (x * p + low) + carry' * p' == mult * (d * p + oldLow) + ch
  {
    assert carry' * (base * p) == (carry' * base) * p;
    assert (carry + mult * d) * p == carry * p + (mult * d) * p;
    assert (carry' * base + x) * p == (carry' * base) * p + x * p;
    assert mult * (d * p + oldLow) == (mult * d) * p + mult * oldLow;
  }

  /** The state after i digits of the product have been written. */
  ghost predicate Carried(was: seq<int>, b: seq<int>, base: nat, mult: int, ch: int, i: nat, carry: int) {
    && |b| == |was| && i <= |b| && carry >= 0 && Digits(b, base)
    && b[..|b| - i] == was[..|b| - i]
    && From(b[|b| - i..], base) + carry * Pow(base, i) == mult * From(was[|b| - i..], base) + ch
  }

  lemma CarriedStart(was: seq<int>, base: nat, mult: int, ch: int)
    requires Digits(was, base) && ch >= 0
    ensures Carried(was, was, base, mult, ch, 0, ch)
  {
    assert was[|was|..] == [];
  }

  lemma CarriedStep(was: seq<int>, b: seq<int>, base: nat, mult: int, ch: int, i: nat, carry: int)
    requires base >= 2 && mult >= 0 && Digits(was, base) && i < |b| && Carried(was, b, base, mult, ch, i, carry)
    ensures var at := |b| - 1 - i;
            var c := carry + mult * b[at];
            c >= 0 && Carried(was, b[at := c % base], base, mult, ch, i + 1, c / base)
  {
    hide From, Pow;
    var n := |b|;
    var at := n - 1 - i;
    assert b[at] == b[..n - i][at] == was[..n - i][at] == was[at];
    var d := was[at];
    MulMono(0, d, mult);
    var c := carry + mult * d;
    assert mult * d == d * mult;
    QuotientNat(c, base);
    var b' := b[at := c % base];
    assert b'[at..] == [c % base] + b[n - i..];
    assert was[at..] == [d] + was[n - i..];
    FromCons(c % base, b[n - i..], base);
    FromCons(d, was[n - i..], base);
    PowStep(base, i);
    assert c == base * (c / base) + c % base;
    CarryStep(From(b[n - i..], base), carry, Pow(base, i), mult, From(was[n - i..], base), ch, d, base, c % base, c / base, Pow(base, i + 1));
    assert b'[..at] == was[..at];
  }

  lemma PowStep(base: nat, i: nat)
    ensures Pow(base, i + 1) == base * Pow(base, i)
  {
  }

  /** A carry out of the whole buffer would be a number too large for it. */
  lemma NoCarryLeft(was: seq<int>, b: seq<int>, base: nat, mult: int, ch: int, carry: int)
    requires base >= 2 && Carried(was, b, base, mult, ch, |b|, carry) && mult * From(was, base) + ch < Pow(base, |b|)
    ensures carry == 0
  {
    hide From, Pow;
    assert b[0..] == b && was[0..] == was;
    FromBound(b, base);
    if carry > 0 {
      MulMono(1, carry, Pow(base, |b|));
      assert false;
    }
  }

  /** Without a carry left and all digits processed, the buffer holds the product. */
  lemma CarriedDone(was: seq<int>, b: seq<int>, length: nat, base: nat, n: int, mult: int, ch: int, i: nat)
    requires base >= 2 && Holds(was, length, base, n) && Carried(was, b, base, mult, ch, i, 0) && i >= length
    requires i > 0 ==> b[|b| - i] != 0
    ensures Holds(b, i, base, mult * n + ch)
  {
    hide From, Pow;
    var k := |b|;
    assert was[k - i..][i - length..] == was[k - length..];
    FromZeros(was[k - i..], i - length, base);
    forall j | 0 <= j < k - i
      ensures b[j] == 0
    {
      assert b[j] == b[..k - i][j] == was[..k - i][j] == was[j];
    }
  }

  /** The value of the whole buffer. */
  lemma HeldValue(b: seq<int>, length: nat, base: nat, n: int)
    requires Holds(b, length, base, n)
    ensures From(b, base) == n
  {
    hide From;
    FromZeros(b, |b| - length, base);
  }

  /** Multiplies the number in the buffer and adds a digit; no carry is left over if the buffer is large enough. */
  method MultiplyAdd(b: array<int>, length: nat, mult: nat, ch: int, base: nat, ghost n: int) returns (length': nat)
    requires base >= 2 && mult >= 1 && ch >= 0 && Holds(b[..], length, base, n) && mult * n + ch < Pow(base, b.Length)
    modifies b
    ensures Holds(b[..], length', base, mult * n + ch)
    ensures length <= length' <= b.Length
  {
    hide From, Pow, Carried, Holds;
    ghost var was := b[..];
    HeldParts(was, length, base, n);
    HeldValue(was, length, base, n);
    CarriedStart(was, base, mult, ch);
    var carry := ch;
    var i := 0;
    while (carry != 0 || i < length) && i < b.Length
      invariant 0 <= i <= b.Length && Carried(was, b[..], base, mult, ch, i, carry) && carry >= 0
      invariant 0 < i && length <= i && carry == 0 ==> b[b.Length - i] != 0
    {
      var at := b.Length - 1 - i;
      CarriedStep(was, b[..], base, mult, ch, i, carry);
      CarriedParts(was, b[..], base, mult, ch, i, carry);
      assert b[at] == was[at];
      TopNonZero(was, length, i, carry, mult, base);
      carry := carry + mult * b[at];
      ghost var before := b[..];
      b[at] := carry % base;
      assert b[..] == before[at := carry % base];
      carry := carry / base;
      i := i + 1;
    }
    if carry != 0 {
      NoCarryLeft(was, b[..], base, mult, ch, carry);
    }
    assert carry == 0;
    CarriedDone(was, b[..], length, base, n, mult, ch, i);
    length' := i;
  }

  lemma HeldParts(b: seq<int>, length: nat, base: nat, n: int)
    requires Holds(b, length, base, n)
    ensures length <= |b| && Digits(b, base) && (length > 0 ==> b[|b| - length] != 0)
  {
  }

  lemma CarriedParts(was: seq<int>, b: seq<int>, base: nat, mult: int, ch: int, i: nat, carry: int)
    requires Carried(was, b, base, mult, ch, i, carry)
    ensures |b| == |was| && i <= |b| && forall j :: 0 <= j < |b| - i ==> b[j] == was[j]
  {
    forall j | 0 <= j < |b| - i
      ensures b[j] == was[j]
    {
      assert b[j] == b[..|b| - i][j];
    }
  }

  /** The digit written last is not zero, once the old digits and the carry are used up. */
  lemma TopNonZero(was: seq<int>, length: nat, i: nat, carry: int, mult: int, base: nat)
    requires base >= 2 && mult >= 1 && carry >= 0 && i < |was| && length <= |was| && Digits(was, base)
    requires length > 0 ==> was[|was| - length] != 0
    requires carry != 0 || i < length
    ensures var c := carry + mult * was[|was| - 1 - i];
            c >= 0 && (length <= i + 1 && c / base == 0 ==> c % base != 0)
  {
    var d := was[|was| - 1 - i];
    MulMono(0, d, mult);
    assert mult * d == d * mult;
    var c := carry + mult * d;
    assert c == base * (c / base) + c % base;
    if i == length - 1 {
      MulMono(1, d, mult);
    }
  }
}
