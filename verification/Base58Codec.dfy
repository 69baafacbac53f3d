/** The base58 codec over its digit buffers (src/base58.cpp:40-133). */
module Base58Codec {
  import opened Options
  import opened Integers
  import opened Radix
  import opened Base58

  // ---------- encoding ----------

  lemma {:induction false} LeadingZerosIs(s: seq<int>, z: nat)
    requires z <= |s| && (forall i :: 0 <= i < z ==> s[i] == 0) && (z < |s| ==> s[z] != 0)
    ensures LeadingZeros(s) == z
  {
    if z > 0 {
      LeadingZerosIs(s[1..], z - 1);
    }
  }

  lemma FromStep(s: seq<int>, j: nat, base: nat)
    requires j < |s|
    ensures From(s[..j + 1], base) == base * From(s[..j], base) + s[j]
  {
    assert s[..j + 1][..j] == s[..j];
  }

  /** A prefix denotes a number that fits wherever the whole would. */
  lemma PrefixFits(s: seq<int>, j: nat, base: nat, other: nat, size: nat)
    requires base >= 2 && Digits(s, base) && j <= |s| && Pow(base, |s|) <= Pow(other, size)
    ensures 0 <= From(s[..j], base) < Pow(other, size)
  {
    hide From, Pow;
    FromBound(s[..j], base);
    PowMonotone(base, j, |s|);
  }

  method EncodeBase58(input: seq<int>) returns (str: string)
    requires Digits(input, 256)
    ensures str == Encoded(input)
  {
    hide From, To, Pow, LeadingZeros, Holds;
    var zeroes := 0;
    while zeroes < |input| && input[zeroes] == 0
      invariant 0 <= zeroes <= |input| && forall i :: 0 <= i < zeroes ==> input[i] == 0
    {
      zeroes := zeroes + 1;
    }
    LeadingZerosIs(input, zeroes);
    var rest := input[zeroes..];
    var size := |rest| * 138 / 100 + 1;
    EncodeSize(|rest|);
    var b58 := new int[size](_ => 0);
    var length: nat := 0;
    HoldsZero(b58[..], 58);
    EmptyFrom(256);
    assert rest[..0] == [];
    for j := 0 to |rest|
      invariant length <= size && Holds(b58[..], length, 58, From(rest[..j], 256))
    {
      FromStep(rest, j, 256);
      PrefixFits(rest, j + 1, 256, 58, size);
      length := MultiplyAdd(b58, length, 256, rest[j], 58, From(rest[..j], 256));
    }
    assert rest[..|rest|] == rest;
    ghost var n := From(rest, 256);
    HeldParts(b58[..], length, 58, n);
    HeldDigits(b58[..], length, 58, n);
    RebaseDigits(input, 256, 58);
    str := Translate(b58, size - length, zeroes, To(n, 58));
  }

  lemma EmptyFrom(base: nat)
    ensures From([], base) == 0
  {
  }

  /** Skips zeros at the front of the result and translates it. */
  method Translate(b58: array<int>, start: nat, zeroes: nat, ghost ds: seq<int>) returns (str: string)
    requires start <= b58.Length && Digits(b58[..], 58) && b58[start..] == ds && Canonical(ds)
    ensures Digits(Zeros(zeroes) + ds, 58) && str == Chars(Zeros(zeroes) + ds)
  {
    var it := SkipZeros(b58, start);
    ghost var all := Zeros(zeroes) + ds;
    assert Digits(all, 58) by {
      assert forall i :: 0 <= i < |ds| ==> ds[i] == b58[start + i];
    }
    str := seq(zeroes, _ => '1');
    assert str == Chars(all[..zeroes]);
    while it < b58.Length
      invariant start <= it <= b58.Length && str == Chars(all[..zeroes + (it - start)])
    {
      ghost var k := zeroes + (it - start);
      assert all[..k + 1] == all[..k] + [b58[it]];
      str := str + [CharOf(b58[it])];
      it := it + 1;
    }
    assert all[..zeroes + (b58.Length - start)] == all;
  }

  method SkipZeros(b58: array<int>, start: nat) returns (it: nat)
    requires start <= b58.Length
    ensures start <= it <= b58.Length && (forall j :: start <= j < it ==> b58[j] == 0) && (it < b58.Length ==> b58[it] != 0)
    ensures Canonical(b58[start..]) ==> it == start
  {
    it := start;
    while it != b58.Length && b58[it] == 0
      invariant start <= it <= b58.Length && forall j :: start <= j < it ==> b58[j] == 0
    {
      it := it + 1;
    }
  }

  // ---------- decoding ----------

  lemma {:induction false} FirstIs(s: string, i: nat, f: nat)
    requires i <= f <= |s| && (forall j :: i <= j < f ==> IsSpace(s[j])) && (f < |s| ==> !IsSpace(s[f]))
    ensures FirstFrom(s, i) == f
    decreases f - i
  {
    hide IsSpace;
    if i < f {
      FirstIs(s, i + 1, f);
    }
  }

  lemma {:induction false} LastIs(s: string, f: nat, e: nat, r: nat)
    requires f <= r <= e <= |s| && (forall j :: r <= j < e ==> IsSpace(s[j])) && (f < r ==> !IsSpace(s[r - 1]))
    ensures LastTo(s, f, e) == r
  {
    hide IsSpace;
    if r < e {
      LastIs(s, f, e - 1, r);
    }
  }

  /** Stripping keeps everything up to a character that is no space. */
  lemma {:induction false} LastKeeps(s: string, f: nat, e: nat, k: nat)
    requires f <= k < e <= |s| && !IsSpace(s[k])
    ensures k < LastTo(s, f, e)
  {
    hide IsSpace;
    if IsSpace(s[e - 1]) {
      LastKeeps(s, f, e - 1, k);
    }
  }

  /** A character outside the alphabet, with a non-space at or after it, makes the string invalid. */
  lemma BadChar(s: string, f: nat, j: nat, k: nat)
    requires f <= j <= k < |s| && FirstFrom(s, 0) == f && MapBase58(s[j]) == -1 && !IsSpace(s[k])
    ensures Decoded(s).None?
  {
    hide IsSpace, MapBase58, FirstFrom, LastTo, Rebase;
    LastKeeps(s, f, |s|, k);
    var u := Strip(s);
    assert u[j - f] == s[j];
  }

  /** The shape of a decodable string: z ones, then digits of which the first is not zero. */
  ghost predicate Shape(s: string, f: nat, z: nat, e: nat) {
    && f + z <= e <= |s| && Strip(s) == s[f..e] && AllBase58(s[f..e])
    && (forall i :: f <= i < f + z ==> s[i] == '1') && (f + z < e ==> s[f + z] != '1')
  }

  lemma ShapeDecodes(s: string, f: nat, z: nat, e: nat)
    requires Shape(s, f, z, e)
    ensures var ds := Values(s[f + z..e]);
            && Digits(ds, 58) && From(ds, 58) >= 0
            && Decoded(s) == Some(Zeros(z) + To(From(ds, 58), 256))
  {
    hide From, To, LeadingZeros, Strip;
    var vs, ds := Values(s[f..e]), Values(s[f + z..e]);
    CharsValues(s[f..e]);
    assert ds == vs[z..];
    OnlyOne();
    LeadingZerosIs(vs, z);
    FromBound(ds, 58);
  }

  lemma OnlyOne()
    ensures forall c :: MapBase58(c) == 0 <==> c == '1'
  {
  }

  /** While decoding, a string that will decode has a shape that extends what has been read. */
  lemma ReadSoFar(s: string, f: nat, z: nat, i: nat) returns (e: nat)
    requires f + z <= i <= |s| && f < i && FirstFrom(s, 0) == f && !IsSpace(s[i - 1]) && Decoded(s).Some?
    requires (forall j :: f <= j < f + z ==> s[j] == '1') && (f + z < i ==> s[f + z] != '1')
    ensures i <= e <= |s| && Strip(s) == s[f..e] && AllBase58(s[f..e])
  {
    hide IsSpace, MapBase58, FirstFrom, LastTo;
    LastKeeps(s, f, |s|, i - 1);
    e := LastTo(s, f, |s|);
  }

  lemma {:induction false} FromPrefix(s: seq<int>, k: nat, base: nat)
    requires base >= 2 && Digits(s, base) && k <= |s|
    ensures 0 <= From(s[..k], base) <= From(s, base)
  {
    if k == |s| {
      assert s[..k] == s;
      FromBound(s, base);
    } else {
      var n := |s| - 1;
      FromPrefix(s[..n], k, base);
      assert s[..n][..k] == s[..k];
      Grow1(base, From(s[..n], base));
    }
  }

  lemma Grow1(b: int, x: int)
    requires b >= 1 && x >= 0
    ensures x * b >= x
  {
    MulMono(1, b, x);
  }

  lemma {:induction false} ToLonger(m: nat, n: nat, base: nat)
    requires base >= 2 && m <= n
    ensures |To(m, base)| <= |To(n, base)|
    decreases n
  {
    if m > 0 {
      Shrinks(m, base);
      Shrinks(n, base);
      DivMono(m, n, base);
      ToLonger(m / base, n / base, base);
    }
  }

  lemma DivMono(m: nat, n: nat, d: nat)
    requires m <= n && d > 0
    ensures 0 <= m / d <= n / d
  {
    QuotientNat(m, d);
    var p, q := m / d, n / d;
    assert m == d * p + m % d && n == d * q + n % d;
    if p > q {
      MulMono(q + 1, p, d);
      assert false;
    }
  }

  /** What has been read so far is a lower bound for the length of the result. */
  lemma AtLeast(s: string, f: nat, z: nat, i: nat)
    requires f + z <= i <= |s| && f < i && FirstFrom(s, 0) == f && !IsSpace(s[i - 1]) && AllBase58(s[f..i])
    requires (forall j :: f <= j < f + z ==> s[j] == '1') && (f + z < i ==> s[f + z] != '1')
    ensures Digits(Values(s[f + z..i]), 58) && From(Values(s[f + z..i]), 58) >= 0
    ensures Decoded(s).Some? ==> |Decoded(s).value| >= z + |To(From(Values(s[f + z..i]), 58), 256)|
  {
    hide From, To, LeadingZeros, Strip, FirstFrom, IsSpace, Rebase;
    PartBase58(s, f, f + z, i);
    CharsValues(s[f + z..i]);
    FromBound(Values(s[f + z..i]), 58);
    if Decoded(s).Some? {
      var e := ReadSoFar(s, f, z, i);
      if f + z < i {
        ShapeDecodes(s, f, z, e);
        var all, part := Values(s[f + z..e]), Values(s[f + z..i]);
        ValuesPrefix(s, f + z, i, e);
        FromPrefix(all, i - f - z, 58);
        ToLonger(From(part, 58), From(all, 58), 256);
      } else {
        var vs := Values(s[f..e]);
        assert forall j :: 0 <= j < z ==> vs[j] == 0 by {
          OnlyOne();
        }
        ManyZeros(vs, z);
        RebaseLength(vs, 58, 256);
        assert s[f + z..i] == [];
        EmptyDigits(256);
      }
    }
  }

  lemma ValuesPrefix(s: string, a: nat, i: nat, e: nat)
    requires a <= i <= e <= |s|
    ensures |Values(s[a..e])| == e - a && Values(s[a..i]) == Values(s[a..e])[..i - a]
  {
    hide MapBase58;
  }

  lemma PartBase58(s: string, f: nat, g: nat, i: nat)
    requires f <= g <= i <= |s| && AllBase58(s[f..i])
    ensures AllBase58(s[g..i])
  {
    hide MapBase58;
    var t := s[g..i];
    forall j | 0 <= j < |t|
      ensures MapBase58(t[j]) != -1
    {
      assert t[j] == s[f..i][j + (g - f)];
    }
  }

  lemma EmptyDigits(base: nat)
    requires base >= 2
    ensures From(Values([]), 58) == 0 && To(0, base) == []
  {
  }

  lemma {:induction false} ManyZeros(s: seq<int>, z: nat)
    requires z <= |s| && forall j :: 0 <= j < z ==> s[j] == 0
    ensures LeadingZeros(s) >= z
  {
    if z > 0 {
      ManyZeros(s[1..], z - 1);
    }
  }

  lemma RebaseLength(s: seq<int>, from: nat, to: nat)
    requires to >= 2
    ensures |Rebase(s, from, to)| >= LeadingZeros(s)
  {
    hide From, To, LeadingZeros;
  }

  /** The length limit; it is not tested when there is nothing to return. */
  ghost predicate Fits(v: seq<int>, maxLen: int) {
    v == [] || |v| <= maxLen
  }

  lemma NulInvalid(s: string, k: nat)
    requires k < |s| && s[k] as int == 0
    ensures Decoded(s).None?
  {
    var f := FirstNonSpace(s, k);
    FirstIs(s, 0, f);
    BadChar(s, f, k, k);
  }

  lemma FirstNonSpace(s: string, k: nat) returns (f: nat)
    requires k < |s| && !IsSpace(s[k])
    ensures f <= k && (forall i :: 0 <= i < f ==> IsSpace(s[i])) && !IsSpace(s[f])
  {
    hide IsSpace;
    f := 0;
    while f < k && IsSpace(s[f])
      invariant f <= k && forall i :: 0 <= i < f ==> IsSpace(s[i])
    {
      f := f + 1;
    }
  }

  /** Decodes a string: it succeeds exactly for valid strings whose bytes are within the limit. */
  method DecodeBase58(s: string, maxLen: int) returns (ok: bool, vch: seq<int>)
    ensures ok <==> Decoded(s).Some? && Fits(Decoded(s).value, maxLen)
    ensures ok ==> vch == Decoded(s).value
  {
    hide *;
    for k := 0 to |s| {
      if s[k] as int == 0 {
        NulInvalid(s, k);
        return false, [];
      }
    }
    var psz := SkipSpaces(s, 0);
    FirstIs(s, 0, psz);
    ghost var f := psz;
    var zeroes := 0;
    while psz < |s| && s[psz] == '1'
      invariant f <= psz <= |s| && zeroes == psz - f && forall j :: f <= j < psz ==> s[j] == '1'
      invariant zeroes > 0 ==> zeroes <= maxLen
    {
      zeroes := zeroes + 1;
      psz := psz + 1;
      if zeroes > maxLen {
        TooManyOnes(s, f, zeroes, maxLen);
        return false, [];
      }
    }
    ok, vch := DecodeDigits(s, f, psz, zeroes, maxLen);
  }

  method SkipSpaces(s: string, from: nat) returns (psz: nat)
    requires from <= |s|
    ensures from <= psz <= |s| && (forall i :: from <= i < psz ==> IsSpace(s[i])) && (psz < |s| ==> !IsSpace(s[psz]))
  {
    hide IsSpace;
    psz := from;
    while psz < |s| && IsSpace(s[psz])
      invariant from <= psz <= |s| && forall i :: from <= i < psz ==> IsSpace(s[i])
    {
      psz := psz + 1;
    }
  }

  lemma OneIsBase58()
    ensures MapBase58('1') == 0 && !IsSpace('1')
  {
  }

  lemma TooManyOnes(s: string, f: nat, z: nat, maxLen: int)
    requires 0 < z && f + z <= |s| && FirstFrom(s, 0) == f && z > maxLen && forall j :: f <= j < f + z ==> s[j] == '1'
    ensures !(Decoded(s).Some? && Fits(Decoded(s).value, maxLen))
  {
    OneIsBase58();
    hide Decoded, FirstFrom, To, From, IsSpace, MapBase58;
    AtLeast(s, f, z, f + z);
  }

  /** The digits read so far, and the buffer that holds them. */
  ghost predicate Reading(s: string, f: nat, z: nat, i: nat, b: seq<int>, length: nat) {
    && f + z <= i <= |s| && AllBase58(s[f..i])
    && Holds(b, length, 256, From(Values(s[f + z..i]), 58)) && (f + z < i ==> length > 0)
  }

  lemma ReadingStart(s: string, f: nat, z: nat, b: seq<int>)
    requires f + z <= |s| && (forall j :: f <= j < f + z ==> s[j] == '1') && forall j :: 0 <= j < |b| ==> b[j] == 0
    ensures Reading(s, f, z, f + z, b, 0)
  {
    hide Holds;
    OneIsBase58();
    hide MapBase58;
    HoldsZero(b, 256);
    assert s[f + z..f + z] == [];
    EmptyDigits(256);
    var ones := s[f..f + z];
    forall j | 0 <= j < z
      ensures MapBase58(ones[j]) != -1
    {
      assert ones[j] == s[f + j];
    }
  }

  /** The next character multiplies by 58 and adds its digit, and the buffer has room for that. */
  lemma ReadingNext(s: string, f: nat, z: nat, i: nat, b: seq<int>, length: nat, size: nat)
    requires Reading(s, f, z, i, b, length) && i < |s| && MapBase58(s[i]) != -1 && size == (|s| - (f + z)) * 733 / 1000 + 1
    ensures var n := From(Values(s[f + z..i]), 58);
            && From(Values(s[f + z..i + 1]), 58) == 58 * n + MapBase58(s[i])
            && 0 <= MapBase58(s[i]) && n >= 0 && 58 * n + MapBase58(s[i]) < Pow(256, size)
    ensures AllBase58(s[f..i + 1]) && AllBase58(s[f + z..i + 1])
  {
    hide From, Pow, Holds, MapBase58;
    MapRoundTrip(s[i]);
    var t := s[f..i + 1];
    forall j | 0 <= j < |t|
      ensures MapBase58(t[j]) != -1
    {
      assert j < i - f ==> t[j] == s[f..i][j];
    }
    PartBase58(s, f, f + z, i + 1);
    var vs := Values(s[f + z..i + 1]);
    var k := i - f - z;
    assert vs[..k] == Values(s[f + z..i]) && vs[k] == MapBase58(s[i]) && vs[..k + 1] == vs;
    FromStep(vs, k, 58);
    CharsValues(s[f + z..i + 1]);
    FromBound(vs, 58);
    FromBound(vs[..k], 58);
    var len := |s| - (f + z);
    PowMonotone(58, k + 1, len);
    DecodeSize(len);
  }

  lemma PositiveLength(b: seq<int>, length: nat, n: int)
    requires Holds(b, length, 256, n) && n > 0
    ensures length > 0
  {
    hide Digits;
    var t := b[|b| - length..];
    assert t == [] ==> From(t, 256) == 0;
  }

  lemma FirstDigit(s: string, f: nat, z: nat, i: nat)
    requires f + z <= i < |s| && AllBase58(s[f + z..i + 1]) && s[f + z] != '1'
    ensures From(Values(s[f + z..i + 1]), 58) > 0
  {
    hide From;
    var t := s[f + z..i + 1];
    CharsValues(t);
    OnlyOne();
    ToFrom(Values(t), 58);
  }

  /** Reads one more character into the buffer. */
  method ReadChar(s: string, ghost f: nat, ghost start: nat, zeroes: nat, psz: nat, b256: array<int>, length: nat, maxLen: int)
    returns (ok: bool, length': nat)
    requires f + zeroes == start <= psz < |s| && FirstFrom(s, 0) == f && (forall j :: f <= j < start ==> s[j] == '1')
    requires s[start] != '1' && !IsSpace(s[psz]) && Reading(s, f, zeroes, psz, b256[..], length)
    requires b256.Length == (|s| - start) * 733 / 1000 + 1
    modifies b256
    ensures !ok ==> !(Decoded(s).Some? && Fits(Decoded(s).value, maxLen))
    ensures ok ==> Reading(s, f, zeroes, psz + 1, b256[..], length') && length' <= b256.Length && length' + zeroes <= maxLen
  {
    hide *;
    length' := length;
    var carry := MapBase58(s[psz]);
    if carry == -1 {
      BadChar(s, f, psz, psz);
      return false, length;
    }
    ghost var n := From(Values(s[start..psz]), 58);
    ReadingNext(s, f, zeroes, psz, b256[..], length, b256.Length);
    ReadingParts(s, f, zeroes, psz, b256[..], length);
    length' := MultiplyAdd(b256, length, 58, carry, 256, n);
    FirstDigit(s, f, zeroes, psz);
    PositiveLength(b256[..], length', 58 * n + carry);
    ReadingIs(s, f, zeroes, psz + 1, b256[..], length');
    ok := length' + zeroes <= maxLen;
    if !ok {
      TooLong(s, f, zeroes, psz + 1, b256[..], length', maxLen);
    }
  }

  /** The characters after the leading ones. */
  method DecodeDigits(s: string, ghost f: nat, start: nat, zeroes: nat, maxLen: int) returns (ok: bool, vch: seq<int>)
    requires f + zeroes == start <= |s| && FirstFrom(s, 0) == f && (forall j :: f <= j < start ==> s[j] == '1')
    requires start < |s| ==> s[start] != '1'
    requires (zeroes > 0 ==> zeroes <= maxLen) && (f < |s| ==> !IsSpace(s[f]))
    ensures ok <==> Decoded(s).Some? && Fits(Decoded(s).value, maxLen)
    ensures ok ==> vch == Decoded(s).value
  {
    hide *;
    var size := (|s| - start) * 733 / 1000 + 1;
    var b256 := new int[size](_ => 0);
    var length: nat := 0;
    var psz := start;
    ReadingStart(s, f, zeroes, b256[..]);
    while psz < |s| && !IsSpace(s[psz])
      invariant start <= psz <= |s| && Reading(s, f, zeroes, psz, b256[..], length) && length <= size
      invariant psz > start ==> length + zeroes <= maxLen && !IsSpace(s[psz - 1])
    {
      ok, length := ReadChar(s, f, start, zeroes, psz, b256, length, maxLen);
      if !ok {
        return false, [];
      }
      psz := psz + 1;
    }
    ghost var e := psz;
    psz := SkipSpaces(s, psz);
    if psz != |s| {
      SpaceInside(s, f, e, psz);
      return false, [];
    }
    DecodedWhole(s, f, zeroes, e, b256[..], length);
    assert b256[..][size - length..] == b256[size - length..];
    vch := seq(zeroes, _ => 0) + b256[size - length..];
    ResultFits(zeroes, length, maxLen, vch);
    ok := true;
  }

  lemma ResultFits(zeroes: nat, length: nat, maxLen: int, vch: seq<int>)
    requires |vch| == zeroes + length && (length > 0 ==> length + zeroes <= maxLen) && (zeroes > 0 ==> zeroes <= maxLen)
    ensures Fits(vch, maxLen)
  {
  }

  lemma ReadingParts(s: string, f: nat, z: nat, i: nat, b: seq<int>, length: nat)
    requires Reading(s, f, z, i, b, length)
    ensures f + z <= i <= |s| && Holds(b, length, 256, From(Values(s[f + z..i]), 58)) && AllBase58(s[f..i])
  {
    hide Holds, From;
  }

  lemma ReadingIs(s: string, f: nat, z: nat, i: nat, b: seq<int>, length: nat)
    requires f + z < i <= |s| && AllBase58(s[f..i]) && Holds(b, length, 256, From(Values(s[f + z..i]), 58)) && length > 0
    ensures Reading(s, f, z, i, b, length)
  {
    hide Holds, From;
  }

  lemma TooLong(s: string, f: nat, z: nat, i: nat, b: seq<int>, length: nat, maxLen: int)
    requires Reading(s, f, z, i, b, length) && f + z < i && FirstFrom(s, 0) == f && !IsSpace(s[i - 1])
    requires (forall j :: f <= j < f + z ==> s[j] == '1') && s[f + z] != '1' && length + z > maxLen && length > 0
    ensures !(Decoded(s).Some? && Fits(Decoded(s).value, maxLen))
  {
    hide Decoded, FirstFrom, To, From, IsSpace, Holds;
    AtLeast(s, f, z, i);
    var n := From(Values(s[f + z..i]), 58);
    HeldDigits(b, length, 256, n);
    HeldParts(b, length, 256, n);
  }

  lemma SpaceInside(s: string, f: nat, e: nat, k: nat)
    requires f <= e <= k < |s| && FirstFrom(s, 0) == f && !IsSpace(s[k]) && (e < |s| ==> IsSpace(s[e]))
    ensures Decoded(s).None?
  {
    hide Decoded, FirstFrom;
    SpaceInvalid(s[e]);
    BadChar(s, f, e, k);
  }

  lemma SpaceInvalid(c: char)
    requires IsSpace(c)
    ensures MapBase58(c) == -1
  {
  }

  lemma DecodedWhole(s: string, f: nat, z: nat, e: nat, b: seq<int>, length: nat)
    requires Reading(s, f, z, e, b, length) && FirstFrom(s, 0) == f && length <= |b|
    requires (forall j :: f <= j < f + z ==> s[j] == '1') && (f + z < |s| ==> s[f + z] != '1')
    requires (forall j :: e <= j < |s| ==> IsSpace(s[j])) && (f + z < e ==> !IsSpace(s[e - 1]))
    ensures Decoded(s) == Some(seq(z, _ => 0) + b[|b| - length..])
    ensures length > 0 ==> f + z < e
  {
    hide Decoded, FirstFrom, To, From, IsSpace, Holds, MapBase58, Shape;
    ShapeOf(s, f, z, e);
    ShapeDecodes(s, f, z, e);
    HeldDigits(b, length, 256, From(Values(s[f + z..e]), 58));
    if f + z == e {
      assert s[f + z..e] == [];
      EmptyDigits(256);
    }
  }

  lemma ShapeOf(s: string, f: nat, z: nat, e: nat)
    requires f + z <= e <= |s| && AllBase58(s[f..e]) && FirstFrom(s, 0) == f
    requires (forall j :: f <= j < f + z ==> s[j] == '1') && (f + z < |s| ==> s[f + z] != '1')
    requires (forall j :: e <= j < |s| ==> IsSpace(s[j])) && (f + z < e ==> !IsSpace(s[e - 1]))
    ensures Shape(s, f, z, e)
  {
    OneIsBase58();
    hide IsSpace, MapBase58, AllBase58, FirstFrom, LastTo;
    LastIs(s, f, |s|, e);
  }
}
