/** Positional notation: digits in any base, most significant first, and how many digits a change of base needs. */
module Radix {
  import opened Integers

  ghost function Pow(b: nat, e: nat): nat {
    if e == 0 then 1 else b * Pow(b, e - 1)
  }

  lemma {:induction false} PowAdd(b: nat, m: nat, n: nat)
    ensures Pow(b, m + n) == Pow(b, m) * Pow(b, n)
  {
    if n > 0 {
      PowAdd(b, m, n - 1);
      assert Pow(b, m + n) == b * Pow(b, m + (n - 1));
      Rotate(b, Pow(b, m), Pow(b, n - 1));
    }
  }

  lemma Rotate(x: int, y: int, z: int)
    ensures x * (y * z) == y * (x * z)
  {
  }

  lemma {:induction false} PowMonotone(b: nat, m: nat, n: nat)
    requires b > 0 && m <= n
    ensures 0 < Pow(b, m) <= Pow(b, n)
  {
    if m < n {
      PowMonotone(b, m, n - 1);
      Grow(b, Pow(b, n - 1));
    } else if m > 0 {
      PowMonotone(b, m - 1, n - 1);
      Grow(b, Pow(b, m - 1));
    }
  }

  lemma Grow(b: int, x: int)
    requires b >= 1 && x > 0
    ensures b * x >= x
  {
  }

  lemma MulLe(a: int, b: int, c: int, d: int)
    requires 0 <= a <= c && 0 <= b <= d
    ensures a * b <= c * d
  {
    assert a * b <= c * b;
    assert c * b <= c * d;
  }

  /** Powers of powers. */
  lemma {:induction false} PowPow(b: nat, m: nat, q: nat)
    ensures Pow(Pow(b, m), q) == Pow(b, m * q)
  {
    if q > 0 {
      PowPow(b, m, q - 1);
      PowAdd(b, m, m * (q - 1));
      assert m * q == m + m * (q - 1);
    }
  }

  lemma {:induction false} PowBase(x: nat, y: nat, q: nat)
    requires x <= y
    ensures Pow(x, q) <= Pow(y, q)
  {
    if q > 0 {
      PowBase(x, y, q - 1);
      MulLe(x, Pow(x, q - 1), y, Pow(y, q - 1));
    }
  }

  // ---------- digits ----------

  ghost predicate Digits(s: seq<int>, base: nat) {
    forall i :: 0 <= i < |s| ==> 0 <= s[i] < base
  }

  ghost function From(s: seq<int>, base: nat): int {
    if s == [] then 0 else From(s[..|s| - 1], base) * base + s[|s| - 1]
  }

  ghost function To(n: nat, base: nat): seq<int>
    requires base >= 2
  {
    if n == 0 then [] else
      Shrinks(n, base);
      To(n / base, base) + [n % base]
  }

  lemma Shrinks(n: nat, base: nat)
    requires base >= 2 && n > 0
    ensures 0 <= n / base < n && 0 <= n % base < base && n == n / base * base + n % base
  {
    var q := n / base;
    assert n == base * q + n % base;
    QuotientNat(n, base);
    if q == n {
      MulMono(2, base, q);
      assert false;
    }
  }

  /** No leading zero. */
  ghost predicate Canonical(s: seq<int>) {
    s != [] ==> s[0] != 0
  }

  lemma {:induction false} ToFacts(n: nat, base: nat)
    requires base >= 2
    ensures Digits(To(n, base), base) && Canonical(To(n, base)) && From(To(n, base), base) == n
    ensures n > 0 ==> To(n, base) != []
  {
    hide From, Digits, Canonical;
    if n == 0 {
      NoDigits(base);
    } else {
      Shrinks(n, base);
      var q, d := n / base, n % base;
      ToFacts(q, base);
      AppendDigit(To(q, base), d, base);
    }
  }

  lemma NoDigits(base: nat)
    ensures Digits([], base) && Canonical([]) && From([], base) == 0
  {
  }

  lemma AppendDigit(t: seq<int>, d: int, base: nat)
    requires base >= 2 && Digits(t, base) && Canonical(t) && 0 <= d < base && (t == [] ==> d != 0)
    ensures Digits(t + [d], base) && Canonical(t + [d]) && From(t + [d], base) == From(t, base) * base + d
  {
    assert (t + [d])[..|t|] == t;
  }

  /** Canonical digits are those of the number they denote. */
  lemma {:induction false} ToFrom(s: seq<int>, base: nat)
    requires base >= 2 && Digits(s, base) && Canonical(s)
    ensures From(s, base) >= 0 && To(From(s, base), base) == s && (s != [] ==> From(s, base) > 0)
  {
    if s != [] {
      var t, d := s[..|s| - 1], s[|s| - 1];
      ToFrom(t, base);
      var v := From(t, base);
      LastDigit(v, d, base);
      if t != [] {
        Grow(base, v);
      }
      assert From(s, base) == v * base + d;
      assert To(v * base + d, base) == To(v, base) + [d];
    }
  }

  lemma LastDigit(v: nat, d: int, base: nat)
    requires 0 <= d < base
    ensures v * base + d >= 0 && (v * base + d) / base == v && (v * base + d) % base == d
  {
    DivModUnique(v * base + d, base, v, d);
    MulMono(0, v, base);
  }

  lemma {:induction false} FromBound(s: seq<int>, base: nat)
    requires Digits(s, base)
    ensures 0 <= From(s, base) < Pow(base, |s|)
  {
    if s != [] {
      var n := |s| - 1;
      FromBound(s[..n], base);
      BoundStep(From(s[..n], base), s[n], base, Pow(base, n));
    }
  }

  lemma BoundStep(v: int, d: int, base: int, p: int)
    requires 0 <= v < p && 0 <= d < base
    ensures 0 <= v * base + d < base * p
  {
    MulMono(v + 1, p, base);
    MulMono(0, v, base);
    assert (v + 1) * base == v * base + base;
  }

  lemma {:induction false} FromCons(d: int, t: seq<int>, base: nat)
    ensures From([d] + t, base) == d * Pow(base, |t|) + From(t, base)
  {
    if t == [] {
      assert [d] + t == [d];
      assert [d][..0] == [];
    } else {
      var n := |t| - 1;
      assert ([d] + t)[..n + 1] == [d] + t[..n];
      FromCons(d, t[..n], base);
      ConsStep(d, Pow(base, n), From(t[..n], base), t[n], base);
    }
  }

  lemma ConsStep(d: int, p: int, v: int, x: int, base: int)
    ensures (d * p + v) * base + x == d * (base * p) + (v * base + x)
  {
    assert (d * p) * base == d * (base * p);
    assert (d * p + v) * base == (d * p) * base + v * base;
  }

  lemma {:induction false} FromZeros(s: seq<int>, k: nat, base: nat)
    requires k <= |s| && forall i :: 0 <= i < k ==> s[i] == 0
    ensures From(s, base) == From(s[k..], base)
  {
    if k > 0 {
      assert s == [s[0]] + s[1..];
      FromCons(0, s[1..], base);
      FromZeros(s[1..], k - 1, base);
      assert s[1..][k - 1..] == s[k..];
    } else {
      assert s[0..] == s;
    }
  }

  // ---------- the size estimates ----------

  lemma Powers58()
    ensures Pow(58, 1) == 58 && Pow(58, 2) == 3364 && Pow(58, 4) == 11316496 && Pow(58, 8) == 128063081718016
  {
    assert Pow(58, 0) == 1;
    assert Pow(58, 1) == 58;
    PowAdd(58, 1, 1);
    PowAdd(58, 2, 2);
    PowAdd(58, 4, 4);
  }

  lemma Powers256()
    ensures Pow(256, 1) == 256 && Pow(256, 2) == 0x1_0000 && Pow(256, 4) == 0x1_0000_0000 && Pow(256, 8) == 0x1_0000_0000_0000_0000
  {
    assert Pow(256, 0) == 1;
    assert Pow(256, 1) == 256;
    PowAdd(256, 1, 1);
    PowAdd(256, 2, 2);
    PowAdd(256, 4, 4);
  }

  /** Eight bytes fit into eleven base-58 digits. */
  lemma EightBytes()
    ensures Pow(256, 8) <= Pow(58, 11)
  {
    hide Pow;
    Powers58();
    Powers256();
    PowAdd(58, 8, 2);
    PowAdd(58, 10, 1);
  }

  /** Up to seven bytes, one by one. */
  lemma FewBytes(r: nat)
    requires r < 8
    ensures Pow(256, r) <= Pow(58, r * 138 / 100 + 1)
  {
    Powers58();
    Powers256();
    PowAdd(58, 2, 1);
    PowAdd(58, 4, 1);
    PowAdd(58, 4, 2);
    PowAdd(58, 4, 3);
    PowAdd(58, 8, 1);
    PowAdd(58, 8, 2);
    PowAdd(256, 2, 1);
    PowAdd(256, 4, 1);
    PowAdd(256, 4, 2);
    PowAdd(256, 4, 3);
    hide Pow;
    if r == 0 {
      PowMonotone(58, 0, 1);
    }
    assert r == 0 || r == 1 || r == 2 || r == 3 || r == 4 || r == 5 || r == 6 || r == 7;
  }

  /** The buffer that EncodeBase58 allocates is large enough for every length. */
  lemma EncodeSize(n: nat)
    ensures Pow(256, n) <= Pow(58, n * 138 / 100 + 1)
  {
    hide Pow;
    var q, r := n / 8, n % 8;
    assert n == 8 * q + r;
    PowAdd(256, 8 * q, r);
    PowPow(256, 8, q);
    PowPow(58, 11, q);
    EightBytes();
    PowBase(Pow(256, 8), Pow(58, 11), q);
    FewBytes(r);
    var t := r * 138 / 100 + 1;
    PowMonotone(256, 0, r);
    PowMonotone(256, 0, 8 * q);
    MulLe(Pow(256, 8 * q), Pow(256, r), Pow(58, 11 * q), Pow(58, t));
    PowAdd(58, 11 * q, t);
    EncodeRatio(q, r);
    PowMonotone(58, 11 * q + t, n * 138 / 100 + 1);
  }

  lemma EncodeRatio(q: nat, r: nat)
    ensures 11 * q + (r * 138 / 100 + 1) <= (8 * q + r) * 138 / 100 + 1
  {
    assert (8 * q + r) * 138 == 1104 * q + r * 138;
  }

  /** Fifteen base-58 digits fit into eleven bytes, with little to spare. */
  lemma FifteenDigits()
    ensures Pow(58, 15) <= Pow(256, 11)
  {
    hide Pow;
    Powers58();
    Powers256();
    PowAdd(58, 8, 4);
    PowAdd(58, 12, 2);
    PowAdd(58, 14, 1);
    PowAdd(256, 8, 2);
    PowAdd(256, 10, 1);
  }

  /** Seventy-one base-58 digits fit into fifty-two bytes, with very little to spare. */
  lemma SeventyOneDigits()
    ensures Pow(58, 71) <= Pow(256, 52)
  {
    hide Pow;
    Powers58();
    Powers256();
    PowAdd(58, 8, 8);
    PowAdd(58, 16, 16);
    PowAdd(58, 32, 32);
    PowAdd(58, 64, 4);
    PowAdd(58, 68, 2);
    PowAdd(58, 70, 1);
    PowAdd(256, 8, 8);
    PowAdd(256, 16, 16);
    PowAdd(256, 32, 16);
    PowAdd(256, 48, 4);
    assert Pow(58, 16) == 16400152899115243850138976256;
    assert Pow(58, 32) == 268965015114358137726910587140455987105619365599731777536;
    assert Pow(256, 16) == 0x1_0000_0000_0000_0000 * 0x1_0000_0000_0000_0000;
  }

  /** Fewer than fifteen digits, one by one. */
  lemma FewDigits(r: nat)
    requires 0 < r < 15
    ensures Pow(58, r) <= Pow(256, FewSize(r))
  {
    hide Pow;
    Powers58();
    Powers256();
    PowAdd(58, 2, 1);
    PowAdd(58, 4, 1);
    PowAdd(58, 4, 2);
    PowAdd(58, 4, 3);
    PowAdd(256, 2, 1);
    PowAdd(256, 4, 1);
    PowAdd(256, 4, 2);
    if r < 8 {
      assert r == 1 || r == 2 || r == 3 || r == 4 || r == 5 || r == 6 || r == 7;
    } else {
      PowAdd(58, 8, r - 8);
      PowAdd(256, 4, 3);
      PowAdd(256, 8, 1);
      PowAdd(256, 8, 2);
      PowAdd(256, 8, 3);
      PowZero(58);
      assert r == 8 || r == 9 || r == 10 || r == 11 || r == 12 || r == 13 || r == 14;
    }
  }

  lemma PowZero(b: nat)
    ensures Pow(b, 0) == 1
  {
  }

  /** The number of bytes for r base-58 digits, for small r. */
  function FewSize(r: nat): nat {
    r * 733 / 1000 + 1
  }

  /** Up to seventy digits, in blocks of fifteen. */
  lemma SomeDigits(r: nat)
    requires r < 71
    ensures Pow(58, r) <= Pow(256, r * 733 / 1000 + 1)
  {
    hide Pow;
    var a, c := r / 15, r % 15;
    assert r == 15 * a + c;
    PowAdd(58, 15 * a, c);
    PowPow(58, 15, a);
    PowPow(256, 11, a);
    FifteenDigits();
    PowBase(Pow(58, 15), Pow(256, 11), a);
    var t := if c == 0 then 0 else FewSize(c);
    if c == 0 {
      PowZero(58);
    } else {
      FewDigits(c);
    }
    PowMonotone(58, 0, c);
    PowMonotone(58, 0, 15 * a);
    PowMonotone(256, 0, t);
    assert Pow(58, c) <= Pow(256, t);
    MulLe(Pow(58, 15 * a), Pow(58, c), Pow(256, 11 * a), Pow(256, t));
    PowAdd(256, 11 * a, t);
    SomeRatio(a, c);
    PowMonotone(256, 11 * a + t, r * 733 / 1000 + 1);
  }

  lemma SomeRatio(a: nat, c: nat)
    requires a <= 4 && c < 15
    ensures 11 * a + (if c == 0 then 0 else FewSize(c)) <= (15 * a + c) * 733 / 1000 + 1
  {
    assert a == 0 || a == 1 || a == 2 || a == 3 || a == 4;
  }

  /** The buffer that DecodeBase58 allocates is large enough for every length. */
  lemma DecodeSize(n: nat)
    ensures Pow(58, n) <= Pow(256, n * 733 / 1000 + 1)
  {
    hide Pow;
    var q, r := n / 71, n % 71;
    assert n == 71 * q + r;
    PowAdd(58, 71 * q, r);
    PowPow(58, 71, q);
    PowPow(256, 52, q);
    SeventyOneDigits();
    PowBase(Pow(58, 71), Pow(256, 52), q);
    SomeDigits(r);
    var t := r * 733 / 1000 + 1;
    PowMonotone(58, 0, r);
    PowMonotone(58, 0, 71 * q);
    MulLe(Pow(58, 71 * q), Pow(58, r), Pow(256, 52 * q), Pow(256, t));
    PowAdd(256, 52 * q, t);
    DecodeRatio(q, r);
    PowMonotone(256, 52 * q + t, n * 733 / 1000 + 1);
  }

  lemma DecodeRatio(q: nat, r: nat)
    ensures 52 * q + (r * 733 / 1000 + 1) <= (71 * q + r) * 733 / 1000 + 1
  {
    assert (71 * q + r) * 733 == 52043 * q + r * 733;
  }
}
