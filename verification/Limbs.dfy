/** Multi-word unsigned integers: values of sequences of 32-bit digits, least significant first. */
module Limbs {
  import opened Integers

  const BASE: nat := 0x1_0000_0000

  lemma Pow2Base()
    ensures Pow2(8) == 0x100 && Pow2(16) == 0x1_0000 && Pow2(24) == 0x100_0000 && Pow2(32) == BASE
  {
    assert Pow2(4) == 16;
    Pow2Add(4, 4);
    Pow2Add(8, 8);
    Pow2Add(16, 8);
    Pow2Add(16, 16);
  }

  /** Splitting a 32-bit digit at bit k. */
  lemma Pow2Split(k: nat)
    requires k <= 32
    ensures Pow2(k) * Pow2(32 - k) == BASE
  {
    Pow2Add(k, 32 - k);
    Pow2Base();
  }

  type Limb = x: int | 0 <= x < BASE

  /** The weight of digit i. */
  ghost function Weight(i: nat): nat {
    Pow2(32 * i)
  }

  lemma WeightStep(i: nat)
    ensures Weight(i) > 0 && Weight(i + 1) == BASE * Weight(i)
  {
    Pow2Add(32, 32 * i);
    Pow2Base();
    assert 32 * (i + 1) == 32 + 32 * i;
  }

  lemma WeightAdd(i: nat, j: nat)
    ensures Weight(i + j) == Weight(i) * Weight(j)
  {
    Pow2Add(32 * i, 32 * j);
    assert 32 * (i + j) == 32 * i + 32 * j;
  }

  ghost function Value(s: seq<Limb>): int {
    if s == [] then 0 else Value(s[..|s| - 1]) + s[|s| - 1] * Weight(|s| - 1)
  }

  lemma ValueLast(s: seq<Limb>)
    requires s != []
    ensures Value(s) == Value(s[..|s| - 1]) + s[|s| - 1] * Weight(|s| - 1)
  {
  }

  lemma {:induction false} ValueBound(s: seq<Limb>)
    ensures 0 <= Value(s) < Weight(|s|)
  {
    hide Weight;
    if s == [] {
      assert Weight(0) == 1 by {
        WeightZero();
      }
    } else {
      var n := |s| - 1;
      ValueBound(s[..n]);
      WeightStep(n);
      BoundStep(Value(s[..n]), s[n], Weight(n));
    }
  }

  lemma WeightZero()
    ensures Weight(0) == 1
  {
  }

  lemma BoundStep(v: int, x: int, w: int)
    requires 0 <= v < w && 0 <= x < BASE
    ensures 0 <= v + x * w < BASE * w
  {
    var r := BASE - 1 - x;
    assert r * w >= 0;
    assert (BASE - 1) * w == r * w + x * w;
  }

  lemma {:induction false} ValueUpdate(s: seq<Limb>, i: nat, x: Limb)
    requires i < |s|
    ensures Value(s[i := x]) == Value(s) + (x - s[i]) * Weight(i)
  {
    hide Weight;
    var n := |s| - 1;
    if i == n {
      assert s[i := x][..n] == s[..n];
      Distribute(x, s[i], Weight(n));
    } else {
      assert s[i := x][..n] == s[..n][i := x];
      ValueUpdate(s[..n], i, x);
    }
  }

  lemma Distribute(x: int, y: int, w: int)
    ensures (x - y) * w == x * w - y * w
  {
  }

  lemma {:induction false} ValueZero(s: seq<Limb>)
    requires forall i :: 0 <= i < |s| ==> s[i] == 0
    ensures Value(s) == 0
  {
    hide Weight;
    if s != [] {
      ValueZero(s[..|s| - 1]);
    }
  }

  /** The digits of s from i on, as part of its value. */
  lemma {:induction false} ValueSplit(s: seq<Limb>, i: nat)
    requires i <= |s|
    ensures Value(s) == Value(s[..i]) + Value(s[i..]) * Weight(i)
  {
    hide Weight;
    if i == |s| {
      assert s[..i] == s;
    } else {
      var n := |s| - 1;
      ValueSplit(s[..n], i);
      assert s[..n][..i] == s[..i] && s[..n][i..] == s[i..n];
      assert s[i..][..n - i] == s[i..n];
      ValueLast(s[i..]);
      WeightAdd(n - i, i);
      SplitStep(Value(s[i..n]), s[n], Weight(n - i), Weight(i));
    }
  }

  lemma SplitStep(v: int, x: int, w: int, u: int)
    ensures (v + x * w) * u == v * u + x * (w * u)
  {
  }

  // ---------- bits of a digit ----------

  /** The bitwise or of two non-negative numbers. */
  function BitOr(a: nat, b: nat): nat {
    if a == 0 && b == 0 then 0
    else 2 * BitOr(a / 2, b / 2) + if a % 2 == 1 || b % 2 == 1 then 1 else 0
  }

  /** Where a has only zeros in the bits that b can have, the or is a sum. */
  lemma {:induction false} BitOrAdd(a: nat, b: nat, k: nat)
    requires a % Pow2(k) == 0 && b < Pow2(k)
    ensures BitOr(a, b) == a + b
  {
    if k == 0 {
      BitOrZero(a);
    } else {
      HalfMultiple(a, k);
      BitOrAdd(a / 2, b / 2, k - 1);
      if a == 0 && b == 0 {
      } else {
        assert a % 2 == 0;
      }
    }
  }

  lemma {:induction false} BitOrCommutes(a: nat, b: nat)
    ensures BitOr(a, b) == BitOr(b, a)
    decreases a + b
  {
    if a > 0 || b > 0 {
      BitOrCommutes(a / 2, b / 2);
    }
  }

  lemma {:induction false} BitOrZero(a: nat)
    ensures BitOr(a, 0) == a
  {
    if a > 0 {
      BitOrZero(a / 2);
    }
  }

  lemma HalfMultiple(a: nat, k: nat)
    requires k > 0 && a % Pow2(k) == 0
    ensures a % 2 == 0 && (a / 2) % Pow2(k - 1) == 0
  {
    var d := Pow2(k - 1);
    var q := a / Pow2(k);
    assert a == Pow2(k) * q;
    TimesTwo(d, q);
    assert a == 2 * (d * q);
    assert a / 2 == d * q;
    DivModUnique(a / 2, d, q, 0);
  }

  /** Shifting a digit left by k bits in 32 bits, and what is shifted out. */
  lemma ShiftParts(x: Limb, k: nat)
    requires k <= 32
    ensures x * Pow2(k) == (x / Pow2(32 - k)) * BASE + (x * Pow2(k)) % BASE
    ensures (x * Pow2(k)) % BASE % Pow2(k) == 0 && 0 <= x / Pow2(32 - k) < Pow2(k)
    ensures (x * Pow2(k)) % BASE == (x % Pow2(32 - k)) * Pow2(k)
  {
    hide Pow2;
    Pow2Split(k);
    ShiftBy(x, Pow2(k), Pow2(32 - k));
  }

  lemma ShiftBy(x: Limb, p: int, d: int)
    requires p > 0 && d > 0 && p * d == BASE
    ensures x * p == (x / d) * BASE + (x * p) % BASE
    ensures (x * p) % BASE % p == 0 && 0 <= x / d < p && (x * p) % BASE == (x % d) * p
  {
    var q, r := x / d, x % d;
    assert x == d * q + r;
    ShiftProduct(q, r, d, p);
    RemainderBound(r, d, p);
    DivModUnique(x * p, BASE, q, r * p);
    DivModUnique(r * p, p, r, 0);
    QuotientBound(x, d, p);
  }

  lemma RemainderBound(r: int, d: int, p: int)
    requires 0 <= r < d && p > 0 && p * d == BASE
    ensures 0 <= r * p < BASE
  {
    MulMono(r, d - 1, p);
    assert (d - 1) * p == d * p - p;
  }

  lemma ShiftProduct(q: int, r: int, d: int, p: int)
    requires p * d == BASE
    ensures (d * q + r) * p == q * BASE + r * p
  {
    assert (d * q + r) * p == (d * q) * p + r * p;
    assert (d * q) * p == q * (p * d);
  }

  lemma QuotientBound(x: int, d: int, p: int)
    requires 0 <= x < BASE && d > 0 && p > 0 && p * d == BASE
    ensures 0 <= x / d < p
  {
    var q := x / d;
    assert x == d * q + x % d;
    if q >= p {
      MulMono(p, q, d);
      assert false;
    }
    if q < 0 {
      MulMono(q, -1, d);
      assert false;
    }
  }

  /** Joining a part with only high bits and a part with only low bits keeps within 32 bits. */
  lemma JoinParts(high: Limb, low: Limb, k: nat)
    requires k <= 32 && high % Pow2(k) == 0 && low < Pow2(k)
    ensures BitOr(low, high) == low + high == BitOr(high, low) && low + high < BASE
  {
    hide Pow2, BitOr;
    BitOrAdd(high, low, k);
    BitOrCommutes(low, high);
    Pow2Split(k);
    MultipleBelow(high, Pow2(k), Pow2(32 - k));
  }

  lemma MultipleBelow(x: Limb, p: int, d: int)
    requires p > 0 && d > 0 && p * d == BASE && x % p == 0
    ensures x <= BASE - p
  {
    var q := x / p;
    assert x == p * q;
    if q >= d {
      MulMono(d, q, p);
      assert false;
    }
    MulMono(q, d - 1, p);
    assert (d - 1) * p == d * p - p;
  }
}
