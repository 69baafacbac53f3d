/** Fixed-width unsigned arithmetic in place (src/arith_uint256.h:25-190, src/arith_uint256.cpp:13-193). */
module ArithUints {
  import opened Integers
  import opened Limbs

  /** Appending one digit to a partial value. */
  lemma ValueStep(s: seq<Limb>, i: nat)
    requires i < |s|
    ensures Value(s[..i + 1]) == Value(s[..i]) + s[i] * Weight(i)
  {
    hide Value;
    assert s[..i + 1][..i] == s[..i];
    ValueLast(s[..i + 1]);
  }

  // ---------- addition ----------

  lemma AddStep(a: int, b: int, carry: int, x: int, carry': int, v: int, w: int, w': int, va: int, vb: int)
    requires v + carry * w == va + vb && carry + a + b == carry' * BASE + x && w' == BASE * w
    ensures (v + x * w) + carry' * w' == (va + a * w) + (vb + b * w)
  {
    assert carry' * (BASE * w) == (carry' * BASE) * w;
    assert (carry + a + b) * w == carry * w + a * w + b * w;
    assert (carry' * BASE + x) * w == (carry' * BASE) * w + x * w;
  }

  /** Adds b to pn, modulo the width. */
  method Add(pn: array<Limb>, b: array<Limb>)
    requires pn.Length == b.Length
    modifies pn
    ensures Value(pn[..]) == (old(Value(pn[..])) + old(Value(b[..]))) % Weight(pn.Length)
  {
    hide Value, Weight;
    ghost var s, t := pn[..], b[..];
    var n := pn.Length;
    var carry := 0;
    EmptyValue();
    for i := 0 to n
      invariant 0 <= carry <= 1
      invariant Value(pn[..i]) + carry * Weight(i) == Value(s[..i]) + Value(t[..i])
      invariant forall j :: i <= j < n ==> pn[j] == s[j] && b[j] == t[j]
    {
      ghost var before := pn[..i];
      var sum := carry + pn[i] + b[i];
      pn[i] := sum % BASE;
      assert pn[..i] == before;
      ValueStep(pn[..], i);
      ValueStep(s, i);
      ValueStep(t, i);
      assert pn[..][..i + 1] == pn[..i + 1] && pn[..][..i] == pn[..i];
      WeightStep(i);
      AddStep(s[i], t[i], carry, pn[i], sum / BASE, Value(before), Weight(i), Weight(i + 1), Value(s[..i]), Value(t[..i]));
      carry := sum / BASE;
    }
    assert pn[..n] == pn[..] && s[..n] == s && t[..n] == t;
    ValueBound(pn[..]);
    DivModUnique(Value(s) + Value(t), Weight(n), carry, Value(pn[..]));
  }

  lemma EmptyValue()
    ensures Value([]) == 0
  {
  }

  /** Adds one, modulo the width. */
  method Increment(pn: array<Limb>)
    modifies pn
    ensures Value(pn[..]) == (old(Value(pn[..])) + 1) % Weight(pn.Length)
  {
    hide Value, Weight;
    ghost var s := pn[..];
    var n := pn.Length;
    var i := 0;
    WeightZero();
    while i < n
      invariant 0 <= i <= n
      invariant Value(pn[..]) == Value(s) + 1 - Weight(i)
      invariant forall j :: i <= j < n ==> pn[j] == s[j]
    {
      ghost var before := pn[..];
      pn[i] := (pn[i] + 1) % BASE;
      assert pn[..] == before[i := pn[i]];
      ValueUpdate(before, i, pn[i]);
      WeightStep(i);
      if pn[i] != 0 {
        ValueBound(pn[..]);
        DivModUnique(Value(s) + 1, Weight(n), 0, Value(pn[..]));
        return;
      }
      IncrementWrap(Value(before), Weight(i), Weight(i + 1), before[i]);
      i := i + 1;
    }
    ValueBound(pn[..]);
    DivModUnique(Value(s) + 1, Weight(n), 1, Value(pn[..]));
  }

  lemma IncrementWrap(v: int, w: int, w': int, x: int)
    requires x == BASE - 1 && w' == BASE * w
    ensures v + (0 - x) * w == v + w - w'
  {
  }

  /** The complement of every bit. */
  method Complement(pn: array<Limb>) returns (r: array<Limb>)
    ensures fresh(r) && r.Length == pn.Length && Value(r[..]) == Weight(pn.Length) - 1 - Value(pn[..])
  {
    hide Value, Weight;
    var n := pn.Length;
    r := new Limb[n](_ => 0);
    WeightZero();
    EmptyValue();
    for i := 0 to n
      invariant Value(r[..i]) + Value(pn[..i]) == Weight(i) - 1
    {
      ghost var before := r[..i];
      r[i] := BASE - 1 - pn[i];
      assert r[..i] == before;
      ValueStep(r[..], i);
      ValueStep(pn[..], i);
      assert r[..][..i + 1] == r[..i + 1] && r[..][..i] == r[..i] && pn[..][..i + 1] == pn[..i + 1] && pn[..][..i] == pn[..i];
      WeightStep(i);
      ComplementStep(r[i], pn[i], Weight(i), Weight(i + 1));
    }
    assert r[..n] == r[..] && pn[..n] == pn[..];
  }

  lemma ComplementStep(x: int, y: int, w: int, w': int)
    requires x + y == BASE - 1 && w' == BASE * w
    ensures x * w + y * w == w' - w
  {
    assert (x + y) * w == x * w + y * w;
  }

  /** The negation, modulo the width: complement and increment. */
  method Negate(pn: array<Limb>) returns (r: array<Limb>)
    ensures fresh(r) && r.Length == pn.Length && Value(r[..]) == (Weight(pn.Length) - Value(pn[..])) % Weight(pn.Length)
  {
    hide Value, Weight;
    r := Complement(pn);
    Increment(r);
  }

  /** Subtracts b from pn, modulo the width, by adding its negation. */
  method Subtract(pn: array<Limb>, b: array<Limb>)
    requires pn.Length == b.Length
    modifies pn
    ensures Value(pn[..]) == (old(Value(pn[..])) - old(Value(b[..]))) % Weight(pn.Length)
  {
    hide Value, Weight;
    ghost var s, t, w := Value(pn[..]), Value(b[..]), Weight(pn.Length);
    ValueBound(pn[..]);
    ValueBound(b[..]);
    var neg := Negate(b);
    Add(pn, neg);
    NegatedSum(s, t, w);
  }

  lemma NegatedSum(s: int, t: int, w: int)
    requires 0 <= s < w && 0 <= t < w
    ensures (s + (w - t) % w) % w == (s - t) % w
  {
    if t == 0 {
      DivModUnique(w, w, 1, 0);
    } else {
      DivModUnique(w - t, w, 0, w - t);
      if t <= s {
        DivModUnique(s + (w - t), w, 1, s - t);
        DivModUnique(s - t, w, 0, s - t);
      } else {
        DivModUnique(s + (w - t), w, 0, s + (w - t));
        DivModUnique(s - t, w, -1, s + (w - t));
      }
    }
  }

  // ---------- comparison ----------

  /** The highest different digit decides. */
  lemma HigherDigit(a: seq<Limb>, b: seq<Limb>, i: nat)
    requires i < |a| == |b| && a[i + 1..] == b[i + 1..] && a[i] < b[i]
    ensures Value(a) < Value(b)
  {
    hide Value, Weight;
    ValueSplit(a, i + 1);
    ValueSplit(b, i + 1);
    ValueStep(a, i);
    ValueStep(b, i);
    ValueBound(a[..i]);
    ValueBound(b[..i]);
    MulMono(a[i] + 1, b[i], Weight(i));
    assert (a[i] + 1) * Weight(i) == a[i] * Weight(i) + Weight(i);
  }

  /** Compares two numbers of the same width. */
  method CompareTo(a: array<Limb>, b: array<Limb>) returns (r: int)
    requires a.Length == b.Length
    ensures r == -1 || r == 0 || r == 1
    ensures (r < 0 <==> Value(a[..]) < Value(b[..])) && (r > 0 <==> Value(a[..]) > Value(b[..]))
  {
    hide Value, Weight;
    var i := a.Length;
    while i > 0
      invariant 0 <= i <= a.Length && a[i..] == b[i..]
    {
      i := i - 1;
      if a[i] < b[i] {
        HigherDigit(a[..], b[..], i);
        return -1;
      }
      if a[i] > b[i] {
        HigherDigit(b[..], a[..], i);
        return 1;
      }
    }
    assert a[..] == b[..];
    return 0;
  }

  // ---------- bit length ----------

  /** The position of the highest set bit plus one, or zero. */
  ghost predicate IsBitLength(v: int, bits: nat) {
    v < Pow2(bits) && (bits > 0 ==> v >= Pow2(bits - 1)) && v >= 0
  }

  method Bits(pn: array<Limb>) returns (bits: nat)
    ensures IsBitLength(Value(pn[..]), bits) && bits <= 32 * pn.Length
  {
    hide Value, Weight, Pow2;
    var pos := pn.Length;
    while pos > 0
      invariant 0 <= pos <= pn.Length && forall j :: pos <= j < pn.Length ==> pn[j] == 0
    {
      pos := pos - 1;
      if pn[pos] != 0 {
        TopDigit(pn[..], pos);
        ghost var low := Value(pn[..][..pos]);
        var nbits := 31;
        TopBits(pn[pos]);
        while nbits > 0
          invariant 0 <= nbits <= 31 && 0 < pn[pos] < Pow2(nbits + 1)
        {
          // the tested bit, in a digit without higher bits
          if pn[pos] / ShiftedOne(nbits) % 2 == 1 {
            TestedBit(pn[pos], nbits);
            BitsOf(Value(pn[..]), low, pn[pos], pos, nbits);
            return 32 * pos + nbits + 1;
          }
          ClearBit(pn[pos], nbits);
          nbits := nbits - 1;
        }
        OneBit();
        BitsOf(Value(pn[..]), low, pn[pos], pos, 0);
        return 32 * pos + 1;
      }
    }
    ValueZero(pn[..]);
    OneBit();
    return 0;
  }

  /** One shifted left by k bits. */
  function ShiftedOne(k: nat): (r: nat)
    requires k < 32
    ensures r == Pow2(k) && r > 0
  {
    if k == 0 then 1 else 2 * ShiftedOne(k - 1)
  }

  lemma OneBit()
    ensures Pow2(0) == 1 && Pow2(1) == 2
  {
  }

  lemma TopBits(x: Limb)
    ensures x < Pow2(32)
  {
    Pow2Base();
  }

  lemma TopDigit(s: seq<Limb>, pos: nat)
    requires pos < |s| && forall j :: pos < j < |s| ==> s[j] == 0
    ensures Value(s) == Value(s[..pos]) + s[pos] * Weight(pos) && 0 <= Value(s[..pos]) < Weight(pos)
  {
    hide Value, Weight;
    ValueSplit(s, pos + 1);
    ValueStep(s, pos);
    ValueZero(s[pos + 1..]);
    ValueBound(s[..pos]);
  }

  /** A digit below twice a power of two has its bit set exactly when it is not below it. */
  lemma TestedBit(x: int, k: nat)
    requires 0 <= x < Pow2(k + 1)
    ensures x / Pow2(k) % 2 == 1 <==> x >= Pow2(k)
  {
    var p := Pow2(k);
    assert Pow2(k + 1) == 2 * p;
    if x >= p {
      DivModUnique(x, p, 1, x - p);
    } else {
      DivModUnique(x, p, 0, x);
    }
  }

  lemma ClearBit(x: int, k: nat)
    requires 0 <= x < Pow2(k + 1) && x / Pow2(k) % 2 != 1
    ensures x < Pow2(k)
  {
    TestedBit(x, k);
  }

  lemma BitsOf(v: int, low: int, x: int, pos: nat, k: nat)
    requires v == low + x * Weight(pos) && 0 <= low < Weight(pos)
    requires Pow2(k) <= x < Pow2(k + 1)
    ensures IsBitLength(v, 32 * pos + k + 1)
  {
    hide Pow2, Weight;
    WeightIs(pos);
    Pow2Add(k, 32 * pos);
    Pow2Add(k + 1, 32 * pos);
    assert 32 * pos + k + 1 == (k + 1) + 32 * pos && 32 * pos + k + 1 - 1 == k + 32 * pos;
    var w := Weight(pos);
    MulMono(Pow2(k), x, w);
    MulMono(x + 1, Pow2(k + 1), w);
    assert (x + 1) * w == x * w + w;
  }

  // ---------- shifts ----------

  /** One step of the left shift: limb i lands in positions i + k and i + k + 1 as far as they exist. */
  ghost function Placed(s: seq<Limb>, at: int, low: Limb, high: Limb): (r: seq<Limb>)
    requires 0 <= at
    ensures |r| == |s|
  {
    var t := if at < |s| then s[at := low] else s;
    if at + 1 < |s| then t[at + 1 := high] else t
  }

  /** What the step adds to the value, up to a multiple of the width. */
  lemma PlacedValue(s: seq<Limb>, at: nat, x: int, low: Limb, high: Limb, add: int)
    requires at + 1 < |s| ==> s[at + 1] == 0
    requires at < |s| ==> low == s[at] + x
    requires add == x + high * BASE
    ensures at < |s| ==> Value(Placed(s, at, low, high)) + (if at + 1 < |s| then 0 else high) * Weight(|s|) == Value(s) + add * Weight(at)
    ensures at >= |s| ==> Placed(s, at, low, high) == s
  {
    hide Value, Weight;
    if at < |s| {
      var t := s[at := low];
      ValueUpdate(s, at, low);
      WeightStep(at);
      PlacedSum(x, high, Weight(at), Weight(at + 1));
      if at + 1 < |s| {
        ValueUpdate(t, at + 1, high);
      }
    }
  }

  lemma PlacedSum(x: int, high: int, w: int, w': int)
    requires w' == BASE * w
    ensures (x + high * BASE) * w == x * w + high * w'
  {
    assert (high * BASE) * w == high * (BASE * w);
  }

  lemma ShiftStep(v: int, q: int, w: int, va: int, m: int, v': int, dq: int, add: int, u: int, x: int)
    requires v + q * w == va * m && v' + dq * w == v + add * u && add * u == x * m
    ensures v' + (q + dq) * w == (va + x) * m
  {
    assert (q + dq) * w == q * w + dq * w;
    assert (va + x) * m == va * m + x * m;
  }

  /** The contribution of limb i, in units of its shifted position. */
  lemma Contribution(x: int, s: nat, k: nat, i: nat)
    ensures (x * Pow2(s)) * Weight(i + k) == (x * Weight(i)) * Pow2(s + 32 * k)
  {
    hide Pow2;
    WeightAdd(i, k);
    Pow2Add(s, 32 * k);
    Product4(x, Pow2(s), Weight(i), Weight(k));
  }

  lemma Product4(a: int, b: int, c: int, d: int)
    ensures (a * b) * (c * d) == (a * c) * (b * d)
  {
    calc {
      (a * b) * (c * d);
      a * (b * (c * d));
      a * (c * (b * d));
      (a * c) * (b * d);
    }
  }

  method Copy(pn: array<Limb>) returns (r: array<Limb>)
    ensures fresh(r) && r[..] == pn[..]
  {
    r := new Limb[pn.Length](_ => 0);
    for i := 0 to pn.Length
      invariant r[..i] == pn[..i]
    {
      r[i] := pn[i];
    }
  }

  method SetZero(pn: array<Limb>)
    modifies pn
    ensures forall j :: 0 <= j < pn.Length ==> pn[j] == 0
  {
    for i := 0 to pn.Length
      invariant forall j :: 0 <= j < i ==> pn[j] == 0
    {
      pn[i] := 0;
    }
  }

  /** Limb x enters the shifted number at position `at`: its low part joins what is there, its high part goes to the next position. */
  method PlaceShifted(pn: array<Limb>, x: Limb, at: nat, s: nat) returns (ghost lost: int)
    requires s < 32 && (at < pn.Length ==> pn[at] < Pow2(s)) && forall j :: at < j < pn.Length ==> pn[j] == 0
    modifies pn
    ensures Value(pn[..]) + lost * Weight(pn.Length) == old(Value(pn[..])) + (x * Pow2(s)) * Weight(at)
    ensures at + 1 < pn.Length ==> pn[at + 1] < Pow2(s)
    ensures forall j :: at + 1 < j < pn.Length ==> pn[j] == 0
  {
    hide Value, Weight, Pow2, BitOr, Placed;
    ghost var was := pn[..];
    var n := pn.Length;
    ShiftParts(x, s);
    ghost var low, high := x * Pow2(s) % BASE, x / Pow2(32 - s);
    HighPart(x, s);
    if at + 1 < n && s != 0 {
      BitOrZero(high);
      BitOrCommutes(high, 0);
      pn[at + 1] := BitOr(pn[at + 1], x / ShiftedOne(32 - s));
    }
    if at < n {
      JoinParts(low, pn[at], s);
      pn[at] := BitOr(pn[at], x * ShiftedOne(s) % BASE);
      PlacedIs(was, pn[..], at, was[at] + low, high);
      PlacedValue(was, at, low, was[at] + low, high, x * Pow2(s));
      lost := if at + 1 < n then 0 else high;
    } else {
      assert pn[..] == was;
      Beyond(x * Pow2(s), at, n);
      lost := (x * Pow2(s)) * Weight(at - n);
    }
  }

  lemma HighPart(x: Limb, s: nat)
    requires s < 32
    ensures 0 <= x / Pow2(32 - s) < BASE && (s == 0 ==> x / Pow2(32 - s) == 0)
  {
    QuotientNat(x, Pow2(32 - s));
    if s == 0 {
      Pow2Base();
      DivModUnique(x, BASE, 0, x);
    }
  }

  lemma PlacedIs(was: seq<Limb>, now: seq<Limb>, at: nat, low: Limb, high: Limb)
    requires at < |was| == |now| && now[at] == low && (at + 1 < |was| ==> now[at + 1] == high)
    requires forall j :: 0 <= j < |was| && j != at && j != at + 1 ==> now[j] == was[j]
    ensures now == Placed(was, at, low, high)
  {
  }

  /** Shifts pn left, dropping what leaves the width. */
  method ShiftLeft(pn: array<Limb>, shift: nat)
    modifies pn
    ensures Value(pn[..]) == old(Value(pn[..])) * Pow2(shift) % Weight(pn.Length)
  {
    hide Value, Weight, Pow2;
    ghost var was := pn[..];
    var a := Copy(pn);
    var n := pn.Length;
    SetZero(pn);
    var k, s := shift / 32, shift % 32;
    ghost var q, m := 0, Pow2(shift);
    ValueZero(pn[..]);
    EmptyValue();
    for i := 0 to n
      invariant a[..] == was
      invariant Value(pn[..]) + q * Weight(n) == Value(was[..i]) * m
      invariant i + k < n ==> pn[i + k] < Pow2(s)
      invariant forall j :: i + k < j < n ==> pn[j] == 0
    {
      ghost var v := Value(pn[..]);
      ghost var lost := PlaceShifted(pn, a[i], i + k, s);
      ValueStep(was, i);
      Contribution(was[i], s, k, i);
      assert s + 32 * k == shift;
      ShiftStep(v, q, Weight(n), Value(was[..i]), m, Value(pn[..]), lost, was[i] * Pow2(s), Weight(i + k), was[i] * Weight(i));
      q := q + lost;
    }
    assert was[..n] == was;
    ValueBound(pn[..]);
    DivModUnique(Value(was) * m, Weight(n), q, Value(pn[..]));
  }

  lemma Beyond(x: int, at: nat, n: nat)
    requires at >= n
    ensures x * Weight(at) == (x * Weight(at - n)) * Weight(n)
  {
    hide Weight;
    WeightAdd(at - n, n);
  }

  /** What limb x adds when it enters the number shifted right, at position `at`. */
  ghost function RightPart(x: int, at: nat, s: nat): int
    requires s < 32
  {
    x / Pow2(s) * Weight(at) + if at == 0 then 0 else x % Pow2(s) * Pow2(32 - s) * Weight(at - 1)
  }

  method PlaceShiftedRight(pn: array<Limb>, x: Limb, at: nat, s: nat)
    requires s < 32 && at < pn.Length && (at > 0 ==> pn[at - 1] < Pow2(32 - s)) && forall j :: at <= j < pn.Length ==> pn[j] == 0
    modifies pn
    ensures Value(pn[..]) == old(Value(pn[..])) + RightPart(x, at, s)
    ensures pn[at] < Pow2(32 - s) && forall j :: at < j < pn.Length ==> pn[j] == 0
  {
    hide Value, Weight, Pow2, BitOr;
    ghost var was := pn[..];
    ShiftParts(x, 32 - s);
    QuotientNat(x, Pow2(s));
    NoShift(x);
    if at > 0 && s != 0 {
      JoinParts(x * Pow2(32 - s) % BASE, pn[at - 1], 32 - s);
      pn[at - 1] := BitOr(pn[at - 1], x * ShiftedOne(32 - s) % BASE);
    }
    ghost var mid := pn[..];
    if at > 0 {
      ghost var y: Limb := was[at - 1] + x % Pow2(s) * Pow2(32 - s);
      assert mid == was[at - 1 := y];
      ValueUpdate(was, at - 1, y);
    } else {
      assert mid == was;
    }
    BitOrZero(x / Pow2(s));
    BitOrCommutes(x / Pow2(s), 0);
    pn[at] := BitOr(pn[at], x / ShiftedOne(s));
    assert pn[..] == mid[at := pn[at]];
    ValueUpdate(mid, at, pn[at]);
  }

  lemma NoShift(x: Limb)
    ensures x % Pow2(0) == 0 && x / Pow2(0) == x
  {
    OneBit();
  }

  /** Limb i and its shifted parts agree once the shift is undone; what limb k loses goes to the remainder. */
  lemma RightContribution(x: Limb, i: nat, k: nat, s: nat)
    requires s < 32 && k <= i
    ensures RightPart(x, i - k, s) * Pow2(s + 32 * k) + (if i == k then x % Pow2(s) * Weight(k) else 0) == x * Weight(i)
  {
    hide *;
    if i == k {
      LowestContribution(x, k, s);
    } else {
      UpperContribution(x, i, k, s);
    }
  }

  lemma LowestContribution(x: Limb, k: nat, s: nat)
    requires s < 32
    ensures RightPart(x, 0, s) * Pow2(s + 32 * k) + x % Pow2(s) * Weight(k) == x * Weight(k)
  {
    hide Pow2;
    var p, q, r := Pow2(s), x / Pow2(s), x % Pow2(s);
    assert x == p * q + r;
    WeightZero();
    assert RightPart(x, 0, s) == q;
    Pow2Add(s, 32 * k);
    EqualLimb(x, p, q, r, Weight(k), Pow2(s + 32 * k));
  }

  lemma UpperContribution(x: Limb, i: nat, k: nat, s: nat)
    requires s < 32 && k < i
    ensures RightPart(x, i - k, s) * Pow2(s + 32 * k) == x * Weight(i)
  {
    hide Pow2, Weight;
    var p, q, r, d := Pow2(s), x / Pow2(s), x % Pow2(s), Pow2(32 - s);
    assert x == p * q + r;
    Contribution(q, s, k, i - k);
    Contribution(r * d, s, k, i - k - 1);
    Pow2Split(s);
    WeightStep(i - 1);
    assert i - k + k == i && i - k - 1 + k == i - 1;
    UpperLimb(x, p, q, r, d, Weight(i - k), Weight(i - k - 1), Weight(i), Weight(i - 1), Pow2(s + 32 * k));
  }

  lemma EqualLimb(x: int, p: int, q: int, r: int, w: int, m: int)
    requires x == p * q + r && m == p * w
    ensures q * m + r * w == x * w
  {
    assert q * (p * w) == (p * q) * w;
    assert (p * q + r) * w == (p * q) * w + r * w;
  }

  lemma UpperLimb(x: int, p: int, q: int, r: int, d: int, u: int, u': int, w: int, w': int, m: int)
    requires x == p * q + r && p * d == BASE && w == BASE * w'
    requires (q * p) * w == (q * u) * m && ((r * d) * p) * w' == ((r * d) * u') * m
    ensures (q * u + r * d * u') * m == x * w
  {
    assert (q * u + (r * d) * u') * m == (q * u) * m + ((r * d) * u') * m;
    assert ((r * d) * p) * w' == r * ((p * d) * w');
    assert (p * q + r) * w == (q * p) * w + r * w;
  }

  lemma RightStep(va: int, v: int, m: int, rem: int, x: int, part: int, extra: int)
    requires va == v * m + rem && part * m + extra == x
    ensures va + x == (v + part) * m + (rem + extra)
  {
    assert (v + part) * m == v * m + part * m;
  }

  /** Shifts pn right. */
  method ShiftRight(pn: array<Limb>, shift: nat)
    modifies pn
    ensures Value(pn[..]) == old(Value(pn[..])) / Pow2(shift)
  {
    hide Value, Weight, Pow2, RightPart;
    ghost var was := pn[..];
    var a := Copy(pn);
    var n := pn.Length;
    SetZero(pn);
    var k, s := shift / 32, shift % 32;
    ghost var rem, m := 0, Pow2(shift);
    ValueZero(pn[..]);
    EmptyValue();
    for i := 0 to n
      invariant a[..] == was
      invariant Value(was[..i]) == Value(pn[..]) * m + rem && 0 <= rem < m
      invariant i <= k ==> Value(pn[..]) == 0
      invariant i > k ==> pn[i - k - 1] < Pow2(32 - s)
      invariant forall j :: 0 <= j < n && j >= i - k ==> pn[j] == 0
    {
      ValueStep(was, i);
      ghost var v := Value(pn[..]);
      RightRemainder(was, i, k, s);
      assert s + 32 * k == shift;
      if i >= k {
        PlaceShiftedRight(pn, a[i], i - k, s);
        RightContribution(was[i], i, k, s);
        ghost var extra := if i == k then was[i] % Pow2(s) * Weight(k) else 0;
        RightStep(Value(was[..i]), v, m, rem, was[i] * Weight(i), RightPart(was[i], i - k, s), extra);
        rem := rem + extra;
      } else {
        rem := rem + was[i] * Weight(i);
      }
    }
    assert was[..n] == was;
    DivModUnique(Value(was), m, Value(pn[..]), rem);
  }

  /** The limbs below the shift, and the low part of limb k, make up less than one unit. */
  lemma RightRemainder(was: seq<Limb>, i: nat, k: nat, s: nat)
    requires i < |was| && s < 32
    ensures i < k ==> 0 <= Value(was[..i]) + was[i] * Weight(i) < Pow2(s + 32 * k)
    ensures i == k ==> 0 <= Value(was[..i]) + was[i] % Pow2(s) * Weight(k) < Pow2(s + 32 * k)
  {
    hide Value, Weight, Pow2;
    Pow2Add(s, 32 * k);
    WeightIs(k);
    if i < k {
      ValueStep(was, i);
      ValueBound(was[..i + 1]);
      WeightMonotone(i + 1, k);
      MulMono(1, Pow2(s), Weight(k));
    } else if i == k {
      ValueBound(was[..i]);
      LowPart(Value(was[..i]), was[i] % Pow2(s), Pow2(s), Weight(k));
    }
  }

  lemma LowPart(v: int, r: int, p: int, w: int)
    requires 0 <= v < w && 0 <= r < p
    ensures 0 <= v + r * w < p * w
  {
    MulMono(r + 1, p, w);
    assert (r + 1) * w == r * w + w;
    assert r * w >= 0;
  }

  lemma WeightIs(k: nat)
    ensures Weight(k) == Pow2(32 * k)
  {
  }

  lemma WeightMonotone(i: nat, k: nat)
    requires i <= k
    ensures Weight(i) <= Weight(k)
  {
    Pow2Monotone(32 * i, 32 * k);
  }
}
