/** Long division, compact targets and the work of a block (src/arith_uint256.cpp:75-98, 174-193; src/chain.cpp:126-139). */
module ArithDivision {
  import opened Integers
  import opened Limbs
  import opened ArithUints

  // ---------- setting a bit of the quotient ----------

  /** The c lowest bits are clear. */
  ghost predicate LowClear(s: seq<Limb>, c: nat) {
    && (forall j :: 0 <= j < |s| && j < c / 32 ==> s[j] == 0)
    && (c / 32 < |s| ==> s[c / 32] % Pow2(c % 32) == 0)
  }

  lemma ZeroClear(s: seq<Limb>, c: nat)
    requires forall j :: 0 <= j < |s| ==> s[j] == 0
    ensures LowClear(s, c)
  {
    ZeroMod(Pow2(c % 32));
  }

  /** The limb of bit c has no bits up to and including c if the c + 1 lowest bits are clear. */
  lemma ClearLimb(s: seq<Limb>, c: nat)
    requires LowClear(s, c + 1) && c / 32 < |s|
    ensures s[c / 32] % Pow2(c % 32 + 1) == 0 && s[c / 32] % Pow2(c % 32) == 0
    ensures forall j :: 0 <= j < c / 32 ==> s[j] == 0
  {
    var x, e := s[c / 32], c % 32;
    if e == 31 {
      assert (c + 1) / 32 == c / 32 + 1;
      assert x == 0;
      ZeroMod(Pow2(e + 1));
      ZeroMod(Pow2(e));
    } else {
      assert (c + 1) / 32 == c / 32 && (c + 1) % 32 == e + 1;
      CoarserMultiple(x, Pow2(e));
    }
  }

  lemma ZeroMod(d: nat)
    requires d > 0
    ensures 0 % d == 0
  {
    DivModUnique(0, d, 0, 0);
  }

  lemma CoarserMultiple(x: nat, d: nat)
    requires d > 0 && x % (2 * d) == 0
    ensures x % d == 0
  {
    var q := x / (2 * d);
    assert x == (2 * d) * q;
    assert (2 * d) * q == (2 * q) * d;
    DivModUnique(x, d, 2 * q, 0);
  }

  lemma StillClear(s: seq<Limb>, c: nat)
    requires LowClear(s, c + 1) && c < 32 * |s|
    ensures LowClear(s, c)
  {
    ClearLimb(s, c);
  }

  /** Sets bit c of a number whose lower bits, and bit c, are clear. */
  method SetBit(pn: array<Limb>, c: nat)
    requires c < 32 * pn.Length && LowClear(pn[..], c + 1)
    modifies pn
    ensures Value(pn[..]) == old(Value(pn[..])) + Pow2(c) && LowClear(pn[..], c)
  {
    hide Value, Weight, Pow2, BitOr;
    ghost var was := pn[..];
    var t, e := c / 32, c % 32;
    ClearLimb(was, c);
    BitFits(e);
    JoinParts(pn[t], Pow2(e), e + 1);
    SumMultiple(pn[t], Pow2(e));
    pn[t] := BitOr(pn[t], ShiftedOne(e));
    assert pn[..] == was[t := pn[t]];
    ValueUpdate(was, t, pn[t]);
    Pow2Add(e, 32 * t);
    WeightIs(t);
    assert e + 32 * t == c;
  }

  lemma BitFits(e: nat)
    requires e < 32
    ensures Pow2(e) < Pow2(e + 1) && Pow2(e) < BASE
  {
    Pow2Base();
    Pow2Monotone(e + 1, 32);
  }

  lemma SumMultiple(x: nat, d: nat)
    requires d > 0 && x % d == 0
    ensures (x + d) % d == 0
  {
    var q := x / d;
    assert x == d * q;
    assert (q + 1) * d == q * d + d;
    DivModUnique(x + d, d, q + 1, 0);
  }

  // ---------- division ----------

  /** Where the long division stands: the divisor is shifted by c - 1 bits and c bits of the quotient are missing. */
  ghost predicate Dividing(n: int, d: int, num: int, quotient: int, c: nat) {
    num + quotient * d == n && 0 <= num < d * Pow2(c)
  }

  lemma DivideTake(n: int, d: int, num: int, quotient: int, c: nat)
    requires Dividing(n, d, num, quotient, c + 1) && num >= d * Pow2(c)
    ensures Dividing(n, d, num - d * Pow2(c), quotient + Pow2(c), c)
  {
    var p := Pow2(c);
    assert (quotient + p) * d == quotient * d + d * p;
    assert d * (2 * p) == 2 * (d * p);
  }

  lemma DivideSkip(n: int, d: int, num: int, quotient: int, c: nat)
    requires Dividing(n, d, num, quotient, c + 1) && num < d * Pow2(c)
    ensures Dividing(n, d, num, quotient, c)
  {
  }

  lemma DivideDone(n: int, d: int, num: int, quotient: int)
    requires d > 0 && Dividing(n, d, num, quotient, 0)
    ensures quotient == n / d && num == n % d
  {
    assert Pow2(0) == 1;
    DivModUnique(n, d, quotient, num);
  }

  /** Aligning the divisor with the dividend does not overflow. */
  lemma DivideStart(n: int, d: int, nBits: nat, dBits: nat, width: nat)
    requires IsBitLength(n, nBits) && IsBitLength(d, dBits) && 0 < dBits <= nBits <= 32 * width
    ensures Dividing(n, d, n, 0, nBits - dBits + 1)
    ensures d > 0 && 0 <= d * Pow2(nBits - dBits) < Weight(width)
  {
    hide Pow2;
    var shift := nBits - dBits;
    Pow2Add(dBits, shift);
    Pow2Add(dBits - 1, shift + 1);
    MulMono(Pow2(dBits - 1), d, Pow2(shift + 1));
    MulMono(d + 1, Pow2(dBits), Pow2(shift));
    assert (d + 1) * Pow2(shift) == d * Pow2(shift) + Pow2(shift);
    assert d * Pow2(shift) >= 0;
    Pow2Monotone(nBits, 32 * width);
    WeightIs(width);
  }

  lemma HalfShift(d: int, c: nat)
    requires c > 0
    ensures d * Pow2(c) / Pow2(1) == d * Pow2(c - 1)
  {
    assert Pow2(1) == 2;
    TimesTwo(d, Pow2(c - 1));
    DivModUnique(d * Pow2(c), 2, d * Pow2(c - 1), 0);
  }

  lemma SmallDividend(n: int, d: int, nBits: nat, dBits: nat)
    requires IsBitLength(n, nBits) && IsBitLength(d, dBits) && nBits < dBits
    ensures 0 <= n < d && n / d == 0
  {
    Pow2Monotone(nBits, dBits - 1);
    DivModUnique(n, d, 0, n);
  }

  lemma ZeroDivisor(d: int, dBits: nat)
    requires IsBitLength(d, dBits)
    ensures d == 0 <==> dBits == 0
  {
  }

  lemma NoBorrow(a: seq<Limb>, b: seq<Limb>)
    requires |a| == |b| && Value(b) <= Value(a)
    ensures (Value(a) - Value(b)) % Weight(|a|) == Value(a) - Value(b)
  {
    hide Value, Weight;
    ValueBound(a);
    ValueBound(b);
    DivModUnique(Value(a) - Value(b), Weight(|a|), 0, Value(a) - Value(b));
  }

  /** Divides pn by b; dividing by zero throws, after pn was set to zero. */
  method Divide(pn: array<Limb>, b: array<Limb>) returns (thrown: bool)
    requires pn.Length == b.Length
    modifies pn
    ensures thrown <==> old(Value(b[..])) == 0
    ensures Value(pn[..]) == if thrown then 0 else old(Value(pn[..])) / old(Value(b[..]))
  {
    hide Value, Weight, Pow2, IsBitLength, Dividing, LowClear;
    ghost var n, d, width := Value(pn[..]), Value(b[..]), pn.Length;
    var div := Copy(b);
    var num := Copy(pn);
    SetZero(pn);
    ValueZero(pn[..]);
    var numBits := Bits(num);
    var divBits := Bits(div);
    ZeroDivisor(d, divBits);
    if divBits == 0 {
      return true;
    }
    thrown := false;
    if divBits > numBits {
      SmallDividend(n, d, numBits, divBits);
      return;
    }
    var shift: int := numBits - divBits;
    DivideStart(n, d, numBits, divBits, width);
    ShiftLeft(div, shift);
    DivModUnique(d * Pow2(shift), Weight(width), 0, d * Pow2(shift));
    ZeroClear(pn[..], shift + 1);
    while shift >= 0
      invariant -1 <= shift < 32 * width
      invariant shift >= 0 ==> Value(div[..]) == d * Pow2(shift)
      invariant Dividing(n, d, Value(num[..]), Value(pn[..]), shift + 1) && LowClear(pn[..], shift + 1)
      invariant fresh(num) && fresh(div) && num != div && num.Length == div.Length == width
    {
      var cmp := CompareTo(num, div);
      if cmp >= 0 {
        DivideTake(n, d, Value(num[..]), Value(pn[..]), shift);
        NoBorrow(num[..], div[..]);
        Subtract(num, div);
        SetBit(pn, shift);
      } else {
        DivideSkip(n, d, Value(num[..]), Value(pn[..]), shift);
        StillClear(pn[..], shift);
      }
      if shift > 0 {
        HalfShift(d, shift);
      }
      ShiftRight(div, 1);
      shift := shift - 1;
    }
    DivideDone(n, d, Value(num[..]), Value(pn[..]));
  }

  // ---------- 64-bit values ----------

  /** The value of a number whose limbs from the second on are given. */
  lemma TwoLimbs(s: seq<Limb>)
    requires |s| >= 2
    ensures Value(s) == s[0] + s[1] * BASE + Value(s[2..]) * Weight(2)
    ensures 0 <= Value(s[2..])
  {
    hide Weight, Value;
    ValueSplit(s, 2);
    ValueBound(s[2..]);
    assert s[..0] == [];
    EmptyValue();
    ValueStep(s, 0);
    ValueStep(s, 1);
    WeightZero();
    WeightStep(0);
  }

  method Assign(pn: array<Limb>, b: nat)
    requires pn.Length >= 2 && b < BASE * BASE
    modifies pn
    ensures Value(pn[..]) == b
  {
    hide Value, Weight;
    SetZero(pn);
    DivModBase(b);
    pn[0] := b % BASE;
    pn[1] := b / BASE;
    TwoLimbs(pn[..]);
    ValueZero(pn[2..]);
    assert pn[..][2..] == pn[2..];
  }

  lemma DivModBase(b: nat)
    requires b < BASE * BASE
    ensures 0 <= b / BASE < BASE && b == b % BASE + b / BASE * BASE
  {
  }

  /** Comparison with a 64-bit value. */
  method EqualTo(pn: array<Limb>, b: nat) returns (r: bool)
    requires pn.Length >= 2 && b < BASE * BASE
    ensures r <==> Value(pn[..]) == b
  {
    hide Value, Weight;
    DivModBase(b);
    TwoLimbs(pn[..]);
    assert pn[..][2..] == pn[2..];
    var i := pn.Length;
    while i > 2
      invariant 2 <= i <= pn.Length && forall j :: i <= j < pn.Length ==> pn[j] == 0
    {
      i := i - 1;
      if pn[i] != 0 {
        NonZeroHigh(pn[2..], i - 2, b, pn[0], pn[1]);
        return false;
      }
    }
    ValueZero(pn[2..]);
    if pn[1] != b / BASE {
      DigitsDiffer(pn[0], pn[1], b % BASE, b / BASE);
      return false;
    }
    if pn[0] != b % BASE {
      return false;
    }
    return true;
  }

  lemma NonZeroHigh(high: seq<Limb>, i: nat, b: nat, x: Limb, y: Limb)
    requires i < |high| && high[i] != 0 && b < BASE * BASE
    ensures x + y * BASE + Value(high) * Weight(2) > b
  {
    hide Value, Weight;
    ValueSplit(high, i);
    ValueBound(high[..i]);
    var rest := high[i..];
    ValueSplit(rest, 1);
    ValueBound(rest[1..]);
    assert rest[..0] == [];
    EmptyValue();
    ValueStep(rest, 0);
    WeightZero();
    WeightStep(0);
    WeightStep(1);
    WeightPositive(i);
    MulMono(0, Value(rest[1..]), Weight(1));
    assert Value(rest) >= 1;
    MulMono(1, Value(rest), Weight(i));
    MulMono(1, Value(high), Weight(2));
  }

  lemma WeightPositive(i: nat)
    ensures Weight(i) >= 1
  {
  }

  lemma DigitsDiffer(x: int, y: int, u: int, v: int)
    requires 0 <= x < BASE && 0 <= u < BASE && y != v
    ensures x + y * BASE != u + v * BASE
  {
  }

  // ---------- compact targets ----------

  /** The number that a compact representation stands for: 23 bits of mantissa times a power of 256. */
  ghost function Target(c: nat): nat {
    var word, size := c % 0x80_0000, c / 0x100_0000;
    if size <= 3 then QuotientNat(word, Pow2(8 * (3 - size))); word / Pow2(8 * (3 - size)) else ProductNat(word, Pow2(8 * (size - 3))); word * Pow2(8 * (size - 3))
  }

  lemma ProductNat(x: nat, d: nat)
    ensures x * d >= 0
  {
  }

  ghost predicate HasSign(c: nat) {
    c / 0x80_0000 % 2 == 1
  }

  /** A multiple of a power of two that is j bits short of 256 bits exceeds them exactly if the factor has more than j bits. */
  lemma Exceeds(x: nat, j: nat)
    requires j <= 256
    ensures x * Pow2(256 - j) >= Pow2(256) <==> x >= Pow2(j)
  {
    hide Pow2;
    var p := Pow2(256 - j);
    Pow2Add(j, 256 - j);
    if x >= Pow2(j) {
      MulMono(Pow2(j), x, p);
    } else {
      MulMono(x + 1, Pow2(j), p);
      assert (x + 1) * p == x * p + p;
    }
  }

  lemma AtLeast256(x: nat, e: nat)
    requires x > 0 && e >= 256
    ensures x * Pow2(e) >= Pow2(256)
  {
    hide Pow2;
    Pow2Monotone(256, e);
    MulMono(1, x, Pow2(e));
  }

  /** The three conditions for overflow are exact. */
  lemma OverflowExact(c: nat)
    requires c / 0x100_0000 > 3
    ensures var word, size := c % 0x80_0000, c / 0x100_0000;
            Target(c) >= Pow2(256) <==> word != 0 && (size > 34 || (word > 0xff && size > 33) || (word > 0xffff && size > 32))
  {
    hide Pow2;
    var word, size := c % 0x80_0000, c / 0x100_0000;
    Pow2Base();
    if size > 34 {
      if word != 0 {
        AtLeast256(word, 8 * (size - 3));
      }
    } else {
      var j := 256 - 8 * (size - 3);
      Exceeds(word, j);
      if size <= 32 {
        Pow2Monotone(24, j);
      }
    }
  }

  lemma SmallTarget(c: nat)
    requires c / 0x100_0000 <= 3
    ensures Target(c) < 0x80_0000 && Target(c) < Pow2(256)
  {
    hide Pow2;
    var size := c / 0x100_0000;
    QuotientNat(c % 0x80_0000, Pow2(8 * (3 - size)));
    Pow2Base();
    Pow2Monotone(32, 256);
  }

  lemma Shift8(k: nat)
    requires k <= 3
    ensures ByteShift(k) == Pow2(8 * k)
  {
    Pow2Base();
    assert Pow2(0) == 1;
  }

  function ByteShift(k: nat): nat
    requires k <= 3
  {
    if k == 0 then 1 else if k == 1 then 0x100 else if k == 2 then 0x1_0000 else 0x100_0000
  }

  /** Decodes a compact representation into 256 bits. */
  method SetCompact(pn: array<Limb>, c: nat) returns (negative: bool, overflow: bool)
    requires pn.Length == 8 && c < BASE
    modifies pn
    ensures Value(pn[..]) == Target(c) % Pow2(256)
    ensures overflow <==> Target(c) >= Pow2(256)
    ensures negative <==> Target(c) != 0 && HasSign(c)
  {
    hide Value, Weight, Pow2;
    var size, word := c / 0x100_0000, c % 0x80_0000;
    WeightIs(8);
    if size <= 3 {
      Shift8(3 - size);
      SmallTarget(c);
      word := word / ByteShift(3 - size);
      Assign(pn, word);
      DivModUnique(word, Pow2(256), 0, word);
    } else {
      Assign(pn, word);
      ShiftLeft(pn, 8 * (size - 3));
      OverflowExact(c);
      NonZeroTarget(c % 0x80_0000, 8 * (size - 3));
    }
    negative := word != 0 && c / 0x80_0000 % 2 == 1;
    overflow := word != 0 && (size > 34 || (word > 0xff && size > 33) || (word > 0xffff && size > 32));
  }

  lemma NonZeroTarget(x: nat, e: nat)
    ensures x * Pow2(e) != 0 <==> x != 0
  {
    hide Pow2;
    if x > 0 {
      MulMono(1, x, Pow2(e));
    }
  }

  // ---------- the work of a block ----------

  /** A target that fits leaves room for adding one. */
  lemma RoomForOne(c: nat)
    requires Target(c) < Pow2(256)
    ensures Target(c) + 1 < Pow2(256)
  {
    hide Pow2;
    var size := c / 0x100_0000;
    if size <= 3 {
      SmallTarget(c);
      Pow2Base();
      Pow2Monotone(32, 256);
    } else {
      EvenPower(8 * (size - 3));
      EvenPower(256);
      EvenProduct(c % 0x80_0000, Pow2(8 * (size - 3)));
    }
  }

  lemma EvenPower(e: nat)
    requires e > 0
    ensures Pow2(e) % 2 == 0
  {
  }

  lemma EvenProduct(x: nat, d: nat)
    requires d % 2 == 0
    ensures x * d % 2 == 0
  {
    var h := d / 2;
    assert x * d == 2 * (x * h) by {
      TimesTwo(x, h);
    }
  }

  /** Dividing the complement and adding one is dividing the power of two. */
  lemma ProofFormula(t: nat, w: int)
    requires 0 < t && t + 1 < w
    ensures (w - 1 - t) / (t + 1) + 1 == w / (t + 1) && 0 <= (w - 1 - t) / (t + 1) + 1 < w
  {
    var d := t + 1;
    var n := w - d;
    var q, r := n / d, n % d;
    assert n == d * q + r;
    assert (q + 1) * d == q * d + d;
    DivModUnique(w, d, q + 1, r);
    QuotientNat(n, d);
  }

  /** The expected number of hashes for a block: how often the target, plus one, goes into 2^256; zero for an invalid target. */
  method GetBlockProof(bits: nat) returns (r: array<Limb>)
    requires bits < BASE
    ensures r.Length == 8 && fresh(r)
    ensures Value(r[..]) == if Target(bits) == 0 || HasSign(bits) || Target(bits) >= Pow2(256) then 0 else Pow2(256) / (Target(bits) + 1)
  {
    hide Value, Weight, Pow2, Target, HasSign;
    r := new Limb[8](_ => 0);
    var target := new Limb[8](_ => 0);
    var negative, overflow := SetCompact(target, bits);
    ghost var t := Target(bits);
    WeightIs(8);
    if t < Pow2(256) {
      DivModUnique(t, Pow2(256), 0, t);
    }
    var isZero := EqualTo(target, 0);
    if negative || overflow || isZero {
      ValueZero(r[..]);
      return;
    }
    RoomForOne(bits);
    var one := new Limb[8](_ => 0);
    Assign(one, 1);
    r := Complement(target);
    Add(target, one);
    DivModUnique(t + 1, Pow2(256), 0, t + 1);
    var thrown := Divide(r, target);
    ProofFormula(t, Pow2(256));
    Assign(one, 1);
    Add(r, one);
    DivModUnique((Pow2(256) - 1 - t) / (t + 1) + 1, Pow2(256), 0, (Pow2(256) - 1 - t) / (t + 1) + 1);
  }
}
