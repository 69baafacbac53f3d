/** The compact form of 256-bit numbers (src/arith_uint256.cpp:195-216): what encoding keeps, and that decoding undoes it. */
module CompactTargets {
  import opened Integers
  import opened Limbs
  import opened ArithUints
  import opened ArithDivision

  /** The number of bytes, with room for a sign bit. */
  function Bytes(bits: nat): nat {
    if bits == 0 then 0 else bits / 8 + 1
  }

  /** The leading three bytes of a number of `size` bytes. */
  ghost function Mantissa(v: nat, size: nat): nat {
    if size <= 3 then ProductNat(v, Pow2(8 * (3 - size))); v * Pow2(8 * (3 - size))
    else QuotientNat(v, Pow2(8 * (size - 3))); v / Pow2(8 * (size - 3))
  }

  /** `c` is the compact form of a number and a sign. */
  ghost predicate IsCompact(v: nat, negative: bool, c: nat) {
    var size, word := c / 0x100_0000, c % 0x80_0000;
    && c < BASE && (HasSign(c) <==> negative && v != 0)
    && (exists bits: nat :: IsBitLength(v, bits) && size == Bytes(bits))
    && word == Mantissa(v, size)
  }

  /** How many low bits the compact form of a number does not hold. */
  function Dropped(c: nat): nat {
    var size := c / 0x100_0000;
    if size <= 3 then 0 else 8 * (size - 3)
  }

  // ---------- powers of two ----------

  lemma ScaleUp(v: nat, a: nat, k: nat)
    ensures v < Pow2(a) ==> v * Pow2(k) < Pow2(a + k)
    ensures v >= Pow2(a) ==> v * Pow2(k) >= Pow2(a + k)
  {
    hide Pow2;
    Pow2Add(a, k);
    if v < Pow2(a) {
      MulMono(v + 1, Pow2(a), Pow2(k));
      assert (v + 1) * Pow2(k) == v * Pow2(k) + Pow2(k);
    } else {
      MulMono(Pow2(a), v, Pow2(k));
    }
  }

  lemma ScaleDown(v: nat, a: nat, k: nat)
    requires k <= a
    ensures v < Pow2(a) ==> v / Pow2(k) < Pow2(a - k)
    ensures v >= Pow2(a) ==> v / Pow2(k) >= Pow2(a - k)
  {
    hide Pow2;
    var d, q, p := Pow2(k), v / Pow2(k), Pow2(a - k);
    Pow2Add(a - k, k);
    assert v == d * q + v % d && (q + 1) * d == q * d + d;
    if v < p * d && q >= p {
      MulMono(p, q, d);
      assert false;
    }
    if v >= p * d && q < p {
      MulMono(q + 1, p, d);
      assert false;
    }
  }

  lemma TwiceQuotient(v: nat, d: nat, b: nat)
    requires d > 0 && b > 0
    ensures d * b > 0 && v / d / b == v / (d * b)
  {
    MulMono(1, b, d);
    var q, r := v / d, v % d;
    QuotientNat(v, d);
    var u, w := q / b, q % b;
    assert v == d * q + r && q == b * u + w;
    MulMono(w, b - 1, d);
    assert v == u * (d * b) + (w * d + r) by {
      Regroup(d, b, u, w);
    }
    assert (b - 1) * d == b * d - d;
    DivModUnique(v, d * b, u, w * d + r);
  }

  lemma Regroup(d: int, b: int, u: int, w: int)
    ensures d * (b * u + w) == u * (d * b) + w * d
  {
  }

  lemma ExactQuotient(v: nat, d: nat)
    requires d > 0
    ensures v * d / d == v
  {
    DivModUnique(v * d, d, v, 0);
  }

  lemma Truncated(v: nat, d: nat)
    requires d > 0
    ensures 0 <= v - v % d <= v && v / d * d == v - v % d && (v - v % d) / d == v / d
  {
    var q := v / d;
    QuotientNat(v, d);
    assert v == d * q + v % d;
    ExactQuotient(q, d);
  }

  // ---------- encoding ----------

  /** The leading bytes are within three bytes, and need the sign bit exactly if the number fills its bytes. */
  lemma RawMantissa(v: nat, bits: nat)
    requires IsBitLength(v, bits)
    ensures var m := Mantissa(v, (bits + 7) / 8);
            m < 0x100_0000 && (m >= 0x80_0000 <==> bits > 0 && bits % 8 == 0) && (m == 0 <==> v == 0)
  {
    hide Pow2;
    var n := (bits + 7) / 8;
    Pow2Top();
    if bits == 0 {
      assert v == 0 by {
        Pow2Zero();
      }
    } else {
      var high := bits + 24 - 8 * n;
      if n <= 3 {
        ScaleUp(v, bits, 8 * (3 - n));
        ScaleUp(v, bits - 1, 8 * (3 - n));
      } else {
        ScaleDown(v, bits, 8 * (n - 3));
        ScaleDown(v, bits - 1, 8 * (n - 3));
      }
      Pow2Monotone(high, 24);
      if high < 24 {
        Pow2Monotone(high, 23);
      }
    }
  }

  lemma Pow2Top()
    ensures Pow2(15) == 0x8000 && Pow2(23) == 0x80_0000 && Pow2(24) == 0x100_0000
  {
    Pow2Base();
    assert Pow2(24) == 2 * Pow2(23) && Pow2(16) == 2 * Pow2(15);
  }

  /** Making room for the sign bit drops one byte. */
  lemma NextMantissa(v: nat, n: nat)
    ensures Mantissa(v, n) / 0x100 == Mantissa(v, n + 1)
  {
    hide Pow2;
    Pow2Base();
    if n < 3 {
      Pow2Add(8 * (2 - n), 8);
      var p := Pow2(8 * (2 - n));
      assert 8 * (3 - n) == 8 * (2 - n) + 8 && v * (p * 0x100) == (v * p) * 0x100;
      ProductNat(v, p);
      ExactQuotient(v * p, 0x100);
    } else {
      Pow2Add(8 * (n - 3), 8);
      assert 8 * (n + 1 - 3) == 8 * (n - 3) + 8;
      TwiceQuotient(v, Pow2(8 * (n - 3)), 0x100);
      Pow2Zero();
    }
  }

  method GetLow64(pn: array<Limb>) returns (r: nat)
    requires pn.Length >= 2
    ensures r == Value(pn[..]) % Pow2(64)
  {
    hide Pow2, Value, Weight;
    r := pn[0] + BASE * pn[1];
    LowDigits(pn[..]);
  }

  lemma LowDigits(s: seq<Limb>)
    requires |s| >= 2
    ensures Value(s) % Pow2(64) == s[0] + BASE * s[1]
  {
    hide Pow2, Value, Weight;
    ValueSplit(s, 2);
    var low := s[..2];
    ValueLast(low);
    ValueLast(low[..1]);
    assert low[..1][..0] == [];
    EmptyValue();
    WeightZero();
    WeightStep(0);
    WeightIs64();
    ValueBound(low);
    DivModUnique(Value(s), Weight(2), Value(s[2..]), Value(low));
  }

  lemma WeightIs64()
    ensures Weight(2) == Pow2(64)
  {
    hide Pow2;
  }

  /** The leading three bytes. */
  method LeadingBytes(pn: array<Limb>, bits: nat) returns (compact: nat)
    requires pn.Length == 8 && IsBitLength(Value(pn[..]), bits)
    ensures compact == Mantissa(Value(pn[..]), (bits + 7) / 8)
  {
    hide Value, Weight, Pow2, Mantissa, ByteShift, IsBitLength;
    ghost var v := Value(pn[..]);
    var size := (bits + 7) / 8;
    ValueBound(pn[..]);
    RawMantissa(v, bits);
    MantissaIs(v, size);
    if size <= 3 {
      SmallNumber(v, bits);
      var low := GetLow64(pn);
      Shift8(3 - size);
      var shifted := low * ByteShift(3 - size);
      assert shifted == Mantissa(v, size);
      compact := shifted % BASE;
    } else {
      var bn := new Limb[8](i requires 0 <= i < 8 reads pn => pn[i]);
      assert bn[..] == pn[..];
      ShiftRight(bn, 8 * (size - 3));
      var low := GetLow64(bn);
      FewBits(Value(bn[..]));
      compact := low % BASE;
    }
  }

  /** The compact form holds the leading bytes, at most 23 bits, and the number of bytes. */
  method GetCompact(pn: array<Limb>, negative: bool) returns (c: nat)
    requires pn.Length == 8
    ensures Value(pn[..]) >= 0 && IsCompact(Value(pn[..]), negative, c)
  {
    hide Value, Weight, Pow2, Mantissa, IsCompact;
    ghost var v := Value(pn[..]);
    var bits := Bits(pn);
    var size := (bits + 7) / 8;
    RawMantissa(v, bits);
    var compact := LeadingBytes(pn, bits);
    if compact / 0x80_0000 % 2 == 1 {
      NextMantissa(v, size);
      compact := compact / 0x100;
      size := size + 1;
    }
    RoomForSign(v, bits, size);
    c := size * 0x100_0000 + compact;
    if negative && compact != 0 {
      c := c + 0x80_0000;
    }
    Assembled(v, bits, negative, c);
  }

  /** With room for the sign bit, 23 bits are left. */
  lemma RoomForSign(v: nat, bits: nat, size: nat)
    requires IsBitLength(v, bits) && size == (if bits > 0 && bits % 8 == 0 then bits / 8 + 1 else (bits + 7) / 8)
    ensures size == Bytes(bits) && Mantissa(v, size) < 0x80_0000 && (Mantissa(v, size) == 0 <==> v == 0)
  {
    hide Pow2, Mantissa;
    RawMantissa(v, bits);
    NextMantissa(v, (bits + 7) / 8);
  }

  lemma Assembled(v: nat, bits: nat, negative: bool, c: nat)
    requires IsBitLength(v, bits) && bits <= 256 && Mantissa(v, Bytes(bits)) < 0x80_0000 && (Mantissa(v, Bytes(bits)) == 0 <==> v == 0)
    requires c == Bytes(bits) * 0x100_0000 + Mantissa(v, Bytes(bits)) + (if negative && v != 0 then 0x80_0000 else 0)
    ensures IsCompact(v, negative, c)
  {
    hide Pow2, Mantissa, IsBitLength;
    assert c / 0x100_0000 == Bytes(bits) && c % 0x80_0000 == Mantissa(v, Bytes(bits));
  }

  lemma MantissaIs(v: nat, size: nat)
    ensures size <= 3 ==> Mantissa(v, size) == v * Pow2(8 * (3 - size))
    ensures size > 3 ==> Mantissa(v, size) == v / Pow2(8 * (size - 3))
  {
  }

  lemma FewBits(v: int)
    requires 0 <= v < 0x100_0000
    ensures v % Pow2(64) == v
  {
    hide Pow2;
    Pow2Base();
    Pow2Monotone(24, 64);
    DivModUnique(v, Pow2(64), 0, v);
  }

  lemma SmallNumber(v: nat, bits: nat)
    requires IsBitLength(v, bits) && (bits + 7) / 8 <= 3
    ensures v % Pow2(64) == v
  {
    hide Pow2;
    Pow2Base();
    Pow2Monotone(bits, 24);
    FewBits(v);
  }

  // ---------- what the compact form keeps ----------

  /** Decoding the compact form gives the number with its low bits cleared; at least 16 and at most 23 bits are kept, or all. */
  lemma CompactKeeps(v: nat, negative: bool, c: nat)
    requires IsCompact(v, negative, c)
    ensures Target(c) == v - v % Pow2(Dropped(c)) && Target(c) <= v
    ensures Dropped(c) > 0 ==> Pow2(15) <= v / Pow2(Dropped(c)) < Pow2(23)
  {
    hide Pow2;
    var size, e := c / 0x100_0000, Dropped(c);
    Truncated(v, Pow2(e));
    if size <= 3 {
      Pow2Zero();
      ExactQuotient(v, Pow2(8 * (3 - size)));
    } else {
      var bits: nat :| IsBitLength(v, bits) && size == Bytes(bits);
      ScaleDown(v, bits - 1, e);
      ScaleDown(v, bits, e);
      Pow2Monotone(15, bits - 1 - e);
      Pow2Monotone(bits - e, 23);
    }
  }

  lemma BitLengthUnique(v: nat, a: nat, b: nat)
    requires IsBitLength(v, a) && IsBitLength(v, b)
    ensures a == b
  {
    hide Pow2;
    if a < b {
      Pow2Monotone(a, b - 1);
    } else if b < a {
      Pow2Monotone(b, a - 1);
    }
  }

  /** A number and a sign have only one compact form. */
  lemma CompactUnique(v: nat, negative: bool, a: nat, b: nat)
    requires IsCompact(v, negative, a) && IsCompact(v, negative, b)
    ensures a == b
  {
    hide Pow2, Mantissa;
    var m: nat :| IsBitLength(v, m) && a / 0x100_0000 == Bytes(m);
    var n: nat :| IsBitLength(v, n) && b / 0x100_0000 == Bytes(n);
    BitLengthUnique(v, m, n);
    CompactParts(a);
    CompactParts(b);
  }

  lemma CompactParts(c: nat)
    ensures c == c / 0x100_0000 * 0x100_0000 + (if HasSign(c) then 0x80_0000 else 0) + c % 0x80_0000
  {
  }

  /** Decoding and encoding again gives the same compact form. */
  lemma CompactAgain(v: nat, negative: bool, c: nat)
    requires IsCompact(v, negative, c)
    ensures IsCompact(Target(c), negative, c)
  {
    hide Pow2, Target;
    var size, e, t := c / 0x100_0000, Dropped(c), Target(c);
    CompactKeeps(v, negative, c);
    var bits: nat :| IsBitLength(v, bits) && size == Bytes(bits);
    if size <= 3 {
      Pow2Zero();
      assert t == v;
    } else {
      Truncated(v, Pow2(e));
      TopBitKept(v, bits, e);
      assert IsBitLength(t, bits);
    }
  }

  lemma TopBitKept(v: nat, bits: nat, e: nat)
    requires IsBitLength(v, bits) && e < bits
    ensures v - v % Pow2(e) >= Pow2(bits - 1)
  {
    hide Pow2;
    ScaleDown(v, bits - 1, e);
    ScaleUp(v / Pow2(e), bits - 1 - e, e);
    Truncated(v, Pow2(e));
  }
}
