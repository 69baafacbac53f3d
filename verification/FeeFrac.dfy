/**
  Fee/size pairs and their orders (src/util/feefrac.h).

  A FeeFrac is ordered by fee/size, compared without division by cross-multiplication.
  `Cross(a, b)` is the signed cross product: its sign says which of two feerates is
  higher, and for a fixed second argument it is additive in the first. Read as
  `Cross(p, slope)` it is the height of the diagram point p above the line through the
  origin with the given slope, scaled by a positive factor; the whole theory of feerate
  diagrams below is stated through it.
*/
module FeeRates {

  datatype FeeFrac = FeeFrac(fee: int, size: int) {
    function Plus(other: FeeFrac): FeeFrac {
      FeeFrac(fee + other.fee, size + other.size)
    }

    function Minus(other: FeeFrac): FeeFrac {
      FeeFrac(fee - other.fee, size - other.size)
    }

    function Negated(): FeeFrac {
      FeeFrac(-fee, size)
    }
  }

  const EMPTY := FeeFrac(0, 0)

  function Cross(a: FeeFrac, b: FeeFrac): int {
    a.fee * b.size - b.fee * a.size
  }

  /** `a >> b`: strictly higher feerate. The empty FeeFrac is neither higher nor lower than any. */
  predicate Higher(a: FeeFrac, b: FeeFrac) {
    a.fee * b.size > b.fee * a.size
  }

  /** `a << b`: strictly lower feerate. */
  predicate Lower(a: FeeFrac, b: FeeFrac) {
    a.fee * b.size < b.fee * a.size
  }

  /** `a > b`: higher feerate, or the same feerate and a smaller size. */
  predicate Better(a: FeeFrac, b: FeeFrac) {
    if a.fee * b.size == b.fee * a.size then a.size < b.size else Higher(a, b)
  }

  /** For positive sizes the orders are those of the quotients fee / size; equal quotients are ordered by size, the smaller first. */
  lemma OrderOfQuotients(a: FeeFrac, b: FeeFrac)
    requires a.size > 0 && b.size > 0
    ensures var x, y := a.fee as real / a.size as real, b.fee as real / b.size as real;
            && (Higher(a, b) <==> x > y) && (Lower(a, b) <==> x < y)
            && (Better(a, b) <==> x > y || (x == y && a.size < b.size))
  {
    var x, y := a.fee as real / a.size as real, b.fee as real / b.size as real;
    Quotients(x, y, a.size as real, b.size as real);
    assert x * a.size as real == a.fee as real && y * b.size as real == b.fee as real;
    assert (a.fee * b.size) as real == a.fee as real * b.size as real;
    assert (b.fee * a.size) as real == b.fee as real * a.size as real;
  }

  lemma Quotients(x: real, y: real, s: real, t: real)
    requires s > 0.0 && t > 0.0
    ensures (x > y <==> x * s * t > y * t * s) && (x < y <==> x * s * t < y * t * s)
  {
    assert x * s * t == x * (s * t) && y * t * s == y * (s * t);
    assert s * t > 0.0;
  }

  lemma CrossSign(a: FeeFrac, b: FeeFrac)
    ensures Higher(a, b) <==> Cross(a, b) > 0
    ensures Lower(a, b) <==> Cross(a, b) < 0
    ensures Lower(a, b) <==> Higher(b, a)
    ensures Cross(a, b) == -Cross(b, a)
    ensures Cross(a, a) == 0 && Cross(EMPTY, a) == 0
  {
  }

  lemma CrossPlus(a: FeeFrac, b: FeeFrac, c: FeeFrac)
    ensures Cross(a.Plus(b), c) == Cross(a, c) + Cross(b, c)
    ensures Cross(c, a.Plus(b)) == Cross(c, a) + Cross(c, b)
  {
  }

  lemma Scale(x: int, k: int)
    requires k > 0
    ensures x > 0 <==> x * k > 0
    ensures x >= 0 <==> x * k >= 0
    ensures x == 0 <==> x * k == 0
  {
  }

  /** The cross products of three FeeFracs satisfy one linear identity. */
  lemma CrossIdentity(a: FeeFrac, b: FeeFrac, c: FeeFrac)
    ensures Cross(a, c) * b.size == Cross(a, b) * c.size + Cross(b, c) * a.size
  {
    calc {
      Cross(a, b) * c.size + Cross(b, c) * a.size;
      a.fee * b.size * c.size - b.fee * a.size * c.size + b.fee * c.size * a.size - c.fee * b.size * a.size;
      { assert b.fee * a.size * c.size == b.fee * c.size * a.size; }
      a.fee * b.size * c.size - c.fee * b.size * a.size;
      { assert a.fee * b.size * c.size == a.fee * c.size * b.size; assert c.fee * b.size * a.size == c.fee * a.size * b.size; }
      Cross(a, c) * b.size;
    }
  }

  /** Feerates of non-empty FeeFracs are totally preordered. */
  lemma CrossTransitive(a: FeeFrac, b: FeeFrac, c: FeeFrac)
    requires a.size > 0 && b.size > 0 && c.size > 0
    requires Cross(a, b) >= 0 && Cross(b, c) >= 0
    ensures Cross(a, c) >= 0
    ensures Cross(a, b) > 0 || Cross(b, c) > 0 ==> Cross(a, c) > 0
  {
    CrossIdentity(a, b, c);
    Scale(Cross(a, b), c.size);
    Scale(Cross(b, c), a.size);
    Scale(Cross(a, c), b.size);
  }

  lemma BetterCross(a: FeeFrac, b: FeeFrac)
    ensures Better(a, b) <==> Cross(a, b) > 0 || (Cross(a, b) == 0 && a.size < b.size)
  {
  }

  /** The `>` order on non-empty FeeFracs is transitive. */
  lemma BetterTransitive(a: FeeFrac, b: FeeFrac, c: FeeFrac)
    requires a.size > 0 && b.size > 0 && c.size > 0 && Better(a, b) && Better(b, c)
    ensures Better(a, c)
  {
    hide Cross, Better;
    BetterCross(a, b);
    BetterCross(b, c);
    BetterCross(a, c);
    CrossTransitive(a, b, c);
    if Cross(a, b) == 0 && Cross(b, c) == 0 {
      CrossSign(a, c);
      CrossSign(a, b);
      CrossSign(b, c);
      CrossTransitive(c, b, a);
    }
  }
}
