/**
  The feerate diagram of a list of chunks as a function of size, and the theorem that
  dominance of orderings is the pointwise comparison of their diagrams.

  The diagram starts at the origin, has one straight segment per chunk and continues
  horizontally (src/util/feefrac.h, CompareChunks).
*/
module Compare {
  import opened FeeRates
  import opened Graphs
  import opened Diagrams

  ghost predicate Positive(fs: seq<FeeFrac>) {
    forall i :: 0 <= i < |fs| ==> fs[i].size > 0
  }

  /** Feerates never increase along the list. */
  ghost predicate Concave(fs: seq<FeeFrac>) {
    Positive(fs) && forall i :: 0 <= i < |fs| - 1 ==> !Higher(fs[i + 1], fs[i])
  }

  ghost function DiagramAt(fs: seq<FeeFrac>, x: real): real
    requires Positive(fs)
  {
    if fs == [] then 0.0
    else if x <= fs[0].size as real then x * (fs[0].fee as real) / (fs[0].size as real)
    else (fs[0].fee as real) + DiagramAt(fs[1..], x - fs[0].size as real)
  }

  /** The first diagram is nowhere below the second. */
  ghost predicate NowhereBelow(a: seq<FeeFrac>, b: seq<FeeFrac>)
    requires Positive(a) && Positive(b)
  {
    forall x: real :: x >= 0.0 ==> DiagramAt(a, x) >= DiagramAt(b, x)
  }

  function Total(fs: seq<FeeFrac>): FeeFrac {
    if fs == [] then EMPTY else fs[0].Plus(Total(fs[1..]))
  }

  lemma {:induction false} TotalSnoc(fs: seq<FeeFrac>)
    requires fs != []
    ensures Total(fs) == Total(fs[..|fs| - 1]).Plus(fs[|fs| - 1])
  {
    if |fs| > 1 {
      TotalSnoc(fs[1..]);
      assert fs[1..][..|fs| - 2] == fs[..|fs| - 1][1..];
    }
  }

  /** Height of a point (x, y) above the line of slope l, scaled by l.size. */
  ghost function Height(x: real, y: real, l: FeeFrac): real {
    y * (l.size as real) - (l.fee as real) * x
  }

  lemma HeightPlus(x: real, y: real, p: FeeFrac, l: FeeFrac)
    ensures Height(x + p.size as real, p.fee as real + y, l) == Cross(p, l) as real + Height(x, y, l)
  {
    var pf, ps, lf, ls := p.fee as real, p.size as real, l.fee as real, l.size as real;
    assert (pf + y) * ls == pf * ls + y * ls;
    assert lf * (x + ps) == lf * x + lf * ps;
    assert (p.fee * l.size) as real == pf * ls;
    assert (l.fee * p.size) as real == lf * ps;
  }

  lemma HeightPoint(p: FeeFrac, l: FeeFrac)
    ensures Height(p.size as real, p.fee as real, l) == Cross(p, l) as real
  {
    HeightPlus(0.0, 0.0, p, l);
  }

  lemma {:induction false} DiagramBeyond(fs: seq<FeeFrac>, x: real)
    requires Positive(fs) && x >= Total(fs).size as real
    ensures DiagramAt(fs, x) == Total(fs).fee as real
    decreases |fs|
  {
    if fs != [] {
      var f := fs[0];
      TotalSize(fs[1..]);
      if x <= f.size as real {
        assert fs[1..] == [];
        assert x == f.size as real;
        assert x * (f.fee as real) / x == f.fee as real;
      } else {
        DiagramBeyond(fs[1..], x - f.size as real);
      }
    }
  }

  lemma {:induction false} TotalSize(fs: seq<FeeFrac>)
    requires Positive(fs)
    ensures Total(fs).size >= |fs|
  {
    if fs != [] {
      TotalSize(fs[1..]);
    }
  }

  /** Every point of the diagram lies on the segment of some chunk. */
  lemma {:induction false} OnSegment(fs: seq<FeeFrac>, x: real) returns (i: nat)
    requires Positive(fs) && 0.0 <= x <= Total(fs).size as real && fs != []
    ensures i < |fs|
    ensures Height(x, DiagramAt(fs, x), fs[i]) == Cross(Total(fs[..i]), fs[i]) as real
    decreases |fs|
  {
    hide Cross;
    var f := fs[0];
    CrossSign(f, f);
    if x <= f.size as real {
      i := 0;
      var y := x * (f.fee as real) / (f.size as real);
      assert y * (f.size as real) == x * (f.fee as real);
      assert fs[..0] == [];
    } else {
      var x' := x - f.size as real;
      var j := OnSegment(fs[1..], x');
      i := j + 1;
      assert fs[..i][1..] == fs[1..][..j];
      HeightPlus(x', DiagramAt(fs[1..], x'), f, fs[i]);
      CrossPlus(f, Total(fs[1..][..j]), fs[i]);
    }
  }

  /** A diagram stays below every line that its chunk boundaries stay below. */
  lemma {:induction false} BelowLine(fs: seq<FeeFrac>, x: real, l: FeeFrac, h: int)
    requires Positive(fs) && 0.0 <= x <= Total(fs).size as real && l.size > 0
    requires forall m :: 0 <= m <= |fs| ==> Cross(Total(fs[..m]), l) <= h
    ensures Height(x, DiagramAt(fs, x), l) <= h as real
    decreases |fs|
  {
    hide Cross;
    CrossSign(l, l);
    assert fs[..0] == [];
    assert 0 == Cross(Total(fs[..0]), l) <= h;
    if fs == [] {
      HeightPoint(EMPTY, l);
    } else {
      var f := fs[0];
      assert fs[..1][1..] == [];
      assert Total(fs[..1]) == f.Plus(Total(fs[..1][1..])) == f;
      if x <= f.size as real {
        Interpolate(f, x, l, h);
        assert DiagramAt(fs, x) == x * (f.fee as real) / (f.size as real);
      } else {
        var x' := x - f.size as real;
        forall m | 0 <= m <= |fs[1..]|
          ensures Cross(Total(fs[1..][..m]), l) <= h - Cross(f, l)
        {
          assert fs[..m + 1][1..] == fs[1..][..m];
          CrossPlus(f, Total(fs[1..][..m]), l);
        }
        BelowLine(fs[1..], x', l, h - Cross(f, l));
        HeightPlus(x', DiagramAt(fs[1..], x'), f, l);
      }
    }
  }

  lemma Interpolate(f: FeeFrac, x: real, l: FeeFrac, h: int)
    requires f.size > 0 && 0.0 <= x <= f.size as real
    requires 0 <= h && Cross(f, l) <= h
    ensures Height(x, x * (f.fee as real) / (f.size as real), l) <= h as real
  {
    var s := f.size as real;
    var y := x * (f.fee as real) / s;
    var c := Cross(f, l) as real;
    HeightPoint(f, l);
    assert y * s == x * (f.fee as real);
    assert Height(x, y, l) * s == c * x by {
      var ls, lf, ff := l.size as real, l.fee as real, f.fee as real;
      calc {
        Height(x, y, l) * s;
        y * ls * s - lf * x * s;
        { assert y * ls * s == (y * s) * ls; }
        (y * s) * ls - lf * x * s;
        x * ff * ls - lf * x * s;
        { assert x * ff * ls == (ff * ls) * x; assert lf * x * s == (lf * s) * x; }
        (ff * ls - lf * s) * x;
        c * x;
      }
    }
    ScaledBound(Height(x, y, l), c, x, s, h as real);
  }

  lemma ScaledBound(y: real, c: real, x: real, s: real, h: real)
    requires y * s == c * x && 0.0 <= x <= s && s > 0.0 && c <= h && 0.0 <= h
    ensures y <= h
  {
    if c <= 0.0 {
      MulOrder(c, 0.0, x);
    } else {
      MulOrder(x, s, c);
      MulOrder(c, h, s);
    }
    MulOrder(0.0, h, s);
    MulOrder(y, h, s);
  }

  lemma MulOrder(a: real, b: real, s: real)
    requires s >= 0.0
    ensures a <= b ==> a * s <= b * s
    ensures s > 0.0 && a * s <= b * s ==> a <= b
  {
  }

  /** Non-increasing feerates stay ordered at a distance. */
  lemma {:induction false} ConcaveOrder(fs: seq<FeeFrac>, i: nat, j: nat)
    requires Concave(fs) && i <= j < |fs|
    ensures Cross(fs[i], fs[j]) >= 0
    decreases j - i
  {
    if i < j {
      ConcaveOrder(fs, i, j - 1);
      CrossSign(fs[j], fs[j - 1]);
      assert !Higher(fs[j - 1 + 1], fs[j - 1]);
      CrossTransitive(fs[i], fs[j - 1], fs[j]);
    }
  }

  /** Above a line parallel to chunk i, no chunk boundary is higher than the start of chunk i. */
  lemma {:induction false} SupportLine(fs: seq<FeeFrac>, i: nat, m: nat)
    requires Concave(fs) && i < |fs| && m <= |fs|
    ensures Cross(Total(fs[..m]), fs[i]) <= Cross(Total(fs[..i]), fs[i])
    decreases if m < i then i - m else m - i
  {
    hide Cross, Higher, Total;
    if m > i {
      SupportLine(fs, i, m - 1);
      TotalSnoc(fs[..m]);
      assert fs[..m][..m - 1] == fs[..m - 1];
      ConcaveOrder(fs, i, m - 1);
      CrossSign(fs[i], fs[m - 1]);
      CrossPlus(Total(fs[..m - 1]), fs[m - 1], fs[i]);
    } else if m < i {
      SupportLine(fs, i, m + 1);
      TotalSnoc(fs[..m + 1]);
      assert fs[..m + 1][..m] == fs[..m];
      ConcaveOrder(fs, m, i);
      CrossPlus(Total(fs[..m]), fs[m], fs[i]);
    }
  }

  // ---------- diagrams of orderings ----------

  /** The feerates of the blocks; of a chunked ordering, what ChunkLinearization returns. */
  function Feerates(g: Graph, blocks: seq<seq<nat>>): (fs: seq<FeeFrac>)
    ensures |fs| == |blocks|
    ensures forall i :: 0 <= i < |blocks| ==> fs[i] == Sum(g, blocks[i])
  {
    seq(|blocks|, i requires 0 <= i < |blocks| => Sum(g, blocks[i]))
  }

  function ChunkFeerates(g: Graph, s: seq<nat>): seq<FeeFrac> {
    Feerates(g, Chunks(g, s))
  }

  lemma ChunkFeeratesConcave(g: Graph, s: seq<nat>)
    requires Sized(g, s)
    ensures Concave(ChunkFeerates(g, s))
  {
    ChunksIsChunking(g, s);
    var blocks := Chunks(g, s);
    forall i | 0 <= i < |blocks|
      ensures Sum(g, blocks[i]).size > 0
    {
      SumSize(g, blocks[i]);
    }
  }

  lemma {:induction false} BoundaryTotals(g: Graph, blocks: seq<seq<nat>>, m: nat)
    requires m <= |blocks|
    ensures Total(Feerates(g, blocks)[..m]) == Sum(g, Concat(blocks[..m]))
  {
    if m > 0 {
      BoundaryTotals(g, blocks, m - 1);
      BoundaryTotalsStep(g, blocks, m);
    }
  }

  lemma BoundaryTotalsStep(g: Graph, blocks: seq<seq<nat>>, m: nat)
    requires 0 < m <= |blocks|
    requires Total(Feerates(g, blocks)[..m - 1]) == Sum(g, Concat(blocks[..m - 1]))
    ensures Total(Feerates(g, blocks)[..m]) == Sum(g, Concat(blocks[..m]))
  {
    hide Total, Sum;
    var fs, prev := Feerates(g, blocks), Concat(blocks[..m - 1]);
    TotalSnoc(fs[..m]);
    assert fs[..m][..m - 1] == fs[..m - 1];
    assert Concat(blocks[..m]) == prev + blocks[m - 1] by {
      assert blocks[..m][..m - 1] == blocks[..m - 1];
    }
    SumConcat(g, prev, blocks[m - 1]);
  }

  lemma ChunkTotals(g: Graph, s: seq<nat>)
    requires Sized(g, s)
    ensures Total(ChunkFeerates(g, s)) == Sum(g, s)
  {
    ChunksIsChunking(g, s);
    var blocks := Chunks(g, s);
    BoundaryTotals(g, blocks, |blocks|);
    assert blocks[..|blocks|] == blocks;
    assert ChunkFeerates(g, s)[..|blocks|] == ChunkFeerates(g, s);
  }

  lemma {:induction false} ConcatBounds(blocks: seq<seq<nat>>, m: nat)
    requires m <= |blocks|
    ensures |Concat(blocks[..m])| <= |Concat(blocks)|
    ensures Concat(blocks)[..|Concat(blocks[..m])|] == Concat(blocks[..m])
  {
    ConcatAppend(blocks[..m], blocks[m..]);
    assert blocks == blocks[..m] + blocks[m..];
  }

  /** No prefix point lies above the ordering's own diagram. */
  lemma PointBelowDiagram(g: Graph, s: seq<nat>, k: nat)
    requires Sized(g, s) && k <= |s|
    ensures Positive(ChunkFeerates(g, s))
    ensures Point(g, s, k).fee as real <= DiagramAt(ChunkFeerates(g, s), Point(g, s, k).size as real)
  {
    hide Cross, Higher, Sum, Total, Chunks;
    ChunkFeeratesConcave(g, s);
    ChunkTotals(g, s);
    ChunksIsChunking(g, s);
    var blocks, fs, p := Chunks(g, s), ChunkFeerates(g, s), Point(g, s, k);
    SumSize(g, s[..k]);
    SumSize(g, s[k..]);
    SumSplit(g, s, k);
    if fs == [] {
      assert s == [];
    } else {
      var x := p.size as real;
      var i := OnSegment(fs, x);
      var m := BoundaryReaches(g, blocks, fs[i], k);
      BoundaryTotals(g, blocks, m);
      SupportLine(fs, i, m);
      HeightPoint(p, fs[i]);
      assert Height(x, p.fee as real, fs[i]) <= Height(x, DiagramAt(fs, x), fs[i]);
      HeightOrder(x, p.fee as real, DiagramAt(fs, x), fs[i]);
    }
  }

  lemma HeightOrder(x: real, y: real, y': real, l: FeeFrac)
    requires l.size > 0 && Height(x, y, l) <= Height(x, y', l)
    ensures y <= y'
  {
    MulOrder(y, y', l.size as real);
  }

  lemma DominatesIsNowhereBelow(g: Graph, a: seq<nat>, b: seq<nat>)
    requires Sized(g, a) && Sized(g, b) && Sum(g, a) == Sum(g, b)
    requires Dominates(g, a, b)
    ensures Positive(ChunkFeerates(g, a)) && Positive(ChunkFeerates(g, b))
    ensures NowhereBelow(ChunkFeerates(g, a), ChunkFeerates(g, b))
  {
    ChunkFeeratesConcave(g, a);
    ChunkFeeratesConcave(g, b);
    ChunkTotals(g, a);
    ChunkTotals(g, b);
    var fa, fb := ChunkFeerates(g, a), ChunkFeerates(g, b);
    forall x: real | x >= 0.0
      ensures DiagramAt(fa, x) >= DiagramAt(fb, x)
    {
      if x >= Total(fa).size as real {
        DiagramBeyond(fa, x);
        DiagramBeyond(fb, x);
      } else {
        assert fa != [];
        var i := OnSegment(fa, x);
        var l := fa[i];
        var h := Cross(Total(fa[..i]), l);
        forall m | 0 <= m <= |fb|
          ensures Cross(Total(fb[..m]), l) <= h
        {
          BoundaryUnderSupport(g, a, b, i, m);
        }
        BelowLine(fb, x, l, h);
        HeightOrder(x, DiagramAt(fb, x), DiagramAt(fa, x), l);
      }
    }
  }

  lemma BoundaryUnderSupport(g: Graph, a: seq<nat>, b: seq<nat>, i: nat, m: nat)
    requires Sized(g, a) && Sized(g, b) && Dominates(g, a, b)
    requires i < |ChunkFeerates(g, a)| && m <= |ChunkFeerates(g, b)|
    ensures Cross(Total(ChunkFeerates(g, b)[..m]), ChunkFeerates(g, a)[i])
         <= Cross(Total(ChunkFeerates(g, a)[..i]), ChunkFeerates(g, a)[i])
  {
    hide Cross, Higher, Sum, Total, Chunks;
    ChunkFeeratesConcave(g, a);
    ChunksIsChunking(g, a);
    var l := ChunkFeerates(g, a)[i];
    BoundaryIsPoint(g, b, m);
    var k :| 0 <= k <= |b| && Point(g, b, k) == Total(ChunkFeerates(g, b)[..m]);
    assert Reaches(g, a, l, Cross(Point(g, b, k), l));
    var j :| 0 <= j <= |a| && Cross(Point(g, a, j), l) >= Cross(Point(g, b, k), l);
    var n := BoundaryReaches(g, Chunks(g, a), l, j);
    BoundaryTotals(g, Chunks(g, a), n);
    SupportLine(ChunkFeerates(g, a), i, n);
  }

  /** Above any line, some chunk boundary is as high as a given point under the diagram. */
  lemma BoundaryAbove(fs: seq<FeeFrac>, p: FeeFrac, l: FeeFrac) returns (m: nat)
    requires Positive(fs) && 0 <= p.size <= Total(fs).size && l.size > 0
    requires p.fee as real <= DiagramAt(fs, p.size as real)
    ensures m <= |fs| && Cross(Total(fs[..m]), l) >= Cross(p, l)
  {
    hide Cross, DiagramAt, Total;
    var h, x := Cross(p, l), p.size as real;
    HeightPoint(p, l);
    MulOrder(p.fee as real, DiagramAt(fs, x), l.size as real);
    if forall i :: 0 <= i <= |fs| ==> Cross(Total(fs[..i]), l) <= h - 1 {
      BelowLine(fs, x, l, h - 1);
      assert false;
    }
    m :| 0 <= m <= |fs| && Cross(Total(fs[..m]), l) > h - 1;
  }

  lemma NowhereBelowDominates(g: Graph, a: seq<nat>, b: seq<nat>)
    requires Sized(g, a) && Sized(g, b) && Sum(g, a) == Sum(g, b)
    requires Positive(ChunkFeerates(g, a)) && Positive(ChunkFeerates(g, b))
    requires NowhereBelow(ChunkFeerates(g, a), ChunkFeerates(g, b))
    ensures Dominates(g, a, b)
  {
    hide Cross, Sum, Total, Chunks;
    forall slope: FeeFrac, k | slope.size > 0 && 0 <= k <= |b|
      ensures Reaches(g, a, slope, Cross(Point(g, b, k), slope))
    {
      var p := Point(g, b, k);
      SumSize(g, b[..k]);
      SumSize(g, b[k..]);
      SumSplit(g, b, k);
      PointBelowDiagram(g, b, k);
      ChunkTotals(g, a);
      var m := BoundaryAbove(ChunkFeerates(g, a), p, slope);
      BoundaryIsPoint(g, a, m);
    }
  }

  lemma BoundaryIsPoint(g: Graph, s: seq<nat>, m: nat)
    requires Sized(g, s) && m <= |Chunks(g, s)|
    ensures exists k :: 0 <= k <= |s| && Point(g, s, k) == Total(ChunkFeerates(g, s)[..m])
  {
    ChunksIsChunking(g, s);
    var blocks := Chunks(g, s);
    BoundaryTotals(g, blocks, m);
    ConcatBounds(blocks, m);
    assert Point(g, s, |Concat(blocks[..m])|) == Total(ChunkFeerates(g, s)[..m]);
  }

  /** One ordering dominates another exactly when its diagram is nowhere below the other's. */
  lemma DiagramTheorem(g: Graph, a: seq<nat>, b: seq<nat>)
    requires Sized(g, a) && Sized(g, b) && Sum(g, a) == Sum(g, b)
    ensures Positive(ChunkFeerates(g, a)) && Positive(ChunkFeerates(g, b))
    ensures Dominates(g, a, b) <==> NowhereBelow(ChunkFeerates(g, a), ChunkFeerates(g, b))
  {
    ChunkFeeratesConcave(g, a);
    ChunkFeeratesConcave(g, b);
    if Dominates(g, a, b) {
      DominatesIsNowhereBelow(g, a, b);
    }
    if NowhereBelow(ChunkFeerates(g, a), ChunkFeerates(g, b)) {
      NowhereBelowDominates(g, a, b);
    }
  }
}
