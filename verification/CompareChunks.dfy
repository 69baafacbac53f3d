/** Comparing two feerate diagrams (src/util/feefrac.cpp:10-73): the answer is right at every real size. */
module ChunkComparison {
  import opened FeeRates
  import opened Compare

  datatype PartialOrdering = Less | Equivalent | Greater | Unordered

  /** The line from a point with a given slope. */
  ghost function Line(p: FeeFrac, slope: FeeFrac, x: real): real
    requires slope.size > 0
  {
    p.fee as real + (x - p.size as real) * (slope.fee as real / slope.size as real)
  }

  /** The slope behind the first i chunks; horizontal behind the last. */
  function SlopeAt(fs: seq<FeeFrac>, i: nat): FeeFrac
    requires i <= |fs|
  {
    if i < |fs| then fs[i] else FeeFrac(0, 1)
  }

  ghost function Prefix(fs: seq<FeeFrac>, i: nat): FeeFrac
    requires i <= |fs|
  {
    Total(fs[..i])
  }

  lemma PrefixNext(fs: seq<FeeFrac>, i: nat)
    requires i < |fs|
    ensures Prefix(fs, i + 1) == Prefix(fs, i).Plus(fs[i])
  {
    TotalSnoc(fs[..i + 1]);
    assert fs[..i + 1][..i] == fs[..i];
  }

  lemma PrefixTail(fs: seq<FeeFrac>, i: nat)
    requires 0 < i <= |fs|
    ensures Prefix(fs, i) == fs[0].Plus(Prefix(fs[1..], i - 1))
  {
    assert fs[..i][1..] == fs[1..][..i - 1];
  }

  lemma {:induction false} PrefixSize(fs: seq<FeeFrac>, i: nat)
    requires Positive(fs) && i <= |fs|
    ensures Prefix(fs, i).size >= i
  {
    if i > 0 {
      PrefixSize(fs, i - 1);
      PrefixNext(fs, i - 1);
    }
  }

  /** On the segment of chunk i, the diagram is the line along it. */
  lemma {:induction false} OnLine(fs: seq<FeeFrac>, i: nat, x: real)
    requires Positive(fs) && i < |fs| && Prefix(fs, i).size as real <= x <= Prefix(fs, i + 1).size as real
    ensures DiagramAt(fs, x) == Line(Prefix(fs, i), fs[i], x)
    decreases i
  {
    hide Prefix, Line, DiagramAt;
    var f := fs[0];
    if i == 0 {
      PrefixStart(fs);
      PrefixNext(fs, 0);
      LineStart(f, x);
      FirstSegment(fs, x);
    } else {
      PrefixTail(fs, i);
      PrefixTail(fs, i + 1);
      PrefixSize(fs[1..], i - 1);
      OnLine(fs[1..], i - 1, x - f.size as real);
      LineShift(f, Prefix(fs[1..], i - 1), fs[i], x);
      LaterSegment(fs, x);
    }
  }

  lemma FirstSegment(fs: seq<FeeFrac>, x: real)
    requires Positive(fs) && fs != [] && x <= fs[0].size as real
    ensures DiagramAt(fs, x) == x * (fs[0].fee as real) / (fs[0].size as real)
  {
  }

  lemma LaterSegment(fs: seq<FeeFrac>, x: real)
    requires Positive(fs) && fs != [] && x >= fs[0].size as real
    ensures DiagramAt(fs, x) == fs[0].fee as real + DiagramAt(fs[1..], x - fs[0].size as real)
  {
    if x == fs[0].size as real {
      DiagramStart(fs[1..]);
      WholeChunk(fs[0]);
    }
  }

  lemma WholeChunk(f: FeeFrac)
    requires f.size > 0
    ensures f.size as real * (f.fee as real) / (f.size as real) == f.fee as real
  {
  }

  lemma LineStart(f: FeeFrac, x: real)
    requires f.size > 0
    ensures Line(EMPTY, f, x) == x * (f.fee as real) / (f.size as real)
  {
    MulDiv(x, f.fee as real, f.size as real);
  }

  lemma LineShift(f: FeeFrac, p: FeeFrac, slope: FeeFrac, x: real)
    requires slope.size > 0
    ensures Line(f.Plus(p), slope, x) == f.fee as real + Line(p, slope, x - f.size as real)
  {
    assert x - f.Plus(p).size as real == x - f.size as real - p.size as real;
  }

  lemma PrefixStart(fs: seq<FeeFrac>)
    ensures Prefix(fs, 0) == EMPTY
  {
  }

  lemma MulDiv(x: real, y: real, z: real)
    requires z > 0.0
    ensures x * y / z == x * (y / z)
  {
  }

  // ---------- two diagrams between two sizes ----------

  /** The first i chunks, but not chunk i, end at or before size s. */
  ghost predicate At(fs: seq<FeeFrac>, i: nat, s: int) {
    i <= |fs| && Prefix(fs, i).size <= s && (i < |fs| ==> s < Prefix(fs, i + 1).size)
  }

  /** Up to size t, nothing ends after the first i chunks. */
  ghost predicate Until(fs: seq<FeeFrac>, i: nat, t: int) {
    i < |fs| ==> t <= Prefix(fs, i + 1).size
  }

  lemma Straight(fs: seq<FeeFrac>, i: nat, s: int, t: int, x: real)
    requires Positive(fs) && At(fs, i, s) && Until(fs, i, t) && s as real <= x <= t as real
    ensures SlopeAt(fs, i).size > 0 && DiagramAt(fs, x) == Line(Prefix(fs, i), SlopeAt(fs, i), x)
  {
    if i < |fs| {
      OnLine(fs, i, x);
    } else {
      assert fs[..i] == fs;
      DiagramBeyond(fs, x);
      assert 0.0 / 1.0 == 0.0;
    }
  }

  ghost predicate Above(a: seq<FeeFrac>, b: seq<FeeFrac>, x: real)
    requires Positive(a) && Positive(b)
  {
    DiagramAt(a, x) > DiagramAt(b, x)
  }

  /** Whether the first diagram is above the second anywhere up to size s. */
  ghost predicate Swept(a: seq<FeeFrac>, b: seq<FeeFrac>, s: int, better: bool)
    requires Positive(a) && Positive(b)
  {
    better <==> exists x: real :: 0.0 <= x <= s as real && Above(a, b, x)
  }

  /** Between sizes at which nothing ends, one diagram can be above the other only if it is so at one of them. */
  lemma LinesCross(p: FeeFrac, f: FeeFrac, q: FeeFrac, g: FeeFrac, s: real, t: real, x: real)
    requires f.size > 0 && g.size > 0 && s <= x <= t && Line(p, f, x) > Line(q, g, x)
    ensures Line(p, f, s) > Line(q, g, s) || Line(p, f, t) > Line(q, g, t)
  {
    var m, n := f.fee as real / f.size as real, g.fee as real / g.size as real;
    var k := m - n;
    Difference(p, f, q, g, x, s);
    Difference(p, f, q, g, x, t);
    if k >= 0.0 {
      MulOrder(0.0, k, t - x);
    } else {
      MulOrder(0.0, -k, x - s);
      assert k * (s - x) == -k * (x - s);
    }
  }

  lemma Difference(p: FeeFrac, f: FeeFrac, q: FeeFrac, g: FeeFrac, x: real, y: real)
    requires f.size > 0 && g.size > 0
    ensures Line(p, f, y) - Line(q, g, y)
         == Line(p, f, x) - Line(q, g, x) + (f.fee as real / f.size as real - g.fee as real / g.size as real) * (y - x)
  {
    Along(p, f, x, y);
    Along(q, g, x, y);
  }

  lemma Along(p: FeeFrac, f: FeeFrac, x: real, y: real)
    requires f.size > 0
    ensures Line(p, f, y) == Line(p, f, x) + (f.fee as real / f.size as real) * (y - x)
  {
  }

  lemma SweepStep(a: seq<FeeFrac>, i: nat, b: seq<FeeFrac>, j: nat, s: int, t: int, better: bool)
    requires Positive(a) && Positive(b) && At(a, i, s) && At(b, j, s) && Until(a, i, t) && Until(b, j, t) && 0 <= s < t
    requires Swept(a, b, s, better)
    ensures Swept(a, b, t, better || Above(a, b, t as real))
  {
    hide Line, DiagramAt, Prefix, SlopeAt;
    forall x: real | 0.0 <= x <= t as real && Above(a, b, x)
      ensures better || Above(a, b, t as real)
    {
      if x > s as real {
        Straight(a, i, s, t, x);
        Straight(b, j, s, t, x);
        Straight(a, i, s, t, s as real);
        Straight(b, j, s, t, s as real);
        Straight(a, i, s, t, t as real);
        Straight(b, j, s, t, t as real);
        LinesCross(Prefix(a, i), SlopeAt(a, i), Prefix(b, j), SlopeAt(b, j), s as real, t as real, x);
        assert Above(a, b, s as real) ==> 0.0 <= s as real <= s as real;
      }
    }
    if better {
      var x: real :| 0.0 <= x <= s as real && Above(a, b, x);
      assert 0.0 <= x <= t as real;
    }
    assert Above(a, b, t as real) ==> 0.0 <= t as real <= t as real;
  }

  /** Once both diagrams have become horizontal, nothing changes any more. */
  lemma SweepEnd(a: seq<FeeFrac>, b: seq<FeeFrac>, s: int, better: bool)
    requires Positive(a) && Positive(b) && At(a, |a|, s) && At(b, |b|, s) && s >= 0 && Swept(a, b, s, better)
    ensures better <==> !NowhereBelow(b, a)
  {
    hide DiagramAt;
    assert a[..|a|] == a && b[..|b|] == b;
    forall x: real | x >= 0.0 && Above(a, b, x)
      ensures better
    {
      if x > s as real {
        DiagramBeyond(a, x);
        DiagramBeyond(b, x);
        DiagramBeyond(a, s as real);
        DiagramBeyond(b, s as real);
        assert Above(a, b, s as real);
      }
    }
    if better {
      var x: real :| 0.0 <= x <= s as real && Above(a, b, x);
    }
    if !NowhereBelow(b, a) {
      var x: real :| x >= 0.0 && DiagramAt(b, x) < DiagramAt(a, x);
      assert Above(a, b, x);
    }
  }

  /** Something found on the way stays found. */
  lemma SweptSoFar(a: seq<FeeFrac>, b: seq<FeeFrac>, s: int)
    requires Positive(a) && Positive(b) && Swept(a, b, s, true)
    ensures !NowhereBelow(b, a)
  {
    hide DiagramAt;
    var x: real :| 0.0 <= x <= s as real && Above(a, b, x);
  }

  // ---------- comparing slopes ----------

  /** Comparing the slopes of AP and AB tells on which side of AB the point P is. */
  lemma SlopeTells(p: FeeFrac, a: FeeFrac, slope: FeeFrac)
    requires slope.size > 0 && p.size > a.size
    ensures Cross(p.Minus(a), slope) > 0 <==> p.fee as real > Line(a, slope, p.size as real)
    ensures Cross(p.Minus(a), slope) < 0 <==> p.fee as real < Line(a, slope, p.size as real)
  {
    var d := p.Minus(a);
    var r := slope.fee as real / slope.size as real;
    var z := d.fee as real - d.size as real * r;
    assert z == p.fee as real - Line(a, slope, p.size as real);
    assert Cross(d, slope) as real == z * slope.size as real by {
      CrossReal(d, slope);
    }
    MulOrder(0.0, z, slope.size as real);
    MulOrder(z, 0.0, slope.size as real);
  }

  lemma CrossReal(d: FeeFrac, slope: FeeFrac)
    requires slope.size > 0
    ensures Cross(d, slope) as real == (d.fee as real - d.size as real * (slope.fee as real / slope.size as real)) * slope.size as real
  {
    var sf, ss, df, ds := slope.fee as real, slope.size as real, d.fee as real, d.size as real;
    var r := sf / ss;
    assert r * ss == sf;
    assert (d.fee * slope.size) as real == df * ss && (slope.fee * d.size) as real == sf * ds;
    assert (df - ds * r) * ss == df * ss - ds * (r * ss);
  }

  // ---------- the algorithm ----------

  /** Comparing at the end P of the next chunk of one diagram, with the other one straight up to there. */
  lemma ComparedAt(a: seq<FeeFrac>, i: nat, b: seq<FeeFrac>, j: nat, s: int)
    requires Positive(a) && Positive(b) && At(a, i, s) && At(b, j, s) && i < |a|
    requires Until(b, j, Prefix(a, i + 1).size)
    ensures var p := Prefix(a, i + 1);
            && p.size > Prefix(b, j).size && SlopeAt(b, j).size > 0
            && (Cross(p.Minus(Prefix(b, j)), SlopeAt(b, j)) > 0 <==> Above(a, b, p.size as real))
            && (Cross(p.Minus(Prefix(b, j)), SlopeAt(b, j)) < 0 <==> Above(b, a, p.size as real))
  {
    hide DiagramAt, Line, Cross;
    var p := Prefix(a, i + 1);
    PrefixNext(a, i);
    Straight(b, j, s, p.size, p.size as real);
    SlopeTells(p, Prefix(b, j), SlopeAt(b, j));
    AtEnd(a, i);
  }

  /** A diagram goes through the ends of its chunks. */
  lemma AtEnd(a: seq<FeeFrac>, i: nat)
    requires Positive(a) && i < |a|
    ensures DiagramAt(a, Prefix(a, i + 1).size as real) == Prefix(a, i + 1).fee as real
  {
    hide DiagramAt, Prefix;
    var p, q, f := Prefix(a, i), Prefix(a, i + 1), a[i];
    PrefixNext(a, i);
    OnLine(a, i, q.size as real);
    var r := f.fee as real / f.size as real;
    assert q.size as real - p.size as real == f.size as real;
    assert f.size as real * r == f.fee as real;
  }

  /** The state of the comparison after everything up to size s. */
  ghost predicate Compared(chunk: seq<seq<FeeFrac>>, next: seq<nat>, accum: seq<FeeFrac>, better: seq<bool>, s: int) {
    && |chunk| == |next| == |accum| == |better| == 2 && s >= 0
    && (forall d :: 0 <= d < 2 ==> Side(chunk[d], next[d], accum[d], s))
    && Swept(chunk[0], chunk[1], s, better[0]) && Swept(chunk[1], chunk[0], s, better[1])
  }

  lemma ComparedNone(chunk: seq<seq<FeeFrac>>)
    requires |chunk| == 2 && Positive(chunk[0]) && Positive(chunk[1])
    ensures Compared(chunk, [0, 0], [EMPTY, EMPTY], [false, false], 0)
  {
    hide Swept, At, Prefix;
    AtStart(chunk[0]);
    AtStart(chunk[1]);
    SweptNone(chunk[0], chunk[1]);
    SweptNone(chunk[1], chunk[0]);
  }

  lemma AtStart(fs: seq<FeeFrac>)
    requires Positive(fs)
    ensures At(fs, 0, 0) && Prefix(fs, 0) == EMPTY
  {
    hide Prefix;
    PrefixStart(fs);
    if |fs| > 0 {
      PrefixNext(fs, 0);
    }
  }

  lemma SweptNone(a: seq<FeeFrac>, b: seq<FeeFrac>)
    requires Positive(a) && Positive(b)
    ensures Swept(a, b, 0, false)
  {
    hide DiagramAt;
    DiagramStart(a);
    DiagramStart(b);
  }

  lemma DiagramStart(fs: seq<FeeFrac>)
    requires Positive(fs)
    ensures DiagramAt(fs, 0.0) == 0.0
  {
  }

  lemma AtNext(fs: seq<FeeFrac>, i: nat, s: int, t: int)
    requires Positive(fs) && At(fs, i, s) && Until(fs, i, t) && s < t
    ensures i < |fs| && Prefix(fs, i + 1).size == t ==> At(fs, i + 1, t)
    ensures i == |fs| || Prefix(fs, i + 1).size != t ==> At(fs, i, t)
  {
    hide Prefix;
    if i + 1 < |fs| {
      PrefixNext(fs, i + 1);
    }
  }

  /** One diagram, processed up to size s. */
  ghost predicate Side(fs: seq<FeeFrac>, i: nat, accum: FeeFrac, s: int) {
    Positive(fs) && At(fs, i, s) && accum == Prefix(fs, i)
  }

  /** Compares the next point P of one diagram with the other diagram, whose next point B is not before P. */
  method ComparePoint(a: seq<FeeFrac>, i: nat, accumA: FeeFrac, b: seq<FeeFrac>, j: nat, accumB: FeeFrac, ghost s: int)
    returns (higher: bool, lower: bool, i': nat, accumA': FeeFrac, j': nat, accumB': FeeFrac)
    requires Side(a, i, accumA, s) && Side(b, j, accumB, s) && i < |a| && Until(b, j, Prefix(a, i + 1).size)
    ensures i' == i + 1 && j <= j' <= |b| && accumA'.size > s && Until(a, i, accumA'.size) && Until(b, j, accumA'.size)
    ensures Side(a, i', accumA', accumA'.size) && Side(b, j', accumB', accumA'.size)
    ensures higher <==> Above(a, b, accumA'.size as real)
    ensures lower <==> Above(b, a, accumA'.size as real)
  {
    hide DiagramAt, Prefix, Cross, Above, Higher, Lower;
    PrefixNext(a, i);
    i', accumA' := i + 1, accumA.Plus(a[i]);
    j', accumB' := j, accumB;
    var slopeAP := accumA'.Minus(accumB);
    var slopeAB := FeeFrac(0, 1);
    if j < |b| {
      PrefixNext(b, j);
      var pointB := accumB.Plus(b[j]);
      slopeAB := pointB.Minus(accumB);
      assert slopeAB == b[j];
      if pointB.size == accumA'.size {
        j', accumB' := j + 1, pointB;
      }
    }
    ComparedAt(a, i, b, j, s);
    AtNext(a, i, s, accumA'.size);
    AtNext(b, j, s, accumA'.size);
    CrossSign(slopeAP, slopeAB);
    higher, lower := Higher(slopeAP, slopeAB), Lower(slopeAP, slopeAB);
  }

  /** One round: the diagram that has the first unprocessed point is compared there with the other one. */
  method CompareNext(chunk: seq<seq<FeeFrac>>, next: seq<nat>, accum: seq<FeeFrac>, better: seq<bool>, ghost s: int)
    returns (next': seq<nat>, accum': seq<FeeFrac>, better': seq<bool>, ghost t: int)
    requires Compared(chunk, next, accum, better, s) && (next[0] < |chunk[0]| || next[1] < |chunk[1]|)
    ensures Compared(chunk, next', accum', better', t)
    ensures next[0] <= next'[0] <= |chunk[0]| && next[1] <= next'[1] <= |chunk[1]| && next[0] + next[1] < next'[0] + next'[1]
  {
    hide Swept, DiagramAt, Prefix, Above, At;
    NextPoints(chunk, next, accum, s);
    var done0, done1 := next[0] == |chunk[0]|, next[1] == |chunk[1]|;
    var unproc: nat := if done0 || done1 then (if done0 then 1 else 0)
                       else if accum[0].Plus(chunk[0][next[0]]).size > accum[1].Plus(chunk[1][next[1]]).size then 1 else 0;
    var other: nat := 1 - unproc;
    var higher, lower, i, p, j, q := ComparePoint(chunk[unproc], next[unproc], accum[unproc], chunk[other], next[other], accum[other], s);
    t := p.size;
    SweepStep(chunk[unproc], next[unproc], chunk[other], next[other], s, t, better[unproc]);
    SweepStep(chunk[other], next[other], chunk[unproc], next[unproc], s, t, better[other]);
    next', accum' := next[unproc := i][other := j], accum[unproc := p][other := q];
    better' := better[unproc := better[unproc] || higher][other := better[other] || lower];
  }

  lemma NextPoints(chunk: seq<seq<FeeFrac>>, next: seq<nat>, accum: seq<FeeFrac>, s: int)
    requires |chunk| == |next| == |accum| == 2 && forall d :: 0 <= d < 2 ==> Side(chunk[d], next[d], accum[d], s)
    ensures forall d :: 0 <= d < 2 ==> next[d] <= |chunk[d]|
    ensures forall d :: 0 <= d < 2 && next[d] < |chunk[d]| ==> Prefix(chunk[d], next[d] + 1) == accum[d].Plus(chunk[d][next[d]])
  {
    hide Prefix;
    forall d | 0 <= d < 2 && next[d] < |chunk[d]|
      ensures Prefix(chunk[d], next[d] + 1) == accum[d].Plus(chunk[d][next[d]])
    {
      PrefixNext(chunk[d], next[d]);
    }
  }

  /** The comparison of two diagrams at every real size. */
  method CompareChunks(chunks0: seq<FeeFrac>, chunks1: seq<FeeFrac>) returns (r: PartialOrdering)
    requires Positive(chunks0) && Positive(chunks1)
    ensures NowhereBelow(chunks0, chunks1) <==> r == Greater || r == Equivalent
    ensures NowhereBelow(chunks1, chunks0) <==> r == Less || r == Equivalent
  {
    hide Swept, NowhereBelow, At, Prefix;
    var chunk := [chunks0, chunks1];
    var next: seq<nat>, accum, better := [0, 0], [EMPTY, EMPTY], [false, false];
    ghost var s := 0;
    ComparedNone(chunk);
    while next[0] < |chunks0| || next[1] < |chunks1|
      invariant |next| == |accum| == |better| == 2 && next[0] <= |chunks0| && next[1] <= |chunks1|
      invariant Compared(chunk, next, accum, better, s) && !(better[0] && better[1])
      decreases |chunks0| + |chunks1| - next[0] - next[1]
    {
      next, accum, better, s := CompareNext(chunk, next, accum, better, s);
      if better[0] && better[1] {
        SweptSoFar(chunks0, chunks1, s);
        SweptSoFar(chunks1, chunks0, s);
        return Unordered;
      }
    }
    SweepEnd(chunks0, chunks1, s, better[0]);
    SweepEnd(chunks1, chunks0, s, better[1]);
    r := if better[0] == better[1] then Equivalent else if better[0] then Greater else Less;
  }
}
