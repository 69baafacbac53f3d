/**
  Orderings of transactions, their feerate diagrams, and chunkings.

  The diagram of an ordering is the concave hull of its prefix points (cumulative size,
  cumulative fee). `Dominates` compares two orderings by support lines: for every slope,
  the highest prefix point of the first is at least as high as every prefix point of the
  second. DiagramTheorem (Compare.dfy) shows that this is the comparison of the piecewise
  linear diagrams themselves.
*/
module Diagrams {
  import opened FeeRates
  import opened Graphs

  // ---------- orderings ----------

  function Elems(s: seq<nat>): set<nat> {
    set x | x in s
  }

  ghost predicate Distinct(s: seq<nat>) {
    forall i, j :: 0 <= i < j < |s| ==> s[i] != s[j]
  }

  /** No element comes before one of its ancestors. */
  ghost predicate Topo(g: Graph, s: seq<nat>) {
    forall i, j :: 0 <= i < j < |s| ==> s[j] !in g.Anc(s[i])
  }

  ghost predicate IsLinearization(g: Graph, s: seq<nat>) {
    Distinct(s) && Elems(s) == g.used && Topo(g, s)
  }

  ghost predicate Sized(g: Graph, s: seq<nat>) {
    forall i :: 0 <= i < |s| ==> s[i] < |g.entries| && g.Fee(s[i]).size > 0
  }

  function Sum(g: Graph, s: seq<nat>): FeeFrac {
    if s == [] then EMPTY else Sum(g, s[..|s| - 1]).Plus(g.Fee(s[|s| - 1]))
  }

  lemma {:induction false} SumConcat(g: Graph, a: seq<nat>, b: seq<nat>)
    ensures Sum(g, a + b) == Sum(g, a).Plus(Sum(g, b))
  {
    if b == [] {
      assert a + b == a;
    } else {
      assert (a + b)[..|a + b| - 1] == a + b[..|b| - 1];
      SumConcat(g, a, b[..|b| - 1]);
    }
  }

  lemma SumSplit(g: Graph, s: seq<nat>, k: nat)
    requires k <= |s|
    ensures Sum(g, s) == Sum(g, s[..k]).Plus(Sum(g, s[k..]))
  {
    assert s == s[..k] + s[k..];
    SumConcat(g, s[..k], s[k..]);
  }

  lemma {:induction false} SumSize(g: Graph, s: seq<nat>)
    requires Sized(g, s)
    ensures Sum(g, s).size >= |s|
    ensures s != [] ==> Sum(g, s).size > 0
  {
    if s != [] {
      SumSize(g, s[..|s| - 1]);
    }
  }

  /** The aggregate of an ordering is the aggregate of its set of elements. */
  lemma {:induction false} SumElems(g: Graph, s: seq<nat>)
    requires Distinct(s)
    ensures Sum(g, s) == FeeRate(g, Elems(s))
  {
    if s == [] {
      assert Elems(s) == {};
      FeeRateSingleton(g, 0);
    } else {
      var init, last := s[..|s| - 1], s[|s| - 1];
      SumElems(g, init);
      assert Elems(s) == Elems(init) + {last};
      assert last !in Elems(init);
      FeeRateUnion(g, Elems(init), {last});
      FeeRateSingleton(g, last);
    }
  }

  // ---------- dominance ----------

  /** The k-th point of the diagram's prefix path. */
  function Point(g: Graph, s: seq<nat>, k: nat): FeeFrac
    requires k <= |s|
  {
    Sum(g, s[..k])
  }

  /** Some prefix point of `s` reaches height `h` above the line of the given slope. */
  ghost predicate Reaches(g: Graph, s: seq<nat>, slope: FeeFrac, h: int) {
    exists k :: 0 <= k <= |s| && Cross(Point(g, s, k), slope) >= h
  }

  ghost predicate Dominates(g: Graph, a: seq<nat>, b: seq<nat>) {
    forall slope: FeeFrac, k :: slope.size > 0 && 0 <= k <= |b| ==>
      Reaches(g, a, slope, Cross(Point(g, b, k), slope))
  }

  lemma DominatesTransitive(g: Graph, a: seq<nat>, b: seq<nat>, c: seq<nat>)
    requires Dominates(g, a, b) && Dominates(g, b, c)
    ensures Dominates(g, a, c)
  {
    forall slope: FeeFrac, k | slope.size > 0 && 0 <= k <= |c|
      ensures Reaches(g, a, slope, Cross(Point(g, c, k), slope))
    {
      assert Reaches(g, b, slope, Cross(Point(g, c, k), slope));
      var j :| 0 <= j <= |b| && Cross(Point(g, b, j), slope) >= Cross(Point(g, c, k), slope);
      assert Reaches(g, a, slope, Cross(Point(g, b, j), slope));
    }
  }

  lemma DominatesReflexive(g: Graph, a: seq<nat>)
    ensures Dominates(g, a, a)
  {
  }

  /** Points of a concatenation: those of the first part, then those of the second shifted by its total. */
  lemma PointConcat(g: Graph, a: seq<nat>, b: seq<nat>, k: nat)
    requires k <= |a| + |b|
    ensures k <= |a| ==> Point(g, a + b, k) == Point(g, a, k)
    ensures k >= |a| ==> Point(g, a + b, k) == Sum(g, a).Plus(Point(g, b, k - |a|))
  {
    if k <= |a| {
      assert (a + b)[..k] == a[..k];
    }
    if k >= |a| {
      assert (a + b)[..k] == a + b[..k - |a|];
      SumConcat(g, a, b[..k - |a|]);
    }
  }

  lemma ReachesPrefix(g: Graph, p: seq<nat>, a: seq<nat>, slope: FeeFrac, h: int)
    requires Reaches(g, p, slope, h)
    ensures Reaches(g, p + a, slope, h)
  {
    var k :| 0 <= k <= |p| && Cross(Point(g, p, k), slope) >= h;
    PointConcat(g, p, a, k);
    assert k <= |p + a|;
  }

  lemma ReachesSuffix(g: Graph, p: seq<nat>, a: seq<nat>, slope: FeeFrac, h: int)
    requires Reaches(g, a, slope, h)
    ensures Reaches(g, p + a, slope, Cross(Sum(g, p), slope) + h)
  {
    var k :| 0 <= k <= |a| && Cross(Point(g, a, k), slope) >= h;
    PointConcat(g, p, a, |p| + k);
    CrossPlus(Sum(g, p), Point(g, a, k), slope);
    assert |p| + k <= |p + a|;
  }

  /** Improving the tail of an ordering improves the ordering. */
  lemma DominatesPrepend(g: Graph, p: seq<nat>, a: seq<nat>, b: seq<nat>)
    requires Dominates(g, a, b)
    ensures Dominates(g, p + a, p + b)
  {
    forall slope: FeeFrac, k | slope.size > 0 && 0 <= k <= |p + b|
      ensures Reaches(g, p + a, slope, Cross(Point(g, p + b, k), slope))
    {
      PointConcat(g, p, b, k);
      if k <= |p| {
        assert Reaches(g, p, slope, Cross(Point(g, p, k), slope));
        ReachesPrefix(g, p, a, slope, Cross(Point(g, p, k), slope));
      } else {
        var q := Point(g, b, k - |p|);
        CrossPlus(Sum(g, p), q, slope);
        ReachesSuffix(g, p, a, slope, Cross(q, slope));
      }
    }
  }

  // ---------- chunkings ----------

  function Concat(blocks: seq<seq<nat>>): seq<nat> {
    if blocks == [] then [] else Concat(blocks[..|blocks| - 1]) + blocks[|blocks| - 1]
  }

  /** A block whose proper prefixes all have a strictly lower feerate than the block itself. */
  ghost predicate GoodBlock(g: Graph, b: seq<nat>) {
    b != [] && Sized(g, b) && forall k :: 0 < k < |b| ==> Higher(Sum(g, b), Point(g, b, k))
  }

  /** Good blocks in order of non-increasing feerate. */
  ghost predicate IsChunking(g: Graph, blocks: seq<seq<nat>>) {
    && (forall i :: 0 <= i < |blocks| ==> GoodBlock(g, blocks[i]))
    && (forall i :: 0 <= i < |blocks| - 1 ==> !Higher(Sum(g, blocks[i + 1]), Sum(g, blocks[i])))
  }

  /** The inner loop of ChunkLinearization: the new block absorbs final blocks of lower feerate. */
  function Absorb(g: Graph, blocks: seq<seq<nat>>, b: seq<nat>): seq<seq<nat>> {
    if blocks != [] && Higher(Sum(g, b), Sum(g, blocks[|blocks| - 1])) then
      Absorb(g, blocks[..|blocks| - 1], blocks[|blocks| - 1] + b)
    else
      blocks + [b]
  }

  function Chunks(g: Graph, s: seq<nat>): seq<seq<nat>> {
    if s == [] then [] else Absorb(g, Chunks(g, s[..|s| - 1]), [s[|s| - 1]])
  }

  lemma NoChunks(g: Graph)
    ensures Sum(g, []) == EMPTY && Chunks(g, []) == [] && Concat([]) == []
  {
  }

  lemma MergeGood(g: Graph, p: seq<nat>, c: seq<nat>)
    requires GoodBlock(g, p) && GoodBlock(g, c) && Higher(Sum(g, c), Sum(g, p))
    ensures GoodBlock(g, p + c)
    ensures Higher(Sum(g, p + c), Sum(g, p)) && Higher(Sum(g, c), Sum(g, p + c))
  {
    hide Cross, Higher, Sum;
    SumConcat(g, p, c);
    var P, C, T := Sum(g, p), Sum(g, c), Sum(g, p + c);
    SumSize(g, p);
    SumSize(g, c);
    CrossPlus(P, C, P);
    CrossPlus(P, C, C);
    CrossSign(C, P);
    CrossSign(T, P);
    CrossSign(C, T);
    forall k | 0 < k < |p + c|
      ensures Higher(T, Point(g, p + c, k))
    {
      PointConcat(g, p, c, k);
      var K := Point(g, p + c, k);
      CrossSign(T, K);
      if k < |p| {
        SumSize(g, p[..k]);
        CrossSign(P, K);
        CrossTransitive(T, P, K);
      } else if k > |p| {
        // The rest of c has a higher feerate than c, hence than the whole.
        var q, r := Point(g, c, k - |p|), Sum(g, c[k - |p|..]);
        SumSplit(g, c, k - |p|);
        SumSize(g, c[k - |p|..]);
        CrossPlus(q, r, C);
        CrossSign(C, q);
        CrossSign(r, C);
        CrossTransitive(r, C, T);
        CrossPlus(K, r, T);
      }
    }
  }

  lemma {:induction false} AbsorbIsChunking(g: Graph, blocks: seq<seq<nat>>, b: seq<nat>)
    requires IsChunking(g, blocks) && GoodBlock(g, b)
    ensures IsChunking(g, Absorb(g, blocks, b))
    ensures Concat(Absorb(g, blocks, b)) == Concat(blocks) + b
    decreases |blocks|
  {
    hide Higher, Sum;
    if blocks != [] && Higher(Sum(g, b), Sum(g, blocks[|blocks| - 1])) {
      var init, last := blocks[..|blocks| - 1], blocks[|blocks| - 1];
      MergeGood(g, last, b);
      AbsorbIsChunking(g, init, last + b);
    } else {
      assert (blocks + [b])[..|blocks|] == blocks;
    }
  }

  /** The stack algorithm computes a chunking of its input. */
  lemma {:induction false} ChunksIsChunking(g: Graph, s: seq<nat>)
    requires Sized(g, s)
    ensures IsChunking(g, Chunks(g, s))
    ensures Concat(Chunks(g, s)) == s
  {
    hide Higher, Sum, Absorb;
    if s != [] {
      ChunksIsChunking(g, s[..|s| - 1]);
      AbsorbIsChunking(g, Chunks(g, s[..|s| - 1]), [s[|s| - 1]]);
    }
  }

  lemma {:induction false} ConcatAppend(a: seq<seq<nat>>, b: seq<seq<nat>>)
    ensures Concat(a + b) == Concat(a) + Concat(b)
  {
    if b == [] {
      assert a + b == a;
    } else {
      assert (a + b)[..|a + b| - 1] == a + b[..|b| - 1];
      ConcatAppend(a, b[..|b| - 1]);
    }
  }

  lemma ConcatCons(blocks: seq<seq<nat>>)
    requires blocks != []
    ensures Concat(blocks) == blocks[0] + Concat(blocks[1..])
  {
    assert blocks == [blocks[0]] + blocks[1..];
    ConcatAppend([blocks[0]], blocks[1..]);
  }

  /** No prefix of what a chunking orders has a higher feerate than a bound on its first block. */
  lemma {:induction false} PrefixBound(g: Graph, blocks: seq<seq<nat>>, k: nat, bound: FeeFrac)
    requires IsChunking(g, blocks) && k <= |Concat(blocks)| && bound.size > 0
    requires blocks != [] ==> Cross(Sum(g, blocks[0]), bound) <= 0
    ensures Cross(Point(g, Concat(blocks), k), bound) <= 0
    decreases |blocks|
  {
    hide Cross, Higher;
    CrossSign(bound, bound);
    if blocks == [] {
      assert Concat(blocks)[..k] == [];
    } else {
      var b, rest := blocks[0], blocks[1..];
      ConcatCons(blocks);
      PointConcat(g, b, Concat(rest), k);
      SumSize(g, b);
      if k == 0 {
      } else if k < |b| {
        SumSize(g, b[..k]);
        CrossSign(Sum(g, b), Point(g, b, k));
        CrossSign(bound, Sum(g, b));
        CrossTransitive(bound, Sum(g, b), Point(g, b, k));
        CrossSign(bound, Point(g, b, k));
      } else {
        if rest != [] {
          SumSize(g, rest[0]);
          CrossSign(Sum(g, blocks[1]), Sum(g, blocks[0]));
          CrossSign(bound, Sum(g, b));
          CrossTransitive(bound, Sum(g, b), Sum(g, rest[0]));
          CrossSign(bound, Sum(g, rest[0]));
        }
        PrefixBound(g, rest, k - |b|, bound);
        CrossPlus(Sum(g, b), Point(g, Concat(rest), k - |b|), bound);
      }
    }
  }

  /** A block that starts a chunking is not a proper prefix of a block that starts another one. */
  lemma FirstBlockMaximal(g: Graph, xs: seq<seq<nat>>, ys: seq<seq<nat>>)
    requires IsChunking(g, xs) && IsChunking(g, ys) && Concat(xs) == Concat(ys)
    requires xs != [] && ys != []
    ensures |xs[0]| >= |ys[0]|
  {
    hide Cross, Higher, Concat;
    var a, b := xs[0], ys[0];
    if |a| < |b| {
      ConcatCons(xs);
      ConcatCons(ys);
      assert Concat(xs)[..|a|] == a;
      assert Concat(ys)[..|a|] == b[..|a|];
      SumSize(g, a);
      CrossSign(Sum(g, a), Sum(g, a));
      PrefixBound(g, xs, |b|, Sum(g, a));
      assert Concat(xs)[..|b|] == b;
      CrossSign(Sum(g, b), Point(g, b, |a|));
      assert false;
    }
  }

  /** An ordering has one chunking. */
  lemma {:induction false} ChunkingUnique(g: Graph, xs: seq<seq<nat>>, ys: seq<seq<nat>>)
    requires IsChunking(g, xs) && IsChunking(g, ys) && Concat(xs) == Concat(ys)
    ensures xs == ys
    decreases |xs|
  {
    hide Higher, Sum;
    if xs == [] {
      if ys != [] {
        ConcatCons(ys);
      }
    } else if ys == [] {
      ConcatCons(xs);
    } else {
      FirstBlockMaximal(g, xs, ys);
      FirstBlockMaximal(g, ys, xs);
      ConcatCons(xs);
      ConcatCons(ys);
      assert xs[0] == Concat(xs)[..|xs[0]|] == Concat(ys)[..|ys[0]|] == ys[0];
      assert Concat(xs[1..]) == Concat(xs)[|xs[0]|..];
      assert Concat(ys[1..]) == Concat(ys)[|ys[0]|..];
      ChunkingUnique(g, xs[1..], ys[1..]);
      assert xs == [xs[0]] + xs[1..] && ys == [ys[0]] + ys[1..];
    }
  }

  /** Above every line, the highest prefix point of a chunked ordering is a chunk boundary. */
  lemma {:induction false} BoundaryReaches(g: Graph, blocks: seq<seq<nat>>, slope: FeeFrac, k: nat) returns (m: nat)
    requires IsChunking(g, blocks) && slope.size > 0 && k <= |Concat(blocks)|
    ensures m <= |blocks|
    ensures Cross(Sum(g, Concat(blocks[..m])), slope) >= Cross(Point(g, Concat(blocks), k), slope)
    decreases |blocks|
  {
    hide Cross, Higher;
    if blocks == [] {
      m := 0;
      assert Concat(blocks)[..k] == Concat(blocks[..m]);
    } else {
      var init, b := blocks[..|blocks| - 1], blocks[|blocks| - 1];
      var s := Concat(init);
      PointConcat(g, s, b, k);
      if k <= |s| {
        m := BoundaryReaches(g, init, slope, k);
        assert init[..m] == blocks[..m];
      } else {
        var q := Point(g, b, k - |s|);
        CrossPlus(Sum(g, s), q, slope);
        if Cross(q, slope) <= 0 {
          m := |init|;
          assert blocks[..m] == init;
        } else {
          m := |blocks|;
          assert blocks[..m] == blocks;
          SumConcat(g, s, b);
          CrossPlus(Sum(g, s), Sum(g, b), slope);
          GoodTail(g, b, k - |s|, slope);
        }
      }
    }
  }

  /** If a prefix of a good block rises above a line, the rest of the block rises further. */
  lemma GoodTail(g: Graph, b: seq<nat>, k: nat, slope: FeeFrac)
    requires GoodBlock(g, b) && 0 < k <= |b| && slope.size > 0
    requires Cross(Point(g, b, k), slope) > 0
    ensures Cross(Sum(g, b), slope) >= Cross(Point(g, b, k), slope)
  {
    hide Cross, Higher, Sum;
    if k == |b| {
      assert b[..k] == b;
    } else {
      var q, r, B := Point(g, b, k), Sum(g, b[k..]), Sum(g, b);
      SumSplit(g, b, k);
      SumSize(g, b[..k]);
      SumSize(g, b[k..]);
      CrossPlus(q, r, slope);
      CrossPlus(q, r, q);
      CrossSign(B, q);
      CrossSign(q, q);
      CrossTransitive(r, q, slope);
    }
  }
}
