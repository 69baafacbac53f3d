/**
  Why moving a set of transactions to the front of an ordering does not make its diagram
  worse: the guarantee stated for IntersectPrefixes, and its counterparts for an optimal
  set and for a part of the first chunk (src/cluster_linearize.h:506-539).
*/
module Improvement {
  import opened FeeRates
  import opened Graphs
  import opened Diagrams
  import opened Compare
  import opened Chunkings

  /** Above a line of this slope, adding the rest of t to the first m chunks does not descend, or they lie below the origin's line anyway. */
  ghost predicate SafeAt(g: Graph, blocks: seq<seq<nat>>, t: set<nat>, slope: FeeFrac, m: nat)
    requires m <= |blocks|
  {
    || Cross(FeeRate(g, t - PrefixSet(blocks, m)), slope) >= 0
    || Cross(Sum(g, Concat(blocks[..m])), slope) <= 0
  }

  ghost predicate SafeToMove(g: Graph, blocks: seq<seq<nat>>, t: set<nat>) {
    forall slope: FeeFrac, m :: slope.size > 0 && 0 <= m <= |blocks| ==> SafeAt(g, blocks, t, slope, m)
  }

  /** `t` lists the set `moved`. */
  ghost predicate Lists(t: seq<nat>, moved: set<nat>) {
    Distinct(t) && Elems(t) == moved
  }

  /** The ordering with `moved`, in the order `t`, moved to the front. */
  function Moved(s: seq<nat>, moved: set<nat>, t: seq<nat>): seq<nat> {
    t + Restrict(s, Elems(s) - moved)
  }

  /** The moved set followed by the rest of a prefix of the old ordering is a prefix of the new one. */
  lemma MovedPrefix(g: Graph, s: seq<nat>, moved: set<nat>, t: seq<nat>, n: nat) returns (k: nat)
    requires Distinct(s) && moved <= Elems(s) && Lists(t, moved) && n <= |s|
    ensures k <= |Moved(s, moved, t)|
    ensures Point(g, Moved(s, moved, t), k) == FeeRate(g, Elems(s[..n])).Plus(FeeRate(g, moved - Elems(s[..n])))
  {
    hide Sum, SumTo, Restrict;
    var rest := Elems(s) - moved;
    var p, q := s[..n], t + Restrict(s[..n], rest);
    assert s == p + s[n..];
    RestrictConcat(p, s[n..], rest);
    k := |q|;
    assert Moved(s, moved, t)[..k] == q;
    RestrictElems(p, rest);
    RestrictKeeps(g, p, rest);
    DistinctSplit(t, Restrict(p, rest));
    SumElems(g, q);
    var a, b := Elems(p), moved - Elems(p);
    assert Elems(q) == a + b by {
      assert Elems(q) == Elems(t) + Elems(Restrict(p, rest));
      assert Elems(p) <= Elems(s);
    }
    FeeRateUnion(g, a, b);
  }

  /** Moving a safe set to the front gives an ordering that dominates the old one. */
  lemma MoveFront(g: Graph, s: seq<nat>, moved: set<nat>, t: seq<nat>)
    requires Distinct(s) && Sized(g, s) && moved <= Elems(s) && Lists(t, moved)
    requires SafeToMove(g, Chunks(g, s), moved)
    ensures Dominates(g, Moved(s, moved, t), s)
  {
    hide Cross, Sum, SumTo, Restrict, Chunks, Absorb, Concat, Moved;
    var blocks := Chunks(g, s);
    ChunksIsChunking(g, s);
    forall slope: FeeFrac, k | slope.size > 0 && 0 <= k <= |s|
      ensures Reaches(g, Moved(s, moved, t), slope, Cross(Point(g, s, k), slope))
    {
      var m := BoundaryReaches(g, blocks, slope, k);
      assert SafeAt(g, blocks, moved, slope, m);
      ConcatBounds(blocks, m);
      var p := Concat(blocks[..m]);
      if Cross(Sum(g, p), slope) <= 0 {
        NoChunks(g);
        CrossSign(slope, slope);
        assert Moved(s, moved, t)[..0] == [];
        assert Cross(Point(g, Moved(s, moved, t), 0), slope) == 0;
      } else {
        var j := MovedPrefix(g, s, moved, t, |p|);
        assert s[..|p|] == p;
        SumElems(g, p);
        CrossPlus(Sum(g, p), FeeRate(g, moved - Elems(p)), slope);
      }
    }
  }

  /** If y rises less than the slope, and y, z, w have non-increasing feerates, then w lies below the slope too. */
  lemma BelowSlope(slope: FeeFrac, y: FeeFrac, z: FeeFrac, w: FeeFrac)
    requires slope.size > 0 && y.size > 0 && z.size > 0 && w.size > 0
    requires Cross(y, slope) < 0 && Cross(y, z) >= 0 && Cross(z, w) >= 0
    ensures Cross(w, slope) <= 0
  {
    hide Cross;
    CrossSign(slope, y);
    CrossTransitive(slope, y, z);
    CrossTransitive(slope, z, w);
    CrossSign(slope, w);
  }

  /** The set returned by IntersectPrefixes can be moved to the front if subset's feerate is not below the first chunk's. */
  lemma IntersectionSafe(g: Graph, s: seq<nat>, subset: set<nat>, t: set<nat>)
    requires Distinct(s) && Sized(g, s) && s != [] && subset != {} && subset <= Elems(s)
    requires Chunks(g, s) != [] && Cross(FeeRate(g, subset), Sum(g, Chunks(g, s)[0])) >= 0
    requires IsIntersection(g, Chunks(g, s), subset, t)
    ensures SafeToMove(g, Chunks(g, s), t)
  {
    hide Cross, Sum, SumTo, Chunks, Absorb, Concat, PrefixSet;
    var blocks := Chunks(g, s);
    var i :| 0 <= i <= |blocks| && IsIntersectionAt(g, blocks, subset, t, i);
    forall slope: FeeFrac, m | slope.size > 0 && 0 <= m <= |blocks|
      ensures SafeAt(g, blocks, t, slope, m)
    {
      IntersectionSafeAt(g, s, subset, t, i, slope, m);
    }
  }

  lemma IntersectionSafeAt(g: Graph, s: seq<nat>, subset: set<nat>, t: set<nat>, i: nat, slope: FeeFrac, m: nat)
    requires Distinct(s) && Sized(g, s) && s != [] && subset != {} && subset <= Elems(s)
    requires Chunks(g, s) != [] && Cross(FeeRate(g, subset), Sum(g, Chunks(g, s)[0])) >= 0
    requires i <= |Chunks(g, s)| && IsIntersectionAt(g, Chunks(g, s), subset, t, i)
    requires slope.size > 0 && m <= |Chunks(g, s)|
    ensures SafeAt(g, Chunks(g, s), t, slope, m)
  {
    hide Cross, Lower, Sum, SumTo, Chunks, Absorb, Concat, PrefixSet, Misses;
    var blocks := Chunks(g, s);
    var P := PrefixSet(blocks, m);
    var y := t - P;
    FeeRateSingleton(g, 0);
    CrossSign(slope, slope);
    if y == {} {
    } else if Cross(FeeRate(g, y), slope) < 0 {
      if i <= m {
        PrefixSetMonotone(blocks, i, m);
      } else {
        PrefixSetMonotone(blocks, m, i);
        assert Misses(g, blocks, subset, m);
        RestNotBelow(g, blocks, subset, t, m, i);
        var first := Sum(g, blocks[0]);
        ChunksIsChunking(g, s);
        SumSize(g, blocks[0]);
        SizedSet(g, s, y);
        SizedSet(g, s, subset);
        BelowSlope(slope, FeeRate(g, y), FeeRate(g, subset), first);
        ConcatBounds(blocks, m);
        PrefixBound(g, blocks, |Concat(blocks[..m])|, slope);
      }
    }
  }

  lemma SizedSet(g: Graph, s: seq<nat>, x: set<nat>)
    requires Sized(g, s) && x <= Elems(s) && x != {}
    ensures FeeRate(g, x).size > 0
  {
    FeeRateSize(g, x);
  }

  lemma {:induction false} PrefixSetMonotone(blocks: seq<seq<nat>>, i: nat, m: nat)
    requires i <= m <= |blocks|
    ensures PrefixSet(blocks, i) <= PrefixSet(blocks, m)
    decreases m - i
  {
    if i < m {
      PrefixSetMonotone(blocks, i, m - 1);
      PrefixSetStep(blocks, m - 1);
    }
  }

  /** If the part up to one chunk is too poor, then the part behind it makes up for that. */
  lemma RestNotBelow(g: Graph, blocks: seq<seq<nat>>, subset: set<nat>, t: set<nat>, m: nat, i: nat)
    requires m < i <= |blocks| && IsIntersectionAt(g, blocks, subset, t, i)
    requires PrefixSet(blocks, m) <= PrefixSet(blocks, i)
    ensures Cross(FeeRate(g, t - PrefixSet(blocks, m)), FeeRate(g, subset)) >= 0
  {
    hide Cross, Lower, SumTo, PrefixSet;
    var P, S := PrefixSet(blocks, m), FeeRate(g, subset);
    var x, y := t * P, t - P;
    assert Misses(g, blocks, subset, m);
    assert x == subset * P;
    FeeRateSplit(g, t, P);
    CrossPlus(FeeRate(g, x), FeeRate(g, y), S);
    CrossSign(FeeRate(g, t), S);
    CrossSign(S, S);
    CrossSign(FeeRate(g, x), S);
    FeeRateSingleton(g, 0);
  }

  /** A part of the first chunk can be moved to the front. */
  lemma OwnChunkSafe(g: Graph, s: seq<nat>, t: set<nat>)
    requires Chunks(g, s) != [] && t <= Elems(Chunks(g, s)[0])
    ensures SafeToMove(g, Chunks(g, s), t)
  {
    hide Cross, Sum, SumTo, Chunks, Absorb, Concat, PrefixSet;
    var blocks := Chunks(g, s);
    forall slope: FeeFrac, m | slope.size > 0 && 0 <= m <= |blocks|
      ensures SafeAt(g, blocks, t, slope, m)
    {
      CrossSign(slope, slope);
      FeeRateSingleton(g, 0);
      NoChunks(g);
      if m == 0 {
        assert blocks[..m] == [];
      } else {
        PrefixSetStep(blocks, 0);
        PrefixSetMonotone(blocks, 1, m);
        assert t - PrefixSet(blocks, m) == {};
      }
    }
  }

  // ---------- optimal sets ----------

  /** No topologically valid subset of what remains has a higher feerate. */
  ghost predicate Optimal(g: Graph, todo: set<nat>, t: set<nat>) {
    forall c :: ClosedIn(g, todo, c) && c != {} ==> !Higher(FeeRate(g, c), FeeRate(g, t))
  }

  ghost predicate SizedIn(g: Graph, todo: set<nat>) {
    forall x :: x in todo ==> x < |g.entries| && g.Fee(x).size > 0
  }

  /** An optimal set can be joined to any topologically valid set that rises above the slope. */
  lemma OptimalStep(g: Graph, todo: set<nat>, t: set<nat>, c: set<nat>, slope: FeeFrac)
    requires SizedIn(g, todo) && slope.size > 0
    requires ClosedIn(g, todo, t) && t != {} && Optimal(g, todo, t) && ClosedIn(g, todo, c)
    ensures Cross(FeeRate(g, t - c), slope) >= 0 || Cross(FeeRate(g, c), slope) <= 0
  {
    hide Cross, Higher, SumTo;
    var x, y := t * c, t - c;
    var T := FeeRate(g, t);
    FeeRateSingleton(g, 0);
    CrossSign(slope, slope);
    if y != {} && c != {} && Cross(FeeRate(g, y), slope) < 0 {
      FeeRateSplit(g, t, c);
      CrossPlus(FeeRate(g, x), FeeRate(g, y), T);
      CrossSign(T, T);
      assert ClosedIn(g, todo, x);
      CrossSign(FeeRate(g, x), T);
      CrossSign(FeeRate(g, c), T);
      assert Cross(FeeRate(g, x), T) <= 0;
      FeeRateSize(g, y);
      FeeRateSize(g, t);
      FeeRateSize(g, c);
      BelowSlope(slope, FeeRate(g, y), T, FeeRate(g, c));
    }
  }

  lemma PrefixClosed(g: Graph, s: seq<nat>, n: nat)
    requires Topo(g, s) && n <= |s|
    ensures ClosedIn(g, Elems(s), Elems(s[..n]))
  {
    forall x, a | x in Elems(s[..n]) && a in g.Anc(x) * Elems(s)
      ensures a in Elems(s[..n])
    {
      var i :| 0 <= i < n && s[i] == x;
      var j :| 0 <= j < |s| && s[j] == a;
    }
  }

  lemma OptimalSafe(g: Graph, s: seq<nat>, t: set<nat>)
    requires Distinct(s) && Sized(g, s) && Topo(g, s)
    requires ClosedIn(g, Elems(s), t) && t != {} && Optimal(g, Elems(s), t)
    ensures SafeToMove(g, Chunks(g, s), t)
  {
    hide Cross, Sum, SumTo, Chunks, Absorb, Concat;
    ChunksIsChunking(g, s);
    var blocks := Chunks(g, s);
    forall slope: FeeFrac, m | slope.size > 0 && 0 <= m <= |blocks|
      ensures SafeAt(g, blocks, t, slope, m)
    {
      ConcatBounds(blocks, m);
      var p := Concat(blocks[..m]);
      assert s[..|p|] == p;
      PrefixClosed(g, s, |p|);
      OptimalStep(g, Elems(s), t, Elems(p), slope);
      SumElems(g, p);
    }
  }
}
