/**
  The high-level operation of PostLinearize (src/cluster_linearize.h:1136-1170): groups of
  transactions in order of non-increasing feerate, into which one transaction at a time is
  inserted by merging with, or swapping past, preceding groups of lower feerate.
*/
module Groupings {
  import opened FeeRates
  import opened Graphs
  import opened Diagrams
  import opened Chunkings
  import opened Improvement
  import opened Components

  /** All ancestors of the members. */
  function Deps(g: Graph, s: seq<nat>): set<nat> {
    if s == [] then {} else Deps(g, s[..|s| - 1]) + g.Anc(s[|s| - 1])
  }

  lemma {:induction false} DepsElems(g: Graph, s: seq<nat>)
    ensures forall a :: a in Deps(g, s) <==> exists x :: x in s && a in g.Anc(x)
  {
    if s != [] {
      DepsElems(g, s[..|s| - 1]);
      assert forall x :: x in s <==> x in s[..|s| - 1] || x == s[|s| - 1];
    }
  }

  lemma {:induction false} DepsConcat(g: Graph, a: seq<nat>, b: seq<nat>)
    ensures Deps(g, a + b) == Deps(g, a) + Deps(g, b)
  {
    if b == [] {
      assert a + b == a;
    } else {
      assert (a + b)[..|a + b| - 1] == a + b[..|b| - 1];
      DepsConcat(g, a, b[..|b| - 1]);
    }
  }

  // ---------- dominance in context ----------

  /** Improving the head of an ordering, without changing its total, improves the ordering. */
  lemma DominatesAppend(g: Graph, a: seq<nat>, b: seq<nat>, y: seq<nat>)
    requires Dominates(g, a, b) && Sum(g, a) == Sum(g, b)
    ensures Dominates(g, a + y, b + y)
  {
    hide Sum, Cross;
    forall slope: FeeFrac, k | slope.size > 0 && 0 <= k <= |b + y|
      ensures Reaches(g, a + y, slope, Cross(Point(g, b + y, k), slope))
    {
      PointConcat(g, b, y, k);
      if k <= |b| {
        ReachesPrefix(g, a, y, slope, Cross(Point(g, b, k), slope));
      } else {
        var j := |a| + (k - |b|);
        PointConcat(g, a, y, j);
        assert Point(g, a + y, j) == Point(g, b + y, k);
      }
    }
  }

  /** Swapping adjacent good blocks so that the one with the higher feerate comes first is an improvement. */
  lemma SwapDominates(g: Graph, p: seq<nat>, c: seq<nat>)
    requires GoodBlock(g, p) && GoodBlock(g, c) && Higher(Sum(g, c), Sum(g, p)) && Distinct(p + c)
    ensures Dominates(g, c + p, p + c)
  {
    hide Sum, Higher, Dominates, SafeToMove, Chunks, Absorb, Restrict, GoodBlock;
    var s := p + c;
    OneChunk(g, p, c);
    SizedBlock(g, s);
    DistinctSplit(p, c);
    assert Elems(s) == Elems(p) + Elems(c);
    OwnChunkSafe(g, s, Elems(c));
    MoveFront(g, s, Elems(c), c);
    var rest := Elems(s) - Elems(c);
    assert rest == Elems(p);
    assert Restrict(s, rest) == p by {
      RestrictConcat(p, c, rest);
      RestrictAll(p, rest);
      RestrictAll(c, rest);
    }
  }

  lemma SizedBlock(g: Graph, b: seq<nat>)
    requires GoodBlock(g, b)
    ensures Sized(g, b)
  {
  }

  /** Two good blocks of increasing feerate form one chunk. */
  lemma OneChunk(g: Graph, p: seq<nat>, c: seq<nat>)
    requires GoodBlock(g, p) && GoodBlock(g, c) && Higher(Sum(g, c), Sum(g, p))
    ensures Chunks(g, p + c) == [p + c] && GoodBlock(g, p + c)
  {
    hide Sum, Higher, Chunks, Absorb, GoodBlock;
    MergeGood(g, p, c);
    SizedBlock(g, p + c);
    ChunksIsChunking(g, p + c);
    var one: seq<seq<nat>> := [p + c];
    assert Concat(one) == p + c by {
      assert one[..0] == [];
    }
    ChunkingUnique(g, Chunks(g, p + c), one);
  }

  // ---------- inserting one transaction ----------

  /**
    While a group c moves towards the front: before it, groups in order; after it, the
    groups it was swapped past, in order and not above c.
  */
  ghost predicate Moving(g: Graph, before: seq<seq<nat>>, c: seq<nat>, after: seq<seq<nat>>) {
    && IsChunking(g, before + after) && GoodBlock(g, c)
    && (after != [] ==> !Higher(Sum(g, after[0]), Sum(g, c)))
  }

  ghost predicate AllConnected(g: Graph, groups: seq<seq<nat>>) {
    forall i :: 0 <= i < |groups| ==> Connected(g, Elems(groups[i]))
  }

  ghost function Layout(before: seq<seq<nat>>, c: seq<nat>, after: seq<seq<nat>>): seq<nat> {
    Concat(before) + c + Concat(after)
  }

  lemma MovingFacts(g: Graph, before: seq<seq<nat>>, c: seq<nat>, after: seq<seq<nat>>)
    requires Moving(g, before, c, after) && before != []
    ensures GoodBlock(g, before[|before| - 1])
    ensures after != [] ==> !Higher(Sum(g, after[0]), Sum(g, before[|before| - 1]))
    ensures after != [] ==> GoodBlock(g, after[0])
  {
    hide GoodBlock, Sum, Higher;
    var all := before + after;
    var n := |before| - 1;
    assert all[n] == before[n];
    assert GoodBlock(g, all[n]);
    if after != [] {
      assert all[n + 1] == after[0];
    }
  }

  /** Merging the preceding group into c. */
  lemma MergeMoving(g: Graph, before: seq<seq<nat>>, c: seq<nat>, after: seq<seq<nat>>)
    requires Moving(g, before, c, after) && before != [] && Higher(Sum(g, c), Sum(g, before[|before| - 1]))
    ensures var p := before[|before| - 1];
            && Moving(g, before[..|before| - 1], p + c, after)
            && Layout(before[..|before| - 1], p + c, after) == Layout(before, c, after)
  {
    hide Sum, Higher, GoodBlock, Concat, Cross;
    MovingFacts(g, before, c, after);
    var n, p := |before| - 1, before[|before| - 1];
    var init := before[..n];
    MergeGood(g, p, c);
    ConcatLast(before);
    if after != [] {
      // after[0] <= p < p + c
      NotAbove(g, after[0], p, p + c);
    }
    assert init + [p] == before;
    IsChunkingRemove(g, init, p, after);
    assert (Concat(init) + p) + c == Concat(init) + (p + c);
  }

  lemma NotAbove(g: Graph, a: seq<nat>, b: seq<nat>, c: seq<nat>)
    requires GoodBlock(g, a) && GoodBlock(g, b) && GoodBlock(g, c)
    requires !Higher(Sum(g, a), Sum(g, b)) && Higher(Sum(g, c), Sum(g, b))
    ensures !Higher(Sum(g, a), Sum(g, c))
  {
    hide Sum, Higher, Cross;
    SumSize(g, a);
    SumSize(g, b);
    SumSize(g, c);
    var x, y, z := Sum(g, a), Sum(g, b), Sum(g, c);
    CrossSign(x, y);
    CrossSign(y, x);
    CrossSign(z, y);
    CrossSign(x, z);
    CrossSign(z, x);
    CrossTransitive(z, y, x);
  }

  lemma ConcatLast(blocks: seq<seq<nat>>)
    requires blocks != []
    ensures Concat(blocks) == Concat(blocks[..|blocks| - 1]) + blocks[|blocks| - 1]
  {
  }

  /** Leaving out a block keeps the others in order. */
  lemma IsChunkingRemove(g: Graph, before: seq<seq<nat>>, p: seq<nat>, after: seq<seq<nat>>)
    requires IsChunking(g, before + [p] + after)
    ensures IsChunking(g, before + after)
  {
    hide Sum, Higher, GoodBlock, Cross;
    var all, less := before + [p] + after, before + after;
    var n := |before|;
    forall i | 0 <= i < |less|
      ensures GoodBlock(g, less[i])
    {
      var j := if i < n then i else i + 1;
      assert less[i] == all[j];
      assert GoodBlock(g, all[j]);
    }
    forall i | 0 <= i < |less| - 1
      ensures !Higher(Sum(g, less[i + 1]), Sum(g, less[i]))
    {
      if i < n - 1 {
        assert less[i] == all[i] && less[i + 1] == all[i + 1];
      } else if i >= n {
        assert less[i] == all[i + 1] && less[i + 1] == all[i + 1 + 1];
      } else {
        assert less[i] == all[i] && less[i + 1] == all[i + 2] && all[i + 1] == p;
        assert GoodBlock(g, all[i]) && GoodBlock(g, all[i + 1]) && GoodBlock(g, all[i + 2]);
        assert !Higher(Sum(g, all[i + 1]), Sum(g, all[i]));
        assert !Higher(Sum(g, all[i + 1 + 1]), Sum(g, all[i + 1]));
        NotHigherChain(g, all[i + 2], all[i + 1], all[i]);
      }
    }
  }

  lemma NotHigherChain(g: Graph, a: seq<nat>, b: seq<nat>, c: seq<nat>)
    requires GoodBlock(g, a) && GoodBlock(g, b) && GoodBlock(g, c)
    requires !Higher(Sum(g, a), Sum(g, b)) && !Higher(Sum(g, b), Sum(g, c))
    ensures !Higher(Sum(g, a), Sum(g, c))
  {
    hide Sum, Higher, Cross;
    SumSize(g, a);
    SumSize(g, b);
    SumSize(g, c);
    var x, y, z := Sum(g, a), Sum(g, b), Sum(g, c);
    CrossSign(x, y);
    CrossSign(y, x);
    CrossSign(y, z);
    CrossSign(z, y);
    CrossSign(x, z);
    CrossSign(z, x);
    CrossTransitive(z, y, x);
  }

  /** Swapping c with the preceding group. */
  lemma SwapMoving(g: Graph, before: seq<seq<nat>>, c: seq<nat>, after: seq<seq<nat>>)
    requires Moving(g, before, c, after) && before != [] && Higher(Sum(g, c), Sum(g, before[|before| - 1]))
    requires Distinct(Layout(before, c, after))
    ensures var p := before[|before| - 1];
            && Moving(g, before[..|before| - 1], c, [p] + after)
            && Dominates(g, Layout(before[..|before| - 1], c, [p] + after), Layout(before, c, after))
            && Layout(before[..|before| - 1], c, [p] + after) == Concat(before[..|before| - 1]) + (c + p) + Concat(after)
            && Layout(before, c, after) == Concat(before[..|before| - 1]) + (p + c) + Concat(after)
  {
    hide Sum, Higher, GoodBlock, Concat, Cross, Dominates;
    MovingFacts(g, before, c, after);
    var n, p := |before| - 1, before[|before| - 1];
    var init := before[..n];
    assert init + ([p] + after) == before + after;
    CrossSign(Sum(g, c), Sum(g, p));
    CrossSign(Sum(g, p), Sum(g, c));
    ConcatLast(before);
    ConcatCons([p] + after);
    assert ([p] + after)[1..] == after;
    var x, y := Concat(init), Concat(after);
    assert Layout(before, c, after) == x + (p + c) + y;
    assert Layout(init, c, [p] + after) == x + (c + p) + y;
    MiddleDistinct(x, p + c, y);
    SwapDominates(g, p, c);
    DominatesPrepend(g, x, c + p, p + c);
    SumConcat(g, x, c + p);
    SumConcat(g, x, p + c);
    SumConcat(g, c, p);
    SumConcat(g, p, c);
    DominatesAppend(g, x + (c + p), x + (p + c), y);
  }

  lemma MiddleDistinct(x: seq<nat>, m: seq<nat>, y: seq<nat>)
    requires Distinct(x + m + y)
    ensures Distinct(m)
  {
    DistinctSplit(x + m, y);
    DistinctSplit(x, m);
  }

  /** When the preceding group has no lower feerate, the groups are in order again. */
  lemma MovingDone(g: Graph, before: seq<seq<nat>>, c: seq<nat>, after: seq<seq<nat>>)
    requires Moving(g, before, c, after)
    requires before != [] ==> !Higher(Sum(g, c), Sum(g, before[|before| - 1]))
    ensures IsChunking(g, before + [c] + after)
    ensures Concat(before + [c] + after) == Layout(before, c, after)
  {
    hide Sum, Higher, GoodBlock, Concat;
    var all, less := before + [c] + after, before + after;
    var n := |before|;
    forall i | 0 <= i < |all|
      ensures GoodBlock(g, all[i])
    {
      if i < n {
        assert all[i] == less[i];
      } else if i > n {
        assert all[i] == less[i - 1];
      }
    }
    forall i | 0 <= i < |all| - 1
      ensures !Higher(Sum(g, all[i + 1]), Sum(g, all[i]))
    {
      if i < n - 1 {
        assert all[i] == less[i] && all[i + 1] == less[i + 1];
      } else if i > n {
        var j := i - 1;
        assert all[i] == less[j] && all[i + 1] == less[j + 1];
      }
    }
    ConcatAppend(before + [c], after);
    ConcatLast(before + [c]);
    assert (before + [c])[..n] == before;
  }

  // ---------- topological order and connectedness ----------

  /** Swapping two adjacent parts keeps the order topological if the second does not depend on the first. */
  lemma SwapTopo(g: Graph, x: seq<nat>, p: seq<nat>, c: seq<nat>, y: seq<nat>)
    requires Topo(g, x + (p + c) + y) && Deps(g, c) !! Elems(p)
    ensures Topo(g, x + (c + p) + y)
  {
    hide Deps;
    DepsElems(g, c);
    TopoSplit(g, x + (p + c), y);
    TopoSplit(g, x, p + c);
    TopoSplit(g, p, c);
    forall u, v | u in c && v in p
      ensures v !in g.Anc(u)
    {
      assert v in Elems(p);
    }
    TopoJoin(g, c, p);
    assert forall u :: u in c + p <==> u in p + c;
    TopoJoin(g, x, c + p);
    TopoJoin(g, x + (c + p), y);
  }

  lemma TopoSplit(g: Graph, a: seq<nat>, b: seq<nat>)
    requires Topo(g, a + b)
    ensures Topo(g, a) && Topo(g, b)
    ensures forall u, v :: u in a && v in b ==> v !in g.Anc(u)
  {
    var s := a + b;
    forall i, j | 0 <= i < j < |b|
      ensures b[j] !in g.Anc(b[i])
    {
      assert s[|a| + i] == b[i] && s[|a| + j] == b[j];
    }
    forall i, j | 0 <= i < j < |a|
      ensures a[j] !in g.Anc(a[i])
    {
      assert s[i] == a[i] && s[j] == a[j];
    }
    forall u, v | u in a && v in b
      ensures v !in g.Anc(u)
    {
      var i :| 0 <= i < |a| && a[i] == u;
      var j :| 0 <= j < |b| && b[j] == v;
      assert s[i] == u && s[|a| + j] == v;
    }
  }

  lemma TopoJoin(g: Graph, a: seq<nat>, b: seq<nat>)
    requires Topo(g, a) && Topo(g, b)
    requires forall u, v :: u in a && v in b ==> v !in g.Anc(u)
    ensures Topo(g, a + b)
  {
    var s := a + b;
    forall i, j | 0 <= i < j < |s|
      ensures s[j] !in g.Anc(s[i])
    {
      if i < |a| <= j {
        assert s[i] in a && s[j] == b[j - |a|] && s[j] in b;
      }
    }
  }

  /** Joining two connected sets with a link between them gives a connected set. */
  lemma ConnectedJoin(g: Graph, p: seq<nat>, c: seq<nat>)
    requires Connected(g, Elems(p)) && Connected(g, Elems(c)) && !(Deps(g, c) !! Elems(p))
    ensures Connected(g, Elems(p + c))
  {
    hide Linked, Deps;
    var P, C := Elems(p), Elems(c);
    assert Elems(p + c) == P + C;
    DepsElems(g, c);
    var a :| a in Deps(g, c) && a in P;
    var x :| x in c && a in g.Anc(x);
    assert Linked(g, x, a) by {
      IsLinked(g, x, a);
    }
    LinkedSymmetric(g);
    forall q | Isolated(g, P + C, q)
      ensures q == {} || q == P + C
    {
      assert Isolated(g, P, q * P);
      assert Isolated(g, C, q * C);
      assert q == q * P + q * C;
      assert x in q <==> a in q;
    }
  }

  lemma IsLinked(g: Graph, x: nat, a: nat)
    requires a in g.Anc(x)
    ensures Linked(g, x, a)
  {
  }

  lemma ConnectedSingleton(g: Graph, x: nat)
    ensures Connected(g, {x})
  {
    forall q | Isolated(g, {x}, q)
      ensures q == {} || q == {x}
    {
    }
  }
}
