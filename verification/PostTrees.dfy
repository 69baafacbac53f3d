/**
  Why PostLinearize is optimal for trees (src/cluster_linearize.h:1128-1129, 1143-1145): if no
  transaction has more than one child, every group of a forward pass is a subtree under its
  last transaction, and no part of it that could come earlier has a higher feerate.
*/
module PostTrees {
  import opened FeeRates
  import opened Graphs
  import opened Diagrams
  import opened Chunkings
  import opened Improvement
  import opened Components
  import opened Merging
  import opened DepGraphs
  import opened Groupings
  import opened PostTheory

  /** No position has more than one reduced parent. */
  ghost predicate SingleParent(g: Graph) {
    forall i, p, q :: i in g.used && IsReducedParent(g, i, p) && IsReducedParent(g, i, q) ==> p == q
  }

  /** No position has more than one reduced child. */
  ghost predicate SingleChild(g: Graph) {
    SingleParent(Dual(g))
  }

  /** The descendants of every position form a chain. */
  ghost predicate Chained(g: Graph) {
    forall i, x, y :: i in g.used && x in g.Desc(i) && y in g.Desc(i) ==> x in g.Anc(y) || y in g.Anc(x)
  }

  lemma DualValid(g: Graph)
    requires Valid(g)
    ensures Valid(Dual(g)) && (Acyclic(g) ==> Acyclic(Dual(g)))
  {
    hide Dual;
    var d := Dual(g);
    assert d.used == g.used && |d.entries| == |g.entries| by {
      DualParts(g);
    }
    forall i
      ensures d.Fee(i).size == g.Fee(i).size && d.Anc(i) == g.Desc(i) && d.Desc(i) == g.Anc(i)
    {
      DualFacts(g, i);
      DualFee(g, i);
    }
    DescTransitive(g);
  }

  lemma DualParts(g: Graph)
    ensures Dual(g).used == g.used && |Dual(g).entries| == |g.entries|
  {
  }

  lemma DescTransitive(g: Graph)
    requires Valid(g)
    ensures forall i, j :: i in g.used && j in g.Desc(i) ==> g.Desc(j) <= g.Desc(i)
  {
    forall i, j | i in g.used && j in g.Desc(i)
      ensures g.Desc(j) <= g.Desc(i)
    {
      forall k | k in g.Desc(j)
        ensures k in g.Desc(i)
      {
        assert i in g.Anc(j) && j in g.Anc(k);
        assert g.Anc(j) <= g.Anc(k);
      }
    }
  }

  /** With single parents, the ancestors of a position form a chain. */
  lemma {:induction false} AncestorChain(g: Graph, i: nat, x: nat, y: nat)
    requires Valid(g) && Acyclic(g) && SingleParent(g) && i in g.used && x in g.Anc(i) && y in g.Anc(i)
    ensures x in g.Anc(y) || y in g.Anc(x)
    decreases g.Anc(i)
  {
    if x != i && y != i {
      var p := UnderReducedParent(g, i, x);
      var q := UnderReducedParent(g, i, y);
      assert p == q;
      assert i !in g.Anc(p) && g.Anc(p) <= g.Anc(i);
      AncestorChain(g, p, x, y);
    }
  }

  lemma ChildChain(g: Graph)
    requires Valid(g) && Acyclic(g) && SingleChild(g)
    ensures Chained(g)
  {
    hide Dual, SingleParent, Valid, Acyclic;
    DualValid(g);
    DualParts(g);
    forall i, x, y | i in g.used && x in g.Desc(i) && y in g.Desc(i)
      ensures x in g.Anc(y) || y in g.Anc(x)
    {
      DualFacts(g, i);
      AncestorChain(Dual(g), i, x, y);
      DualFacts(g, x);
      DualFacts(g, y);
      DescIsAnc(g, i, x, y);
    }
  }

  lemma DescIsAnc(g: Graph, i: nat, x: nat, y: nat)
    requires Valid(g) && i in g.used && x in g.Desc(i) && y in g.Desc(i)
    ensures (x in g.Desc(y) <==> y in g.Anc(x)) && (y in g.Desc(x) <==> x in g.Anc(y))
  {
  }

  // ---------- groups as subtrees ----------

  /** Every member is an ancestor of the last one. */
  ghost predicate Rooted(g: Graph, b: seq<nat>) {
    b != [] && forall x :: x in b ==> x in g.Anc(b[|b| - 1])
  }

  /** No part that holds its ancestors within the group is above the limit. */
  ghost predicate PartsBelow(g: Graph, b: seq<nat>, limit: FeeFrac, proper: bool) {
    forall a :: a != {} && ClosedIn(g, Elems(b), a) && (proper ==> b != [] && b[|b| - 1] !in a) ==> !Higher(FeeRate(g, a), limit)
  }

  /** A subtree, no part of which would be better on its own. */
  ghost predicate Solid(g: Graph, b: seq<nat>) {
    Rooted(g, b) && PartsBelow(g, b, Sum(g, b), false)
  }

  ghost predicate AllSolid(g: Graph, groups: seq<seq<nat>>) {
    forall i :: 0 <= i < |groups| ==> Solid(g, groups[i])
  }

  lemma SingletonSolid(g: Graph, x: nat, limit: FeeFrac)
    requires Valid(g) && x in g.used
    ensures Solid(g, [x]) && PartsBelow(g, [x], limit, true)
  {
    assert Elems([x]) == {x};
    FeeRateSingleton(g, x);
    assert Sum(g, [x]) == g.Fee(x) by {
      SumElems(g, [x]);
    }
    forall a: set<nat> | a != {} && a <= {x}
      ensures a == {x}
    {
    }
  }

  /** In a chained graph, a subtree that another one depends on lies entirely below its root. */
  lemma RootsJoin(g: Graph, p: seq<nat>, c: seq<nat>)
    requires Valid(g) && Chained(g) && Rooted(g, p) && Rooted(g, c) && Elems(p + c) <= g.used
    requires Topo(g, p + c) && !(Deps(g, c) !! Elems(p))
    ensures Rooted(g, p + c)
  {
    hide Deps, Valid, Chained, Topo;
    DepsElems(g, c);
    var r, x := p[|p| - 1], c[|c| - 1];
    assert Elems(p + c) == Elems(p) + Elems(c) && r in Elems(p) && x in Elems(c);
    var v :| v in Deps(g, c) && v in Elems(p);
    var u :| u in c && v in g.Anc(u);
    assert u in Elems(c);
    TopoSplit(g, p, c);
    assert r in p && x in c;
    RootUnder(g, v, u, r, x);
    AncestorsOf(g, x, r);
    assert (p + c)[|p + c| - 1] == x;
  }

  /** Two descendants of v are comparable; r comes first. */
  lemma RootUnder(g: Graph, v: nat, u: nat, r: nat, x: nat)
    requires Valid(g) && Chained(g) && v in g.used && r in g.used && x in g.used
    requires v in g.Anc(r) && v in g.Anc(u) && u in g.Anc(x) && x !in g.Anc(r)
    ensures r in g.Anc(x)
  {
    AncestorsOf(g, x, u);
    assert v in g.Anc(x);
    assert r in g.Desc(v) && x in g.Desc(v);
  }

  /** The parts of a merged group: without the root they consist of parts of both; with it, they are everything. */
  lemma MergeParts(g: Graph, p: seq<nat>, c: seq<nat>, a: set<nat>)
    requires Valid(g) && p != [] && c != [] && Elems(p + c) <= g.used && Distinct(p + c) && Rooted(g, p + c)
    requires PartsBelow(g, p, Sum(g, p), false) && PartsBelow(g, c, Sum(g, p), true)
    requires a != {} && ClosedIn(g, Elems(p + c), a) && Sized(g, p)
    ensures c[|c| - 1] in a ==> a == Elems(p + c)
    ensures c[|c| - 1] !in a ==> !Higher(FeeRate(g, a), Sum(g, p))
  {
    hide Sum, Higher, Valid, PartsBelow;
    var x, P, C := c[|c| - 1], Elems(p), Elems(c);
    assert (p + c)[|p + c| - 1] == x && Elems(p + c) == P + C;
    if x in a {
      forall y | y in P + C
        ensures y in a
      {
        assert y in p + c;
      }
    } else {
      var ap, ac := a * P, a * C;
      DistinctSplit(p, c);
      assert a == ap + ac && ap !! ac;
      assert ClosedIn(g, P, ap) && ClosedIn(g, C, ac);
      PartAt(g, p, Sum(g, p), false, ap);
      PartAt(g, c, Sum(g, p), true, ac);
      FeeRateUnion(g, ap, ac);
      NotHigherSum(FeeRate(g, ap), FeeRate(g, ac), Sum(g, p));
    }
  }

  lemma PartAt(g: Graph, b: seq<nat>, limit: FeeFrac, proper: bool, a: set<nat>)
    requires PartsBelow(g, b, limit, proper) && ClosedIn(g, Elems(b), a) && (proper ==> b != [] && b[|b| - 1] !in a)
    ensures !Higher(FeeRate(g, a), limit)
  {
    if a == {} {
      FeeRateSingleton(g, 0);
    }
  }

  lemma NotHigherSum(a: FeeFrac, b: FeeFrac, l: FeeFrac)
    requires !Higher(a, l) && !Higher(b, l)
    ensures !Higher(a.Plus(b), l)
  {
    assert (a.fee + b.fee) * l.size == a.fee * l.size + b.fee * l.size;
    assert l.fee * (a.size + b.size) == l.fee * a.size + l.fee * b.size;
  }

  lemma PartsAre(g: Graph, b: seq<nat>, limit: FeeFrac, proper: bool)
    requires forall a :: a != {} && ClosedIn(g, Elems(b), a) && (proper ==> b != [] && b[|b| - 1] !in a) ==> !Higher(FeeRate(g, a), limit)
    ensures PartsBelow(g, b, limit, proper)
  {
  }

  /** Merging keeps groups solid, and their proper parts no better than the group that was merged. */
  lemma MergeSolid(g: Graph, p: seq<nat>, c: seq<nat>)
    requires Valid(g) && Chained(g) && Elems(p + c) <= g.used && Distinct(p + c) && Topo(g, p + c)
    requires GoodBlock(g, p) && GoodBlock(g, c) && Solid(g, p) && Solid(g, c) && PartsBelow(g, c, Sum(g, p), true)
    requires Higher(Sum(g, c), Sum(g, p)) && !(Deps(g, c) !! Elems(p))
    ensures Solid(g, p + c) && PartsBelow(g, p + c, Sum(g, p), true)
  {
    hide Sum, Higher, Valid, Chained, PartsBelow, Deps, Topo, Rooted, GoodBlock;
    RootsJoin(g, p, c);
    MergeGood(g, p, c);
    SizedBlock(g, p);
    GoodParts(g, p);
    GoodParts(g, c);
    var s := p + c;
    assert s[|s| - 1] == c[|c| - 1];
    forall a | a != {} && ClosedIn(g, Elems(s), a)
      ensures !Higher(FeeRate(g, a), Sum(g, s))
      ensures s[|s| - 1] !in a ==> !Higher(FeeRate(g, a), Sum(g, p))
    {
      MergeParts(g, p, c, a);
      SumElems(g, s);
      if s[|s| - 1] in a {
        NotHigherSelf(Sum(g, s));
      } else {
        MergedAbove(g, p, c);
        SizedPart(g, s, a);
        LowerThanHigher(FeeRate(g, a), Sum(g, p), Sum(g, s));
      }
    }
    PartsAre(g, s, Sum(g, s), false);
    PartsAre(g, s, Sum(g, p), true);
  }

  lemma GoodParts(g: Graph, b: seq<nat>)
    requires GoodBlock(g, b)
    ensures b != [] && Sized(g, b) && Sum(g, b).size > 0
  {
    SumSize(g, b);
  }

  lemma SizedPart(g: Graph, s: seq<nat>, a: set<nat>)
    requires GoodBlock(g, s) && ClosedIn(g, Elems(s), a) && a != {}
    ensures FeeRate(g, a).size > 0
  {
    SizedSet(g, s, a);
  }

  lemma NotHigherSelf(a: FeeFrac)
    ensures !Higher(a, a)
  {
  }

  lemma MergedAbove(g: Graph, p: seq<nat>, c: seq<nat>)
    requires GoodBlock(g, p) && GoodBlock(g, c) && Higher(Sum(g, c), Sum(g, p))
    ensures Higher(Sum(g, p + c), Sum(g, p)) && Sum(g, p).size > 0 && Sum(g, p + c).size > 0
  {
    hide Sum;
    GoodParts(g, p);
    GoodParts(g, c);
    SumConcat(g, p, c);
    Mediant(Sum(g, p), Sum(g, c));
  }

  lemma Mediant(p: FeeFrac, c: FeeFrac)
    requires Higher(c, p)
    ensures Higher(p.Plus(c), p)
  {
    assert (p.fee + c.fee) * p.size == p.fee * p.size + c.fee * p.size;
    assert p.fee * (p.size + c.size) == p.fee * p.size + p.fee * c.size;
  }

  lemma LowerThanHigher(a: FeeFrac, b: FeeFrac, c: FeeFrac)
    requires a.size > 0 && b.size > 0 && c.size > 0 && !Higher(a, b) && Higher(c, b)
    ensures !Higher(a, c)
  {
    CrossSign(a, b);
    CrossSign(b, a);
    CrossSign(c, b);
    CrossSign(a, c);
    CrossSign(c, a);
    CrossTransitive(c, b, a);
  }

  // ---------- every pass leaves solid groups ----------

  ghost predicate TreeMoving(g: Graph, before: seq<seq<nat>>, c: seq<nat>, after: seq<seq<nat>>) {
    && AllSolid(g, before) && Solid(g, c) && AllSolid(g, after)
    && (before != [] ==> PartsBelow(g, c, Sum(g, before[|before| - 1]), true))
  }

  lemma PartsWeaken(g: Graph, b: seq<nat>, l: FeeFrac, l': FeeFrac)
    requires PartsBelow(g, b, l, true) && Sized(g, b) && l.size > 0 && l'.size > 0 && !Higher(l, l')
    ensures PartsBelow(g, b, l', true)
  {
    hide Higher;
    forall a | a != {} && ClosedIn(g, Elems(b), a) && b != [] && b[|b| - 1] !in a
      ensures !Higher(FeeRate(g, a), l')
    {
      SizedSet(g, b, a);
      NotHigherThrough(FeeRate(g, a), l, l');
    }
  }

  lemma NotHigherThrough(a: FeeFrac, b: FeeFrac, c: FeeFrac)
    requires a.size > 0 && b.size > 0 && c.size > 0 && !Higher(a, b) && !Higher(b, c)
    ensures !Higher(a, c)
  {
    CrossSign(a, b);
    CrossSign(b, a);
    CrossSign(b, c);
    CrossSign(c, b);
    CrossSign(a, c);
    CrossSign(c, a);
    CrossTransitive(c, b, a);
  }

  /** The group before p is not below p. */
  lemma Preceding(g: Graph, before: seq<seq<nat>>, c: seq<nat>, after: seq<seq<nat>>)
    requires Moving(g, before, c, after) && |before| > 1
    ensures var p, q := before[|before| - 1], before[|before| - 2];
            GoodBlock(g, p) && GoodBlock(g, q) && !Higher(Sum(g, p), Sum(g, q))
  {
    hide Sum, Higher, GoodBlock;
    var all, n := before + after, |before| - 2;
    assert all[n] == before[n] && all[n + 1] == before[n + 1];
  }

  lemma MovingPair(g: Graph, s: seq<nat>, before: seq<seq<nat>>, c: seq<nat>, after: seq<seq<nat>>)
    requires MovingState(g, s, before, c, after) && before != []
    ensures var p := before[|before| - 1];
            Distinct(p + c) && Topo(g, p + c) && Elems(p + c) <= Elems(s) && GoodBlock(g, p) && GoodBlock(g, c)
  {
    hide Sum, Higher, GoodBlock, Topo, Distinct, Dominates, Connected;
    MovingFacts(g, before, c, after);
    var n, p := |before| - 1, before[|before| - 1];
    ConcatLast(before);
    var x, y := Concat(before[..n]), Concat(after);
    assert Layout(before, c, after) == x + (p + c) + y;
    DistinctSplit(x + (p + c), y);
    DistinctSplit(x, p + c);
    TopoSplit(g, x + (p + c), y);
    TopoSplit(g, x, p + c);
    assert Elems(x + (p + c) + y) == Elems(x) + Elems(p + c) + Elems(y);
  }

  lemma {:induction false} InsertSolid(g: Graph, s: seq<nat>, before: seq<seq<nat>>, c: seq<nat>, after: seq<seq<nat>>)
    requires Valid(g) && Chained(g) && Elems(s) <= g.used && MovingState(g, s, before, c, after) && TreeMoving(g, before, c, after)
    ensures AllSolid(g, Insert(g, before, c, after))
    decreases |before|
  {
    hide MovingState, Sum, Higher, Deps, Insert, Valid, Chained, Solid, PartsBelow;
    if before == [] || !Higher(Sum(g, c), Sum(g, before[|before| - 1])) {
      InsertDone(g, before, c, after);
    } else {
      InsertStep(g, before, c, after);
      var n, p := |before| - 1, before[|before| - 1];
      var init := before[..n];
      MovingPair(g, s, before, c, after);
      if Deps(g, c) !! Elems(p) {
        SwapState(g, s, before, c, after);
        KeepLow(g, s, before, c, after, c);
        InsertSolid(g, s, init, c, [p] + after);
      } else {
        MergeSolid(g, p, c);
        MergeState(g, s, before, c, after);
        MergeGood(g, p, c);
        KeepLow(g, s, before, c, after, p + c);
        InsertSolid(g, s, init, p + c, after);
      }
    }
  }

  /** What is not above p is not above the group before p. */
  lemma KeepLow(g: Graph, s: seq<nat>, before: seq<seq<nat>>, c: seq<nat>, after: seq<seq<nat>>, b: seq<nat>)
    requires MovingState(g, s, before, c, after) && before != [] && GoodBlock(g, b)
    requires PartsBelow(g, b, Sum(g, before[|before| - 1]), true)
    ensures var init := before[..|before| - 1];
            init != [] ==> PartsBelow(g, b, Sum(g, init[|init| - 1]), true)
  {
    hide Sum, Higher, PartsBelow, GoodBlock;
    if |before| > 1 {
      Preceding(g, before, c, after);
      var p, q := before[|before| - 1], before[|before| - 2];
      GoodParts(g, p);
      GoodParts(g, q);
      GoodParts(g, b);
      PartsWeaken(g, b, Sum(g, p), Sum(g, q));
    }
  }

  lemma {:induction false} GroupsSolid(g: Graph, s: seq<nat>)
    requires Valid(g) && Chained(g) && Elems(s) <= g.used && Distinct(s) && Topo(g, s) && Sized(g, s)
    ensures GroupState(g, s, GroupsOf(g, s)) && AllSolid(g, GroupsOf(g, s))
    decreases |s|
  {
    hide MovingState, GroupState, Sum, Insert, Valid, Chained, Solid, PartsBelow;
    if s == [] {
      GroupStart(g);
    } else {
      var t, x := s[..|s| - 1], s[|s| - 1];
      assert t + [x] == s && x in Elems(s);
      GroupsSolid(g, t);
      var groups := GroupsOf(g, t);
      StartMoving(g, t, groups, x);
      InsertState(g, s, groups, [x], []);
      SingletonSolid(g, x, if groups == [] then EMPTY else Sum(g, groups[|groups| - 1]));
      InsertSolid(g, s, groups, [x], []);
    }
  }

  // ---------- solid groups are optimal ----------

  /** A part of a solid group rises no higher above a line than the whole group, if that rises at all. */
  lemma PartRises(g: Graph, b: seq<nat>, a: set<nat>, slope: FeeFrac)
    requires GoodBlock(g, b) && Distinct(b) && Solid(g, b) && ClosedIn(g, Elems(b), a) && slope.size > 0
    ensures Cross(Sum(g, b), slope) > 0 ==> Cross(FeeRate(g, a), slope) <= Cross(Sum(g, b), slope)
    ensures Cross(Sum(g, b), slope) <= 0 ==> Cross(FeeRate(g, a), slope) <= 0
  {
    hide Sum, Higher, Cross, PartsBelow, Rooted, GoodBlock;
    GoodParts(g, b);
    if a == {} {
      FeeRateSingleton(g, 0);
      CrossSign(slope, EMPTY);
    } else {
      PartAt(g, b, Sum(g, b), false, a);
      SizedSet(g, b, a);
      PartSize(g, b, a);
      Rises(FeeRate(g, a), Sum(g, b), slope);
    }
  }

  lemma PartSize(g: Graph, b: seq<nat>, a: set<nat>)
    requires Sized(g, b) && Distinct(b) && a <= Elems(b)
    ensures FeeRate(g, a).size <= Sum(g, b).size
  {
    hide Sum;
    SumElems(g, b);
    FeeRateSplit(g, Elems(b), a);
    assert Elems(b) * a == a;
    var rest := Elems(b) - a;
    if rest == {} {
      FeeRateSingleton(g, 0);
    } else {
      SizedSet(g, b, rest);
    }
  }

  lemma Rises(x: FeeFrac, y: FeeFrac, slope: FeeFrac)
    requires 0 < x.size <= y.size && slope.size > 0 && !Higher(x, y)
    ensures Cross(y, slope) > 0 ==> Cross(x, slope) <= Cross(y, slope)
    ensures Cross(y, slope) <= 0 ==> Cross(x, slope) <= 0
  {
    hide Cross, Higher;
    CrossIdentity(x, y, slope);
    CrossSign(x, y);
    var d, h, k := Cross(x, y), Cross(y, slope), Cross(x, slope);
    NonPositive(d, slope.size);
    assert k * y.size <= h * x.size;
    if h > 0 {
      MulLess(h, x.size, y.size);
      Scale(h - k, y.size);
      assert (h - k) * y.size == h * y.size - k * y.size;
    } else {
      NonPositive(h, x.size);
      Scale(k, y.size);
    }
  }

  lemma NonPositive(d: int, k: int)
    requires d <= 0 && k > 0
    ensures d * k <= 0
  {
  }

  lemma MulLess(h: int, a: int, b: int)
    requires h > 0 && a <= b
    ensures h * a <= h * b
  {
  }

  /** Above every line, the parts of solid groups in order of feerate reach no higher than some chunk boundary. */
  lemma {:induction false} PartsReach(g: Graph, groups: seq<seq<nat>>, a: set<nat>, slope: FeeFrac) returns (m: nat)
    requires IsChunking(g, groups) && AllSolid(g, groups) && Distinct(Concat(groups)) && a <= Elems(Concat(groups)) && slope.size > 0
    requires forall i :: 0 <= i < |groups| ==> ClosedIn(g, Elems(groups[i]), a * Elems(groups[i]))
    ensures m <= |groups| && Cross(FeeRate(g, a), slope) <= Cross(Sum(g, Concat(groups[..m])), slope)
    ensures groups != [] && Cross(Sum(g, groups[0]), slope) <= 0 ==> Cross(FeeRate(g, a), slope) <= 0
    decreases |groups|
  {
    hide Sum, Higher, Cross, Solid, GoodBlock, Concat;
    if groups == [] {
      NothingReaches(g, groups, a, slope);
      m := 0;
    } else {
      var b, rest := groups[0], groups[1..];
      ConcatCons(groups);
      DistinctSplit(b, Concat(rest));
      var x, y := a * Elems(b), a * Elems(Concat(rest));
      assert a == x + y && x !! y;
      FeeRateUnion(g, x, y);
      CrossPlus(FeeRate(g, x), FeeRate(g, y), slope);
      PartRises(g, b, x, slope);
      RestParts(g, groups, a, y);
      var k := PartsReach(g, rest, y, slope);
      if Cross(Sum(g, b), slope) > 0 {
        m := k + 1;
        BoundaryNext(g, groups, k, slope);
      } else {
        m := 0;
        LaterLower(g, groups, slope);
        NothingReaches(g, groups, {}, slope);
        if rest == [] {
          NothingReaches(g, rest, y, slope);
        }
      }
    }
  }

  lemma NothingReaches(g: Graph, groups: seq<seq<nat>>, a: set<nat>, slope: FeeFrac)
    requires a == {} || (groups == [] && a <= Elems(Concat(groups)))
    ensures Cross(FeeRate(g, a), slope) == 0 && Cross(Sum(g, Concat(groups[..0])), slope) == 0
  {
    assert groups[..0] == [] && a == {};
    FeeRateSingleton(g, 0);
  }

  lemma RestParts(g: Graph, groups: seq<seq<nat>>, a: set<nat>, y: set<nat>)
    requires groups != [] && IsChunking(g, groups) && AllSolid(g, groups) && y == a * Elems(Concat(groups[1..]))
    requires forall i :: 0 <= i < |groups| ==> ClosedIn(g, Elems(groups[i]), a * Elems(groups[i]))
    ensures IsChunking(g, groups[1..]) && AllSolid(g, groups[1..])
    ensures forall i :: 0 <= i < |groups[1..]| ==> ClosedIn(g, Elems(groups[1..][i]), y * Elems(groups[1..][i]))
  {
    hide Sum, Higher, Solid, GoodBlock, ClosedIn, Concat;
    var rest := groups[1..];
    forall i | 0 <= i < |rest|
      ensures GoodBlock(g, rest[i]) && Solid(g, rest[i]) && ClosedIn(g, Elems(rest[i]), y * Elems(rest[i]))
    {
      assert rest[i] == groups[i + 1];
      InConcatAt(rest, i);
      assert y * Elems(rest[i]) == a * Elems(rest[i]);
    }
    forall i | 0 <= i < |rest| - 1
      ensures !Higher(Sum(g, rest[i + 1]), Sum(g, rest[i]))
    {
      var j := i + 1;
      assert rest[i] == groups[j] && rest[i + 1] == groups[j + 1];
    }
  }

  lemma {:induction false} InConcatAt(groups: seq<seq<nat>>, i: nat)
    requires i < |groups|
    ensures Elems(groups[i]) <= Elems(Concat(groups))
  {
    if i < |groups| - 1 {
      InConcatAt(groups[..|groups| - 1], i);
    }
  }

  lemma BoundaryNext(g: Graph, groups: seq<seq<nat>>, k: nat, slope: FeeFrac)
    requires groups != [] && k < |groups|
    ensures Cross(Sum(g, Concat(groups[..k + 1])), slope) == Cross(Sum(g, groups[0]), slope) + Cross(Sum(g, Concat(groups[1..][..k])), slope)
  {
    hide Sum, Cross, Concat;
    var p := groups[..k + 1];
    ConcatCons(p);
    assert p[0] == groups[0] && p[1..] == groups[1..][..k];
    SumConcat(g, groups[0], Concat(groups[1..][..k]));
    CrossPlus(Sum(g, groups[0]), Sum(g, Concat(groups[1..][..k])), slope);
  }

  lemma LaterLower(g: Graph, groups: seq<seq<nat>>, slope: FeeFrac)
    requires IsChunking(g, groups) && groups != [] && slope.size > 0 && Cross(Sum(g, groups[0]), slope) <= 0
    ensures |groups| > 1 ==> Cross(Sum(g, groups[1..][0]), slope) <= 0
  {
    hide Sum, Higher, Cross, GoodBlock;
    if |groups| > 1 {
      assert GoodBlock(g, groups[0]) && GoodBlock(g, groups[1]);
      GoodParts(g, groups[0]);
      GoodParts(g, groups[1]);
      assert !Higher(Sum(g, groups[0 + 1]), Sum(g, groups[0]));
      var x, y := Sum(g, groups[1]), Sum(g, groups[0]);
      CrossSign(x, y);
      CrossSign(y, slope);
      CrossSign(x, slope);
      CrossSign(y, x);
      NotHigherThrough(x, y, slope);
    }
  }

  /** If no transaction has more than one child, a forward pass gives an ordering that dominates every other one. */
  lemma ForwardOptimal(g: Graph, s: seq<nat>, other: seq<nat>)
    requires Valid(g) && Acyclic(g) && SingleChild(g) && IsLinearization(g, s) && IsLinearization(g, other)
    ensures Dominates(g, Concat(GroupsOf(g, s)), other)
  {
    hide Valid, Acyclic, SingleChild, Sum, Cross, GroupsOf, Solid, GoodBlock, Concat, Chained, Topo;
    ChildChain(g);
    LinearizationSized(g, s);
    GroupsSolid(g, s);
    var groups := GroupsOf(g, s);
    forall slope: FeeFrac, k | slope.size > 0 && 0 <= k <= |other|
      ensures Reaches(g, Concat(groups), slope, Cross(Point(g, other, k), slope))
    {
      OtherReached(g, s, groups, other, slope, k);
    }
  }

  lemma OtherReached(g: Graph, s: seq<nat>, groups: seq<seq<nat>>, other: seq<nat>, slope: FeeFrac, k: nat)
    requires Valid(g) && GroupState(g, s, groups) && AllSolid(g, groups) && Elems(s) == g.used && IsLinearization(g, other)
    requires slope.size > 0 && k <= |other|
    ensures Reaches(g, Concat(groups), slope, Cross(Point(g, other, k), slope))
  {
    hide Valid, Sum, Cross, Solid, GoodBlock, Concat, Topo, Dominates, Connected;
    var a := Elems(other[..k]);
    PrefixClosed(g, other, k);
    assert Distinct(other[..k]);
    SumElems(g, other[..k]);
    forall i | 0 <= i < |groups|
      ensures ClosedIn(g, Elems(groups[i]), a * Elems(groups[i]))
    {
      InConcatAt(groups, i);
    }
    var m := PartsReach(g, groups, a, slope);
    BoundaryPoint(g, groups, m);
    assert Cross(Point(g, Concat(groups), |Concat(groups[..m])|), slope) >= Cross(Point(g, other, k), slope);
  }

  lemma BoundaryPoint(g: Graph, groups: seq<seq<nat>>, m: nat)
    requires m <= |groups|
    ensures |Concat(groups[..m])| <= |Concat(groups)| && Point(g, Concat(groups), |Concat(groups[..m])|) == Sum(g, Concat(groups[..m]))
  {
    hide Sum, Concat;
    assert groups == groups[..m] + groups[m..];
    ConcatAppend(groups[..m], groups[m..]);
  }
}
