/** What each insertion of PostLinearize keeps, and the duality behind its backward pass. */
module PostTheory {
  import opened FeeRates
  import opened Graphs
  import opened Diagrams
  import opened Chunkings
  import opened Components
  import opened Merging
  import opened Groupings

  // ---------- what the groups keep ----------

  /** `r` orders the same transactions as `s`, topologically and not worse. */
  ghost predicate Reordered(g: Graph, s: seq<nat>, r: seq<nat>) {
    && Distinct(r) && Elems(r) == Elems(s)
    && Topo(g, r) && Dominates(g, r, s)
  }

  /** The groups are connected chunks of an ordering that is not worse than `s`. */
  ghost predicate GroupState(g: Graph, s: seq<nat>, groups: seq<seq<nat>>) {
    IsChunking(g, groups) && AllConnected(g, groups) && Reordered(g, s, Concat(groups))
  }

  /** The same while group c is moving towards the front. */
  ghost predicate MovingState(g: Graph, s: seq<nat>, before: seq<seq<nat>>, c: seq<nat>, after: seq<seq<nat>>) {
    && Moving(g, before, c, after)
    && AllConnected(g, before + [c] + after)
    && Reordered(g, s, Layout(before, c, after))
  }

  lemma SameSum(g: Graph, a: seq<nat>, b: seq<nat>)
    requires Distinct(a) && Distinct(b) && Elems(a) == Elems(b)
    ensures Sum(g, a) == Sum(g, b)
  {
    SumElems(g, a);
    SumElems(g, b);
  }

  lemma GroupStart(g: Graph)
    ensures GroupState(g, [], [])
  {
    DominatesReflexive(g, []);
  }

  /** Appending the next transaction of the ordering as a group of its own. */
  lemma StartMoving(g: Graph, s: seq<nat>, groups: seq<seq<nat>>, x: nat)
    requires GroupState(g, s, groups) && Distinct(s + [x]) && Topo(g, s + [x])
    requires x < |g.entries| && g.Fee(x).size > 0
    ensures MovingState(g, s + [x], groups, [x], [])
  {
    hide Dominates, Sum, Higher;
    var r := Concat(groups);
    DistinctSplit(s, [x]);
    SameSum(g, r, s);
    DominatesAppend(g, r, s, [x]);
    DistinctSplit(r, [x]);
    TopoSplit(g, s, [x]);
    forall u, v | u in r && v in [x]
      ensures v !in g.Anc(u)
    {
      assert u in Elems(r);
      assert u in s;
    }
    TopoJoin(g, r, [x]);
    assert Elems(r + [x]) == Elems(r) + {x} && Elems(s + [x]) == Elems(s) + {x};
    assert groups + [] == groups;
    NoChunks(g);
    assert Layout(groups, [x], []) == r + [x];
    assert Elems([x]) == {x};
    ConnectedSingleton(g, x);
    assert AllConnected(g, groups + [[x]] + []);
  }

  lemma ReorderedTransitive(g: Graph, s: seq<nat>, r: seq<nat>, r': seq<nat>)
    requires Reordered(g, s, r) && Dominates(g, r', r) && Distinct(r') && Elems(r') == Elems(r) && Topo(g, r')
    ensures Reordered(g, s, r')
  {
    DominatesTransitive(g, r', r, s);
  }

  lemma MergeState(g: Graph, s: seq<nat>, before: seq<seq<nat>>, c: seq<nat>, after: seq<seq<nat>>)
    requires MovingState(g, s, before, c, after) && before != [] && Higher(Sum(g, c), Sum(g, before[|before| - 1]))
    requires !(Deps(g, c) !! Elems(before[|before| - 1]))
    ensures MovingState(g, s, before[..|before| - 1], before[|before| - 1] + c, after)
  {
    hide Moving, Reordered, Sum, Higher, Deps, Connected;
    MergeMoving(g, before, c, after);
    var n := |before| - 1;
    var p := before[n];
    var all, all' := before + [c] + after, before[..n] + [p + c] + after;
    assert all[n] == p && all[n + 1] == c;
    ConnectedJoin(g, p, c);
    forall i | 0 <= i < |all'|
      ensures Connected(g, Elems(all'[i]))
    {
      if i < n {
        assert all'[i] == all[i];
      } else if i > n {
        assert all'[i] == all[i + 1];
      }
    }
  }

  lemma SwapState(g: Graph, s: seq<nat>, before: seq<seq<nat>>, c: seq<nat>, after: seq<seq<nat>>)
    requires MovingState(g, s, before, c, after) && before != [] && Higher(Sum(g, c), Sum(g, before[|before| - 1]))
    requires Deps(g, c) !! Elems(before[|before| - 1])
    ensures MovingState(g, s, before[..|before| - 1], c, [before[|before| - 1]] + after)
  {
    hide Moving, Sum, Higher, Deps, Connected, Dominates, Layout, Topo, Distinct;
    SwapMoving(g, before, c, after);
    var n := |before| - 1;
    var p := before[n];
    var x, y := Concat(before[..n]), Concat(after);
    SwapTopo(g, x, p, c, y);
    var r, r' := Layout(before, c, after), Layout(before[..n], c, [p] + after);
    SwapDistinct(x, p, c, y);
    ReorderedTransitive(g, s, r, r');
    var all, all' := before + [c] + after, before[..n] + [c] + ([p] + after);
    forall i | 0 <= i < |all'|
      ensures Connected(g, Elems(all'[i]))
    {
      var j := if i == n then n + 1 else if i == n + 1 then n else i;
      assert all'[i] == all[j];
    }
  }

  lemma SwapDistinct(x: seq<nat>, p: seq<nat>, c: seq<nat>, y: seq<nat>)
    requires Distinct(x + (p + c) + y)
    ensures Distinct(x + (c + p) + y) && Elems(x + (c + p) + y) == Elems(x + (p + c) + y)
  {
    hide Distinct;
    DistinctSplit(x + (p + c), y);
    DistinctSplit(x, p + c);
    DistinctSplit(p, c);
    DistinctSplit(c, p);
    assert Elems(c + p) == Elems(p + c);
    DistinctSplit(x, c + p);
    assert Elems(x + (c + p)) == Elems(x + (p + c));
    DistinctSplit(x + (c + p), y);
  }

  lemma FinishState(g: Graph, s: seq<nat>, before: seq<seq<nat>>, c: seq<nat>, after: seq<seq<nat>>)
    requires MovingState(g, s, before, c, after)
    requires before != [] ==> !Higher(Sum(g, c), Sum(g, before[|before| - 1]))
    ensures GroupState(g, s, before + [c] + after)
  {
    hide Moving, Sum, Higher, Reordered, Connected;
    MovingDone(g, before, c, after);
  }

  /** The groups left at the end are exactly the chunks of the output. */
  lemma GroupsAreChunks(g: Graph, s: seq<nat>, groups: seq<seq<nat>>)
    requires GroupState(g, s, groups) && Sized(g, s)
    ensures Chunks(g, Concat(groups)) == groups
  {
    hide Chunks, Absorb, Sum, Concat;
    forall i | 0 <= i < |Concat(groups)|
      ensures Concat(groups)[i] < |g.entries| && g.Fee(Concat(groups)[i]).size > 0
    {
      assert Concat(groups)[i] in Elems(Concat(groups));
    }
    ChunksIsChunking(g, Concat(groups));
    ChunkingUnique(g, Chunks(g, Concat(groups)), groups);
  }

  // ---------- the groups as a function of the ordering ----------

  /** The groups after c has merged with, or moved past, all preceding groups of lower feerate. */
  ghost function Insert(g: Graph, before: seq<seq<nat>>, c: seq<nat>, after: seq<seq<nat>>): seq<seq<nat>>
    decreases |before|
  {
    if before == [] || !Higher(Sum(g, c), Sum(g, before[|before| - 1])) then before + [c] + after
    else
      var n, p := |before| - 1, before[|before| - 1];
      if Deps(g, c) !! Elems(p) then Insert(g, before[..n], c, [p] + after)
      else Insert(g, before[..n], p + c, after)
  }

  /** The groups left by a pass over an ordering. */
  ghost function GroupsOf(g: Graph, s: seq<nat>): seq<seq<nat>> {
    if s == [] then [] else Insert(g, GroupsOf(g, s[..|s| - 1]), [s[|s| - 1]], [])
  }

  lemma InsertDone(g: Graph, before: seq<seq<nat>>, c: seq<nat>, after: seq<seq<nat>>)
    requires before == [] || !Higher(Sum(g, c), Sum(g, before[|before| - 1]))
    ensures Insert(g, before, c, after) == before + [c] + after
  {
  }

  lemma InsertStep(g: Graph, before: seq<seq<nat>>, c: seq<nat>, after: seq<seq<nat>>)
    requires before != [] && Higher(Sum(g, c), Sum(g, before[|before| - 1]))
    ensures var n, p := |before| - 1, before[|before| - 1];
            Insert(g, before, c, after) == if Deps(g, c) !! Elems(p) then Insert(g, before[..n], c, [p] + after) else Insert(g, before[..n], p + c, after)
  {
  }

  lemma GroupsOfNext(g: Graph, s: seq<nat>, x: nat)
    ensures GroupsOf(g, s + [x]) == Insert(g, GroupsOf(g, s), [x], [])
  {
    assert (s + [x])[..|s|] == s;
  }

  /** Every insertion keeps what the groups keep. */
  lemma {:induction false} InsertState(g: Graph, s: seq<nat>, before: seq<seq<nat>>, c: seq<nat>, after: seq<seq<nat>>)
    requires MovingState(g, s, before, c, after)
    ensures GroupState(g, s, Insert(g, before, c, after))
    decreases |before|
  {
    hide MovingState, GroupState, Sum, Higher, Deps, Insert;
    if before == [] || !Higher(Sum(g, c), Sum(g, before[|before| - 1])) {
      InsertDone(g, before, c, after);
      FinishState(g, s, before, c, after);
    } else {
      InsertStep(g, before, c, after);
      var n, p := |before| - 1, before[|before| - 1];
      if Deps(g, c) !! Elems(p) {
        SwapState(g, s, before, c, after);
        InsertState(g, s, before[..n], c, [p] + after);
      } else {
        MergeState(g, s, before, c, after);
        InsertState(g, s, before[..n], p + c, after);
      }
    }
  }

  lemma InsertKeeps(g: Graph, s: seq<nat>, groups: seq<seq<nat>>, x: nat)
    requires GroupState(g, s, groups) && Distinct(s + [x]) && Topo(g, s + [x]) && x < |g.entries| && g.Fee(x).size > 0
    ensures GroupState(g, s + [x], Insert(g, groups, [x], []))
  {
    hide MovingState, GroupState, Insert;
    StartMoving(g, s, groups, x);
    InsertState(g, s + [x], groups, [x], []);
  }

  // ---------- duality ----------

  /** The graph with dependencies and fees reversed. */
  function Dual(g: Graph): Graph {
    Graph(seq(|g.entries|, i requires 0 <= i < |g.entries| => DualEntry(g.entries[i])), g.used)
  }

  function DualEntry(e: Entry): Entry {
    Entry(e.feerate.Negated(), e.descendants, e.ancestors)
  }

  lemma DualFacts(g: Graph, i: nat)
    ensures Dual(g).Fee(i) == g.Fee(i).Negated() && Dual(g).Anc(i) == g.Desc(i) && Dual(g).Desc(i) == g.Anc(i)
  {
    hide *;
    DualFee(g, i);
    DualAnc(g, i);
    DualDesc(g, i);
  }

  lemma DualFee(g: Graph, i: nat)
    ensures Dual(g).Fee(i) == g.Fee(i).Negated()
    ensures Dual(g).Fee(i).fee == -g.Fee(i).fee && Dual(g).Fee(i).size == g.Fee(i).size
  {
    hide Dual;
    DualSize(g);
    if i < |g.entries| {
      DualAt(g, i);
    }
  }

  lemma DualAnc(g: Graph, i: nat)
    ensures Dual(g).Anc(i) == g.Desc(i)
  {
    hide Dual;
    DualSize(g);
    if i < |g.entries| {
      DualAt(g, i);
    }
  }

  lemma DualDesc(g: Graph, i: nat)
    ensures Dual(g).Desc(i) == g.Anc(i)
  {
    hide Dual;
    DualSize(g);
    if i < |g.entries| {
      DualAt(g, i);
    }
  }

  lemma DualSize(g: Graph)
    ensures |Dual(g).entries| == |g.entries|
  {
  }

  lemma DualAt(g: Graph, i: nat)
    requires i < |g.entries|
    ensures |Dual(g).entries| == |g.entries| && Dual(g).entries[i] == DualEntry(g.entries[i])
  {
  }

  lemma DualSized(g: Graph, s: seq<nat>)
    requires Sized(g, s)
    ensures Sized(Dual(g), s)
  {
  }

  function Reverse(s: seq<nat>): (r: seq<nat>) {
    seq(|s|, i requires 0 <= i < |s| => s[|s| - 1 - i])
  }

  lemma ReverseFacts(s: seq<nat>)
    ensures Elems(Reverse(s)) == Elems(s) && Reverse(Reverse(s)) == s
    ensures Distinct(s) ==> Distinct(Reverse(s))
  {
    var r := Reverse(s);
    forall x | x in s
      ensures x in r
    {
      var i :| 0 <= i < |s| && s[i] == x;
      assert r[|s| - 1 - i] == x;
    }
  }

  /** Reversing an ordering turns a topological order of the graph into one of its dual. */
  lemma TopoDual(g: Graph, s: seq<nat>)
    requires Valid(g) && Elems(s) <= g.used && Topo(Dual(g), s)
    ensures Topo(g, Reverse(s))
  {
    hide Dual;
    var r, n := Reverse(s), |s|;
    forall i, j | 0 <= i < j < n
      ensures r[j] !in g.Anc(r[i])
    {
      var x, y := s[n - 1 - j], s[n - 1 - i];
      assert x in Elems(s) && y in Elems(s);
      DualFacts(g, x);
    }
  }

  /** The converse direction. */
  lemma TopoDualOf(g: Graph, s: seq<nat>)
    requires Valid(g) && Elems(s) <= g.used && Topo(g, s)
    ensures Topo(Dual(g), Reverse(s))
  {
    hide Dual;
    var r, n := Reverse(s), |s|;
    forall i, j | 0 <= i < j < n
      ensures r[j] !in Dual(g).Anc(r[i])
    {
      var x, y := s[n - 1 - j], s[n - 1 - i];
      assert x in Elems(s) && y in Elems(s);
      DualFacts(g, y);
    }
  }

  lemma {:induction false} SumDual(g: Graph, s: seq<nat>)
    ensures Sum(Dual(g), s).fee == -Sum(g, s).fee && Sum(Dual(g), s).size == Sum(g, s).size
  {
    hide Dual;
    if s != [] {
      SumDual(g, s[..|s| - 1]);
      SumDualStep(g, s);
    }
  }

  lemma SumDualStep(g: Graph, s: seq<nat>)
    requires s != [] && Sum(Dual(g), s[..|s| - 1]).fee == -Sum(g, s[..|s| - 1]).fee
    requires Sum(Dual(g), s[..|s| - 1]).size == Sum(g, s[..|s| - 1]).size
    ensures Sum(Dual(g), s).fee == -Sum(g, s).fee && Sum(Dual(g), s).size == Sum(g, s).size
  {
    hide *;
    SumLast(g, s);
    SumLast(Dual(g), s);
    DualFee(g, s[|s| - 1]);
  }

  lemma SumLast(g: Graph, s: seq<nat>)
    requires s != []
    ensures Sum(g, s).fee == Sum(g, s[..|s| - 1]).fee + g.Fee(s[|s| - 1]).fee
    ensures Sum(g, s).size == Sum(g, s[..|s| - 1]).size + g.Fee(s[|s| - 1]).size
  {
  }

  lemma {:induction false} SumReverse(g: Graph, s: seq<nat>)
    ensures Sum(g, Reverse(s)).fee == Sum(g, s).fee && Sum(g, Reverse(s)).size == Sum(g, s).size
  {
    if s == [] {
      assert Reverse(s) == [];
    } else {
      SumReverse(g, s[1..]);
      SumReverseStep(g, s);
    }
  }

  lemma SumReverseStep(g: Graph, s: seq<nat>)
    requires s != []
    ensures Sum(g, Reverse(s)) == Sum(g, Reverse(s[1..])).Plus(Sum(g, [s[0]]))
    ensures Sum(g, s) == Sum(g, [s[0]]).Plus(Sum(g, s[1..]))
  {
    hide Sum;
    assert s == [s[0]] + s[1..];
    assert Reverse(s) == Reverse(s[1..]) + [s[0]];
    SumConcat(g, Reverse(s[1..]), [s[0]]);
    SumConcat(g, [s[0]], s[1..]);
  }

  /** A point of the reversed ordering complements a point of the ordering. */
  lemma PointReverse(g: Graph, s: seq<nat>, k: nat)
    requires k <= |s|
    ensures Point(g, Reverse(s), k).Plus(Point(g, s, |s| - k)) == Sum(g, s)
  {
    hide Sum;
    var n := |s|;
    SumSplit(g, s, n - k);
    assert Reverse(s)[..k] == Reverse(s[n - k..]);
    SumReverse(g, s[n - k..]);
  }

  lemma ReverseLength(s: seq<nat>)
    ensures |Reverse(s)| == |s|
  {
  }

  lemma CrossNegated(p: FeeFrac, l: FeeFrac)
    ensures Cross(p.Negated(), l.Negated()) == -Cross(p, l)
  {
    assert (-p.fee) * l.size == -(p.fee * l.size);
    assert (-l.fee) * p.size == -(l.fee * p.size);
  }

  /** Above a line, the reversed ordering's points are those of the dual ordering, shifted by the total. */
  lemma PointDual(g: Graph, s: seq<nat>, k: nat, l: FeeFrac)
    requires k <= |s| == |Reverse(s)|
    ensures Cross(Point(g, Reverse(s), k), l) == Cross(Sum(g, s), l) + Cross(Point(Dual(g), s, |s| - k), l.Negated())
  {
    hide Cross, Sum, Dual, Reverse;
    var p := Point(g, s, |s| - k);
    ReverseLength(s);
    PointReverse(g, s, k);
    CrossPlus(Point(g, Reverse(s), k), p, l);
    SumDual(g, s[..|s| - k]);
    assert Point(Dual(g), s, |s| - k) == p.Negated();
    CrossNegated(p, l);
  }

  /** Improvement in the dual graph is improvement of the reversed orderings. */
  lemma DominatesDual(g: Graph, a: seq<nat>, b: seq<nat>)
    requires Dominates(Dual(g), a, b) && Sum(g, a) == Sum(g, b)
    ensures Dominates(g, Reverse(a), Reverse(b))
  {
    ReverseLength(b);
    hide Cross, Sum, Reverse, Dual, Reaches;
    forall slope: FeeFrac, k | slope.size > 0 && 0 <= k <= |Reverse(b)|
      ensures Reaches(g, Reverse(a), slope, Cross(Point(g, Reverse(b), k), slope))
    {
      var neg := slope.Negated();
      assert Reaches(Dual(g), a, neg, Cross(Point(Dual(g), b, |b| - k), neg));
      ReachesDual(g, a, b, slope, k);
    }
  }

  lemma ReachesDual(g: Graph, a: seq<nat>, b: seq<nat>, slope: FeeFrac, k: nat)
    requires Sum(g, a) == Sum(g, b) && k <= |b| == |Reverse(b)|
    requires Reaches(Dual(g), a, slope.Negated(), Cross(Point(Dual(g), b, |b| - k), slope.Negated()))
    ensures Reaches(g, Reverse(a), slope, Cross(Point(g, Reverse(b), k), slope))
  {
    hide Cross, Sum, Dual, Reverse, Point;
    var neg := slope.Negated();
    ReverseLength(a);
    PointDual(g, b, k, slope);
    var j :| 0 <= j <= |a| && Cross(Point(Dual(g), a, j), neg) >= Cross(Point(Dual(g), b, |b| - k), neg);
    var i := |a| - j;
    PointDual(g, a, i, slope);
    assert |a| - i == j;
    assert Cross(Point(g, Reverse(a), i), slope) >= Cross(Point(g, Reverse(b), k), slope);
  }

  lemma ReorderedDual(g: Graph, s: seq<nat>, r: seq<nat>)
    requires Valid(g) && Distinct(s) && Elems(s) <= g.used && Reordered(Dual(g), Reverse(s), r)
    ensures Reordered(g, s, Reverse(r))
  {
    hide Dominates, Reverse, Sum, Dual, Valid, Topo;
    ReverseFacts(s);
    ReverseFacts(r);
    TopoDual(g, r);
    SameSum(g, r, Reverse(s));
    DominatesDual(g, r, Reverse(s));
  }

  // ---------- whole passes ----------

  /** The graph, and the order, that a pass works on: backward passes swap parents and children and negate fees. */
  function PassGraph(g: Graph, rev: bool): Graph {
    if rev then Dual(g) else g
  }

  function PassOrder(s: seq<nat>, rev: bool): seq<nat> {
    if rev then Reverse(s) else s
  }

  /** The ordering, seen from the pass. */
  lemma PassInput(g: Graph, s: seq<nat>, rev: bool)
    requires Valid(g) && IsLinearization(g, s)
    ensures var o, gg := PassOrder(s, rev), PassGraph(g, rev);
            |o| == |s| && Distinct(o) && Topo(gg, o) && Sized(gg, o) && |gg.entries| == |g.entries|
  {
    hide Topo, Valid, Sized;
    ReverseFacts(s);
    ReverseLength(s);
    LinearizationSized(g, s);
    if rev {
      TopoDualOf(g, s);
      LinearizationSized(g, s);
      ReverseSized(g, s);
      DualSized(g, Reverse(s));
      assert |Dual(g).entries| == |g.entries|;
    }
  }

  lemma ReverseSized(g: Graph, s: seq<nat>)
    requires Sized(g, s)
    ensures Sized(g, Reverse(s))
  {
  }

  lemma PassOutput(g: Graph, s: seq<nat>, r: seq<nat>, rev: bool)
    requires Valid(g) && IsLinearization(g, s) && Reordered(PassGraph(g, rev), PassOrder(s, rev), r)
    ensures Reordered(g, s, PassOrder(r, rev))
  {
    hide Reordered, Topo, Valid, Dual, Reverse;
    if rev {
      ReorderedDual(g, s, r);
    }
  }

  lemma NoGroups(g: Graph)
    ensures GroupsOf(g, []) == []
  {
  }

  lemma PassOrderIs(r: seq<nat>, rev: bool)
    ensures PassOrder(r, rev) == if rev then Reverse(r) else r
  {
  }

  /** What a pass makes of an ordering. */
  ghost function PassResult(g: Graph, s: seq<nat>, rev: bool): seq<nat> {
    PassOrder(Concat(GroupsOf(PassGraph(g, rev), PassOrder(s, rev))), rev)
  }

  /** What PostLinearize makes of an ordering: a backward pass, then a forward pass. */
  ghost function PostOrder(g: Graph, s: seq<nat>): seq<nat> {
    PassResult(g, PassResult(g, s, true), false)
  }

  lemma ReorderedLinearization(g: Graph, s: seq<nat>, r: seq<nat>)
    requires Valid(g) && IsLinearization(g, s) && Reordered(g, s, r)
    ensures IsLinearization(g, r) && AtLeastAsGood(g, r, s)
  {
    hide Dominates, Topo, AtLeastAsGood;
    LinearizationCompare(g, r, s);
  }

  lemma AtLeastAsGoodTransitive(g: Graph, a: seq<nat>, b: seq<nat>, c: seq<nat>)
    requires Valid(g) && IsLinearization(g, a) && IsLinearization(g, b) && IsLinearization(g, c)
    requires AtLeastAsGood(g, a, b) && AtLeastAsGood(g, b, c)
    ensures AtLeastAsGood(g, a, c)
  {
    hide Dominates, AtLeastAsGood, Topo, Valid;
    LinearizationCompare(g, a, b);
    LinearizationCompare(g, b, c);
    LinearizationCompare(g, a, c);
    DominatesTransitive(g, a, b, c);
  }
}
