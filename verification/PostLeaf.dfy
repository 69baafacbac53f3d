/**
  Why replacing a leaf and postlinearizing does not make things worse
  (src/cluster_linearize.h:1130-1134, 1146): in the backward pass a leaf at the end is
  inserted first, and the transactions after its old place move past it without merging.
*/
module PostLeaf {
  import opened FeeRates
  import opened Graphs
  import opened Diagrams
  import opened Compare
  import opened Chunkings
  import opened Components
  import opened Merging
  import opened Groupings
  import opened PostTheory
  import opened PostTrees
  import opened PostGuarantees

  // ---------- inserting past a group that nothing depends on ----------

  /** The groups with t as a group of its own at place k. */
  ghost function With(groups: seq<seq<nat>>, t: nat, k: nat): seq<seq<nat>>
    requires k <= |groups|
  {
    groups[..k] + [[t]] + groups[k..]
  }

  /** The groups after the moving one are not looked at. */
  lemma {:induction false} InsertAfter(g: Graph, before: seq<seq<nat>>, c: seq<nat>, after: seq<seq<nat>>)
    ensures Insert(g, before, c, after) == Insert(g, before, c, []) + after
    decreases |before|
  {
    hide Sum, Higher, Deps, Insert;
    if before == [] || !Higher(Sum(g, c), Sum(g, before[|before| - 1])) {
      InsertDone(g, before, c, after);
      InsertDone(g, before, c, []);
    } else {
      InsertStep(g, before, c, after);
      InsertStep(g, before, c, []);
      var n, p := |before| - 1, before[|before| - 1];
      if Deps(g, c) !! Elems(p) {
        InsertAfter(g, before[..n], c, [p] + after);
        InsertAfter(g, before[..n], c, [p] + []);
        var i := Insert(g, before[..n], c, []);
        assert i + ([p] + after) == (i + ([p] + [])) + after;
      } else {
        InsertAfter(g, before[..n], p + c, after);
        InsertAfter(g, before[..n], p + c, []);
        assert Insert(g, before[..n], p + c, []) + [] == Insert(g, before[..n], p + c, []);
      }
    }
  }

  /** No group depends on t. */
  ghost predicate Independent(g: Graph, groups: seq<seq<nat>>, t: nat) {
    forall i :: 0 <= i < |groups| ==> t !in Deps(g, groups[i]) && Sum(g, groups[i]).size > 0
  }

  /** What does not depend on t is inserted as if t were not there. */
  lemma {:induction false} InsertWith(g: Graph, groups: seq<seq<nat>>, t: nat, k: nat, c: seq<nat>, after: seq<seq<nat>>) returns (m: nat)
    requires k <= |groups| && Independent(g, groups, t) && t !in Deps(g, c) && Sum(g, c).size > 0 && Sum(g, [t]).size > 0
    requires k > 0 ==> !Higher(Sum(g, [t]), Sum(g, groups[k - 1]))
    ensures m <= |Insert(g, groups, c, after)| && Insert(g, With(groups, t, k), c, after) == With(Insert(g, groups, c, after), t, m)
    decreases |groups|
  {
    hide Sum, Higher, Deps, Insert;
    var full := With(groups, t, k);
    var n := |full| - 1;
    if k == |groups| {
      assert full[n] == [t] && full[..n] == groups;
      if Higher(Sum(g, c), Sum(g, [t])) {
        InsertStep(g, full, c, after);
        assert Deps(g, c) !! Elems([t]);
        InsertAfter(g, groups, c, [[t]] + after);
        InsertAfter(g, groups, c, after);
        var i := Insert(g, groups, c, []);
        m := |i|;
        assert (i + after)[..m] == i && (i + after)[m..] == after;
        assert i + ([[t]] + after) == i + [[t]] + after;
      } else {
        if groups != [] {
          NotHigherThrough(Sum(g, c), Sum(g, [t]), Sum(g, groups[k - 1]));
        }
        m := Stopped(g, groups, t, k, c, after);
      }
    } else {
      var p, rest := groups[|groups| - 1], groups[..|groups| - 1];
      assert full[n] == p && full[..n] == With(rest, t, k);
      if Higher(Sum(g, c), Sum(g, p)) {
        InsertStep(g, full, c, after);
        InsertStep(g, groups, c, after);
        if Deps(g, c) !! Elems(p) {
          m := InsertWith(g, rest, t, k, c, [p] + after);
        } else {
          DepsConcat(g, p, c);
          SumConcat(g, p, c);
          m := InsertWith(g, rest, t, k, p + c, after);
        }
      } else {
        m := Stopped(g, groups, t, k, c, after);
      }
    }
  }

  lemma Stopped(g: Graph, groups: seq<seq<nat>>, t: nat, k: nat, c: seq<nat>, after: seq<seq<nat>>) returns (m: nat)
    requires k <= |groups|
    requires var full := With(groups, t, k); !Higher(Sum(g, c), Sum(g, full[|full| - 1]))
    requires groups == [] || !Higher(Sum(g, c), Sum(g, groups[|groups| - 1]))
    ensures m <= |Insert(g, groups, c, after)| && Insert(g, With(groups, t, k), c, after) == With(Insert(g, groups, c, after), t, m)
  {
    hide Sum, Higher, Insert;
    var full := With(groups, t, k);
    InsertDone(g, full, c, after);
    InsertDone(g, groups, c, after);
    m := k;
    var r := groups + [c] + after;
    assert r[..k] == groups[..k] && r[k..] == groups[k..] + [c] + after;
    assert full + [c] + after == groups[..k] + [[t]] + (groups[k..] + [c] + after);
  }

  /** Inserting t first does not change how independent transactions are grouped. */
  lemma {:induction false} LeafApart(g: Graph, t: nat, s: seq<nat>) returns (k: nat)
    requires Distinct([t] + s) && Topo(g, [t] + s) && Sized(g, [t] + s) && forall x :: x in s ==> t !in g.Anc(x)
    ensures k <= |GroupsOf(g, s)| && GroupsOf(g, [t] + s) == With(GroupsOf(g, s), t, k)
    ensures GroupState(g, [t] + s, GroupsOf(g, [t] + s)) && GroupState(g, s, GroupsOf(g, s))
    decreases |s|
  {
    hide GroupState, Insert, Sum, Topo;
    LeafStates(g, t, s);
    if s == [] {
      k := 0;
      FirstGroup(g, t);
    } else {
      var r, x := s[..|s| - 1], s[|s| - 1];
      assert r + [x] == s && [t] + s == ([t] + r) + [x];
      TopoSplit(g, [t] + r, [x]);
      DistinctSplit([t] + r, [x]);
      var j := LeafApart(g, t, r);
      var groups := GroupsOf(g, r);
      GroupsOfNext(g, r, x);
      GroupsOfNext(g, [t] + r, x);
      LeafIndependent(g, t, r, groups, j);
      OneSum(g, x);
      OneSum(g, t);
      assert g.Fee(x).size > 0 && g.Fee(t).size > 0 by {
        assert ([t] + s)[0] == t && ([t] + s)[|s|] == x;
      }
      k := InsertWith(g, groups, t, j, [x], []);
    }
  }

  lemma LeafStates(g: Graph, t: nat, s: seq<nat>)
    requires Distinct([t] + s) && Topo(g, [t] + s) && Sized(g, [t] + s)
    ensures GroupState(g, [t] + s, GroupsOf(g, [t] + s)) && GroupState(g, s, GroupsOf(g, s))
  {
    hide GroupState, GroupsOf, Topo, Distinct;
    GroupsOfState(g, [t] + s);
    TopoSplit(g, [t], s);
    DistinctSplit([t], s);
    assert Sized(g, s) by {
      assert forall i :: 0 <= i < |s| ==> ([t] + s)[i + 1] == s[i];
    }
    GroupsOfState(g, s);
  }

  lemma FirstGroup(g: Graph, t: nat)
    ensures GroupsOf(g, []) == [] && GroupsOf(g, [t] + []) == [[t]] && With([], t, 0) == [[t]]
  {
    assert [t] + [] == [] + [t];
    GroupsOfNext(g, [], t);
  }

  lemma OneSum(g: Graph, x: nat)
    ensures Sum(g, [x]) == g.Fee(x) && Deps(g, [x]) == g.Anc(x)
  {
    SumElems(g, [x]);
    assert Elems([x]) == {x};
    FeeRateSingleton(g, x);
    assert [x][..0] == [];
  }

  lemma LeafIndependent(g: Graph, t: nat, r: seq<nat>, groups: seq<seq<nat>>, j: nat)
    requires GroupState(g, r, groups) && j <= |groups| && GroupState(g, [t] + r, With(groups, t, j))
    requires forall x :: x in r ==> t !in g.Anc(x)
    ensures Independent(g, groups, t) && (j > 0 ==> !Higher(Sum(g, [t]), Sum(g, groups[j - 1])))
  {
    hide Sum, Higher, Deps, GoodBlock, Dominates, Topo, Connected, Concat;
    forall i | 0 <= i < |groups|
      ensures t !in Deps(g, groups[i]) && Sum(g, groups[i]).size > 0
    {
      GoodParts(g, groups[i]);
      InConcatAt(groups, i);
      DepsElems(g, groups[i]);
      forall x | x in groups[i]
        ensures t !in g.Anc(x)
      {
        assert x in Elems(groups[i]);
        assert x in Elems(r);
      }
    }
    if j > 0 {
      var full := With(groups, t, j);
      assert full[j - 1] == groups[j - 1] && full[j - 1 + 1] == [t];
    }
  }

  // ---------- dominance ----------

  /** A transaction in front of groups that are not above it is in a better place than behind them. */
  lemma FrontBetter(g: Graph, t: nat, groups: seq<seq<nat>>)
    requires IsChunking(g, groups) && g.Fee(t).size > 0 && (groups != [] ==> !Higher(Sum(g, groups[0]), Sum(g, [t])))
    ensures Dominates(g, [t] + Concat(groups), Concat(groups) + [t])
  {
    hide Sum, Cross, Higher, Concat, IsChunking;
    var r := Concat(groups);
    var a, b := [t] + r, r + [t];
    OneSum(g, t);
    forall slope: FeeFrac, k | slope.size > 0 && 0 <= k <= |b|
      ensures Reaches(g, a, slope, Cross(Point(g, b, k), slope))
    {
      PointConcat(g, r, [t], k);
      if k <= |r| {
        FrontReaches(g, t, groups, slope, k);
      } else {
        assert k == |b| && b[..k] == b && a[..|a|] == a;
        SumConcat(g, [t], r);
        SumConcat(g, r, [t]);
        assert Cross(Point(g, a, |a|), slope) == Cross(Point(g, b, k), slope);
      }
    }
  }

  lemma FrontReaches(g: Graph, t: nat, groups: seq<seq<nat>>, slope: FeeFrac, k: nat)
    requires IsChunking(g, groups) && g.Fee(t).size > 0 && (groups != [] ==> !Higher(Sum(g, groups[0]), Sum(g, [t])))
    requires slope.size > 0 && k <= |Concat(groups)|
    ensures Reaches(g, [t] + Concat(groups), slope, Cross(Point(g, Concat(groups), k), slope))
  {
    hide Sum, Cross, Higher, Concat, IsChunking;
    var r := Concat(groups);
    var a, bound := [t] + r, g.Fee(t);
    OneSum(g, t);
    var p := Point(g, r, k);
    PointConcat(g, [t], r, k + 1);
    CrossPlus(bound, p, slope);
    if Cross(bound, slope) >= 0 {
      assert Cross(Point(g, a, k + 1), slope) >= Cross(p, slope);
    } else {
      if groups != [] {
        CrossSign(Sum(g, groups[0]), bound);
      }
      PrefixBound(g, groups, k, bound);
      PrefixSizes(g, groups, k);
      UnderBoth(p, bound, slope);
      assert a[..0] == [];
      NoSum(g);
      assert Cross(Point(g, a, 0), slope) >= Cross(p, slope);
    }
  }

  lemma NoSum(g: Graph)
    ensures Sum(g, []) == EMPTY && forall l: FeeFrac :: Cross(EMPTY, l) == 0
  {
  }

  lemma PrefixSizes(g: Graph, groups: seq<seq<nat>>, k: nat)
    requires IsChunking(g, groups) && k <= |Concat(groups)|
    ensures Point(g, Concat(groups), k).size >= 0 && (Point(g, Concat(groups), k).size == 0 ==> Point(g, Concat(groups), k) == EMPTY)
  {
    hide Sum, Concat, GoodBlock, Higher;
    ConcatSized(g, groups);
    SumSize(g, Concat(groups)[..k]);
    if k == 0 {
      NoSum(g);
    }
  }

  lemma {:induction false} ConcatSized(g: Graph, groups: seq<seq<nat>>)
    requires forall i :: 0 <= i < |groups| ==> GoodBlock(g, groups[i])
    ensures Sized(g, Concat(groups))
  {
    hide Sum, Higher;
    if groups != [] {
      ConcatSized(g, groups[..|groups| - 1]);
    }
  }

  lemma UnderBoth(p: FeeFrac, bound: FeeFrac, slope: FeeFrac)
    requires p.size >= 0 && (p.size == 0 ==> p == EMPTY) && bound.size > 0 && slope.size > 0
    requires Cross(p, bound) <= 0 && Cross(bound, slope) < 0
    ensures Cross(p, slope) <= 0
  {
    if p.size > 0 {
      CrossSign(p, bound);
      CrossSign(bound, p);
      CrossSign(bound, slope);
      CrossSign(slope, bound);
      CrossSign(p, slope);
      CrossSign(slope, p);
      CrossTransitive(slope, bound, p);
    }
  }

  lemma ChunkingFrom(g: Graph, groups: seq<seq<nat>>, k: nat)
    requires IsChunking(g, groups) && k <= |groups|
    ensures IsChunking(g, groups[k..])
  {
    hide Sum, Higher, GoodBlock;
    var rest := groups[k..];
    forall i | 0 <= i < |rest| - 1
      ensures !Higher(Sum(g, rest[i + 1]), Sum(g, rest[i]))
    {
      var j := k + i;
      assert rest[i] == groups[j] && rest[i + 1] == groups[j + 1];
    }
  }

  /** Where t ended up is better than behind all groups. */
  lemma PlacedBetter(g: Graph, groups: seq<seq<nat>>, t: nat, k: nat)
    requires k <= |groups| && IsChunking(g, groups) && IsChunking(g, With(groups, t, k)) && g.Fee(t).size > 0
    ensures Dominates(g, Concat(With(groups, t, k)), Concat(groups) + [t])
  {
    hide Sum, Higher, GoodBlock, Concat, Dominates, IsChunking;
    var x, y := groups[..k], groups[k..];
    ChunkingFrom(g, groups, k);
    NotAboveLeaf(g, groups, t, k);
    FrontBetter(g, t, y);
    DominatesPrepend(g, Concat(x), [t] + Concat(y), Concat(y) + [t]);
    WithConcat(groups, t, k);
    assert Concat(groups) + [t] == Concat(x) + (Concat(y) + [t]);
  }

  lemma NotAboveLeaf(g: Graph, groups: seq<seq<nat>>, t: nat, k: nat)
    requires k <= |groups| && IsChunking(g, With(groups, t, k))
    ensures groups[k..] != [] ==> !Higher(Sum(g, groups[k..][0]), Sum(g, [t]))
  {
    hide Sum, Higher, GoodBlock;
    if k < |groups| {
      var full := With(groups, t, k);
      assert full[k] == [t] && full[k + 1] == groups[k];
    }
  }

  lemma WithConcat(groups: seq<seq<nat>>, t: nat, k: nat)
    requires k <= |groups|
    ensures Concat(With(groups, t, k)) == Concat(groups[..k]) + ([t] + Concat(groups[k..]))
    ensures Concat(groups) == Concat(groups[..k]) + Concat(groups[k..])
  {
    hide Concat;
    var x, y := groups[..k], groups[k..];
    assert groups == x + y;
    ConcatAppend(x, y);
    ConcatAppend(x + [[t]], y);
    ConcatLast(x + [[t]]);
    assert (x + [[t]])[..|x|] == x;
    assert Concat(x) + [t] + Concat(y) == Concat(x) + ([t] + Concat(y));
  }

  /** After the transactions behind its old place, a leaf that was inserted first is as well placed as there. */
  lemma LeafState(g: Graph, t: nat, s: seq<nat>)
    requires Distinct(s + [t]) && Topo(g, s + [t]) && Sized(g, s + [t]) && g.Anc(t) == {t}
    ensures GroupState(g, s + [t], GroupsOf(g, [t] + s))
  {
    hide Sum, GoodBlock, Concat, Dominates, GroupsOf, Topo, Connected, Distinct;
    LeafFirst(g, t, s);
    var k := LeafApart(g, t, s);
    var groups := GroupsOf(g, s);
    var a, b, c := Concat(With(groups, t, k)), Concat(groups) + [t], s + [t];
    PlacedBetter(g, groups, t, k);
    DistinctSplit(s, [t]);
    SameSum(g, Concat(groups), s);
    DominatesAppend(g, Concat(groups), s, [t]);
    DominatesTransitive(g, a, b, c);
    assert Elems([t] + s) == Elems(s + [t]);
  }

  lemma LeafFirst(g: Graph, t: nat, s: seq<nat>)
    requires Distinct(s + [t]) && Topo(g, s + [t]) && Sized(g, s + [t]) && g.Anc(t) == {t}
    ensures Distinct([t] + s) && Topo(g, [t] + s) && Sized(g, [t] + s) && g.Fee(t).size > 0
    ensures forall x :: x in s ==> t !in g.Anc(x)
  {
    DistinctSplit(s, [t]);
    DistinctSplit([t], s);
    TopoSplit(g, s, [t]);
    assert (s + [t])[|s|] == t;
    forall u, v | u in [t] && v in s
      ensures v !in g.Anc(u)
    {
      assert v in Elems(s);
    }
    TopoJoin(g, [t], s);
    assert forall i :: 0 <= i < |s| ==> (s + [t])[i] == s[i];
  }

  /** Going on from groups that are as good as a reference ordering keeps them as good. */
  lemma {:induction false} GoOn(g: Graph, start: seq<nat>, reference: seq<nat>, more: seq<nat>)
    requires GroupState(g, reference, GroupsOf(g, start))
    requires Distinct(reference + more) && Topo(g, reference + more) && Sized(g, reference + more)
    ensures GroupState(g, reference + more, GroupsOf(g, start + more))
    decreases |more|
  {
    hide GroupState, Insert, Topo, GroupsOf, Distinct;
    if more == [] {
      assert reference + more == reference && start + more == start;
    } else {
      var r, x := more[..|more| - 1], more[|more| - 1];
      assert r + [x] == more && reference + more == (reference + r) + [x] && start + more == (start + r) + [x];
      TopoSplit(g, reference + r, [x]);
      DistinctSplit(reference + r, [x]);
      SizedStart(g, reference + r, x);
      GoOn(g, start, reference, r);
      GroupsOfNext(g, start + r, x);
      InsertKeeps(g, reference + r, GroupsOf(g, start + r), x);
    }
  }

  lemma SizedStart(g: Graph, s: seq<nat>, x: nat)
    requires Sized(g, s + [x])
    ensures Sized(g, s) && x < |g.entries| && g.Fee(x).size > 0
  {
    assert (s + [x])[|s|] == x;
    assert forall i :: 0 <= i < |s| ==> (s + [x])[i] == s[i];
  }

  // ---------- the guarantee ----------

  lemma ReverseParts(a: seq<nat>, t: nat, b: seq<nat>)
    ensures Reverse(a + [t] + b) == Reverse(b) + [t] + Reverse(a)
    ensures Reverse(a + b + [t]) == [t] + Reverse(b) + Reverse(a)
  {
  }

  lemma MovedLinearization(g: Graph, a: seq<nat>, t: nat, b: seq<nat>)
    requires Valid(g) && t in g.used && IsLinearization(g, a + [t] + b) && g.Desc(t) == {t}
    ensures IsLinearization(g, a + b + [t])
  {
    hide Valid, Topo, Distinct;
    var s := a + [t] + b;
    DistinctSplit(a + [t], b);
    DistinctSplit(a, [t]);
    assert Elems(s) == Elems(a) + {t} + Elems(b);
    assert Elems(a + [t]) == Elems(a) + {t};
    DistinctSplit(a, b);
    assert Elems(a + b) == Elems(a) + Elems(b);
    DistinctSplit(a + b, [t]);
    assert Elems(a + b + [t]) == Elems(a + b) + {t};
    TopoSplit(g, a + [t], b);
    TopoSplit(g, a, [t]);
    assert forall u, v :: u in a && v in b ==> v !in g.Anc(u) by {
      assert forall u :: u in a ==> u in a + [t];
    }
    TopoJoin(g, a, b);
    forall u, v | u in a + b && v in [t]
      ensures v !in g.Anc(u)
    {
      assert u in Elems(a + b);
      LeafBelow(g, t, u);
    }
    TopoJoin(g, a + b, [t]);
  }

  lemma LeafBelow(g: Graph, t: nat, u: nat)
    requires Valid(g) && t in g.used && u in g.used && g.Desc(t) == {t} && u != t
    ensures t !in g.Anc(u)
  {
  }

  /** The backward pass alone makes up for moving a leaf to the end. */
  lemma BackwardLeaf(g: Graph, a: seq<nat>, t: nat, b: seq<nat>)
    requires Valid(g) && t in g.used && IsLinearization(g, a + [t] + b) && g.Desc(t) == {t}
    ensures Dominates(g, PassResult(g, a + b + [t], true), a + [t] + b)
  {
    hide Valid, Dual, Reverse, Topo, Dominates, Concat, GroupsOf, IsLinearization, Reordered, GroupState, Distinct, Sized;
    var s, moved, d := a + [t] + b, a + b + [t], Dual(g);
    MovedLinearization(g, a, t, b);
    ReverseParts(a, t, b);
    PassInput(g, s, true);
    PassOrderIs(s, true);
    PassOrderIs(moved, true);
    var x, y := Reverse(b), Reverse(a);
    DualFacts(g, t);
    LeafStart(d, t, x, y);
    LeafState(d, t, x);
    GoOn(d, [t] + x, x + [t], y);
    var r := Concat(GroupsOf(d, [t] + x + y));
    PassOrderIs(r, true);
    GroupReordered(d, x + [t] + y, GroupsOf(d, [t] + x + y));
    LinearizationParts(g, s);
    ReorderedDual(g, s, r);
    ReorderedDominates(g, s, Reverse(r));
  }

  lemma LinearizationParts(g: Graph, s: seq<nat>)
    requires IsLinearization(g, s)
    ensures Distinct(s) && Elems(s) <= g.used
  {
  }

  lemma GroupReordered(g: Graph, s: seq<nat>, groups: seq<seq<nat>>)
    requires GroupState(g, s, groups)
    ensures Reordered(g, s, Concat(groups))
  {
  }

  lemma LeafStart(g: Graph, t: nat, x: seq<nat>, y: seq<nat>)
    requires Distinct(x + [t] + y) && Topo(g, x + [t] + y) && Sized(g, x + [t] + y)
    ensures Distinct(x + [t]) && Topo(g, x + [t]) && Sized(g, x + [t])
  {
    DistinctSplit(x + [t], y);
    TopoSplit(g, x + [t], y);
    assert forall i :: 0 <= i < |x + [t]| ==> (x + [t] + y)[i] == (x + [t])[i];
  }

  /** The same graph, in which t pays at least as much. */
  ghost predicate Raised(g: Graph, g': Graph, t: nat) {
    && g'.used == g.used && |g'.entries| == |g.entries|
    && forall i :: 0 <= i < |g.entries| ==>
         && g'.entries[i].ancestors == g.entries[i].ancestors && g'.entries[i].descendants == g.entries[i].descendants
         && g'.entries[i].feerate.size == g.entries[i].feerate.size
         && (if i == t then g'.entries[i].feerate.fee >= g.entries[i].feerate.fee else g'.entries[i].feerate.fee == g.entries[i].feerate.fee)
  }

  lemma RaisedFacts(g: Graph, g': Graph, t: nat, s: seq<nat>)
    requires Raised(g, g', t) && Valid(g)
    ensures Valid(g') && (IsLinearization(g, s) ==> IsLinearization(g', s)) && (Sized(g, s) ==> Sized(g', s))
    ensures g'.Desc(t) == g.Desc(t) && g'.used == g.used
  {
    assert forall i :: g'.Anc(i) == g.Anc(i) && g'.Desc(i) == g.Desc(i) && g'.Fee(i).size == g.Fee(i).size;
  }

  lemma {:induction false} RaisedSum(g: Graph, g': Graph, t: nat, s: seq<nat>)
    requires Raised(g, g', t)
    ensures Sum(g', s).size == Sum(g, s).size && Sum(g', s).fee >= Sum(g, s).fee
  {
    if s != [] {
      RaisedSum(g, g', t, s[..|s| - 1]);
      assert g'.Fee(s[|s| - 1]).size == g.Fee(s[|s| - 1]).size && g'.Fee(s[|s| - 1]).fee >= g.Fee(s[|s| - 1]).fee;
    }
  }

  lemma CrossRaised(p: FeeFrac, q: FeeFrac, l: FeeFrac)
    requires p.size == q.size && p.fee <= q.fee && l.size > 0
    ensures Cross(p, l) <= Cross(q, l)
  {
    assert (q.fee - p.fee) * l.size == q.fee * l.size - p.fee * l.size;
    Scale(q.fee - p.fee, l.size);
  }

  /** Paying more does not lower the diagram anywhere. */
  lemma RaisedDiagram(g: Graph, g': Graph, t: nat, s: seq<nat>)
    requires Raised(g, g', t) && Sized(g, s) && Sized(g', s)
    ensures Positive(ChunkFeerates(g, s)) && Positive(ChunkFeerates(g', s))
    ensures NowhereBelow(ChunkFeerates(g', s), ChunkFeerates(g, s))
  {
    hide Chunks, Cross, Sum, Raised;
    ChunkFeeratesConcave(g, s);
    ChunkFeeratesConcave(g', s);
    ChunkTotals(g, s);
    ChunkTotals(g', s);
    RaisedSum(g, g', t, s);
    var fa, fb := ChunkFeerates(g', s), ChunkFeerates(g, s);
    forall x: real | x >= 0.0
      ensures DiagramAt(fa, x) >= DiagramAt(fb, x)
    {
      if x >= Total(fa).size as real {
        DiagramBeyond(fa, x);
        DiagramBeyond(fb, x);
      } else {
        assert fa != [];
        var i := OnSegment(fa, x);
        var l := fa[i];
        var h := Cross(Total(fa[..i]), l);
        forall m | 0 <= m <= |fb|
          ensures Cross(Total(fb[..m]), l) <= h
        {
          RaisedBoundary(g, g', t, s, i, m);
        }
        BelowLine(fb, x, l, h);
        HeightOrder(x, DiagramAt(fb, x), DiagramAt(fa, x), l);
      }
    }
  }

  lemma RaisedBoundary(g: Graph, g': Graph, t: nat, s: seq<nat>, i: nat, m: nat)
    requires Raised(g, g', t) && Sized(g, s) && Sized(g', s) && i < |ChunkFeerates(g', s)| && m <= |ChunkFeerates(g, s)|
    ensures Cross(Total(ChunkFeerates(g, s)[..m]), ChunkFeerates(g', s)[i]) <= Cross(Total(ChunkFeerates(g', s)[..i]), ChunkFeerates(g', s)[i])
  {
    hide Cross, Higher, Sum, Total, Chunks, Raised;
    ChunkFeeratesConcave(g', s);
    ChunksIsChunking(g', s);
    var l := ChunkFeerates(g', s)[i];
    BoundaryIsPoint(g, s, m);
    var k :| 0 <= k <= |s| && Point(g, s, k) == Total(ChunkFeerates(g, s)[..m]);
    RaisedSum(g, g', t, s[..k]);
    CrossRaised(Point(g, s, k), Point(g', s, k), l);
    var n := BoundaryReaches(g', Chunks(g', s), l, k);
    BoundaryTotals(g', Chunks(g', s), n);
    SupportLine(ChunkFeerates(g', s), i, n);
  }

  /**
    Moving a leaf to the end, with the same or a higher fee, and postlinearizing gives a
    diagram nowhere below the original one.
  */
  lemma LeafReplaced(g: Graph, g': Graph, a: seq<nat>, t: nat, b: seq<nat>)
    requires Valid(g) && t in g.used && IsLinearization(g, a + [t] + b) && g.Desc(t) == {t} && Raised(g, g', t)
    ensures var r := PostOrder(g', a + b + [t]);
            && IsLinearization(g', r)
            && Positive(ChunkFeerates(g', r)) && Positive(ChunkFeerates(g, a + [t] + b))
            && NowhereBelow(ChunkFeerates(g', r), ChunkFeerates(g, a + [t] + b))
  {
    hide Valid, Topo, Dominates, IsLinearization, Raised, PassResult, Chunks, Reordered, Sized, DiagramAt, Feerates, Positive;
    var s := a + [t] + b;
    RaisedFacts(g, g', t, s);
    LinearizationSized(g, s);
    MovedLinearization(g', a, t, b);
    BackwardLeaf(g', a, t, b);
    var s0 := a + b + [t];
    var s1 := PassResult(g', s0, true);
    var s2 := PassResult(g', s1, false);
    PassKeeps(g', s0, true);
    PassKeeps(g', s1, false);
    ReorderedDominates(g', s1, s2);
    DominatesTransitive(g', s2, s1, s);
    LinearizationCompare(g', s2, s);
    RaisedDiagram(g, g', t, s);
  }
}
