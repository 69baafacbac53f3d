/**
  The documented guarantees of PostLinearize (src/cluster_linearize.h:1126-1135) beyond
  connected chunks: trees become optimal, and replacing a leaf at the end does not make
  things worse.
*/
module PostGuarantees {
  import opened Graphs
  import opened Diagrams
  import opened Merging
  import opened Groupings
  import opened PostTheory
  import opened PostTrees

  // ---------- passes as functions ----------

  lemma {:induction false} GroupsOfState(g: Graph, s: seq<nat>)
    requires Distinct(s) && Topo(g, s) && Sized(g, s)
    ensures GroupState(g, s, GroupsOf(g, s))
    decreases |s|
  {
    hide GroupState, Insert, Topo;
    if s == [] {
      GroupStart(g);
    } else {
      var t, x := s[..|s| - 1], s[|s| - 1];
      assert t + [x] == s;
      TopoSplit(g, t, [x]);
      GroupsOfState(g, t);
      InsertKeeps(g, t, GroupsOf(g, t), x);
    }
  }

  /** A pass reorders a linearization into one that is at least as good. */
  lemma PassKeeps(g: Graph, s: seq<nat>, rev: bool)
    requires Valid(g) && IsLinearization(g, s)
    ensures Reordered(g, s, PassResult(g, s, rev)) && IsLinearization(g, PassResult(g, s, rev))
  {
    hide Valid, Topo, Reordered, Dual, Concat, PassOrder, IsLinearization, GroupsOf, PassGraph;
    var gg, o := PassGraph(g, rev), PassOrder(s, rev);
    PassInput(g, s, rev);
    GroupsOfState(gg, o);
    PassOutput(g, s, Concat(GroupsOf(gg, o)), rev);
    ReorderedLinearization(g, s, PassResult(g, s, rev));
  }

  lemma LinearizationAcyclic(g: Graph, s: seq<nat>)
    requires IsLinearization(g, s)
    ensures Acyclic(g)
  {
    forall i, j | i in g.used && j in g.used && i in g.Anc(j) && j in g.Anc(i)
      ensures i == j
    {
      assert i in Elems(s) && j in Elems(s);
      var k :| 0 <= k < |s| && s[k] == i;
      var m :| 0 <= m < |s| && s[m] == j;
    }
  }

  // ---------- trees ----------

  lemma DualDual(g: Graph)
    ensures Dual(Dual(g)) == g
  {
    var d := Dual(Dual(g));
    forall i | 0 <= i < |g.entries|
      ensures d.entries[i] == g.entries[i]
    {
    }
    assert d.entries == g.entries;
  }

  lemma DualLinearization(g: Graph, s: seq<nat>)
    requires Valid(g) && IsLinearization(g, s)
    ensures IsLinearization(Dual(g), Reverse(s))
  {
    hide Valid, Topo, Dual, Reverse;
    ReverseFacts(s);
    TopoDualOf(g, s);
    DualParts(g);
  }

  /** If no transaction has more than one parent, a backward pass is optimal. */
  lemma BackwardOptimal(g: Graph, s: seq<nat>, other: seq<nat>)
    requires Valid(g) && Acyclic(g) && SingleParent(g) && IsLinearization(g, s) && IsLinearization(g, other)
    ensures Dominates(g, PassResult(g, s, true), other)
  {
    hide Valid, Acyclic, SingleParent, Dual, Reverse, Topo, Dominates, Concat, GroupsOf, IsLinearization;
    var d, o, o' := Dual(g), Reverse(s), Reverse(other);
    DualValid(g);
    DualDual(g);
    DualLinearization(g, s);
    DualLinearization(g, other);
    SingleChildDual(g);
    ForwardOptimal(d, o, o');
    var r := Concat(GroupsOf(d, o));
    PassOrderIs(s, true);
    PassOrderIs(r, true);
    ReverseFacts(other);
    PassKeeps(g, s, true);
    SamePassSum(g, s, other, r);
    DominatesDual(g, r, o');
  }

  lemma SingleChildDual(g: Graph)
    requires SingleParent(g)
    ensures SingleChild(Dual(g))
  {
    hide SingleParent;
    DualDual(g);
  }

  lemma SamePassSum(g: Graph, s: seq<nat>, other: seq<nat>, r: seq<nat>)
    requires IsLinearization(g, Reverse(r)) && IsLinearization(g, other)
    ensures Sum(g, r) == Sum(g, Reverse(other))
  {
    hide Sum, Topo, Reverse;
    ReverseFacts(r);
    ReverseFacts(Reverse(r));
    ReverseFacts(other);
    SameSum(g, r, Reverse(other));
  }

  /** In a forest of either direction, no linearization beats the result anywhere. */
  lemma TreeOptimal(g: Graph, s: seq<nat>, other: seq<nat>)
    requires Valid(g) && IsLinearization(g, s) && IsLinearization(g, other) && (SingleChild(g) || SingleParent(g))
    ensures AtLeastAsGood(g, PostOrder(g, s), other)
  {
    hide Valid, SingleChild, SingleParent, Dual, Reverse, Topo, Dominates, Concat, GroupsOf, IsLinearization, Reordered, Acyclic, AtLeastAsGood;
    hide PassResult;
    LinearizationAcyclic(g, s);
    var s1 := PassResult(g, s, true);
    var s2 := PassResult(g, s1, false);
    PassKeeps(g, s, true);
    PassKeeps(g, s1, false);
    if SingleChild(g) {
      ForwardOptimal(g, s1, other);
      ForwardResult(g, s1);
    } else {
      BackwardOptimal(g, s, other);
      ReorderedDominates(g, s1, s2);
      DominatesTransitive(g, s2, s1, other);
    }
    LinearizationCompare(g, s2, other);
  }

  lemma ForwardResult(g: Graph, s: seq<nat>)
    ensures PassResult(g, s, false) == Concat(GroupsOf(g, s))
  {
  }

  lemma ReorderedDominates(g: Graph, s: seq<nat>, r: seq<nat>)
    requires Reordered(g, s, r)
    ensures Dominates(g, r, s)
  {
  }
}
