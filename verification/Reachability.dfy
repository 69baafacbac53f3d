/** Reachability along dependencies, and the effect of adding or removing them on ancestor sets. */
module Reachability {
  import opened Graphs

  /** A dependency (child, parent). */
  type Edge = (nat, nat)

  /** A non-empty walk from its first to its last element along dependencies. */
  ghost predicate IsPath(deps: set<Edge>, p: seq<nat>) {
    p != [] && forall i :: 0 <= i < |p| - 1 ==> (p[i], p[i + 1]) in deps
  }

  /** The reflexive-transitive closure of a set of dependencies. */
  ghost predicate Reach(deps: set<Edge>, x: nat, y: nat) {
    exists p :: IsPath(deps, p) && p[0] == x && p[|p| - 1] == y
  }

  lemma ReachSelf(deps: set<Edge>, x: nat)
    ensures Reach(deps, x, x)
  {
    assert IsPath(deps, [x]);
  }

  lemma ReachEdge(deps: set<Edge>, x: nat, y: nat)
    requires (x, y) in deps
    ensures Reach(deps, x, y)
  {
    var p := [x, y];
    assert IsPath(deps, p) && p[0] == x && p[|p| - 1] == y;
  }

  lemma ReachTransitive(deps: set<Edge>, x: nat, y: nat, z: nat)
    requires Reach(deps, x, y) && Reach(deps, y, z)
    ensures Reach(deps, x, z)
  {
    var p :| IsPath(deps, p) && p[0] == x && p[|p| - 1] == y;
    var q :| IsPath(deps, q) && q[0] == y && q[|q| - 1] == z;
    var r := p + q[1..];
    forall i | 0 <= i < |r| - 1
      ensures (r[i], r[i + 1]) in deps
    {
      if i >= |p| - 1 {
        var j := i - (|p| - 1);
        assert r[i] == q[j] && r[i + 1] == q[j + 1];
      }
    }
    assert IsPath(deps, r) && r[0] == x && r[|r| - 1] == z;
  }

  lemma ReachMore(deps: set<Edge>, more: set<Edge>, x: nat, y: nat)
    requires deps <= more && Reach(deps, x, y)
    ensures Reach(more, x, y)
  {
    var p :| IsPath(deps, p) && p[0] == x && p[|p| - 1] == y;
    assert IsPath(more, p);
  }

  /** The ancestor sets are the closure of the dependencies. */
  ghost predicate IsClosure(g: Graph, deps: set<Edge>) {
    && (forall d :: d in deps ==> d.0 in g.used && d.1 in g.used)
    && forall x, y :: x in g.used && y in g.used ==> (y in g.Anc(x) <==> Reach(deps, x, y))
  }

  /** A preorder that contains the dependencies contains everything they reach. */
  lemma {:induction false} ReachWithin(g: Graph, deps: set<Edge>, p: seq<nat>)
    requires Valid(g) && IsPath(deps, p) && p[0] in g.used
    requires forall d :: d in deps && d.0 in g.used ==> d.1 in g.Anc(d.0)
    ensures p[|p| - 1] in g.Anc(p[0])
    decreases |p|
  {
    if |p| > 1 {
      var init := p[..|p| - 1];
      ReachWithin(g, deps, init);
      assert (p[|p| - 2], p[|p| - 2 + 1]) in deps;
    }
  }

  /** Every graph is the closure of its own ancestor relation. */
  lemma SelfClosure(g: Graph)
    requires Valid(g)
    ensures IsClosure(g, set x, y | x in g.used && y in g.Anc(x) :: (x, y))
  {
    var deps := set x, y | x in g.used && y in g.Anc(x) :: (x, y);
    forall x, y | x in g.used && y in g.used
      ensures y in g.Anc(x) <==> Reach(deps, x, y)
    {
      if y in g.Anc(x) {
        assert (x, y) in deps;
        ReachEdge(deps, x, y);
      }
      if Reach(deps, x, y) {
        var p :| IsPath(deps, p) && p[0] == x && p[|p| - 1] == y;
        ReachWithin(g, deps, p);
      }
    }
  }

  // ---------- adding dependencies ----------

  /** `g'` relates x to y when g does, or when x reached the child and a new parent reached y. */
  ghost predicate Extended(g: Graph, g': Graph, parents: set<nat>, child: nat) {
    && g'.used == g.used && |g'.entries| == |g.entries|
    && (forall x :: x in g.used ==> g'.Fee(x) == g.Fee(x) && g'.Anc(x) <= g.used && g'.Desc(x) <= g.used)
    && (forall x, y :: x in g.used && y in g.used ==> (y in g'.Anc(x) <==> y in g.Anc(x) || Through(g, parents, child, x, y)))
    && (forall x, y :: x in g.used && y in g.used ==> (y in g'.Anc(x) <==> x in g'.Desc(y)))
  }

  ghost predicate Through(g: Graph, parents: set<nat>, child: nat, x: nat, y: nat) {
    child in g.Anc(x) && exists p :: p in parents && y in g.Anc(p)
  }

  lemma ExtendedValid(g: Graph, g': Graph, parents: set<nat>, child: nat)
    requires Valid(g) && child in g.used && parents <= g.used && Extended(g, g', parents, child)
    ensures Valid(g')
  {
    forall i, j | i in g'.used && j in g'.Anc(i)
      ensures g'.Anc(j) <= g'.Anc(i)
    {
      forall k | k in g'.Anc(j)
        ensures k in g'.Anc(i)
      {
        ExtendedTransitive(g, g', parents, child, i, j, k);
      }
    }
  }

  lemma ExtendedTransitive(g: Graph, g': Graph, parents: set<nat>, child: nat, i: nat, j: nat, k: nat)
    requires Valid(g) && child in g.used && parents <= g.used && Extended(g, g', parents, child)
    requires i in g.used && j in g'.Anc(i) && k in g'.Anc(j)
    ensures k in g'.Anc(i)
  {
    if k in g.Anc(j) {
      if j in g.Anc(i) {
        assert k in g.Anc(i);
      } else {
        var p :| p in parents && j in g.Anc(p);
        assert k in g.Anc(p);
        assert Through(g, parents, child, i, k);
      }
    } else {
      assert Through(g, parents, child, j, k);
      assert child in g.Anc(i) by {
        if j !in g.Anc(i) {
          assert Through(g, parents, child, i, j);
        }
      }
      assert Through(g, parents, child, i, k);
    }
  }

  lemma ExtendedHasDeps(g: Graph, g': Graph, parents: set<nat>, child: nat, deps: set<Edge>)
    requires Valid(g) && child in g.used && parents <= g.used && Extended(g, g', parents, child)
    requires IsClosure(g, deps)
    ensures forall d :: d in deps + (set p | p in parents :: (child, p)) ==> d.0 in g'.used && d.1 in g'.used && d.1 in g'.Anc(d.0)
  {
    hide Reach;
    forall d | d in deps
      ensures d.1 in g'.Anc(d.0)
    {
      ReachEdge(deps, d.0, d.1);
      assert d.1 in g.Anc(d.0);
    }
    forall p | p in parents
      ensures p in g'.Anc(child)
    {
      assert Through(g, parents, child, child, p);
    }
  }

  /** Adding dependencies to a closure gives the closure of the larger set of dependencies. */
  lemma ExtendedClosure(g: Graph, g': Graph, parents: set<nat>, child: nat, deps: set<Edge>)
    requires Valid(g) && child in g.used && parents <= g.used && Extended(g, g', parents, child)
    requires IsClosure(g, deps)
    ensures IsClosure(g', deps + set p | p in parents :: (child, p))
  {
    var used := g.used;
    ExtendedValid(g, g', parents, child);
    ExtendedHasDeps(g, g', parents, child, deps);
    var more := deps + set p | p in parents :: (child, p);
    forall x, y | x in used && y in used
      ensures y in g'.Anc(x) <==> Reach(more, x, y)
    {
      hide Valid, IsPath, Extended;
      if y in g'.Anc(x) {
        ExtendedReaches(g, g', parents, child, deps, x, y);
      }
      if Reach(more, x, y) {
        var q :| IsPath(more, q) && q[0] == x && q[|q| - 1] == y;
        ReachWithin(g', more, q);
      }
    }
  }

  lemma ExtendedReaches(g: Graph, g': Graph, parents: set<nat>, child: nat, deps: set<Edge>, x: nat, y: nat)
    requires Valid(g) && child in g.used && parents <= g.used && Extended(g, g', parents, child)
    requires IsClosure(g, deps) && x in g.used && y in g'.Anc(x)
    ensures Reach(deps + set p | p in parents :: (child, p), x, y)
  {
    hide Reach;
    var more := deps + set p | p in parents :: (child, p);
    if y in g.Anc(x) {
      ReachMore(deps, more, x, y);
    } else {
      var p :| p in parents && y in g.Anc(p);
      ReachMore(deps, more, x, child);
      ReachMore(deps, more, p, y);
      assert (child, p) in more;
      ReachEdge(more, child, p);
      ReachTransitive(more, x, child, p);
      ReachTransitive(more, x, p, y);
    }
  }
}
