/** Building and changing a dependency graph (src/cluster_linearize.h:25-335, class DepGraph). */
module DepGraphs {
  import opened FeeRates
  import opened Graphs
  import opened Reachability

  /** The strict ancestors of i that are not strict ancestors of another strict ancestor of i. */
  ghost predicate IsReducedParent(g: Graph, i: nat, p: nat) {
    p in g.Anc(i) - {i} && forall q :: q in g.Anc(i) - {i} && p in g.Anc(q) ==> q == p
  }

  /** `s` together with all its ancestors makes up the strict ancestors of i. */
  ghost predicate Regenerates(g: Graph, i: nat, s: set<nat>) {
    && s <= g.Anc(i) - {i}
    && forall a :: a in g.Anc(i) - {i} ==> Under(g, s, a)
  }

  ghost predicate Under(g: Graph, s: set<nat>, a: nat) {
    exists p :: p in s && a in g.Anc(p)
  }

  /** In an acyclic graph, every strict ancestor lies under a reduced parent. */
  lemma {:induction false} UnderReducedParent(g: Graph, i: nat, a: nat) returns (p: nat)
    requires Valid(g) && Acyclic(g) && i in g.used && a in g.Anc(i) - {i}
    ensures IsReducedParent(g, i, p) && a in g.Anc(p)
    decreases g.Anc(i) - {i} - g.Anc(a)
  {
    if IsReducedParent(g, i, a) {
      p := a;
    } else {
      var q :| q in g.Anc(i) - {i} && a in g.Anc(q) && q != a;
      assert q !in g.Anc(a);
      assert g.Anc(a) <= g.Anc(q);
      assert q in g.Anc(i) - {i} - g.Anc(a);
      p := UnderReducedParent(g, i, q);
    }
  }

  /** The reduced parents are the least set that regenerates the ancestors. */
  lemma ReducedParentsMinimal(g: Graph, i: nat, r: set<nat>)
    requires Valid(g) && Acyclic(g) && i in g.used
    requires forall p :: p in r <==> IsReducedParent(g, i, p)
    ensures Regenerates(g, i, r)
    ensures forall s :: Regenerates(g, i, s) ==> r <= s
  {
    forall a | a in g.Anc(i) - {i}
      ensures Under(g, r, a)
    {
      var p := UnderReducedParent(g, i, a);
    }
  }

  /** `g'` is `g` with position i moved to mapping[i]. */
  ghost predicate Relabelled(g: Graph, g': Graph, mapping: seq<nat>) {
    && (forall i :: i in g.used ==> i < |mapping|)
    && (forall i, j :: i in g.used && j in g.used && mapping[i] == mapping[j] ==> i == j)
    && g'.used == (set i | i in g.used :: mapping[i])
    && (forall i :: i in g.used ==> g'.Fee(mapping[i]) == g.Fee(i))
    && (forall i, j :: i in g.used && j in g.used ==> (mapping[j] in g'.Anc(mapping[i]) <==> j in g.Anc(i)))
  }

  /** No member is an ancestor of another one. */
  ghost predicate Unrelated(g: Graph, s: set<nat>) {
    forall q, p :: q in s && p in s && p in g.Anc(q) ==> p == q
  }

  /** The first position on a cycle with i. */
  ghost predicate IsPartner(g: Graph, i: nat, c: nat) {
    OnCycle(g, i, c) && forall q: nat :: OnCycle(g, i, q) ==> c <= q
  }

  ghost predicate OnCycle(g: Graph, i: nat, c: nat) {
    c in g.Anc(i) - {i} && i in g.Anc(c)
  }

  /** What the reduced parents are in any graph: on a cycle, a single position. */
  ghost predicate Reduced(g: Graph, i: nat, s: set<nat>) {
    Regenerates(g, i, s) && Unrelated(g, s) && forall c: nat :: IsPartner(g, i, c) ==> s == {c}
  }

  /** Unrelated parents that regenerate the ancestors cannot do without any of them. */
  lemma ReducedIrredundant(g: Graph, i: nat, r: set<nat>, s: set<nat>)
    requires Valid(g) && i in g.used && Reduced(g, i, r) && s < r
    ensures !Regenerates(g, i, s)
  {
    assert !(r <= s);
    var x :| x in r && x !in s;
    assert x in g.Anc(i) - {i} && (Regenerates(g, i, s) ==> Under(g, s, x));
    forall p | p in s
      ensures x !in g.Anc(p)
    {
    }
  }

  /** Parents from which the ancestors of i follow, none of them superfluous; Reduced says what that is on a cycle. */
  method GetReducedParents(g: Graph, i: nat) returns (parents: set<nat>)
    requires Valid(g) && i in g.used
    ensures Reduced(g, i, parents) && forall s :: s < parents ==> !Regenerates(g, i, s)
    ensures Acyclic(g) ==> forall p :: p in parents <==> IsReducedParent(g, i, p)
    ensures Acyclic(g) ==> forall s :: Regenerates(g, i, s) ==> parents <= s
  {
    hide *;
    parents := g.Anc(i) - {i};
    ReducingStart(g, i);
    for parent := 0 to |g.entries|
      invariant Reducing(g, i, parents, parent)
    {
      if parent in parents {
        ReducingKeep(g, i, parents, parent);
        parents := parents - g.Anc(parent) + {parent};
      } else {
        ReducingSkip(g, i, parents, parent);
      }
    }
    ReducingEnd(g, i, parents);
    forall s | s < parents
      ensures !Regenerates(g, i, s)
    {
      ReducedIrredundant(g, i, parents, s);
    }
    if Acyclic(g) {
      AcyclicReduced(g, i, parents);
      ReducedParentsMinimal(g, i, parents);
    }
  }

  /** The loop of GetReducedParents, before it reaches position n. */
  ghost predicate Reducing(g: Graph, i: nat, s: set<nat>, n: nat) {
    && Regenerates(g, i, s)
    && (forall q, p :: q in s && q < n && p in s && p in g.Anc(q) ==> p == q)
    && (forall c: nat :: IsPartner(g, i, c) ==> c in s && (c < n ==> s == {c}))
  }

  lemma ReducingStart(g: Graph, i: nat)
    requires Valid(g) && i in g.used
    ensures Reducing(g, i, g.Anc(i) - {i}, 0)
  {
  }

  lemma ReducingSkip(g: Graph, i: nat, s: set<nat>, n: nat)
    requires Reducing(g, i, s, n) && n !in s
    ensures Reducing(g, i, s, n + 1)
  {
  }

  lemma ReducingKeep(g: Graph, i: nat, s: set<nat>, n: nat)
    requires Valid(g) && i in g.used && Reducing(g, i, s, n) && n in s
    ensures Reducing(g, i, s - g.Anc(n) + {n}, n + 1)
  {
    hide Valid, Regenerates, IsPartner;
    var r := s - g.Anc(n) + {n};
    KeepRegenerates(g, i, s, n);
    forall c: nat | IsPartner(g, i, c)
      ensures c in r && (c < n + 1 ==> r == {c})
    {
      KeepPartner(g, i, s, n, c);
    }
  }

  lemma KeepRegenerates(g: Graph, i: nat, s: set<nat>, n: nat)
    requires Valid(g) && i in g.used && Regenerates(g, i, s) && n in s
    ensures Regenerates(g, i, s - g.Anc(n) + {n})
  {
    hide *;
    var r, strict := s - g.Anc(n) + {n}, g.Anc(i) - {i};
    RegeneratesParts(g, i, s, n);
    forall a | a in strict
      ensures Under(g, r, a)
    {
      UnderAll(g, i, s, a);
      KeepUnder(g, i, s, n, a);
    }
    assert r <= s;
    RegeneratesIs(g, i, r);
  }

  lemma RegeneratesParts(g: Graph, i: nat, s: set<nat>, n: nat)
    requires Regenerates(g, i, s) && n in s
    ensures s <= g.Anc(i) - {i} && n in g.Anc(i)
  {
  }

  lemma RegeneratesIs(g: Graph, i: nat, s: set<nat>)
    requires s <= g.Anc(i) - {i} && forall a :: a in g.Anc(i) - {i} ==> Under(g, s, a)
    ensures Regenerates(g, i, s)
  {
    hide Under;
  }

  lemma UnderAll(g: Graph, i: nat, s: set<nat>, a: nat)
    requires Regenerates(g, i, s) && a in g.Anc(i) - {i}
    ensures Under(g, s, a)
  {
    hide Under;
  }

  lemma KeepUnder(g: Graph, i: nat, s: set<nat>, n: nat, a: nat)
    requires Valid(g) && i in g.used && n in s && n in g.Anc(i) && Under(g, s, a)
    ensures Under(g, s - g.Anc(n) + {n}, a)
  {
    hide Valid;
    var r := s - g.Anc(n) + {n};
    var p :| p in s && a in g.Anc(p);
    AncestorsOf(g, i, n);
    if p in g.Anc(n) {
      AncestorsOf(g, n, p);
      assert n in r && a in g.Anc(n);
    } else {
      assert p in r;
    }
  }

  lemma KeepPartner(g: Graph, i: nat, s: set<nat>, n: nat, c: nat)
    requires Valid(g) && i in g.used && Regenerates(g, i, s) && n in s && IsPartner(g, i, c) && c in s && (c < n ==> s == {c})
    ensures var r := s - g.Anc(n) + {n};
            c in r && (c < n + 1 ==> r == {c})
  {
    hide Valid;
    AncestorsOf(g, i, n);
    AncestorsOf(g, i, c);
    AncestorsOf(g, c, i);
    if c in g.Anc(n) {
      AncestorsOf(g, n, c);
      assert OnCycle(g, i, n);
    }
  }

  lemma AncestorsOf(g: Graph, i: nat, p: nat)
    requires Valid(g) && i in g.used && p in g.Anc(i)
    ensures p in g.used && p in g.Anc(p) && g.Anc(p) <= g.Anc(i) && i in g.Anc(i)
  {
  }

  lemma ReducingEnd(g: Graph, i: nat, s: set<nat>)
    requires Valid(g) && i in g.used && Reducing(g, i, s, |g.entries|)
    ensures Reduced(g, i, s)
  {
  }

  lemma AcyclicReduced(g: Graph, i: nat, s: set<nat>)
    requires Valid(g) && Acyclic(g) && i in g.used && Reduced(g, i, s)
    ensures forall p :: p in s <==> IsReducedParent(g, i, p)
  {
    forall p | IsReducedParent(g, i, p)
      ensures p in s
    {
      assert Under(g, s, p);
      var q :| q in s && p in g.Anc(q);
    }
    UnrelatedAreReduced(g, i, s);
  }

  /** Strict ancestors of i that include all reduced parents, and no ancestor of one another, are the reduced parents. */
  lemma UnrelatedAreReduced(g: Graph, i: nat, parents: set<nat>)
    requires Valid(g) && Acyclic(g) && i in g.used && parents <= g.Anc(i) - {i}
    requires forall p :: IsReducedParent(g, i, p) ==> p in parents
    requires forall q, p :: q in parents && q < |g.entries| && p in parents && p in g.Anc(q) ==> p == q
    ensures forall p :: p in parents ==> IsReducedParent(g, i, p)
  {
    forall p | p in parents
      ensures IsReducedParent(g, i, p)
    {
      forall q | q in g.Anc(i) - {i} && p in g.Anc(q)
        ensures q == p
      {
        var m := UnderReducedParent(g, i, q);
        assert p in g.Anc(m);
      }
    }
  }

  ghost predicate Injective(g: Graph, mapping: seq<nat>) {
    && (forall i :: i in g.used ==> i < |mapping|)
    && forall i, j :: i in g.used && j in g.used && mapping[i] == mapping[j] ==> i == j
  }

  /** The positions that a set is mapped to. */
  function Image(mapping: seq<nat>, s: set<nat>): set<nat>
    requires forall i :: i in s ==> i < |mapping|
  {
    set i | i in s :: mapping[i]
  }

  /** The reduced parents of the first positions. */
  ghost predicate AllReduced(g: Graph, parents: seq<set<nat>>) {
    forall i :: 0 <= i < |parents| ==> if i in g.used then Reduced(g, i, parents[i]) else parents[i] == {}
  }

  ghost predicate Mappable(mapping: seq<nat>, parents: seq<set<nat>>) {
    forall i, j :: 0 <= i < |parents| && j in parents[i] ==> i < |mapping| && j < |mapping|
  }

  /** The dependencies that the remapping constructor adds for these parents. */
  ghost function MappedEdges(mapping: seq<nat>, parents: seq<set<nat>>): set<Edge>
    requires Mappable(mapping, parents)
  {
    set i, j | 0 <= i < |parents| && j in parents[i] :: (mapping[i], mapping[j])
  }

  /** Every cycle consists of two positions without other ancestors. */
  ghost predicate Recoverable(g: Graph) {
    forall i: nat, j: nat :: i in g.used && OnCycle(g, i, j) ==> g.Anc(i) == {i, j}
  }

  class DepGraph {
    var entries: seq<Entry>
    var used: set<nat>

    function Value(): Graph
      reads this
    {
      Graph(entries, used)
    }

    constructor ()
      ensures Value() == Graph([], {}) && Valid(Value())
    {
      entries, used := [], {};
    }

    /**
      The transactions of another graph at new positions. The relation
      is preserved exactly if every cycle is a pair without other ancestors; see CycleLost.
    */
    constructor FromMapping(g: Graph, mapping: seq<nat>, posRange: nat)
      requires Valid(g) && Injective(g, mapping)
      requires forall i :: i in g.used ==> mapping[i] < posRange
      ensures Valid(Value()) && used == Image(mapping, g.used)
      ensures forall k :: k in g.used ==> Value().Fee(mapping[k]) == g.Fee(k)
      ensures Relabelled(g, Value(), mapping) <==> Recoverable(g)
    {
      entries := seq(posRange, i => Entry(EMPTY, {}, {}));
      used := {};
      new;
      AddMapped(g, mapping);
      hide Valid, IsClosure, Relabelled, Recoverable, AllReduced, MappedEdges, Mappable;
      ghost var parents: seq<set<nat>> := [];
      NoEdges(g, mapping);
      for i := 0 to |g.entries|
        invariant Valid(Value()) && used == Image(mapping, g.used) && |parents| == i
        invariant forall k :: k in g.used ==> Value().Fee(mapping[k]) == g.Fee(k)
        invariant AllReduced(g, parents) && Mappable(mapping, parents) && IsClosure(Value(), MappedEdges(mapping, parents))
      {
        parents := ConnectMapped(g, mapping, i, parents);
      }
      MappedIsRelabelled(g, Value(), mapping, parents);
    }

    /** Second loop of the remapping constructor: connect position i to its reduced parents. */
    method ConnectMapped(g: Graph, mapping: seq<nat>, i: nat, ghost parents: seq<set<nat>>) returns (ghost parents': seq<set<nat>>)
      requires Valid(g) && Injective(g, mapping) && |parents| == i && AllReduced(g, parents) && Mappable(mapping, parents)
      requires Valid(Value()) && used == Image(mapping, g.used)
      requires forall k :: k in g.used ==> Value().Fee(mapping[k]) == g.Fee(k)
      requires IsClosure(Value(), MappedEdges(mapping, parents))
      modifies this
      ensures Valid(Value()) && used == Image(mapping, g.used) && |parents'| == i + 1
      ensures forall k :: k in g.used ==> Value().Fee(mapping[k]) == g.Fee(k)
      ensures AllReduced(g, parents') && Mappable(mapping, parents') && IsClosure(Value(), MappedEdges(mapping, parents'))
    {
      hide Valid, Extended, IsClosure, MappedEdges, IsReducedParent, Regenerates, Reduced, AllReduced, Mappable, Acyclic;
      if i in g.used {
        var reduced := GetReducedParents(g, i);
        ReducedAreUsed(g, i, reduced);
        var mapped := Image(mapping, reduced);
        assert mapping[i] in used;
        ghost var g' := Value();
        AddDependencies(mapped, mapping[i]);
        ExtendedFees(g', Value(), mapped, mapping[i]);
        MappedEdgesStep(g, mapping, i, parents, reduced);
        parents' := parents + [reduced];
      } else {
        MappedEdgesSkip(g, mapping, i, parents);
        parents' := parents + [{}];
      }
    }

    /** First loop of the remapping constructor: add the transactions, unconnected. */
    method AddMapped(g: Graph, mapping: seq<nat>)
      requires Valid(g) && Injective(g, mapping) && used == {}
      requires forall i :: i in g.used ==> mapping[i] < |entries|
      modifies this
      ensures |entries| == old(|entries|) && used == Image(mapping, g.used)
      ensures forall k :: k in g.used ==> Value().Fee(mapping[k]) == g.Fee(k)
      ensures forall x :: x in used ==> Value().Anc(x) == {x} && Value().Desc(x) == {x}
      ensures Valid(Value()) && IsClosure(Value(), {})
    {
      for i := 0 to |g.entries|
        invariant |entries| == old(|entries|)
        invariant used == Image(mapping, set k | k in g.used && k < i)
        invariant forall k :: k in g.used && k < i ==> entries[mapping[k]] == Entry(g.Fee(k), {mapping[k]}, {mapping[k]})
      {
        if i in g.used {
          var n := mapping[i];
          entries := entries[n := Entry(g.Fee(i), {n}, {n})];
          used := used + {n};
        }
      }
      assert g.used == set k | k in g.used && k < |g.entries|;
      Unconnected(Value());
    }

    /** Add a new unconnected transaction in the first available position. */
    method AddTransaction(feefrac: FeeFrac) returns (idx: nat)
      requires Valid(Value()) && feefrac.size > 0
      modifies this
      ensures Valid(Value()) && idx !in old(used) && used == old(used) + {idx}
      ensures forall i: nat :: i < idx ==> i in old(used)
      ensures var g, g' := old(Value()), Value();
              && g'.Fee(idx) == feefrac && g'.Anc(idx) == {idx} && g'.Desc(idx) == {idx}
              && forall i :: i in g.used ==> g'.Fee(i) == g.Fee(i) && g'.Anc(i) == g.Anc(i) && g'.Desc(i) == g.Desc(i)
    {
      idx := 0;
      while idx in used
        invariant idx <= |entries| && forall i: nat :: i < idx ==> i in used
        decreases |entries| - idx
      {
        idx := idx + 1;
      }
      if idx == |entries| {
        entries := entries + [Entry(feefrac, {idx}, {idx})];
      } else {
        entries := entries[idx := Entry(feefrac, {idx}, {idx})];
      }
      used := used + {idx};
      Inserted(old(Value()), Value(), idx);
    }

    /** Remove the specified positions; an ancestor of a removed position stays an ancestor of its descendants. */
    method RemoveTransactions(del: set<nat>)
      requires Valid(Value())
      modifies this
      ensures Valid(Value()) && used == old(used) - del
      ensures |entries| > 0 ==> |entries| - 1 in used
      ensures var g, g' := old(Value()), Value();
              forall i :: i in used ==> g'.Fee(i) == g.Fee(i) && g'.Anc(i) == g.Anc(i) - del && g'.Desc(i) == g.Desc(i) - del
    {
      used := used - del;
      while entries != [] && |entries| - 1 !in used
        invariant used == old(used) - del
        invariant |entries| <= old(|entries|) && entries == old(entries)[..|entries|]
        invariant forall i :: i in used ==> i < |entries|
        decreases |entries|
      {
        entries := entries[..|entries| - 1];
      }
      ghost var trimmed := entries;
      for i := 0 to |entries|
        invariant used == old(used) - del && |entries| == |trimmed|
        invariant forall k :: i <= k < |entries| ==> entries[k] == trimmed[k]
        invariant forall k :: 0 <= k < i ==>
          entries[k] == Entry(trimmed[k].feerate, trimmed[k].ancestors * used, trimmed[k].descendants * used)
      {
        var e := entries[i];
        entries := entries[i := Entry(e.feerate, e.ancestors * used, e.descendants * used)];
      }
      Restricted(old(Value()), Value(), del);
    }

    /** The closure after new edges: every descendant of the child gains all ancestors of the parents. */
    method AddDependencies(parents: set<nat>, child: nat)
      requires Valid(Value()) && child in used && parents <= used
      modifies this
      ensures Extended(old(Value()), Value(), parents, child) && Valid(Value())
      ensures forall deps :: IsClosure(old(Value()), deps) ==> IsClosure(Value(), deps + set p | p in parents :: (child, p))
    {
      hide Valid, Extended, IsClosure;
      ghost var g := Value();
      var parAnc := NewAncestors(parents, child);
      if parAnc != {} {
        var chlDes := Value().Desc(child);
        AddToDescendants(parAnc, chlDes);
        AddToAncestors(chlDes, parAnc);
      } else {
        forall k | 0 <= k < |entries|
          ensures entries[k].ancestors + {} == entries[k].ancestors && entries[k].descendants + {} == entries[k].descendants
        {
        }
      }
      AddedIsExtended(g, Value(), parents, child, parAnc);
      ExtendedValid(g, Value(), parents, child);
      AllClosures(g, Value(), parents, child);
    }

    /** What the child gains: the parents' ancestors that it lacks. */
    method NewAncestors(parents: set<nat>, child: nat) returns (parAnc: set<nat>)
      requires Valid(Value()) && child in used && parents <= used
      ensures NewAncestorsOf(Value(), parents, child, parAnc)
    {
      ghost var g := Value();
      parAnc := {};
      for par := 0 to |entries|
        invariant forall y :: y in parAnc <==> exists p :: p in parents - g.Anc(child) && p < par && y in g.Anc(p)
      {
        if par in parents - Value().Anc(child) {
          parAnc := parAnc + Value().Anc(par);
        }
      }
      parAnc := parAnc - Value().Anc(child);
    }

    /** Add `more` to the descendants of every position in `of`. */
    method AddToDescendants(of: set<nat>, more: set<nat>)
      modifies this`entries
      ensures |entries| == old(|entries|)
      ensures forall k :: 0 <= k < |entries| ==>
        entries[k] == old(entries)[k].(descendants := old(entries)[k].descendants + (if k in of then more else {}))
    {
      for i := 0 to |entries|
        invariant |entries| == old(|entries|)
        invariant forall k :: i <= k < |entries| ==> entries[k] == old(entries)[k]
        invariant forall k :: 0 <= k < i ==>
          entries[k] == old(entries)[k].(descendants := old(entries)[k].descendants + (if k in of then more else {}))
      {
        if i in of {
          entries := entries[i := entries[i].(descendants := entries[i].descendants + more)];
        } else {
          assert entries[i].descendants + {} == entries[i].descendants;
        }
      }
    }

    /** Add `more` to the ancestors of every position in `of`. */
    method AddToAncestors(of: set<nat>, more: set<nat>)
      modifies this`entries
      ensures |entries| == old(|entries|)
      ensures forall k :: 0 <= k < |entries| ==>
        entries[k] == old(entries)[k].(ancestors := old(entries)[k].ancestors + (if k in of then more else {}))
    {
      for i := 0 to |entries|
        invariant |entries| == old(|entries|)
        invariant forall k :: i <= k < |entries| ==> entries[k] == old(entries)[k]
        invariant forall k :: 0 <= k < i ==>
          entries[k] == old(entries)[k].(ancestors := old(entries)[k].ancestors + (if k in of then more else {}))
      {
        if i in of {
          entries := entries[i := entries[i].(ancestors := entries[i].ancestors + more)];
        } else {
          assert entries[i].ancestors + {} == entries[i].ancestors;
        }
      }
    }
  }

  lemma ReducedAreUsed(g: Graph, i: nat, r: set<nat>)
    requires Valid(g) && i in g.used && Reduced(g, i, r)
    ensures r <= g.used
  {
  }

  lemma Unconnected(g: Graph)
    requires forall x :: x in g.used ==> x < |g.entries| && g.Fee(x).size > 0 && g.Anc(x) == {x} && g.Desc(x) == {x}
    ensures Valid(g) && IsClosure(g, {})
  {
    var none: set<Edge> := {};
    forall x, y | x in g.used && y in g.used
      ensures y in g.Anc(x) <==> Reach(none, x, y)
    {
      ReachSelf(none, x);
      if Reach(none, x, y) {
        var p :| IsPath(none, p) && p[0] == x && p[|p| - 1] == y;
        ReachWithin(g, none, p);
      }
    }
  }

  lemma ExtendedFees(g: Graph, g': Graph, parents: set<nat>, child: nat)
    requires Extended(g, g', parents, child)
    ensures g'.used == g.used && forall x :: x in g.used ==> g'.Fee(x) == g.Fee(x)
  {
  }

  lemma NoEdges(g: Graph, mapping: seq<nat>)
    ensures AllReduced(g, []) && Mappable(mapping, []) && MappedEdges(mapping, []) == {}
  {
  }

  lemma MappedEdgesSkip(g: Graph, mapping: seq<nat>, i: nat, parents: seq<set<nat>>)
    requires AllReduced(g, parents) && Mappable(mapping, parents) && |parents| == i && i !in g.used
    ensures AllReduced(g, parents + [{}]) && Mappable(mapping, parents + [{}])
    ensures MappedEdges(mapping, parents + [{}]) == MappedEdges(mapping, parents)
  {
    hide Reduced;
    var parents' := parents + [{}];
    assert forall k :: 0 <= k < i ==> parents'[k] == parents[k];
  }

  lemma MappedEdgesStep(g: Graph, mapping: seq<nat>, i: nat, parents: seq<set<nat>>, r: set<nat>)
    requires Injective(g, mapping) && i in g.used && r <= g.used
    requires AllReduced(g, parents) && Mappable(mapping, parents) && |parents| == i && Reduced(g, i, r)
    ensures AllReduced(g, parents + [r]) && Mappable(mapping, parents + [r])
    ensures MappedEdges(mapping, parents + [r]) == MappedEdges(mapping, parents) + set p | p in Image(mapping, r) :: (mapping[i], p)
  {
    hide Reduced;
    var parents' := parents + [r];
    assert forall k :: 0 <= k < i ==> parents'[k] == parents[k];
    assert parents'[i] == r;
    var more := set p | p in Image(mapping, r) :: (mapping[i], p);
    forall e | e in MappedEdges(mapping, parents')
      ensures e in MappedEdges(mapping, parents) + more
    {
      var k, j :| 0 <= k < |parents'| && j in parents'[k] && e == (mapping[k], mapping[j]);
      if k == i {
        assert mapping[j] in Image(mapping, r);
      } else {
        assert j in parents[k];
      }
    }
    forall e | e in more
      ensures e in MappedEdges(mapping, parents')
    {
      var j :| j in r && e == (mapping[i], mapping[j]);
      assert j in parents'[i];
    }
    forall e | e in MappedEdges(mapping, parents)
      ensures e in MappedEdges(mapping, parents')
    {
      var k, j :| 0 <= k < |parents| && j in parents[k] && e == (mapping[k], mapping[j]);
      assert j in parents'[k];
    }
  }

  lemma MappedIsRelabelled(g: Graph, g': Graph, mapping: seq<nat>, parents: seq<set<nat>>)
    requires Valid(g) && Injective(g, mapping) && Valid(g') && g'.used == Image(mapping, g.used)
    requires forall k :: k in g.used ==> g'.Fee(mapping[k]) == g.Fee(k)
    requires |parents| == |g.entries| && AllReduced(g, parents) && Mappable(mapping, parents)
    requires IsClosure(g', MappedEdges(mapping, parents))
    ensures Relabelled(g, g', mapping) <==> Recoverable(g)
  {
    hide Reach, AllReduced, Mappable, MappedEdges, Valid;
    if Recoverable(g) {
      forall i, j | i in g.used && j in g.used
        ensures mapping[j] in g'.Anc(mapping[i]) <==> j in g.Anc(i)
      {
        RecoverablePair(g, g', mapping, parents, i, j);
      }
    } else {
      CycleLost(g, g', mapping, parents);
    }
  }

  lemma RecoverablePair(g: Graph, g': Graph, mapping: seq<nat>, parents: seq<set<nat>>, i: nat, j: nat)
    requires Valid(g) && Injective(g, mapping) && Valid(g') && g'.used == Image(mapping, g.used) && Recoverable(g)
    requires |parents| == |g.entries| && AllReduced(g, parents) && Mappable(mapping, parents)
    requires IsClosure(g', MappedEdges(mapping, parents)) && i in g.used && j in g.used
    ensures mapping[j] in g'.Anc(mapping[i]) <==> j in g.Anc(i)
  {
    hide Reach, AllReduced, Mappable, MappedEdges, Recoverable, Valid;
    var edges := MappedEdges(mapping, parents);
    assert mapping[i] in g'.used && mapping[j] in g'.used;
    if j in g.Anc(i) {
      MappedReach(g, mapping, parents, i, j);
    }
    if Reach(edges, mapping[i], mapping[j]) {
      MappedWithin(g, mapping, parents, i, j);
    }
  }

  /** Reduced parents lead to every ancestor. */
  lemma {:induction false} MappedReach(g: Graph, mapping: seq<nat>, parents: seq<set<nat>>, i: nat, j: nat)
    requires Valid(g) && Recoverable(g) && Injective(g, mapping) && i in g.used && j in g.Anc(i)
    requires |parents| == |g.entries| && AllReduced(g, parents) && Mappable(mapping, parents)
    ensures j < |mapping| && Reach(MappedEdges(mapping, parents), mapping[i], mapping[j])
    decreases g.Anc(i)
  {
    hide *;
    var edges := MappedEdges(mapping, parents);
    AncestorsOf(g, i, j);
    InMapping(g, mapping, i);
    InMapping(g, mapping, j);
    if i == j {
      ReachSelf(edges, mapping[i]);
    } else {
      var p := ParentOver(g, parents, i, j);
      EdgeIn(mapping, parents, i, p);
      ReachEdge(edges, mapping[i], mapping[p]);
      AncestorsOf(g, i, p);
      if i in g.Anc(p) {
        PairOnly(g, i, p);
      } else {
        MappedReach(g, mapping, parents, p, j);
        ReachTransitive(edges, mapping[i], mapping[p], mapping[j]);
      }
    }
  }

  lemma ParentOver(g: Graph, parents: seq<set<nat>>, i: nat, j: nat) returns (p: nat)
    requires Valid(g) && i in g.used && j in g.Anc(i) - {i} && |parents| == |g.entries| && AllReduced(g, parents)
    ensures i < |parents| && p in parents[i] && p in g.Anc(i) && p != i && j in g.Anc(p)
  {
    UsedRange(g);
    assert Reduced(g, i, parents[i]) && Under(g, parents[i], j);
    p :| p in parents[i] && j in g.Anc(p);
  }

  lemma PairOnly(g: Graph, i: nat, p: nat)
    requires Recoverable(g) && i in g.used && p in g.Anc(i) && p != i && i in g.Anc(p)
    ensures g.Anc(i) == {i, p}
  {
    assert OnCycle(g, i, p);
  }

  lemma InMapping(g: Graph, mapping: seq<nat>, i: nat)
    requires Injective(g, mapping) && i in g.used
    ensures i < |mapping|
  {
  }

  lemma EdgeIn(mapping: seq<nat>, parents: seq<set<nat>>, i: nat, p: nat)
    requires Mappable(mapping, parents) && i < |parents| && p in parents[i]
    ensures i < |mapping| && p < |mapping| && (mapping[i], mapping[p]) in MappedEdges(mapping, parents)
  {
  }

  lemma MappedWithin(g: Graph, mapping: seq<nat>, parents: seq<set<nat>>, i: nat, j: nat)
    requires Valid(g) && Injective(g, mapping) && i in g.used && j in g.used
    requires |parents| == |g.entries| && AllReduced(g, parents) && Mappable(mapping, parents)
    requires Reach(MappedEdges(mapping, parents), mapping[i], mapping[j])
    ensures j in g.Anc(i)
  {
    hide AllReduced, Mappable, MappedEdges, Valid;
    var edges := MappedEdges(mapping, parents);
    var p :| IsPath(edges, p) && p[0] == mapping[i] && p[|p| - 1] == mapping[j];
    AncestorsClosed(g, parents, i);
    var k := MappedPath(g, mapping, parents, g.Anc(i), i, p);
  }

  lemma AncestorsClosed(g: Graph, parents: seq<set<nat>>, i: nat)
    requires Valid(g) && i in g.used && |parents| == |g.entries| && AllReduced(g, parents)
    ensures i in g.Anc(i) && g.Anc(i) <= g.used && forall x :: x in g.Anc(i) ==> x < |parents| && parents[x] <= g.Anc(i)
  {
    forall x | x in g.Anc(i)
      ensures x < |parents| && parents[x] <= g.Anc(i)
    {
      assert Reduced(g, x, parents[x]);
      assert g.Anc(x) <= g.Anc(i);
    }
  }

  /** Edges between mapped positions lead from a set to itself if the parents of its members are in it. */
  lemma {:induction false} MappedPath(g: Graph, mapping: seq<nat>, parents: seq<set<nat>>, s: set<nat>, i: nat, p: seq<nat>) returns (k: nat)
    requires Valid(g) && Injective(g, mapping) && i in s && s <= g.used
    requires |parents| == |g.entries| && AllReduced(g, parents) && Mappable(mapping, parents)
    requires forall x :: x in s ==> x < |parents| && parents[x] <= s
    requires IsPath(MappedEdges(mapping, parents), p) && p[0] == mapping[i]
    ensures k in s && k < |mapping| && p[|p| - 1] == mapping[k]
    decreases |p|
  {
    var edges := MappedEdges(mapping, parents);
    if |p| == 1 {
      k := i;
    } else {
      var init := p[..|p| - 1];
      assert IsPath(edges, init);
      var h := MappedPath(g, mapping, parents, s, i, init);
      assert (p[|p| - 2], p[|p| - 2 + 1]) in edges;
      var a, b :| 0 <= a < |parents| && b in parents[a] && (p[|p| - 2], p[|p| - 1]) == (mapping[a], mapping[b]);
      assert a in g.used;
      k := b;
    }
  }

  /**
    A cycle of more than two positions, or one with other ancestors, does not survive: its
    first two positions name only each other as reduced parents.
  */
  lemma CycleLost(g: Graph, g': Graph, mapping: seq<nat>, parents: seq<set<nat>>)
    requires Valid(g) && Injective(g, mapping) && Valid(g') && g'.used == Image(mapping, g.used) && !Recoverable(g)
    requires |parents| == |g.entries| && AllReduced(g, parents) && Mappable(mapping, parents)
    requires IsClosure(g', MappedEdges(mapping, parents))
    ensures !Relabelled(g, g', mapping)
  {
    hide Mappable, MappedEdges, Injective, IsClosure, Relabelled, Valid, AllReduced, IsPartner;
    var i: nat, j: nat :| i in g.used && OnCycle(g, i, j) && g.Anc(i) != {i, j};
    var x, y := FirstTwo(g, i, j);
    UsedRange(g);
    OnlyPartner(g, parents, x, y);
    OnlyPartner(g, parents, y, x);
    AncestorsOf(g, i, j);
    assert i in g.Anc(x) && j in g.Anc(x) && x in g.Anc(x) && y in g.Anc(x);
    var z := Third(g.Anc(x), i, j, x, y);
    PairClosed(g, g', mapping, parents, x, y, z);
  }

  lemma OnlyPartner(g: Graph, parents: seq<set<nat>>, x: nat, y: nat)
    requires AllReduced(g, parents) && x in g.used && x < |parents| && IsPartner(g, x, y)
    ensures parents[x] == {y}
  {
    assert Reduced(g, x, parents[x]);
  }

  /** A set other than a pair of its members has a member outside any other pair of its members. */
  lemma Third(s: set<nat>, i: nat, j: nat, x: nat, y: nat) returns (z: nat)
    requires i in s && j in s && i != j && s != {i, j} && x in s && y in s && x != y
    ensures z in s - {x, y}
  {
    if i !in {x, y} {
      z := i;
    } else if j !in {x, y} {
      z := j;
    } else {
      assert {i, j} == {x, y};
      assert !(s <= {i, j});
      z :| z in s && z !in {i, j};
    }
  }

  lemma PairClosed(g: Graph, g': Graph, mapping: seq<nat>, parents: seq<set<nat>>, x: nat, y: nat, z: nat)
    requires Valid(g) && Injective(g, mapping) && g'.used == Image(mapping, g.used)
    requires |parents| == |g.entries| && AllReduced(g, parents) && Mappable(mapping, parents)
    requires IsClosure(g', MappedEdges(mapping, parents))
    requires x in g.used && y in g.used && parents[x] == {y} && parents[y] == {x} && z in g.Anc(x) - {x, y}
    ensures !Relabelled(g, g', mapping)
  {
    hide AllReduced, Mappable, MappedEdges, Valid;
    var edges := MappedEdges(mapping, parents);
    UsedRange(g);
    AncestorsOf(g, x, z);
    assert mapping[x] in g'.used && mapping[z] in g'.used;
    if Reach(edges, mapping[x], mapping[z]) {
      var p :| IsPath(edges, p) && p[0] == mapping[x] && p[|p| - 1] == mapping[z];
      var k := MappedPath(g, mapping, parents, {x, y}, x, p);
      assert false;
    }
  }

  /** The first two positions of a cycle are each other's partners. */
  lemma FirstTwo(g: Graph, i: nat, j: nat) returns (x: nat, y: nat)
    requires Valid(g) && i in g.used && OnCycle(g, i, j)
    ensures x in g.used && y in g.used && x != y && x in g.Anc(x) && y in g.Anc(x)
    ensures IsPartner(g, x, y) && IsPartner(g, y, x) && g.Anc(x) == g.Anc(i)
  {
    var cycle := set q | q in g.Anc(i) && i in g.Anc(q);
    assert i in cycle && j in cycle;
    x := LowestOf(cycle);
    var rest := cycle - {x};
    assert i in rest || j in rest;
    y := LowestOf(rest);
    SameCycle(g, i, x);
    SameCycle(g, i, y);
    forall q | OnCycle(g, x, q)
      ensures q in rest
    {
      assert g.Anc(q) >= g.Anc(x);
    }
    forall q | OnCycle(g, y, q)
      ensures q in cycle
    {
      assert g.Anc(q) >= g.Anc(y);
    }
  }

  lemma SameCycle(g: Graph, i: nat, x: nat)
    requires Valid(g) && i in g.used && x in g.Anc(i) && i in g.Anc(x)
    ensures g.Anc(x) == g.Anc(i) && x in g.used
  {
    assert g.Anc(x) <= g.Anc(i) && g.Anc(i) <= g.Anc(x);
  }

  lemma LowestOf(s: set<nat>) returns (r: nat)
    requires s != {}
    ensures r in s && forall x :: x in s ==> r <= x
  {
    r :| r in s;
    while exists x :: x in s && x < r
      invariant r in s
      decreases r
    {
      var x :| x in s && x < r;
      r := x;
    }
  }

  /** The smallest cycle that does not survive. */
  lemma ThreeCycle()
    ensures var e := Entry(FeeFrac(0, 1), {0, 1, 2}, {0, 1, 2});
            var g := Graph([e, e, e], {0, 1, 2});
            Valid(g) && !Recoverable(g)
  {
    var e := Entry(FeeFrac(0, 1), {0, 1, 2}, {0, 1, 2});
    var g := Graph([e, e, e], {0, 1, 2});
    assert OnCycle(g, 0, 1) && 2 in g.Anc(0);
  }

  /** Acyclic graphs have no cycle to lose. */
  lemma AcyclicRecoverable(g: Graph)
    requires Valid(g) && Acyclic(g)
    ensures Recoverable(g)
  {
  }

  lemma Inserted(g: Graph, g': Graph, idx: nat)
    requires Valid(g) && idx !in g.used && g'.used == g.used + {idx}
    requires idx < |g'.entries| && |g'.entries| >= |g.entries| && g'.Fee(idx).size > 0
    requires g'.Anc(idx) == {idx} && g'.Desc(idx) == {idx}
    requires forall i :: i in g.used ==> g'.Fee(i) == g.Fee(i) && g'.Anc(i) == g.Anc(i) && g'.Desc(i) == g.Desc(i)
    ensures Valid(g')
  {
  }

  lemma Restricted(g: Graph, g': Graph, del: set<nat>)
    requires Valid(g) && g'.used == g.used - del && (forall i :: i in g'.used ==> i < |g'.entries|)
    requires |g'.entries| <= |g.entries|
    requires forall k :: 0 <= k < |g'.entries| ==>
      g'.entries[k] == Entry(g.entries[k].feerate, g.entries[k].ancestors * g'.used, g.entries[k].descendants * g'.used)
    ensures Valid(g')
    ensures forall i :: i in g'.used ==> g'.Fee(i) == g.Fee(i) && g'.Anc(i) == g.Anc(i) - del && g'.Desc(i) == g.Desc(i) - del
  {
  }

  ghost predicate NewAncestorsOf(g: Graph, parents: set<nat>, child: nat, parAnc: set<nat>) {
    forall y :: y in parAnc <==> y !in g.Anc(child) && exists p :: p in parents - g.Anc(child) && y in g.Anc(p)
  }

  lemma AllClosures(g: Graph, g': Graph, parents: set<nat>, child: nat)
    requires Valid(g) && child in g.used && parents <= g.used && Extended(g, g', parents, child)
    ensures forall deps :: IsClosure(g, deps) ==> IsClosure(g', deps + set p | p in parents :: (child, p))
  {
    hide Valid, Extended, IsClosure;
    forall deps | IsClosure(g, deps)
      ensures IsClosure(g', deps + set p | p in parents :: (child, p))
    {
      ExtendedClosure(g, g', parents, child, deps);
    }
  }

  /** What AddDependencies stores is the extended relation. */
  lemma AddedIsExtended(g: Graph, g': Graph, parents: set<nat>, child: nat, parAnc: set<nat>)
    requires Valid(g) && child in g.used && parents <= g.used
    requires g'.used == g.used && |g'.entries| == |g.entries|
    requires NewAncestorsOf(g, parents, child, parAnc)
    requires forall k :: 0 <= k < |g.entries| ==>
      && g'.entries[k].feerate == g.entries[k].feerate
      && g'.entries[k].ancestors == g.entries[k].ancestors + (if k in g.Desc(child) then parAnc else {})
      && g'.entries[k].descendants == g.entries[k].descendants + (if k in parAnc then g.Desc(child) else {})
    ensures Extended(g, g', parents, child)
  {
    forall x, y | x in g.used && y in g.used
      ensures y in g'.Anc(x) <==> y in g.Anc(x) || Through(g, parents, child, x, y)
      ensures y in g'.Anc(x) <==> x in g'.Desc(y)
    {
      assert x in g.Desc(child) <==> child in g.Anc(x);
      assert child in g.Anc(x) ==> g.Anc(child) <= g.Anc(x);
    }
  }
}
