/** Finding the best remaining ancestor set (src/cluster_linearize.h, class AncestorCandidateFinder). */
module AncestorFinding {
  import opened FeeRates
  import opened Graphs
  import opened Sets
  import opened Chunkings

  /** What a candidate for the next position has to bring along: the transaction and its ancestors not yet placed. */
  function AncestorSet(g: Graph, todo: set<nat>, i: nat): set<nat> {
    g.Anc(i) * todo
  }

  lemma AncestorSetClosed(g: Graph, todo: set<nat>, i: nat)
    requires Valid(g) && todo <= g.used && i in todo
    ensures i in AncestorSet(g, todo, i) && ClosedIn(g, todo, AncestorSet(g, todo, i))
    ensures FeeRate(g, AncestorSet(g, todo, i)).size > 0
  {
    FeeRateSize(g, AncestorSet(g, todo, i));
  }

  lemma UnionWith(g: Graph, a: set<nat>, x: nat)
    requires x !in a
    ensures FeeRate(g, a + {x}) == FeeRate(g, a).Plus(g.Fee(x))
  {
    FeeRateUnion(g, a, {x});
    FeeRateSingleton(g, x);
  }

  class AncestorCandidateFinder {
    const g: Graph
    var todo: set<nat>
    // Outside todo, these are out of date.
    var feerates: seq<FeeFrac>

    ghost predicate Valid()
      reads this
    {
      && Graphs.Valid(g) && todo <= g.used
      && |feerates| == |g.entries|
      && forall i :: i in todo ==> i < |feerates| && feerates[i] == FeeRate(g, AncestorSet(g, todo, i))
    }

    constructor (g: Graph)
      requires Graphs.Valid(g) && Acyclic(g)
      ensures Valid() && this.g == g && todo == g.used
    {
      hide FeeRate;
      var n := |g.entries|;
      var rates := seq(n, i => EMPTY);
      for i := 0 to n
        invariant |rates| == n
        invariant forall j :: j in g.used && j < i ==> rates[j] == FeeRate(g, g.Anc(j))
      {
        if i in g.used {
          var ancToAdd := g.Anc(i);
          var rate := EMPTY;
          assert i in ancToAdd;
          var first := First(ancToAdd);
          // Reuse the accumulated feerate of the first ancestor, if it is already known.
          if first < i {
            rate := rates[first];
            ancToAdd := ancToAdd - g.Anc(first);
            FeeRateSplit(g, g.Anc(i), g.Anc(first));
            assert g.Anc(i) * g.Anc(first) == g.Anc(first);
            assert i in ancToAdd;
          }
          rate := rate.Plus(FeeRate(g, ancToAdd));
          rates := rates[i := rate];
        }
      }
      forall j | j in g.used
        ensures AncestorSet(g, g.used, j) == g.Anc(j)
      {
      }
      this.g, todo, feerates := g, g.used, rates;
    }

    /** Takes placed transactions out of todo; the aggregates of the others then are those of smaller ancestor sets. */
    method MarkDone(select: set<nat>)
      requires Valid() && select <= todo
      modifies this
      ensures Valid() && todo == old(todo) - select
    {
      hide FeeRate;
      todo := todo - select;
      ghost var left := old(todo);
      for i := 0 to |g.entries|
        invariant todo == old(todo) - select && |feerates| == |g.entries|
        invariant left == todo + set x | x in select && x >= i
        invariant forall j :: j in todo ==> feerates[j] == FeeRate(g, AncestorSet(g, left, j))
      {
        if i in select {
          SubtractFromDescendants(i, left);
          left := left - {i};
        }
        assert left == todo + set x | x in select && x >= i + 1;
      }
      assert left == todo;
    }

    method SubtractFromDescendants(i: nat, ghost left: set<nat>)
      requires Graphs.Valid(g) && todo <= g.used && |feerates| == |g.entries|
      requires todo <= left <= g.used && i in left && i !in todo
      requires forall j :: j in todo ==> feerates[j] == FeeRate(g, AncestorSet(g, left, j))
      modifies this`feerates
      ensures |feerates| == |g.entries|
      ensures forall j :: j in todo ==> feerates[j] == FeeRate(g, AncestorSet(g, left - {i}, j))
    {
      hide FeeRate;
      var feerate := g.Fee(i);
      for j := 0 to |g.entries|
        invariant |feerates| == |g.entries|
        invariant forall k :: k in todo && k < j ==> feerates[k] == FeeRate(g, AncestorSet(g, left - {i}, k))
        invariant forall k :: k in todo && k >= j ==> feerates[k] == FeeRate(g, AncestorSet(g, left, k))
      {
        if j in g.Desc(i) * todo {
          assert AncestorSet(g, left, j) == AncestorSet(g, left - {i}, j) + {i};
          UnionWith(g, AncestorSet(g, left - {i}, j), i);
          feerates := feerates[j := feerates[j].Minus(feerate)];
        } else if j in todo {
          assert AncestorSet(g, left, j) == AncestorSet(g, left - {i}, j);
        }
      }
    }

    predicate AllDone()
      reads this
    {
      todo == {}
    }

    function NumRemaining(): nat
      reads this
    {
      |todo|
    }

    /** No other remaining ancestor set has a higher feerate, or the same feerate and fewer bytes. */
    method FindCandidateSet() returns (r: SetInfo)
      requires Valid() && !AllDone()
      ensures r.transactions != {} && ClosedIn(g, todo, r.transactions) && Accurate(g, r)
      ensures exists b :: b in todo && r.transactions == AncestorSet(g, todo, b)
      ensures forall i :: i in todo ==> !Better(FeeRate(g, AncestorSet(g, todo, i)), r.feerate)
    {
      hide FeeRate, Better;
      var best: int := -1;
      for i := 0 to |g.entries|
        invariant best == -1 || (best in todo && 0 <= best < i)
        invariant best == -1 ==> forall j :: j in todo ==> j >= i
        invariant best != -1 ==> forall j :: j in todo && j < i ==> !Better(feerates[j], feerates[best])
      {
        if i in todo {
          AncestorSetClosed(g, todo, i);
          if best != -1 {
            AncestorSetClosed(g, todo, best);
            NotBetterNext(g, todo, feerates, i, best);
            if !Better(feerates[i], feerates[best]) {
              continue;
            }
          }
          NotBetterSelf(feerates[i]);
          best := i;
        }
      }
      assert best != -1 by {
        var x :| x in todo;
      }
      AncestorSetClosed(g, todo, best);
      r := SetInfo(g.Anc(best) * todo, feerates[best]);
    }
  }

  lemma NotBetterSelf(a: FeeFrac)
    ensures !Better(a, a)
  {
  }

  /** If a later feerate beats the best so far, it is beaten by none of those the best was not beaten by. */
  lemma NotBetterNext(g: Graph, todo: set<nat>, feerates: seq<FeeFrac>, i: nat, best: nat)
    requires Valid(g) && todo <= g.used && |feerates| == |g.entries| && i in todo && best in todo
    requires forall i :: i in todo ==> feerates[i] == FeeRate(g, AncestorSet(g, todo, i))
    requires forall j :: j in todo && j < i ==> !Better(feerates[j], feerates[best])
    ensures Better(feerates[i], feerates[best]) ==> forall j :: j in todo && j < i ==> !Better(feerates[j], feerates[i])
  {
    hide FeeRate, Better;
    if Better(feerates[i], feerates[best]) {
      forall j | j in todo && j < i
        ensures !Better(feerates[j], feerates[i])
      {
        AncestorSetClosed(g, todo, i);
        AncestorSetClosed(g, todo, j);
        AncestorSetClosed(g, todo, best);
        if Better(feerates[j], feerates[i]) {
          BetterTransitive(feerates[j], feerates[i], feerates[best]);
        }
      }
    }
  }
}
