/** Candidate search on an arbitrary graph: sort by feerate, search, translate back (src/cluster_linearize.h:644-1022). */
module Finding {
  import opened Integers
  import opened FeeRates
  import opened Graphs
  import opened Chunkings
  import opened Improvement
  import opened DepGraphs
  import opened Searching

  // ---------- relabelled graphs ----------

  lemma {:induction false} RelabelledFeeRate(g: Graph, g': Graph, m: seq<nat>, s: set<nat>)
    requires Relabelled(g, g', m) && s <= g.used
    ensures FeeRate(g', Image(m, s)) == FeeRate(g, s)
    decreases s
  {
    hide FeeRate;
    if s == {} {
      FeeRateSingleton(g, 0);
      FeeRateSingleton(g', 0);
      assert Image(m, s) == {};
    } else {
      var x :| x in s;
      RelabelledFeeRate(g, g', m, s - {x});
      assert Image(m, s) == Image(m, s - {x}) + {m[x]};
      assert s == (s - {x}) + {x};
      assert m[x] !in Image(m, s - {x});
      FeeRateUnion(g, s - {x}, {x});
      FeeRateUnion(g', Image(m, s - {x}), {m[x]});
      FeeRateSingleton(g, x);
      FeeRateSingleton(g', m[x]);
    }
  }

  lemma RelabelledClosed(g: Graph, g': Graph, m: seq<nat>, todo: set<nat>, s: set<nat>)
    requires Relabelled(g, g', m) && todo <= g.used && s <= todo
    ensures ClosedIn(g', Image(m, todo), Image(m, s)) <==> ClosedIn(g, todo, s)
  {
    if ClosedIn(g, todo, s) {
      forall x', a' | x' in Image(m, s) && a' in g'.Anc(x') * Image(m, todo)
        ensures a' in Image(m, s)
      {
        var x :| x in s && m[x] == x';
        var a :| a in todo && m[a] == a';
      }
    }
    if ClosedIn(g', Image(m, todo), Image(m, s)) {
      forall x, a | x in s && a in g.Anc(x) * todo
        ensures a in s
      {
        assert m[x] in Image(m, s) && m[a] in g'.Anc(m[x]) * Image(m, todo);
      }
    }
  }

  /** A candidate of the relabelled graph is the image of a candidate, with the same feerate, and vice versa. */
  lemma RelabelledCandidate(g: Graph, g': Graph, m: seq<nat>, todo: set<nat>, s: set<nat>)
    requires Relabelled(g, g', m) && todo <= g.used && s <= todo
    ensures Candidate(g', Image(m, todo), Image(m, s)) <==> Candidate(g, todo, s)
    ensures FeeRate(g', Image(m, s)) == FeeRate(g, s)
  {
    RelabelledClosed(g, g', m, todo, s);
    RelabelledFeeRate(g, g', m, s);
    if s != {} {
      var x :| x in s;
      assert m[x] in Image(m, s);
    }
  }

  /** An optimal set of the relabelled graph is optimal in the original one. */
  lemma RelabelledOptimal(g: Graph, g': Graph, m: seq<nat>, todo: set<nat>, s: set<nat>)
    requires Relabelled(g, g', m) && todo <= g.used && s <= todo
    requires Optimal(g', Image(m, todo), Image(m, s))
    ensures Optimal(g, todo, s)
  {
    hide FeeRate, Higher, ClosedIn;
    RelabelledFeeRate(g, g', m, s);
    forall c | ClosedIn(g, todo, c) && c != {}
      ensures !Higher(FeeRate(g, c), FeeRate(g, s))
    {
      ClosedSubset(g, todo, c);
      RelabelledCandidate(g, g', m, todo, c);
    }
  }

  lemma ClosedSubset(g: Graph, todo: set<nat>, c: set<nat>)
    requires ClosedIn(g, todo, c)
    ensures c <= todo
  {
  }

  // ---------- sorting by feerate ----------

  /** Decreasing feerate, then increasing size, then increasing position. */
  predicate FeerateBefore(g: Graph, a: nat, b: nat) {
    Better(g.Fee(a), g.Fee(b)) || (!Better(g.Fee(b), g.Fee(a)) && a < b)
  }

  lemma FeerateBeforeOrder(g: Graph, a: nat, b: nat, c: nat)
    requires g.Fee(a).size > 0 && g.Fee(b).size > 0 && g.Fee(c).size > 0
    ensures a != b ==> FeerateBefore(g, a, b) || FeerateBefore(g, b, a)
    ensures FeerateBefore(g, a, b) && FeerateBefore(g, b, c) ==> FeerateBefore(g, a, c)
  {
    hide Better, Cross;
    var x, y, z := g.Fee(a), g.Fee(b), g.Fee(c);
    BetterCross(x, y);
    BetterCross(y, x);
    BetterCross(y, z);
    BetterCross(z, y);
    BetterCross(x, z);
    BetterCross(z, x);
    CrossSign(x, y);
    CrossSign(y, z);
    CrossSign(x, z);
    if Cross(x, y) >= 0 && Cross(y, z) >= 0 {
      CrossTransitive(x, y, z);
    }
    if Cross(z, y) >= 0 && Cross(y, x) >= 0 {
      CrossTransitive(z, y, x);
    }
  }

  ghost predicate SortedFees(g: Graph, s: seq<nat>) {
    forall i, j :: 0 <= i < j < |s| ==> FeerateBefore(g, s[i], s[j])
  }

  /** The used positions in order of decreasing feerate. */
  method SortPositions(g: Graph) returns (s: seq<nat>)
    requires Valid(g)
    ensures SortedFees(g, s) && (forall x :: x in s <==> x in g.used)
    ensures forall i, j :: 0 <= i < j < |s| ==> s[i] != s[j]
  {
    hide FeerateBefore;
    s := [];
    for i := 0 to |g.entries|
      invariant forall x :: x in s <==> x in g.used && x < i
      invariant SortedFees(g, s)
    {
      if i in g.used {
        s := InsertFee(g, s, i);
      }
    }
    forall i, j | 0 <= i < j < |s|
      ensures s[i] != s[j]
    {
      NotBefore(g, s[i]);
    }
  }

  lemma NotBefore(g: Graph, a: nat)
    ensures !FeerateBefore(g, a, a)
  {
    BetterCross(g.Fee(a), g.Fee(a));
    CrossSign(g.Fee(a), g.Fee(a));
  }

  method InsertFee(g: Graph, s: seq<nat>, x: nat) returns (r: seq<nat>)
    requires SortedFees(g, s) && x !in s && g.Fee(x).size > 0 && forall i :: 0 <= i < |s| ==> g.Fee(s[i]).size > 0
    ensures SortedFees(g, r) && forall y :: y in r <==> y in s || y == x
  {
    hide FeerateBefore;
    var p := |s|;
    while p > 0 && FeerateBefore(g, x, s[p - 1])
      invariant 0 <= p <= |s|
      invariant forall j :: p <= j < |s| ==> FeerateBefore(g, x, s[j])
    {
      p := p - 1;
    }
    r := s[..p] + [x] + s[p..];
    assert s == s[..p] + s[p..];
    if p > 0 {
      FeerateBeforeOrder(g, x, s[p - 1], x);
    }
    InsertedFees(g, s, x, p);
  }

  lemma InsertedFees(g: Graph, s: seq<nat>, x: nat, p: nat)
    requires SortedFees(g, s) && p <= |s| && g.Fee(x).size > 0 && forall i :: 0 <= i < |s| ==> g.Fee(s[i]).size > 0
    requires p > 0 ==> FeerateBefore(g, s[p - 1], x)
    requires forall j :: p <= j < |s| ==> FeerateBefore(g, x, s[j])
    ensures SortedFees(g, s[..p] + [x] + s[p..])
  {
    hide FeerateBefore;
    var r := s[..p] + [x] + s[p..];
    forall i, j | 0 <= i < j < |r|
      ensures FeerateBefore(g, r[i], r[j])
    {
      if j == p {
        FeerateBeforeOrder(g, s[i], s[p - 1], x);
      }
    }
  }

  // ---------- the finder ----------

  class SearchCandidateFinder {
    const g: Graph
    const sortedToOriginal: seq<nat>
    const originalToSorted: seq<nat>
    const sorted: Graph
    /** What remains, in sorted positions. */
    var todo: set<nat>
    /** What remains, in original positions. */
    ghost var remaining: set<nat>

    /** The two index tables are inverse to each other and the sorted graph is the relabelled one. */
    ghost predicate Tables() {
      && Graphs.Valid(g) && Graphs.Valid(sorted) && SortedByFeerate(sorted)
      && Relabelled(g, sorted, originalToSorted)
      && forall i :: i in g.used ==> originalToSorted[i] < |sortedToOriginal| && sortedToOriginal[originalToSorted[i]] == i
    }

    ghost predicate Valid()
      reads this
    {
      Tables() && remaining <= g.used && todo == Image(originalToSorted, remaining)
    }

    constructor (g: Graph)
      requires Graphs.Valid(g) && Acyclic(g)
      ensures Valid() && this.g == g && remaining == g.used
    {
      hide Graphs.Valid, Acyclic, FeerateBefore, Recoverable;
      var s2o := SortPositions(g);
      UsedRange(g);
      var o2s: seq<nat> := seq(|g.entries|, i => 0);
      for i := 0 to |s2o|
        invariant |o2s| == |g.entries|
        invariant forall k :: 0 <= k < i ==> s2o[k] < |o2s| && o2s[s2o[k]] == k
      {
        assert s2o[i] in g.used;
        o2s := o2s[s2o[i] := i];
      }
      forall i | i in g.used
        ensures i < |o2s| && o2s[i] < |s2o| && s2o[o2s[i]] == i
      {
        var k :| 0 <= k < |s2o| && s2o[k] == i;
      }
      AcyclicRecoverable(g);
      var depgraph := new DepGraph.FromMapping(g, o2s, |s2o|);
      var sortedGraph := depgraph.Value();
      SortedTables(g, sortedGraph, s2o, o2s);
      this.g, sortedToOriginal, originalToSorted, sorted := g, s2o, o2s, sortedGraph;
      todo := sortedGraph.used;
      remaining := g.used;
    }

    predicate AllDone()
      reads this
    {
      todo == {}
    }

    /**
      A closed set at least as good as the initial best; an optimal one if iterations are left
      over, which they are if there is one for every set of remaining transactions.
    */
    method FindCandidateSet(maxIterations: nat, best: SetInfo) returns (r: SetInfo, iterations: nat)
      requires Valid() && !AllDone()
      requires (best.transactions == {} || Candidate(g, remaining, best.transactions)) && Accurate(g, best)
      ensures Candidate(g, remaining, r.transactions) && Accurate(g, r)
      ensures best.transactions != {} ==> !Better(best.feerate, r.feerate)
      ensures iterations <= maxIterations
      ensures iterations < maxIterations ==> Optimal(g, remaining, r.transactions)
      ensures iterations < Pow2(|remaining|)
    {
      ImageSize(originalToSorted, remaining);
      hide Pow2, Cost;
      hide Graphs.Valid, FeeRate, Better, Relabelled, Optimal, SortedByFeerate;
      ToRemaining(g, remaining, best.transactions);
      InRange(g, sorted, originalToSorted);
      var start := SetInfo(Image(originalToSorted, best.transactions), best.feerate);
      RelabelledCandidate(g, sorted, originalToSorted, remaining, best.transactions);
      ImageFacts(g, sorted, originalToSorted, remaining, best.transactions);
      var search := new Search(sorted, todo, start, maxIterations);
      ghost var best0 := search.best;
      search.Run();
      iterations := maxIterations - search.iterationsLeft;
      var found := search.best;
      var back := Image(sortedToOriginal, found.transactions);
      BackAndForth(g, sorted, originalToSorted, sortedToOriginal, remaining, found.transactions);
      r := SetInfo(back, found.feerate);
      RelabelledCandidate(g, sorted, originalToSorted, remaining, back);
      if iterations < maxIterations {
        RelabelledOptimal(g, sorted, originalToSorted, remaining, back);
      }
      if best.transactions != {} {
        CandidateSize(g, remaining, best.transactions);
        CandidateSize(g, remaining, r.transactions);
        NotBetterThanKept(start, found);
      }
    }

    /** The search goes on over what is left after `done` has been placed. */
    method MarkDone(done: set<nat>)
      requires Valid() && done <= remaining
      modifies this
      ensures Valid() && remaining == old(remaining) - done
    {
      ghost var r := remaining;
      todo := todo - Image(originalToSorted, done);
      remaining := remaining - done;
      forall x | x in Image(originalToSorted, r) - Image(originalToSorted, done)
        ensures x in Image(originalToSorted, remaining)
      {
        var i :| i in r && originalToSorted[i] == x;
        assert i !in done;
      }
    }
  }

  lemma InRange(g: Graph, g': Graph, m: seq<nat>)
    requires Relabelled(g, g', m)
    ensures forall i :: i in g.used ==> i < |m|
  {
  }

  lemma ToRemaining(g: Graph, todo: set<nat>, s: set<nat>)
    requires s == {} || Candidate(g, todo, s)
    ensures s <= todo
  {
  }

  lemma CandidateSize(g: Graph, todo: set<nat>, s: set<nat>)
    requires Valid(g) && todo <= g.used && Candidate(g, todo, s)
    ensures FeeRate(g, s).size > 0
  {
    FeeRateSize(g, s);
  }

  lemma NotBetterThanKept(before: SetInfo, after: SetInfo)
    requires BestKept(before, after)
    ensures !Better(before.feerate, after.feerate)
  {
    BetterCross(before.feerate, after.feerate);
    BetterCross(after.feerate, before.feerate);
    CrossSign(before.feerate, after.feerate);
    CrossSign(before.feerate, before.feerate);
  }

  /** Different positions have different images. */
  lemma {:induction false} ImageSize(m: seq<nat>, s: set<nat>)
    requires (forall i :: i in s ==> i < |m|) && forall i, j :: i in s && j in s && m[i] == m[j] ==> i == j
    ensures |Image(m, s)| == |s|
    decreases |s|
  {
    if s != {} {
      var x :| x in s;
      ImageSize(m, s - {x});
      assert m[x] !in Image(m, s - {x});
      assert Image(m, s) == Image(m, s - {x}) + {m[x]};
    }
  }

  lemma ImageFacts(g: Graph, g': Graph, m: seq<nat>, todo: set<nat>, s: set<nat>)
    requires Relabelled(g, g', m) && todo <= g.used && s <= todo
    ensures Image(m, todo) <= g'.used && Image(m, s) <= Image(m, todo)
    ensures s == {} <==> Image(m, s) == {}
  {
    if s != {} {
      var x :| x in s;
      assert m[x] in Image(m, s);
    }
  }

  /** Translating to original positions and back is the identity. */
  lemma BackAndForth(g: Graph, g': Graph, o2s: seq<nat>, s2o: seq<nat>, todo: set<nat>, t: set<nat>)
    requires Relabelled(g, g', o2s) && todo <= g.used && t <= Image(o2s, todo)
    requires forall i :: i in g.used ==> o2s[i] < |s2o| && s2o[o2s[i]] == i
    ensures forall x :: x in t ==> x < |s2o|
    ensures Image(s2o, t) <= todo && Image(o2s, Image(s2o, t)) == t
  {
    forall x | x in t
      ensures x < |s2o| && s2o[x] in todo && o2s[s2o[x]] == x
    {
      var i :| i in todo && o2s[i] == x;
    }
    forall x | x in t
      ensures x in Image(o2s, Image(s2o, t))
    {
      assert s2o[x] in Image(s2o, t);
    }
  }

  /** The relabelled graph of the sorting order is sorted by feerate. */
  lemma SortedTables(g: Graph, g': Graph, s2o: seq<nat>, o2s: seq<nat>)
    requires Valid(g) && Relabelled(g, g', o2s) && SortedFees(g, s2o)
    requires forall i :: i in g.used ==> o2s[i] < |s2o| && s2o[o2s[i]] == i
    ensures SortedByFeerate(g') && g'.used == Image(o2s, g.used)
  {
    hide FeerateBefore, Higher;
    forall x, y | x in g'.used && y in g'.used && x < y
      ensures !Higher(g'.Fee(y), g'.Fee(x))
    {
      var i :| i in g.used && o2s[i] == x;
      var j :| j in g.used && o2s[j] == y;
      assert FeerateBefore(g, s2o[x], s2o[y]);
      BeforeNotLower(g, i, j);
    }
  }

  lemma BeforeNotLower(g: Graph, a: nat, b: nat)
    requires FeerateBefore(g, a, b)
    ensures !Higher(g.Fee(b), g.Fee(a))
  {
    BetterCross(g.Fee(a), g.Fee(b));
    BetterCross(g.Fee(b), g.Fee(a));
    CrossSign(g.Fee(a), g.Fee(b));
    CrossSign(g.Fee(b), g.Fee(a));
  }
}
