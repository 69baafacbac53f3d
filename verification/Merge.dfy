/** Building linearizations set by set, and merging two of them (src/cluster_linearize.h). */
module Merging {
  import opened FeeRates
  import opened Graphs
  import opened Diagrams
  import opened Compare
  import opened Chunkings
  import opened Improvement

  // ---------- AppendTopo ----------

  /** The sort order of AppendTopo: by number of ancestors, then by position. */
  predicate SortsBefore(g: Graph, a: nat, b: nat) {
    if |g.Anc(a)| != |g.Anc(b)| then |g.Anc(a)| < |g.Anc(b)| else a < b
  }

  ghost predicate SortedTopo(g: Graph, s: seq<nat>) {
    forall i, j :: 0 <= i < j < |s| ==> SortsBefore(g, s[i], s[j])
  }

  lemma ProperSubsetCount(a: set<nat>, b: set<nat>)
    requires a < b
    ensures |a| < |b|
  {
    assert b == a + (b - a);
    assert |b| == |a| + |b - a|;
    assert b - a != {};
  }

  /** In an acyclic graph, an ancestor has fewer ancestors. */
  lemma SortedIsTopo(g: Graph, s: seq<nat>)
    requires Valid(g) && Acyclic(g) && Elems(s) <= g.used && SortedTopo(g, s)
    ensures Topo(g, s) && Distinct(s)
  {
    forall i, j | 0 <= i < j < |s|
      ensures s[j] !in g.Anc(s[i])
    {
      var x, y := s[i], s[j];
      assert x in Elems(s) && y in Elems(s);
      if y in g.Anc(x) {
        assert g.Anc(y) <= g.Anc(x);
        if x !in g.Anc(y) {
          ProperSubsetCount(g.Anc(y), g.Anc(x));
        }
      }
    }
  }

  /** Continues the list by an order of `select` in which ancestors come first. */
  method AppendTopo(g: Graph, list: seq<nat>, select: set<nat>) returns (r: seq<nat>, ghost t: seq<nat>)
    requires Valid(g) && Acyclic(g) && select <= g.used
    ensures r == list + t && Lists(t, select) && SortedTopo(g, t) && Topo(g, t)
    ensures |list| <= |r| && r[..|list|] == list && Lists(r[|list|..], select) && SortedTopo(g, r[|list|..])
  {
    var tail := [];
    for i := 0 to |g.entries|
      invariant Elems(tail) == set x | x in select && x < i
      invariant SortedTopo(g, tail)
    {
      if i in select {
        assert i !in Elems(tail);
        tail := InsertSorted(g, tail, i);
      }
    }
    r, t := list + tail, tail;
    assert r[|list|..] == tail;
    SortedIsTopo(g, tail);
  }

  lemma SortsBeforeOrder(g: Graph, a: nat, b: nat, c: nat)
    ensures a != b ==> SortsBefore(g, a, b) || SortsBefore(g, b, a)
    ensures SortsBefore(g, a, b) && SortsBefore(g, b, c) ==> SortsBefore(g, a, c)
  {
  }

  method InsertSorted(g: Graph, s: seq<nat>, x: nat) returns (r: seq<nat>)
    requires SortedTopo(g, s) && x !in s
    ensures SortedTopo(g, r) && Elems(r) == Elems(s) + {x}
  {
    hide SortsBefore;
    var p := |s|;
    while p > 0 && SortsBefore(g, x, s[p - 1])
      invariant 0 <= p <= |s|
      invariant forall j :: p <= j < |s| ==> SortsBefore(g, x, s[j])
    {
      p := p - 1;
    }
    r := s[..p] + [x] + s[p..];
    assert s == s[..p] + s[p..];
    if p > 0 {
      SortsBeforeOrder(g, x, s[p - 1], x);
    }
    InsertedSorted(g, s, x, p);
  }

  lemma InsertedSorted(g: Graph, s: seq<nat>, x: nat, p: nat)
    requires SortedTopo(g, s) && p <= |s|
    requires p > 0 ==> SortsBefore(g, s[p - 1], x)
    requires forall j :: p <= j < |s| ==> SortsBefore(g, x, s[j])
    ensures SortedTopo(g, s[..p] + [x] + s[p..])
  {
    hide SortsBefore;
    var r := s[..p] + [x] + s[p..];
    forall i, j | 0 <= i < j < |r|
      ensures SortsBefore(g, r[i], r[j])
    {
      if j == p {
        SortsBeforeOrder(g, s[i], s[p - 1], x);
      }
    }
  }

  /** The feerate diagram of a is nowhere below that of b. */
  ghost predicate AtLeastAsGood(g: Graph, a: seq<nat>, b: seq<nat>) {
    && Positive(ChunkFeerates(g, a)) && Positive(ChunkFeerates(g, b))
    && NowhereBelow(ChunkFeerates(g, a), ChunkFeerates(g, b))
  }

  // ---------- growing a linearization ----------

  /** `out` is a topologically valid start of a linearization; `todo` is what remains. */
  ghost predicate Partial(g: Graph, out: seq<nat>, todo: set<nat>) {
    && Distinct(out) && Topo(g, out)
    && ClosedIn(g, g.used, Elems(out)) && todo == g.used - Elems(out)
  }

  lemma PartialStart(g: Graph)
    ensures Partial(g, [], g.used)
  {
  }

  lemma PartialEnd(g: Graph, out: seq<nat>)
    requires Partial(g, out, {})
    ensures IsLinearization(g, out)
  {
    forall x | x in g.used
      ensures x in Elems(out)
    {
      assert x !in g.used - Elems(out);
    }
  }

  lemma PartialStep(g: Graph, out: seq<nat>, todo: set<nat>, moved: set<nat>, t: seq<nat>)
    requires Valid(g) && Partial(g, out, todo) && ClosedIn(g, todo, moved) && Lists(t, moved) && Topo(g, t)
    ensures Partial(g, out + t, todo - moved)
    ensures moved != {} ==> |todo - moved| < |todo|
  {
    if moved != {} {
      ProperSubsetCount(todo - moved, todo);
    }
    var r := out + t;
    assert Elems(r) == Elems(out) + moved;
    DistinctSplit(out, t);
    forall i, j | 0 <= i < j < |r|
      ensures r[j] !in g.Anc(r[i])
    {
      if i < |out| <= j {
        assert out[i] in Elems(out) && t[j - |out|] in Elems(t);
      }
    }
    forall x | x in Elems(r)
      ensures g.Anc(x) * g.used <= Elems(r)
    {
      if x in moved {
        assert g.Anc(x) * todo <= moved;
      }
    }
  }

  /** Outputting a safe set keeps the output followed by the rest as good as the original ordering. */
  lemma DominatesStep(g: Graph, lin: seq<nat>, out: seq<nat>, todo: set<nat>, moved: set<nat>, t: seq<nat>)
    requires Distinct(lin) && Sized(g, lin) && todo <= Elems(lin) && moved <= todo && Lists(t, moved)
    requires Improves(g, lin, out, todo)
    requires SafeToMove(g, Chunks(g, Restrict(lin, todo)), moved)
    ensures Improves(g, lin, out + t, todo - moved)
  {
    hide Restrict, Chunks, Dominates, SafeToMove;
    var s, left := Restrict(lin, todo), todo - moved;
    RestrictKeeps(g, lin, todo);
    RestrictElems(lin, todo);
    assert Elems(s) == todo;
    MoveFront(g, s, moved, t);
    RestrictTwice(lin, todo, left);
    assert todo * left == left;
    assert Moved(s, moved, t) == t + Restrict(lin, left);
    DominatesPrepend(g, out, Moved(s, moved, t), s);
    assert out + (t + Restrict(lin, left)) == (out + t) + Restrict(lin, left);
    DominatesTransitive(g, (out + t) + Restrict(lin, left), out + s, lin);
  }

  lemma LinearizationSized(g: Graph, s: seq<nat>)
    requires Valid(g) && IsLinearization(g, s)
    ensures Sized(g, s)
  {
    forall i | 0 <= i < |s|
      ensures s[i] < |g.entries| && g.Fee(s[i]).size > 0
    {
      assert s[i] in Elems(s);
    }
  }

  /** All linearizations of a graph have the same total, so dominance compares their diagrams. */
  lemma LinearizationCompare(g: Graph, a: seq<nat>, b: seq<nat>)
    requires Valid(g) && IsLinearization(g, a) && IsLinearization(g, b)
    ensures Dominates(g, a, b) <==> AtLeastAsGood(g, a, b)
  {
    LinearizationSized(g, a);
    LinearizationSized(g, b);
    SumElems(g, a);
    SumElems(g, b);
    DiagramTheorem(g, a, b);
  }

  // ---------- merging ----------

  /** An intersection of a first chunk with a chunk prefix of the other ordering is topologically valid. */
  lemma IntersectionClosed(g: Graph, s: seq<nat>, other: seq<nat>, t: set<nat>)
    requires Sized(g, s) && Sized(g, other) && Topo(g, s) && Topo(g, other)
    requires Elems(s) == Elems(other) && other != [] && Chunks(g, other) != []
    requires IsIntersection(g, Chunks(g, s), Elems(Chunks(g, other)[0]), t)
    ensures Chunks(g, other)[0] != [] && t != {} && ClosedIn(g, Elems(s), t) && t <= Elems(Chunks(g, other)[0])
  {
    hide Chunks, Absorb, Sum, Concat, Lower, SumTo;
    var blocks, b := Chunks(g, s), Chunks(g, other)[0];
    ChunksIsChunking(g, s);
    ChunksIsChunking(g, other);
    ChunksTail(g, other);
    assert b[0] in Elems(b);
    PrefixClosed(g, other, |b|);
    var m :| 0 <= m <= |blocks| && IsIntersectionAt(g, blocks, Elems(b), t, m);
    ConcatBounds(blocks, m);
    var p := Concat(blocks[..m]);
    assert s[..|p|] == p;
    PrefixClosed(g, s, |p|);
  }

  /** The first chunk of the better remainder, intersected with the other: safe for both remainders. */
  lemma BestIntersectionSafe(g: Graph, s: seq<nat>, other: seq<nat>, t: set<nat>)
    requires Distinct(s) && Sized(g, s) && Topo(g, s) && s != []
    requires Distinct(other) && Sized(g, other) && Topo(g, other) && other != []
    requires Elems(s) == Elems(other) && Chunks(g, s) != [] && Chunks(g, other) != []
    requires !Higher(Sum(g, Chunks(g, s)[0]), Sum(g, Chunks(g, other)[0]))
    requires IsIntersection(g, Chunks(g, s), Elems(Chunks(g, other)[0]), t)
    ensures t != {} && ClosedIn(g, Elems(s), t)
    ensures SafeToMove(g, Chunks(g, s), t) && SafeToMove(g, Chunks(g, other), t)
  {
    hide Chunks, Absorb, Sum, Concat, Cross, Higher, Lower, SumTo, SafeToMove, IsIntersection;
    var b := Chunks(g, other)[0];
    IntersectionClosed(g, s, other, t);
    OwnChunkSafe(g, other, t);
    ChunksTail(g, other);
    assert Elems(b) <= Elems(other);
    assert b[0] in Elems(b);
    SumElems(g, b);
    CrossSign(Sum(g, Chunks(g, s)[0]), Sum(g, b));
    CrossSign(Sum(g, b), Sum(g, Chunks(g, s)[0]));
    IntersectionSafe(g, s, Elems(b), t);
  }

  /** The set to output next: the best remaining first chunk, intersected with prefixes of the other's chunks. */
  method PickBest(chunking1: LinearizationChunking, chunking2: LinearizationChunking) returns (best: SetInfo)
    requires chunking1.Valid() && chunking2.Valid() && chunking1.g == chunking2.g
    requires Topo(chunking1.g, chunking1.original) && Topo(chunking2.g, chunking2.original)
    requires chunking1.todo == chunking2.todo && chunking1.todo != {}
    ensures best.transactions != {} && best.transactions <= chunking1.todo
    ensures ClosedIn(chunking1.g, chunking1.todo, best.transactions)
    ensures SafeToMove(chunking1.g, Chunks(chunking1.g, chunking1.Remaining()), best.transactions)
    ensures SafeToMove(chunking2.g, Chunks(chunking2.g, chunking2.Remaining()), best.transactions)
  {
    hide Chunks, Absorb, Sum, Concat, Cross, Higher, Restrict, SumTo, SafeToMove, IsIntersection;
    ghost var g, todo := chunking1.g, chunking1.todo;
    ghost var s1, s2 := chunking1.Remaining(), chunking2.Remaining();
    Remainder(g, chunking1.original, todo);
    Remainder(g, chunking2.original, todo);
    var first1, first2 := chunking1.GetChunk(0), chunking2.GetChunk(0);
    FirstChunkInfo(g, s1);
    FirstChunkInfo(g, s2);
    CrossSign(first1.feerate, first2.feerate);
    CrossSign(first2.feerate, first1.feerate);
    if Higher(first2.feerate, first1.feerate) {
      best := chunking1.IntersectPrefixes(first2);
      BestIntersectionSafe(g, s1, s2, best.transactions);
    } else {
      best := chunking2.IntersectPrefixes(first1);
      BestIntersectionSafe(g, s2, s1, best.transactions);
    }
  }

  /** The output so far, followed by what remains of the ordering, is topologically valid and as good as the ordering. */
  ghost predicate Improves(g: Graph, lin: seq<nat>, out: seq<nat>, todo: set<nat>) {
    Dominates(g, out + Restrict(lin, todo), lin)
  }

  lemma ImprovesStart(g: Graph, lin: seq<nat>)
    ensures Improves(g, lin, [], Elems(lin))
  {
    RestrictAll(lin, Elems(lin));
    DominatesReflexive(g, lin);
    assert [] + lin == lin;
  }

  lemma ImprovesEnd(g: Graph, lin: seq<nat>, out: seq<nat>)
    requires Valid(g) && IsLinearization(g, lin) && IsLinearization(g, out) && Improves(g, lin, out, {})
    ensures AtLeastAsGood(g, out, lin)
  {
    RestrictAll(lin, {});
    assert out + [] == out;
    LinearizationCompare(g, out, lin);
  }

  /** The result dominates either argument. */
  method MergeLinearizations(g: Graph, lin1: seq<nat>, lin2: seq<nat>) returns (ret: seq<nat>)
    requires Valid(g) && Acyclic(g) && IsLinearization(g, lin1) && IsLinearization(g, lin2)
    ensures IsLinearization(g, ret)
    ensures AtLeastAsGood(g, ret, lin1) && AtLeastAsGood(g, ret, lin2)
  {
    hide Chunks, Restrict, SafeToMove, AtLeastAsGood, Improves;
    hide Valid, Acyclic, Topo, Distinct, Sized, ClosedIn, Partial, Lists;
    LinearizationSized(g, lin1);
    LinearizationSized(g, lin2);
    var chunking1 := new LinearizationChunking(g, lin1);
    var chunking2 := new LinearizationChunking(g, lin2);
    ret := [];
    ImprovesStart(g, lin1);
    ImprovesStart(g, lin2);
    PartialStart(g);
    if |g.used| != 0 {
      while true
        invariant chunking1 != chunking2 && fresh(chunking1) && fresh(chunking2)
        invariant chunking1.Valid() && chunking1.g == g && chunking1.original == lin1
        invariant chunking2.Valid() && chunking2.g == g && chunking2.original == lin2
        invariant chunking1.todo != {} && chunking2.todo == chunking1.todo
        invariant Partial(g, ret, chunking1.todo)
        invariant Improves(g, lin1, ret, chunking1.todo)
        invariant Improves(g, lin2, ret, chunking1.todo)
        decreases |chunking1.todo|
      {
        ghost var todo := chunking1.todo;
        var best := PickBest(chunking1, chunking2);
        ghost var t;
        ghost var out := ret;
        ret, t := AppendTopo(g, ret, best.transactions);
        PartialStep(g, out, todo, best.transactions, t);
        DominatesStep(g, lin1, out, todo, best.transactions, t);
        DominatesStep(g, lin2, out, todo, best.transactions, t);
        chunking1.MarkDone(best.transactions);
        if chunking1.NumChunksLeft() == 0 {
          break;
        }
        chunking2.MarkDone(best.transactions);
      }
    }
    PartialEnd(g, ret);
    ImprovesEnd(g, lin1, ret);
    ImprovesEnd(g, lin2, ret);
  }

  lemma Remainder(g: Graph, lin: seq<nat>, todo: set<nat>)
    requires Distinct(lin) && Sized(g, lin) && Topo(g, lin) && todo <= Elems(lin) && todo != {}
    ensures var s := Restrict(lin, todo);
            Distinct(s) && Sized(g, s) && Topo(g, s) && Elems(s) == todo && s != [] && Chunks(g, s) != []
  {
    hide Chunks, Restrict;
    RestrictKeeps(g, lin, todo);
    RestrictElems(lin, todo);
    var s := Restrict(lin, todo);
    assert Elems(s) == todo;
    assert s != [];
    ChunksTail(g, s);
  }

  lemma FirstChunkInfo(g: Graph, s: seq<nat>)
    requires Distinct(s) && Sized(g, s) && s != [] && Chunks(g, s) != []
    ensures var b := Chunks(g, s)[0];
            b != [] && Elems(b) != {} && Elems(b) <= Elems(s) && Sum(g, b) == FeeRate(g, Elems(b)) && Sum(g, b).size > 0
  {
    hide Chunks, Sum, Absorb, Concat;
    ChunksIsChunking(g, s);
    ChunksTail(g, s);
    var b := Chunks(g, s)[0];
    assert b[0] in Elems(b);
    SumElems(g, b);
    SumSize(g, b);
  }
}
