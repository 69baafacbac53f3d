/** Finding or improving a linearization for a cluster (src/cluster_linearize.h:1024-1118). */
module Linearizing {
  import opened Integers
  import opened FeeRates
  import opened Graphs
  import opened Diagrams
  import opened Compare
  import opened Chunkings
  import opened Improvement
  import opened Merging
  import opened AncestorFinding
  import opened Searching
  import opened Finding

  // ---------- optimality of the output ----------

  /**
    Above every line, a topologically valid set is matched by a point of the output, or by
    the whole output joined with the set.
  */
  ghost predicate Matched(g: Graph, out: seq<nat>, c: set<nat>, slope: FeeFrac) {
    || Reaches(g, out, slope, Cross(FeeRate(g, c), slope))
    || Cross(FeeRate(g, Elems(out) + c), slope) >= Cross(FeeRate(g, c), slope)
  }

  ghost predicate OptimalSoFar(g: Graph, out: seq<nat>) {
    forall c, slope: FeeFrac :: ClosedIn(g, g.used, c) && slope.size > 0 ==> Matched(g, out, c, slope)
  }

  lemma OptimalStart(g: Graph)
    ensures OptimalSoFar(g, [])
  {
    hide Cross, FeeRate;
    forall c, slope: FeeFrac | ClosedIn(g, g.used, c) && slope.size > 0
      ensures Matched(g, [], c, slope)
    {
      assert Elems([]) + c == c;
    }
  }

  /** Appending a highest-feerate candidate keeps the output optimal so far. */
  lemma OptimalAppend(g: Graph, out: seq<nat>, todo: set<nat>, moved: set<nat>, t: seq<nat>)
    requires Valid(g) && Partial(g, out, todo) && OptimalSoFar(g, out)
    requires Candidate(g, todo, moved) && Optimal(g, todo, moved) && Lists(t, moved)
    ensures OptimalSoFar(g, out + t)
  {
    hide Cross, FeeRate, Matched, Optimal, Valid;
    forall c, slope: FeeFrac | ClosedIn(g, g.used, c) && slope.size > 0
      ensures Matched(g, out + t, c, slope)
    {
      assert Matched(g, out, c, slope);
      MatchedAppend(g, out, todo, moved, t, c, slope);
    }
  }

  lemma MatchedAppend(g: Graph, out: seq<nat>, todo: set<nat>, moved: set<nat>, t: seq<nat>, c: set<nat>, slope: FeeFrac)
    requires Valid(g) && Partial(g, out, todo) && Matched(g, out, c, slope)
    requires Candidate(g, todo, moved) && Optimal(g, todo, moved) && Lists(t, moved)
    requires ClosedIn(g, g.used, c) && slope.size > 0
    ensures Matched(g, out + t, c, slope)
  {
    hide Cross, FeeRate, Reaches, Optimal;
    var h := Cross(FeeRate(g, c), slope);
    if Reaches(g, out, slope, h) {
      ReachesPrefix(g, out, t, slope, h);
    } else {
      var done, d := Elems(out), c - Elems(out);
      assert Elems(out + t) == done + moved;
      assert done + c == done + d;
      assert ClosedIn(g, todo, d);
      SizedTodo(g, todo);
      OptimalStep(g, todo, moved, d, slope);
      FeeRateUnion(g, done, d);
      CrossPlus(FeeRate(g, done), FeeRate(g, d), slope);
      if Cross(FeeRate(g, d), slope) <= 0 {
        TotalReaches(g, out, slope);
        ReachesLower(g, out, slope, Cross(FeeRate(g, done), slope), h);
        ReachesPrefix(g, out, t, slope, h);
      } else {
        var e := moved - d;
        assert done + moved + c == (done + d) + e;
        FeeRateUnion(g, done + d, e);
        CrossPlus(FeeRate(g, done + d), FeeRate(g, e), slope);
      }
    }
  }

  lemma TotalReaches(g: Graph, out: seq<nat>, slope: FeeFrac)
    requires Distinct(out)
    ensures Reaches(g, out, slope, Cross(FeeRate(g, Elems(out)), slope))
  {
    SumElems(g, out);
    assert out[..|out|] == out;
    assert Cross(Point(g, out, |out|), slope) >= Cross(FeeRate(g, Elems(out)), slope);
  }

  lemma ReachesLower(g: Graph, out: seq<nat>, slope: FeeFrac, h: int, h': int)
    requires Reaches(g, out, slope, h) && h' <= h
    ensures Reaches(g, out, slope, h')
  {
  }

  /** A complete output that is optimal so far has a diagram nowhere below that of any linearization. */
  lemma OptimalEnd(g: Graph, out: seq<nat>, other: seq<nat>)
    requires Valid(g) && IsLinearization(g, out) && IsLinearization(g, other) && OptimalSoFar(g, out)
    ensures AtLeastAsGood(g, out, other)
  {
    hide Cross, FeeRate, Reaches, AtLeastAsGood;
    forall slope: FeeFrac, k | slope.size > 0 && 0 <= k <= |other|
      ensures Reaches(g, out, slope, Cross(Point(g, other, k), slope))
    {
      var c := Elems(other[..k]);
      PrefixClosed(g, other, k);
      SumElems(g, other[..k]);
      assert Matched(g, out, c, slope);
      assert Elems(out) + c == Elems(out);
      TotalReaches(g, out, slope);
      if !Reaches(g, out, slope, Cross(FeeRate(g, c), slope)) {
        ReachesLower(g, out, slope, Cross(FeeRate(g, Elems(out)), slope), Cross(FeeRate(g, c), slope));
      }
    }
    LinearizationCompare(g, out, other);
  }

  // ---------- one step ----------

  /** The old linearization is absent, or its chunking tracks exactly what remains. */
  ghost predicate Tracks(g: Graph, chunking: LinearizationChunking, old_: seq<nat>, todo: set<nat>)
    reads chunking
  {
    && chunking.Valid() && chunking.g == g && chunking.original == old_
    && (if old_ == [] then chunking.todo == {} else IsLinearization(g, old_) && chunking.todo == todo)
  }

  /** What may be output next without making the remaining old linearization worse. */
  ghost predicate SafeNext(g: Graph, old_: seq<nat>, todo: set<nat>, s: set<nat>) {
    && Candidate(g, todo, s)
    && (old_ != [] ==> SafeToMove(g, Chunks(g, Restrict(old_, todo)), s))
  }

  lemma NotWorseTransitive(a: FeeFrac, b: FeeFrac, c: FeeFrac)
    requires a.size > 0 && b.size > 0 && c.size > 0 && !Better(a, b) && !Better(b, c)
    ensures !Higher(a, c) && Cross(c, a) >= 0
  {
    hide Cross, Higher, Better;
    NotBetterNotHigher(a, b);
    NotBetterNotHigher(b, c);
    NotHigherTransitive(a, b, c);
    CrossSign(a, c);
    CrossSign(c, a);
  }

  /** Where the search starts: a closed set that the first chunk left of the old order does not beat. */
  method InitialBest(g: Graph, finder: AncestorCandidateFinder, chunking: LinearizationChunking, ghost old_: seq<nat>) returns (best: SetInfo)
    requires finder.Valid() && finder.g == g && !finder.AllDone() && Tracks(g, chunking, old_, finder.todo)
    ensures Candidate(g, finder.todo, best.transactions) && Accurate(g, best)
    ensures old_ != [] ==> Chunks(g, Restrict(old_, finder.todo)) != []
    ensures old_ != [] ==> !Better(Sum(g, Chunks(g, Restrict(old_, finder.todo))[0]), best.feerate)
    ensures forall i :: i in finder.todo ==> !Better(FeeRate(g, AncestorSet(g, finder.todo, i)), best.feerate)
  {
    hide FeeRate, Better, Chunks, Restrict, Sum, Graphs.Valid;
    best := finder.FindCandidateSet();
    if chunking.NumChunksLeft() != 0 {
      var prefix := chunking.GetChunk(0);
      LinearizationSized(g, old_);
      Remainder(g, old_, finder.todo);
      var s := Restrict(old_, finder.todo);
      FirstChunkInfo(g, s);
      ChunksTail(g, s);
      PrefixClosed(g, s, |Chunks(g, s)[0]|);
      NotBetterSelf(prefix.feerate);
      if prefix.feerate.size != 0 && !Better(best.feerate, prefix.feerate) {
        FeeRateSize(g, best.transactions);
        FeeRateSize(g, prefix.transactions);
        StillBest(g, finder.todo, best.feerate, prefix.feerate);
        best := prefix;
      } else {
        BetterAsymmetric(best.feerate, prefix.feerate);
      }
    }
  }

  lemma StillBest(g: Graph, todo: set<nat>, a: FeeFrac, b: FeeFrac)
    requires Valid(g) && todo <= g.used && a.size > 0 && b.size > 0 && !Better(a, b)
    requires forall i :: i in todo ==> !Better(FeeRate(g, AncestorSet(g, todo, i)), a)
    ensures forall i :: i in todo ==> !Better(FeeRate(g, AncestorSet(g, todo, i)), b)
  {
    hide FeeRate, Better, Graphs.Valid;
    forall i | i in todo
      ensures !Better(FeeRate(g, AncestorSet(g, todo, i)), b)
    {
      var c := FeeRate(g, AncestorSet(g, todo, i));
      AncestorSetClosed(g, todo, i);
      NotBetterTransitive(c, a, b);
    }
  }

  lemma NotBetterTransitive(a: FeeFrac, b: FeeFrac, c: FeeFrac)
    requires a.size > 0 && b.size > 0 && c.size > 0 && !Better(a, b) && !Better(b, c)
    ensures !Better(a, c)
  {
    hide Cross, Better, Higher;
    BetterCross(a, b);
    BetterCross(b, c);
    BetterCross(a, c);
    CrossSign(a, b);
    CrossSign(b, c);
    CrossSign(a, c);
    CrossTransitive(c, b, a);
  }

  lemma BetterAsymmetric(a: FeeFrac, b: FeeFrac)
    ensures Better(a, b) ==> !Better(b, a)
  {
    BetterCross(a, b);
    BetterCross(b, a);
    CrossSign(a, b);
  }

  /** Intersect the set with prefixes of the old linearization when it is not known to be optimal. */
  method SafeChoice(g: Graph, chunking: LinearizationChunking, ghost old_: seq<nat>, ghost todo: set<nat>, best: SetInfo, known: bool) returns (r: SetInfo)
    requires Valid(g) && Tracks(g, chunking, old_, todo) && todo <= g.used && todo != {}
    requires Candidate(g, todo, best.transactions) && Accurate(g, best)
    requires known ==> Optimal(g, todo, best.transactions)
    requires old_ != [] ==> Chunks(g, Restrict(old_, todo)) != [] && Cross(best.feerate, Sum(g, Chunks(g, Restrict(old_, todo))[0])) >= 0
    ensures SafeNext(g, old_, todo, r.transactions)
    ensures known ==> r == best
  {
    hide FeeRate, Cross, Chunks, Restrict, Sum, Optimal, SafeToMove, Graphs.Valid, IsIntersection;
    r := best;
    if old_ != [] {
      LinearizationSized(g, old_);
      Remainder(g, old_, todo);
    }
    if !known {
      if chunking.NumChunksLeft() > 0 {
        r := chunking.IntersectPrefixes(best);
        IntersectionSafe(g, chunking.Remaining(), best.transactions, r.transactions);
        SubsetIntersectionClosed(g, chunking.Remaining(), best.transactions, r.transactions);
      }
    } else if old_ != [] {
      OptimalSafe(g, chunking.Remaining(), best.transactions);
    }
  }

  /** Intersections of a candidate with chunk prefixes are candidates. */
  lemma SubsetIntersectionClosed(g: Graph, s: seq<nat>, subset: set<nat>, t: set<nat>)
    requires Sized(g, s) && Topo(g, s) && Candidate(g, Elems(s), subset) && IsIntersection(g, Chunks(g, s), subset, t)
    ensures Candidate(g, Elems(s), t)
  {
    hide Chunks, Absorb, Sum, Concat, Lower, FeeRate;
    ChunksIsChunking(g, s);
    var blocks := Chunks(g, s);
    var m :| 0 <= m <= |blocks| && IsIntersectionAt(g, blocks, subset, t, m);
    ConcatBounds(blocks, m);
    var p := Concat(blocks[..m]);
    assert s[..|p|] == p;
    PrefixClosed(g, s, |p|);
  }

  /** As many iterations as always suffice to linearize n transactions optimally, once the search is set up. */
  ghost function Enough(n: nat): nat {
    Pow2(n + 1) + n * n
  }

  lemma {:induction false} EnoughMonotone(m: nat, n: nat)
    requires m <= n
    ensures Enough(m) <= Enough(n)
  {
    hide Pow2;
    Pow2Monotone(m + 1, n + 1);
    MulMono(m, n, m);
    MulMono(m, n, n);
  }

  /** Half of what is left after the fixed cost suffices for one search, and what that leaves for the others. */
  lemma EnoughForOne(n: nat, iterations: nat, base: nat, used: nat)
    requires n > 0 && iterations >= Enough(n) && base == (n + 3) / 4 && used < Pow2(n)
    ensures iterations > base && (iterations - base + 1) / 2 >= Pow2(n) && iterations - base - used >= Enough(n - 1)
  {
    hide Pow2;
    Pow2Next(n);
    assert n * n == (n - 1) * (n - 1) + 2 * n - 1;
    assert base <= n;
  }

  /** The set to output next, whether it is known to be optimal, and the iterations left. */
  method FindNext(g: Graph, ancFinder: AncestorCandidateFinder, srcFinder: SearchCandidateFinder?, oldChunking: LinearizationChunking,
                  ghost old_: seq<nat>, iterations: nat) returns (best: SetInfo, known: bool, iterationsLeft: nat)
    requires ancFinder.Valid() && ancFinder.g == g && ancFinder.todo != {}
    requires srcFinder != null ==> srcFinder.Valid() && srcFinder.g == g && srcFinder.remaining == ancFinder.todo
    requires Tracks(g, oldChunking, old_, ancFinder.todo)
    ensures SafeNext(g, old_, ancFinder.todo, best.transactions) && iterationsLeft <= iterations
    ensures known ==> Optimal(g, ancFinder.todo, best.transactions)
    ensures srcFinder == null || 4 * iterations <= |ancFinder.todo| + 3 ==> !known && iterationsLeft == iterations
    ensures srcFinder != null && 4 * iterations > |ancFinder.todo| + 3 ==>
              4 * (iterations - iterationsLeft) >= |ancFinder.todo| && 2 * iterationsLeft + 1 >= iterations - (|ancFinder.todo| + 3) / 4
    ensures srcFinder != null && iterations >= Enough(|ancFinder.todo|) ==> known && iterationsLeft >= Enough(|ancFinder.todo| - 1)
  {
    hide Pow2, Enough;
    hide Chunks, Restrict, SafeToMove, Optimal, FeeRate, Sum, Cross, Better, Graphs.Valid, ClosedIn, SafeNext;
    ghost var todo := ancFinder.todo;
    iterationsLeft := iterations;
    best := InitialBest(g, ancFinder, oldChunking, old_);
    ghost var initial := best;
    NotBetterSelf(initial.feerate);
    var iterationsDoneNow, maxIterationsNow := 0, 0;
    if srcFinder != null {
      var baseIterations := (ancFinder.NumRemaining() + 3) / 4;
      if iterationsLeft > baseIterations {
        iterationsLeft := iterationsLeft - baseIterations;
        maxIterationsNow := (iterationsLeft + 1) / 2;
        NotAllDone(g, srcFinder.sorted, srcFinder.originalToSorted, todo);
        best, iterationsDoneNow := srcFinder.FindCandidateSet(maxIterationsNow, best);
        iterationsLeft := iterationsLeft - iterationsDoneNow;
      }
      if iterations >= Enough(|todo|) {
        EnoughForOne(|todo|, iterations, baseIterations, iterationsDoneNow);
      }
    }
    StillAbove(g, old_, todo, initial, best);
    known := iterationsDoneNow != maxIterationsNow;
    best := SafeChoice(g, oldChunking, old_, todo, best, known);
  }

  /** After placing `s`, all three keep track of the same remaining transactions. */
  method MarkDone(g: Graph, ancFinder: AncestorCandidateFinder, srcFinder: SearchCandidateFinder?, oldChunking: LinearizationChunking,
                  ghost old_: seq<nat>, s: set<nat>) returns (allDone: bool)
    requires ancFinder.Valid() && ancFinder.g == g && s != {} && s <= ancFinder.todo
    requires srcFinder != null ==> srcFinder.Valid() && srcFinder.g == g && srcFinder.remaining == ancFinder.todo
    requires Tracks(g, oldChunking, old_, ancFinder.todo)
    modifies ancFinder, srcFinder, oldChunking
    ensures ancFinder.Valid() && ancFinder.todo == old(ancFinder.todo) - s
    ensures allDone <==> ancFinder.todo == {}
    ensures !allDone && srcFinder != null ==> srcFinder.Valid() && srcFinder.remaining == ancFinder.todo
    ensures !allDone ==> Tracks(g, oldChunking, old_, ancFinder.todo)
  {
    hide Graphs.Valid, Chunks, Restrict, FeeRate, IsLinearization;
    ghost var todo := ancFinder.todo;
    ancFinder.MarkDone(s);
    allDone := ancFinder.AllDone();
    if !allDone {
      if srcFinder != null {
        srcFinder.MarkDone(s);
      }
      if oldChunking.NumChunksLeft() > 0 {
        oldChunking.MarkDone(s);
      }
    }
  }

  /** What the output keeps: it starts a linearization, is not worse than the old one, and is optimal so far if so flagged. */
  ghost predicate Progress(g: Graph, old_: seq<nat>, out: seq<nat>, todo: set<nat>, optimal: bool) {
    && Partial(g, out, todo)
    && (old_ != [] ==> Improves(g, old_, out, todo))
    && (optimal ==> OptimalSoFar(g, out))
  }

  lemma ProgressStart(g: Graph, old_: seq<nat>)
    requires old_ == [] || IsLinearization(g, old_)
    ensures Progress(g, old_, [], g.used, true)
  {
    hide Improves, OptimalSoFar;
    PartialStart(g);
    OptimalStart(g);
    ImprovesStart(g, old_);
  }

  lemma ProgressStep(g: Graph, old_: seq<nat>, out: seq<nat>, todo: set<nat>, optimal: bool, s: set<nat>, t: seq<nat>, known: bool)
    requires Valid(g) && (old_ == [] || IsLinearization(g, old_)) && todo <= g.used
    requires Progress(g, old_, out, todo, optimal) && SafeNext(g, old_, todo, s) && Lists(t, s) && Topo(g, t)
    requires known ==> Optimal(g, todo, s)
    ensures Progress(g, old_, out + t, todo - s, optimal && known) && |todo - s| < |todo|
  {
    hide Chunks, Restrict, SafeToMove, Improves, OptimalSoFar, Optimal, Valid, Topo, Lists, Partial, ClosedIn;
    NextFacts(g, old_, todo, s);
    PartialStep(g, out, todo, s, t);
    if old_ != [] {
      DominatesStep(g, old_, out, todo, s, t);
    }
    if optimal && known {
      OptimalAppend(g, out, todo, s, t);
    }
  }

  lemma ProgressEnd(g: Graph, old_: seq<nat>, out: seq<nat>, optimal: bool)
    requires Valid(g) && (old_ == [] || IsLinearization(g, old_)) && Progress(g, old_, out, {}, optimal)
    ensures IsLinearization(g, out)
    ensures old_ != [] ==> AtLeastAsGood(g, out, old_)
    ensures optimal ==> forall other :: IsLinearization(g, other) ==> AtLeastAsGood(g, out, other)
  {
    hide Improves, OptimalSoFar, IsLinearization, AtLeastAsGood;
    PartialEnd(g, out);
    if old_ != [] {
      ImprovesEnd(g, old_, out);
    }
    if optimal {
      forall other | IsLinearization(g, other)
        ensures AtLeastAsGood(g, out, other)
      {
        OptimalEnd(g, out, other);
      }
    }
  }

  /** The state between two outputs: all finders agree on what remains, and the output is as Progress says. */
  ghost predicate Running(g: Graph, ancFinder: AncestorCandidateFinder, srcFinder: SearchCandidateFinder?, oldChunking: LinearizationChunking,
                          old_: seq<nat>, out: seq<nat>, optimal: bool)
    reads ancFinder, srcFinder, oldChunking
  {
    && ancFinder.Valid() && ancFinder.g == g
    && (ancFinder.todo != {} ==> Tracks(g, oldChunking, old_, ancFinder.todo))
    && (ancFinder.todo != {} && srcFinder != null ==> srcFinder.Valid() && srcFinder.g == g && srcFinder.remaining == ancFinder.todo)
    && Progress(g, old_, out, ancFinder.todo, optimal)
  }

  /** Finds one more set and appends it to the output. With enough iterations it is known to be optimal, and enough are left. */
  method OutputNext(g: Graph, ancFinder: AncestorCandidateFinder, srcFinder: SearchCandidateFinder?, oldChunking: LinearizationChunking,
                    ghost old_: seq<nat>, out: seq<nat>, optimal: bool, iterations: nat)
    returns (out': seq<nat>, optimal': bool, iterationsLeft: nat, allDone: bool)
    requires Valid(g) && Acyclic(g) && (old_ == [] || IsLinearization(g, old_))
    requires Running(g, ancFinder, srcFinder, oldChunking, old_, out, optimal) && ancFinder.todo != {}
    modifies ancFinder, srcFinder, oldChunking
    ensures Running(g, ancFinder, srcFinder, oldChunking, old_, out', optimal') && iterationsLeft <= iterations
    ensures (allDone <==> ancFinder.todo == {}) && |ancFinder.todo| < |old(ancFinder.todo)|
    ensures srcFinder == null ==> !optimal' && iterationsLeft == iterations
    ensures srcFinder != null && iterations >= Enough(|old(ancFinder.todo)|) ==> optimal' == optimal && iterationsLeft >= Enough(|ancFinder.todo|)
  {
    hide Pow2, Enough, Valid, Acyclic, IsLinearization, Progress, SafeNext, Optimal, Topo, Lists, Chunks, Restrict;
    hide Tracks, SearchCandidateFinder.Valid, SortedTopo;
    ghost var todo := ancFinder.todo;
    var best, known;
    best, known, iterationsLeft := FindNext(g, ancFinder, srcFinder, oldChunking, old_, iterations);
    NextFacts(g, old_, todo, best.transactions);
    ghost var t;
    out', t := AppendTopo(g, out, best.transactions);
    ProgressStep(g, old_, out, todo, optimal, best.transactions, t, known);
    optimal' := optimal && known;
    allDone := MarkDone(g, ancFinder, srcFinder, oldChunking, old_, best.transactions);
    EnoughMonotone(|ancFinder.todo|, |todo| - 1);
  }

  /**
    A topological order that dominates the old one; an optimal one if the search never ran out
    of iterations, which it does not if there are enough for the number of transactions. With
    too few to set up the search, none are used.
  */
  method Linearize(g: Graph, maxIterations: nat, oldLinearization: seq<nat>) returns (linearization: seq<nat>, optimal: bool, iterations: nat)
    requires Valid(g) && Acyclic(g) && (oldLinearization == [] || IsLinearization(g, oldLinearization))
    ensures IsLinearization(g, linearization) && iterations <= maxIterations
    ensures oldLinearization != [] ==> AtLeastAsGood(g, linearization, oldLinearization)
    ensures optimal ==> forall other :: IsLinearization(g, other) ==> AtLeastAsGood(g, linearization, other)
    ensures maxIterations >= Pow2(|g.used| + 1) + 2 * |g.used| * |g.used| ==> optimal
    ensures if 64 * maxIterations <= |g.used| * |g.used| + 63 && g.used != {} then iterations == 0 && !optimal else 64 * iterations >= |g.used| * |g.used|
  {
    hide Pow2, Enough, Valid, Acyclic, IsLinearization, AtLeastAsGood, Progress, Chunks, Restrict;
    linearization, optimal := [], true;
    var iterationsLeft: nat := maxIterations;
    ProgressStart(g, oldLinearization);
    if |g.used| != 0 {
      var ancFinder := new AncestorCandidateFinder(g);
      var srcFinder: SearchCandidateFinder? := null;
      var startIterations := (|g.used| * |g.used| + 63) / 64;
      if iterationsLeft > startIterations {
        iterationsLeft := iterationsLeft - startIterations;
        srcFinder := new SearchCandidateFinder(g);
      }
      ghost var plenty := maxIterations >= Pow2(|g.used| + 1) + 2 * |g.used| * |g.used|;
      if plenty {
        EnoughToStart(|g.used|, maxIterations);
      }
      OldSized(g, oldLinearization);
      var oldChunking := new LinearizationChunking(g, oldLinearization);
      assert Running(g, ancFinder, srcFinder, oldChunking, oldLinearization, linearization, optimal);
      hide Running;
      var allDone := false;
      while !allDone
        invariant fresh(ancFinder) && fresh(oldChunking) && (srcFinder != null ==> fresh(srcFinder))
        invariant Running(g, ancFinder, srcFinder, oldChunking, oldLinearization, linearization, optimal)
        invariant (allDone <==> ancFinder.todo == {}) && iterationsLeft <= maxIterations
        invariant if srcFinder == null then iterationsLeft == maxIterations && (allDone ==> !optimal) else iterationsLeft <= maxIterations - startIterations
        invariant plenty ==> optimal && srcFinder != null && iterationsLeft >= Enough(|ancFinder.todo|)
        decreases |ancFinder.todo|
      {
        linearization, optimal, iterationsLeft, allDone :=
          OutputNext(g, ancFinder, srcFinder, oldChunking, oldLinearization, linearization, optimal, iterationsLeft);
      }
      RunningProgress(g, ancFinder, srcFinder, oldChunking, oldLinearization, linearization, optimal);
    }
    ProgressEnd(g, oldLinearization, linearization, optimal);
    iterations := maxIterations - iterationsLeft;
  }

  lemma RunningProgress(g: Graph, ancFinder: AncestorCandidateFinder, srcFinder: SearchCandidateFinder?, oldChunking: LinearizationChunking,
                        old_: seq<nat>, out: seq<nat>, optimal: bool)
    requires Running(g, ancFinder, srcFinder, oldChunking, old_, out, optimal)
    ensures Progress(g, old_, out, ancFinder.todo, optimal)
  {
    hide Progress;
  }

  lemma EnoughToStart(n: nat, iterations: nat)
    requires n > 0 && iterations >= Pow2(n + 1) + 2 * n * n
    ensures iterations > (n * n + 63) / 64 && iterations - (n * n + 63) / 64 >= Enough(n)
  {
    hide Pow2;
    MulMono(1, n, n);
    assert 2 * n * n == n * n + n * n;
  }

  lemma OldSized(g: Graph, old_: seq<nat>)
    requires Valid(g) && (old_ == [] || IsLinearization(g, old_))
    ensures Sized(g, old_) && Distinct(old_)
    ensures old_ == [] ==> Elems(old_) == {}
    ensures old_ != [] ==> Elems(old_) == g.used
  {
    if old_ != [] {
      LinearizationSized(g, old_);
    }
  }

  lemma NotAllDone(g: Graph, g': Graph, m: seq<nat>, remaining: set<nat>)
    requires DepGraphs.Relabelled(g, g', m) && remaining <= g.used && remaining != {}
    ensures DepGraphs.Image(m, remaining) != {}
  {
    ImageFacts(g, g', m, remaining, remaining);
  }

  /** The set found by the search is still not below the first chunk of the remaining old linearization. */
  lemma StillAbove(g: Graph, old_: seq<nat>, todo: set<nat>, initial: SetInfo, best: SetInfo)
    requires Valid(g) && todo <= g.used && todo != {} && (old_ == [] || IsLinearization(g, old_))
    requires Candidate(g, todo, initial.transactions) && Accurate(g, initial)
    requires Candidate(g, todo, best.transactions) && Accurate(g, best)
    requires !Better(initial.feerate, best.feerate)
    requires old_ != [] ==> Chunks(g, Restrict(old_, todo)) != []
    requires old_ != [] ==> !Better(Sum(g, Chunks(g, Restrict(old_, todo))[0]), initial.feerate)
    ensures old_ != [] ==> Cross(best.feerate, Sum(g, Chunks(g, Restrict(old_, todo))[0])) >= 0
  {
    hide FeeRate, Cross, Better, Chunks, Restrict, Sum;
    if old_ != [] {
      LinearizationSized(g, old_);
      Remainder(g, old_, todo);
      var s := Restrict(old_, todo);
      FirstChunkInfo(g, s);
      CandidateSize(g, todo, initial.transactions);
      CandidateSize(g, todo, best.transactions);
      NotWorseTransitive(Sum(g, Chunks(g, s)[0]), initial.feerate, best.feerate);
    }
  }

  lemma NextFacts(g: Graph, old_: seq<nat>, todo: set<nat>, s: set<nat>)
    requires SafeNext(g, old_, todo, s) && todo <= g.used && (old_ == [] || IsLinearization(g, old_)) && Valid(g)
    ensures s != {} && s <= todo && s <= g.used && ClosedIn(g, todo, s) && Candidate(g, todo, s)
    ensures old_ != [] ==> SafeToMove(g, Chunks(g, Restrict(old_, todo)), s)
    ensures old_ != [] ==> Sized(g, old_) && Distinct(old_) && todo <= Elems(old_)
  {
    hide SafeToMove, Chunks, Restrict;
    if old_ != [] {
      LinearizationSized(g, old_);
    }
  }
}
