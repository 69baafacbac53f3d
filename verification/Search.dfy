/**
  Branch-and-bound search for the highest-feerate topologically valid subset
  (src/cluster_linearize.h, SearchCandidateFinder::FindCandidateSet), on a graph whose
  positions are in order of decreasing individual feerate.
*/
module Searching {
  import opened Integers
  import opened FeeRates
  import opened Graphs
  import opened Sets
  import opened Chunkings
  import opened Improvement
  import opened Components

  ghost predicate SortedByFeerate(g: Graph) {
    forall i, j :: i in g.used && j in g.used && i < j ==> !Higher(g.Fee(j), g.Fee(i))
  }

  /**
    inc: transactions definitely included; und: undecided ones; pot: an upper bound on the
    feerate of the sets this item can give rise to (empty when inc is empty).
  */
  datatype WorkItem = WorkItem(inc: SetInfo, und: set<nat>, pot: FeeFrac)

  /** `c` can still be reached from the sets included and undecided. */
  predicate Compatible(inc: set<nat>, und: set<nat>, c: set<nat>) {
    inc <= c <= inc + und
  }

  ghost predicate Candidate(g: Graph, todo: set<nat>, c: set<nat>) {
    ClosedIn(g, todo, c) && c != {}
  }

  /** A candidate, with a feerate not below c's, that a queued item can still reach. */
  ghost predicate Covers(g: Graph, todo: set<nat>, item: WorkItem, c: set<nat>, c': set<nat>) {
    && Candidate(g, todo, c') && Compatible(item.inc.transactions, item.und, c')
    && !Higher(FeeRate(g, c), FeeRate(g, c'))
  }

  ghost predicate Covered(g: Graph, todo: set<nat>, queue: seq<WorkItem>, c: set<nat>) {
    exists k, c' :: 0 <= k < |queue| && Covers(g, todo, queue[k], c, c')
  }

  // ---------- sums of one-sided sets ----------

  lemma {:induction false} SumOneSided(g: Graph, s: set<nat>, l: FeeFrac)
    ensures (forall x :: x in s ==> Cross(g.Fee(x), l) <= 0) ==> Cross(FeeRate(g, s), l) <= 0
    ensures (forall x :: x in s ==> Cross(g.Fee(x), l) >= 0) ==> Cross(FeeRate(g, s), l) >= 0
    decreases s
  {
    hide Cross, FeeRate;
    if s == {} {
      FeeRateSingleton(g, 0);
      CrossSign(l, l);
    } else {
      var x :| x in s;
      FeeRateSplit(g, s, {x});
      assert s * {x} == {x};
      FeeRateSingleton(g, x);
      SumOneSided(g, s - {x}, l);
      CrossPlus(g.Fee(x), FeeRate(g, s - {x}), l);
    }
  }

  /** Exchanging members moves a sum by the members removed and added. */
  lemma Exchange(g: Graph, inc: set<nat>, x: set<nat>, d: set<nat>, l: FeeFrac)
    requires inc <= d && inc !! x
    ensures Cross(FeeRate(g, d), l)
         == Cross(FeeRate(g, inc + x), l) - Cross(FeeRate(g, x - d), l) + Cross(FeeRate(g, d - inc - x), l)
  {
    hide Cross, FeeRate;
    var common := inc + (x * d);
    var p, q := x - d, d - inc - x;
    assert inc + x == common + p && common !! p;
    assert d == common + q && common !! q;
    FeeRateUnion(g, common, p);
    FeeRateUnion(g, common, q);
    CrossPlus(FeeRate(g, common), FeeRate(g, p), l);
    CrossPlus(FeeRate(g, common), FeeRate(g, q), l);
  }

  // ---------- the potential of a work item ----------

  /** What the loop computing pot guarantees about the undecided transactions it added (x) and skipped. */
  ghost predicate PotOk(g: Graph, imp: set<nat>, inc: set<nat>, und: set<nat>, x: set<nat>) {
    && x <= imp * und
    && (forall i :: i in x ==> Higher(g.Fee(i), FeeRate(g, inc + x)))
    && (forall i :: i in imp * und - x ==> !Higher(g.Fee(i), FeeRate(g, inc + x)))
  }

  ghost predicate Improving(g: Graph, todo: set<nat>, best: FeeFrac, imp: set<nat>) {
    imp == set i | i in todo && Higher(g.Fee(i), best)
  }

  /** A compatible set that beats best does not beat pot, even though pot ignores transactions below best. */
  lemma PotBounds(g: Graph, todo: set<nat>, best: FeeFrac, imp: set<nat>, inc: set<nat>, und: set<nat>, x: set<nat>, d: set<nat>)
    requires SizedIn(g, todo) && best.size > 0 && Improving(g, todo, best, imp)
    requires inc != {} && inc <= todo && und <= todo && inc !! und
    requires PotOk(g, imp, inc, und, x) && Compatible(inc, und, d)
    requires Higher(FeeRate(g, d), best)
    ensures !Higher(FeeRate(g, d), FeeRate(g, inc + x))
  {
    hide Cross, Higher, FeeRate;
    var pot := FeeRate(g, inc + x);
    FeeRateSize(g, inc + x);
    if Higher(best, pot) {
      // Every improving transaction beats best, hence pot, and was added.
      forall i | i in d - inc - x
        ensures Cross(g.Fee(i), best) <= 0
      {
        CrossSign(g.Fee(i), best);
        CrossSign(g.Fee(i), pot);
        CrossSign(best, pot);
        if Higher(g.Fee(i), best) {
          CrossTransitive(g.Fee(i), best, pot);
        }
      }
      forall i | i in x - d
        ensures Cross(g.Fee(i), best) >= 0
      {
        CrossSign(g.Fee(i), best);
      }
      SumOneSided(g, d - inc - x, best);
      SumOneSided(g, x - d, best);
      Exchange(g, inc, x, d, best);
      CrossSign(FeeRate(g, d), best);
      CrossSign(pot, best);
      CrossSign(best, pot);
      assert false;
    } else {
      forall i | i in d - inc - x
        ensures Cross(g.Fee(i), pot) <= 0
      {
        CrossSign(g.Fee(i), best);
        CrossSign(g.Fee(i), pot);
        CrossSign(best, g.Fee(i));
        CrossSign(pot, best);
        CrossSign(best, pot);
        CrossSign(pot, g.Fee(i));
        if i !in imp {
          CrossTransitive(pot, best, g.Fee(i));
        }
      }
      forall i | i in x - d
        ensures Cross(g.Fee(i), pot) >= 0
      {
        CrossSign(g.Fee(i), pot);
      }
      SumOneSided(g, d - inc - x, pot);
      SumOneSided(g, x - d, pot);
      Exchange(g, inc, x, d, pot);
      CrossSign(pot, pot);
      CrossSign(FeeRate(g, d), pot);
    }
  }

  /** Joining a candidate with a topologically valid part of pot does not lower its feerate. */
  lemma JumpAhead(g: Graph, todo: set<nat>, best: FeeFrac, imp: set<nat>, inc: set<nat>, und: set<nat>, x: set<nat>, inc': set<nat>, c: set<nat>)
    requires SizedIn(g, todo) && best.size > 0 && Improving(g, todo, best, imp)
    requires inc != {} && inc <= todo && und <= todo && inc !! und
    requires PotOk(g, imp, inc, und, x)
    requires inc <= inc' <= inc + x && ClosedIn(g, todo, inc')
    requires Candidate(g, todo, c) && Compatible(inc, und, c) && Higher(FeeRate(g, c), best)
    ensures Candidate(g, todo, c + inc') && Compatible(inc', und - inc', c + inc')
    ensures !Higher(FeeRate(g, c), FeeRate(g, c + inc'))
  {
    hide Cross, Higher, FeeRate;
    var pot, C := FeeRate(g, inc + x), FeeRate(g, c);
    PotBounds(g, todo, best, imp, inc, und, x, c);
    FeeRateSize(g, inc + x);
    FeeRateSize(g, c);
    var more := inc' - c;
    forall i | i in more
      ensures Cross(g.Fee(i), C) >= 0
    {
      CrossSign(g.Fee(i), pot);
      CrossSign(C, pot);
      CrossSign(pot, C);
      CrossTransitive(g.Fee(i), pot, C);
    }
    SumOneSided(g, more, C);
    assert c + inc' == c + more;
    FeeRateUnion(g, c, more);
    CrossPlus(C, FeeRate(g, more), C);
    CrossSign(C, C);
    CrossSign(FeeRate(g, c + inc'), C);
    CrossSign(C, FeeRate(g, c + inc'));
  }

  // ---------- work items ----------

  /** What every queued item keeps, relative to the best set found so far. */
  ghost predicate ItemOk(g: Graph, todo: set<nat>, best: FeeFrac, item: WorkItem) {
    && ClosedIn(g, todo, item.inc.transactions) && Accurate(g, item.inc)
    && item.und <= todo && item.und != {} && item.inc.transactions !! item.und
    && ClosedIn(g, todo, item.inc.transactions + item.und)
    && (item.inc.transactions == {} <==> item.pot.size == 0)
    && (item.inc.transactions != {} ==> item.pot.size > 0 && !Higher(item.inc.feerate, best) && PotBoundsItem(g, best, item))
  }

  ghost predicate PotBoundsItem(g: Graph, best: FeeFrac, item: WorkItem) {
    forall d :: Compatible(item.inc.transactions, item.und, d) && Higher(FeeRate(g, d), best) ==> !Higher(FeeRate(g, d), item.pot)
  }

  /** A better best only weakens what items promise. */
  lemma ItemOkMonotone(g: Graph, todo: set<nat>, best: FeeFrac, best': FeeFrac, item: WorkItem)
    requires SizedIn(g, todo) && best.size > 0 && best'.size > 0 && !Higher(best, best')
    requires ItemOk(g, todo, best, item)
    ensures ItemOk(g, todo, best', item)
  {
    hide Cross, Higher, FeeRate;
    if item.inc.transactions != {} {
      FeeRateSize(g, item.inc.transactions);
      HigherThanBetter(item.inc.feerate, best, best');
      forall d | Compatible(item.inc.transactions, item.und, d) && Higher(FeeRate(g, d), best')
        ensures !Higher(FeeRate(g, d), item.pot)
      {
        FeeRateSize(g, d);
        HigherThanBetter(FeeRate(g, d), best, best');
      }
    }
  }

  /** What beats the better bound beats the worse one. */
  lemma HigherThanBetter(a: FeeFrac, best: FeeFrac, best': FeeFrac)
    requires a.size > 0 && best.size > 0 && best'.size > 0 && !Higher(best, best')
    ensures Higher(a, best') ==> Higher(a, best)
  {
    hide Cross, Higher;
    CrossSign(a, best');
    CrossSign(a, best);
    CrossSign(best, best');
    CrossSign(best', best);
    if Higher(a, best') {
      CrossTransitive(a, best', best);
    }
  }

  // ---------- coverage ----------

  lemma CoveredWeaken(g: Graph, todo: set<nat>, queue: seq<WorkItem>, c: set<nat>, c': set<nat>)
    requires SizedIn(g, todo) && Candidate(g, todo, c) && Candidate(g, todo, c')
    requires Covered(g, todo, queue, c') && !Higher(FeeRate(g, c), FeeRate(g, c'))
    ensures Covered(g, todo, queue, c)
  {
    hide Cross, Higher, FeeRate;
    var k, c'' :| 0 <= k < |queue| && Covers(g, todo, queue[k], c', c'');
    FeeRateSize(g, c);
    FeeRateSize(g, c');
    FeeRateSize(g, c'');
    NotHigherTransitive(FeeRate(g, c), FeeRate(g, c'), FeeRate(g, c''));
    assert Covers(g, todo, queue[k], c, c'');
  }

  lemma NotHigherTransitive(a: FeeFrac, b: FeeFrac, c: FeeFrac)
    requires a.size > 0 && b.size > 0 && c.size > 0 && !Higher(a, b) && !Higher(b, c)
    ensures !Higher(a, c)
  {
    hide Cross, Higher;
    CrossSign(a, b);
    CrossSign(b, a);
    CrossSign(b, c);
    CrossSign(c, b);
    CrossSign(a, c);
    CrossSign(c, a);
    CrossTransitive(c, b, a);
  }

  lemma CoveredExtend(g: Graph, todo: set<nat>, queue: seq<WorkItem>, queue': seq<WorkItem>, c: set<nat>)
    requires Covered(g, todo, queue, c) && queue <= queue'
    ensures Covered(g, todo, queue', c)
  {
    hide Covers;
    var k, c' :| 0 <= k < |queue| && Covers(g, todo, queue[k], c, c');
    assert queue'[k] == queue[k];
  }

  /** An item on the queue covers every candidate compatible with it. */
  lemma CoveredByItem(g: Graph, todo: set<nat>, queue: seq<WorkItem>, k: nat, c: set<nat>)
    requires k < |queue| && Candidate(g, todo, c)
    requires Compatible(queue[k].inc.transactions, queue[k].und, c)
    ensures Covered(g, todo, queue, c)
  {
    CrossSign(FeeRate(g, c), FeeRate(g, c));
    assert Covers(g, todo, queue[k], c, c);
  }

  /** Every candidate compatible with (inc, und) that beats best is covered by the queue. */
  ghost predicate CoversAll(g: Graph, todo: set<nat>, best: FeeFrac, queue: seq<WorkItem>, inc: set<nat>, und: set<nat>) {
    forall c :: Candidate(g, todo, c) && Compatible(inc, und, c) && Higher(FeeRate(g, c), best) ==> Covered(g, todo, queue, c)
  }

  /** A longer queue and a better best keep the coverage. */
  lemma CoversAllKept(g: Graph, todo: set<nat>, best: FeeFrac, best': FeeFrac, queue: seq<WorkItem>, queue': seq<WorkItem>, inc: set<nat>, und: set<nat>)
    requires SizedIn(g, todo) && best.size > 0 && best'.size > 0 && !Higher(best, best') && queue <= queue'
    requires CoversAll(g, todo, best, queue, inc, und)
    ensures CoversAll(g, todo, best', queue', inc, und)
  {
    hide Higher, FeeRate, Covered;
    forall c | Candidate(g, todo, c) && Compatible(inc, und, c) && Higher(FeeRate(g, c), best')
      ensures Covered(g, todo, queue', c)
    {
      FeeRateSize(g, c);
      HigherThanBetter(FeeRate(g, c), best, best');
      CoveredExtend(g, todo, queue, queue', c);
    }
  }

  ghost predicate BestKept(before: SetInfo, after: SetInfo) {
    after == before || Better(after.feerate, before.feerate)
  }

  lemma BestKeptSelf(best: SetInfo)
    ensures BestKept(best, best)
  {
  }

  lemma BestKeptOrder(before: SetInfo, after: SetInfo)
    requires BestKept(before, after)
    ensures !Higher(before.feerate, after.feerate)
  {
    BetterCross(after.feerate, before.feerate);
    CrossSign(after.feerate, before.feerate);
    CrossSign(before.feerate, after.feerate);
  }

  lemma BestKeptTransitive(a: SetInfo, b: SetInfo, c: SetInfo)
    requires a.feerate.size > 0 && b.feerate.size > 0 && c.feerate.size > 0
    requires BestKept(a, b) && BestKept(b, c)
    ensures BestKept(a, c)
  {
    hide Better;
    if a != b && b != c {
      BetterTransitive(c.feerate, b.feerate, a.feerate);
    }
  }

  // ---------- how long the search can take ----------

  /** How many splits an item can lead to: fewer than the sets of its undecided transactions. */
  ghost function ItemCost(item: WorkItem): nat {
    Pow2(|item.und|) - 1
  }

  ghost function Cost(queue: seq<WorkItem>): nat {
    if queue == [] then 0 else Cost(queue[..|queue| - 1]) + ItemCost(queue[|queue| - 1])
  }

  lemma NoCost()
    ensures Cost([]) == 0
  {
  }

  lemma CostAppend(queue: seq<WorkItem>, item: WorkItem)
    ensures Cost(queue + [item]) == Cost(queue) + ItemCost(item)
  {
    assert (queue + [item])[..|queue|] == queue;
  }

  lemma {:induction false} CostConcat(a: seq<WorkItem>, b: seq<WorkItem>)
    ensures Cost(a + b) == Cost(a) + Cost(b)
  {
    hide ItemCost;
    if b == [] {
      assert a + b == a;
    } else {
      var n := |b| - 1;
      CostConcat(a, b[..n]);
      CostAppend(a + b[..n], b[n]);
      assert a + b == (a + b[..n]) + [b[n]];
    }
  }

  lemma CostTakeOut(queue: seq<WorkItem>, n: nat)
    requires n < |queue|
    ensures Cost(queue) == Cost(queue[..n] + queue[n + 1..]) + ItemCost(queue[n])
  {
    hide ItemCost, Cost;
    assert queue == (queue[..n] + [queue[n]]) + queue[n + 1..];
    CostConcat(queue[..n] + [queue[n]], queue[n + 1..]);
    CostAppend(queue[..n], queue[n]);
    CostConcat(queue[..n], queue[n + 1..]);
  }

  lemma CostSwap(queue: seq<WorkItem>)
    requires |queue| > 1
    ensures Cost([queue[1], queue[0]] + queue[2..]) == Cost(queue)
  {
    hide ItemCost, Cost;
    CostTakeOut(queue, 0);
    var swapped := [queue[1], queue[0]] + queue[2..];
    CostTakeOut(swapped, 1);
    assert swapped[..1] + swapped[2..] == queue[..0] + queue[1..];
  }

  lemma SubsetSmaller(a: set<nat>, b: set<nat>)
    requires a <= b
    ensures |a| <= |b|
  {
    assert b == a + (b - a);
  }

  /** Nothing was queued, or one item with undecided transactions among the given ones. */
  ghost predicate Added(before: seq<WorkItem>, after: seq<WorkItem>, und: set<nat>) {
    after == before || (|after| == |before| + 1 && after[..|before|] == before && after[|before|].und <= und)
  }

  lemma AddedCost(before: seq<WorkItem>, after: seq<WorkItem>, und: set<nat>)
    requires Added(before, after, und)
    ensures Cost(after) <= Cost(before) + Pow2(|und|) - 1
  {
    hide Pow2;
    if after != before {
      var item := after[|before|];
      assert after == before + [item];
      CostAppend(before, item);
      SubsetSmaller(item.und, und);
      Pow2Monotone(|item.und|, |und|);
    }
  }

  /** Up to two items were added, each with fewer undecided transactions. */
  ghost predicate SplitUp(before: seq<WorkItem>, after: seq<WorkItem>, elem: WorkItem) {
    exists mid, a, b :: Added(before, mid, a) && Added(mid, after, b) && |a| < |elem.und| && |b| < |elem.und|
  }

  /** The halves of a split together allow at least one split less. */
  lemma SplitCost(g: Graph, todo: set<nat>, queue0: seq<WorkItem>, queue1: seq<WorkItem>, queue: seq<WorkItem>, elem: WorkItem, split: nat)
    requires Valid(g) && split in elem.und && elem.und <= todo <= g.used
    requires Added(queue0, queue1, elem.und - g.Desc(split)) && Added(queue1, queue, elem.und - g.Anc(split) * todo)
    ensures Cost(queue) + 1 <= Cost(queue0) + ItemCost(elem)
    ensures SplitUp(queue0, queue, elem)
  {
    var und, a, b := elem.und, elem.und - g.Desc(split), elem.und - g.Anc(split) * todo;
    assert split in g.Desc(split) && split in g.Anc(split);
    hide Added, Cost, Valid, SplitUp;
    AddedCost(queue0, queue1, a);
    AddedCost(queue1, queue, b);
    assert a <= und - {split} && b <= und - {split};
    hide Pow2;
    HalvesCost(und, a, b, split);
    WithoutOne(und, a, split);
    WithoutOne(und, b, split);
    SplitUpBy(queue0, queue1, queue, elem, a, b);
  }

  lemma SplitUpBy(before: seq<WorkItem>, mid: seq<WorkItem>, after: seq<WorkItem>, elem: WorkItem, a: set<nat>, b: set<nat>)
    requires Added(before, mid, a) && Added(mid, after, b) && |a| < |elem.und| && |b| < |elem.und|
    ensures SplitUp(before, after, elem)
  {
    hide Added;
  }

  lemma HalvesCost(und: set<nat>, a: set<nat>, b: set<nat>, split: nat)
    requires split in und && a <= und - {split} && b <= und - {split}
    ensures Pow2(|a|) + Pow2(|b|) <= Pow2(|und|)
  {
    hide Pow2;
    WithoutOne(und, a, split);
    WithoutOne(und, b, split);
    var n := |und| - 1;
    Pow2Monotone(|a|, n);
    Pow2Monotone(|b|, n);
    Pow2Next(n);
  }

  lemma WithoutOne(und: set<nat>, a: set<nat>, split: nat)
    requires split in und && a <= und - {split}
    ensures |a| < |und|
  {
    SubsetSmaller(a, und - {split});
  }

  /** Taking a component out of what is to be covered costs no more than it saves. */
  lemma ComponentCost(queue: seq<WorkItem>, toCover: set<nat>, component: set<nat>, item: WorkItem)
    requires component <= toCover && item.und == component
    ensures Cost(queue + [item]) + Pow2(|toCover - component|) <= Cost(queue) + Pow2(|toCover|)
  {
    hide Pow2;
    CostAppend(queue, item);
    var a, b := Pow2(|component|), Pow2(|toCover - component|);
    assert toCover == component + (toCover - component);
    Pow2Add(|component|, |toCover - component|);
    SumBelowProduct(a, b);
  }

  lemma SumBelowProduct(a: nat, b: nat)
    requires a > 0 && b > 0
    ensures a + b <= a * b + 1
  {
    MulMono(1, a, b - 1);
    assert a * (b - 1) == a * b - a;
  }

  // ---------- how large the queue can get ----------

  /** Item k, and what depth-first processing of it can add behind it, fit. */
  ghost predicate Fits(queue: seq<WorkItem>, capacity: int) {
    forall k :: 0 <= k < |queue| ==> k + |queue[k].und| <= capacity
  }

  lemma FitsNone(capacity: int)
    ensures Fits([], capacity)
  {
  }

  lemma FitsMore(queue: seq<WorkItem>, a: int, b: int)
    requires Fits(queue, a) && a <= b
    ensures Fits(queue, b)
  {
  }

  lemma FitsSwap(queue: seq<WorkItem>, todo: set<nat>, capacity: int)
    requires Fits(queue, capacity) && |queue| > 1 && queue[0].und <= todo && queue[1].und <= todo && |todo| < capacity
    ensures Fits([queue[1], queue[0]] + queue[2..], capacity)
  {
    SubsetSmaller(queue[0].und, todo);
    SubsetSmaller(queue[1].und, todo);
  }

  lemma FitsSize(queue: seq<WorkItem>, capacity: int)
    requires Fits(queue, capacity) && capacity >= 0 && forall k :: 0 <= k < |queue| ==> queue[k].und != {}
    ensures |queue| <= capacity
  {
    if queue != [] {
      var last := |queue| - 1;
      assert last + |queue[last].und| <= capacity;
    }
  }

  /** An item can be taken out and replaced by smaller ones behind, if there is room for all its undecided transactions. */
  lemma FitsSplit(queue0: seq<WorkItem>, n: nat, queue1: seq<WorkItem>, queue2: seq<WorkItem>, queue: seq<WorkItem>, a: set<nat>, b: set<nat>, capacity: int)
    requires Fits(queue0, capacity) && n < |queue0| && queue1 == queue0[..n] + queue0[n + 1..]
    requires Added(queue1, queue2, a) && Added(queue2, queue, b) && |a| < |queue0[n].und| && |b| < |queue0[n].und|
    requires |queue1| + |queue0[n].und| <= capacity
    ensures Fits(queue, capacity)
  {
    forall k | 0 <= k < |queue|
      ensures k + |queue[k].und| <= capacity
    {
      if k < |queue1| {
        assert queue[k] == queue1[k] == queue0[if k < n then k else k + 1];
      } else if k < |queue2| {
        assert queue[k] == queue2[k] && queue2[k].und <= a;
        SubsetSmaller(queue[k].und, a);
      } else {
        assert queue[k].und <= b;
        SubsetSmaller(queue[k].und, b);
      }
    }
  }

  lemma FitsTaken(queue0: seq<WorkItem>, n: nat, queue1: seq<WorkItem>, queue: seq<WorkItem>, elem: WorkItem)
    requires n < |queue0| && elem == queue0[n] && queue1 == queue0[..n] + queue0[n + 1..]
    requires queue == queue1 || SplitUp(queue1, queue, elem)
    ensures forall capacity :: Fits(queue0, capacity) && |queue0| - 1 + |elem.und| <= capacity ==> Fits(queue, capacity)
  {
    forall capacity | Fits(queue0, capacity) && |queue0| - 1 + |elem.und| <= capacity
      ensures Fits(queue, capacity)
    {
      if queue == queue1 {
        forall k | 0 <= k < |queue|
          ensures k + |queue[k].und| <= capacity
        {
          assert queue[k] == queue0[if k < n then k else k + 1];
        }
      } else {
        var mid, a, b :| Added(queue1, mid, a) && Added(mid, queue, b) && |a| < |elem.und| && |b| < |elem.und|;
        FitsSplit(queue0, n, queue1, mid, queue, a, b, capacity);
      }
    }
  }

  /** Items of disjoint non-empty components fit into as many places as there are transactions. */
  lemma FitsComponent(queue: seq<WorkItem>, toCover: set<nat>, component: set<nat>, item: WorkItem, capacity: int)
    requires Fits(queue, capacity) && |queue| + |toCover| <= capacity && component <= toCover && component != {} && item.und == component
    ensures Fits(queue + [item], capacity) && |queue| + 1 + |toCover - component| <= capacity
  {
    SubsetSmaller(component, toCover);
    assert toCover == component + (toCover - component);
  }

  // ---------- the search ----------

  /** The state of one FindCandidateSet call. */
  class Search {
    const g: Graph
    const todo: set<nat>
    var best: SetInfo
    /** The transactions in todo which have a feerate higher than best's. */
    var imp: set<nat>
    var queue: seq<WorkItem>
    var iterationsLeft: nat

    ghost predicate Static() {
      Graphs.Valid(g) && SortedByFeerate(g) && todo <= g.used
    }

    ghost predicate Valid()
      reads `best, `imp, `queue
    {
      && Static()
      && Candidate(g, todo, best.transactions) && Accurate(g, best)
      && Improving(g, todo, best.feerate, imp)
      && forall k :: 0 <= k < |queue| ==> ItemOk(g, todo, best.feerate, queue[k])
    }

    /** Every candidate that beats best is covered by a queued item. */
    ghost predicate Complete()
      reads this
    {
      forall c :: Candidate(g, todo, c) && Higher(FeeRate(g, c), best.feerate) ==> Covered(g, todo, queue, c)
    }

    /** Remove the entries from imp that no longer beat best: they are at its end. */
    method ShrinkImp()
      requires Static() && imp <= todo
      requires forall i :: i in todo - imp ==> !Higher(g.Fee(i), best.feerate)
      requires best.feerate.size > 0
      modifies this`imp
      ensures Improving(g, todo, best.feerate, imp)
    {
      hide Higher;
      while imp != {}
        invariant imp <= todo
        invariant forall i :: i in todo - imp ==> !Higher(g.Fee(i), best.feerate)
        decreases imp
      {
        var check := Last(imp, |g.entries|);
        if Higher(g.Fee(check), best.feerate) {
          forall i | i in imp
            ensures Higher(g.Fee(i), best.feerate)
          {
            if i != check {
              SortedHigher(g, i, check, best.feerate);
            }
          }
          break;
        }
        imp := imp - {check};
      }
    }

    /** Extend inc by undecided transactions, in order of decreasing feerate, while that improves it. */
    method ComputePot(inc: SetInfo, und: set<nat>) returns (pot: SetInfo, ghost x: set<nat>)
      requires Static() && imp <= todo && und <= todo
      requires inc.transactions != {} && inc.transactions <= todo && inc.transactions !! und && Accurate(g, inc)
      ensures pot.transactions == inc.transactions + x && Accurate(g, pot)
      ensures PotOk(g, imp, inc.transactions, und, x)
    {
      hide Higher, FeeRate;
      pot, x := inc, {};
      assert inc.transactions + {} == inc.transactions;
      var pos := 0;
      while pos < |g.entries|
        invariant 0 <= pos <= |g.entries|
        invariant x == set i | i in imp * und && i < pos
        invariant pot.transactions == inc.transactions + x && Accurate(g, pot)
        invariant forall i :: i in x ==> Higher(g.Fee(i), pot.feerate)
      {
        if pos in imp * und {
          if !Higher(g.Fee(pos), pot.feerate) {
            break;
          }
          PotStep(g, inc.transactions, x, pos, pot.feerate);
          pot := SetInfo(pot.transactions + {pos}, pot.feerate.Plus(g.Fee(pos)));
          x := x + {pos};
          assert inc.transactions + x == pot.transactions;
        }
        pos := pos + 1;
      }
      forall i | i in imp * und - x
        ensures !Higher(g.Fee(i), pot.feerate)
      {
        if i != pos {
          FeeRateSize(g, pot.transactions);
          SortedHigher(g, pos, i, pot.feerate);
        }
      }
    }

    /** The "jump ahead" step: include every transaction of pot whose remaining ancestors all lie in pot. */
    method JumpAheadSet(inc: set<nat>, pot: set<nat>) returns (inc': set<nat>)
      requires Static() && pot <= todo && inc <= pot && ClosedIn(g, todo, inc)
      ensures inc <= inc' <= pot && ClosedIn(g, todo, inc')
      ensures forall i :: i in pot && g.Anc(i) * todo <= pot ==> i in inc'
    {
      inc' := inc;
      for pos := 0 to |g.entries|
        invariant inc <= inc' <= pot && ClosedIn(g, todo, inc')
        invariant forall i :: i in pot && i < pos && g.Anc(i) * todo <= pot ==> i in inc'
      {
        if pos in pot - inc {
          var ancTodo := g.Anc(pos) * todo;
          if ancTodo <= pot {
            inc' := inc' + ancTodo;
          }
        }
      }
    }

    /** Remember a new best set, and drop the transactions from imp that no longer beat it. */
    method UpdateBest(inc: SetInfo)
      requires Valid() && Candidate(g, todo, inc.transactions) && Accurate(g, inc) && Better(inc.feerate, best.feerate)
      modifies this`best, this`imp
      ensures Valid() && best == inc
    {
      hide Higher, FeeRate, Better, ItemOk;
      ghost var was := best;
      FeeRateSize(g, best.transactions);
      FeeRateSize(g, inc.transactions);
      BestKeptOrder(best, inc);
      best := inc;
      forall i | i in todo - imp
        ensures !Higher(g.Fee(i), best.feerate)
      {
        HigherThanBetter(g.Fee(i), was.feerate, best.feerate);
      }
      ShrinkImp();
      forall k | 0 <= k < |queue|
        ensures ItemOk(g, todo, best.feerate, queue[k])
      {
        ItemOkMonotone(g, todo, was.feerate, best.feerate, queue[k]);
      }
    }

    /** Either queues the item or proves it useless; the queue stays complete relative to the possibly better best. */
    method AddItem(inc0: SetInfo, und0: set<nat>)
      requires Valid() && Pending(g, todo, inc0, und0)
      modifies this`best, this`imp, this`queue
      ensures Valid() && old(queue) <= queue && BestKept(old(best), best)
      ensures CoversAll(g, todo, best.feerate, queue, inc0.transactions, und0)
      ensures Added(old(queue), queue, und0)
    {
      hide Higher, FeeRate, Better, ItemOk, PotOk, Improving, CoversAll;
      FeeRateSize(g, inc0.transactions);
      if inc0.feerate.size != 0 {
        FeeRateSize(g, best.transactions);
        ghost var best0, imp0 := best, imp;
        ImprovingSubset(g, todo, best.feerate, imp);
        var pot, x := ComputePot(inc0, und0);
        PotSubset(g, imp, inc0.transactions, und0, x);
        var incSet := JumpAheadSet(inc0.transactions, pot.transactions);
        var und := und0 - incSet;
        var inc := SetInfo(incSet, inc0.feerate.Plus(FeeRate(g, incSet - inc0.transactions)));
        FeeRateSplit(g, incSet, inc0.transactions);
        assert incSet * inc0.transactions == inc0.transactions;
        if Better(inc.feerate, best.feerate) {
          UpdateBest(inc);
        }
        FeeRateSize(g, incSet);
        NotBetterNotHigher(inc.feerate, best.feerate);
        BestKeptOrder(best0, best);
        if pot.feerate.size == inc.feerate.size {
          Exhausted(g, todo, best0.feerate, imp0, best.feerate, inc0.transactions, und0, x, incSet, queue);
          return;
        }
        NewItem(g, todo, best0.feerate, imp0, best.feerate, inc0, und0, x, inc);
        queue := queue + [WorkItem(inc, und, pot.feerate)];
        NewItemCovers(g, todo, best0.feerate, imp0, best.feerate, inc0.transactions, und0, x, incSet, queue);
      } else {
        if und0 == {} {
          NothingUndecided(g, todo, best.feerate, inc0, queue);
          return;
        }
        EmptyItem(g, todo, best.feerate, inc0, und0);
        queue := queue + [WorkItem(inc0, und0, EMPTY)];
        LastItemCovers(g, todo, best.feerate, queue);
      }
    }

    /** Process a work item: split it on one undecided transaction, unless it cannot beat best. */
    method Split(elem: WorkItem)
      requires Valid() && ItemOk(g, todo, best.feerate, elem) && iterationsLeft > 0
      modifies this
      ensures Valid() && old(queue) <= queue && BestKept(old(best), best)
      ensures CoversAll(g, todo, best.feerate, queue, elem.inc.transactions, elem.und)
      ensures iterationsLeft == old(iterationsLeft) - 1 || (iterationsLeft == old(iterationsLeft) && queue == old(queue))
      ensures Cost(queue) + old(iterationsLeft) - iterationsLeft <= old(Cost(queue)) + ItemCost(elem)
      ensures queue == old(queue) || SplitUp(old(queue), queue, elem)
    {
      hide SplitUp;
      hide Higher, FeeRate, Better, ItemOk, Improving, CoversAll, Graphs.Valid, SortedByFeerate, Pending, Cost, Pow2;
      SizedTodo(g, todo);
      BestKeptSelf(best);
      FeeRateSize(g, best.transactions);
      ItemFacts(g, todo, best.feerate, elem);
      var first := First(elem.und);
      if elem.inc.feerate.size != 0 {
        if elem.und !! imp {
          PruneNoImprovement(g, todo, best, imp, queue, elem);
          return;
        }
        if !Better(elem.pot, best.feerate) {
          PrunePotential(g, todo, best, queue, elem);
          return;
        }
      } else {
        if !Better(g.Fee(first), best.feerate) {
          PruneFirst(g, todo, best, queue, elem, first);
          return;
        }
      }
      var split := PickSplit(elem.und, first);
      AddHalves(elem, split);
      iterationsLeft := iterationsLeft - 1;
    }

    /** Add the item without the split transaction and its descendants, and the item with it and its ancestors. */
    method AddHalves(elem: WorkItem, split: nat)
      requires Valid() && Pending(g, todo, elem.inc, elem.und) && split in elem.und
      modifies this`best, this`imp, this`queue
      ensures Valid() && old(queue) <= queue && BestKept(old(best), best)
      ensures CoversAll(g, todo, best.feerate, queue, elem.inc.transactions, elem.und)
      ensures Cost(queue) + 1 <= old(Cost(queue)) + ItemCost(elem)
      ensures SplitUp(old(queue), queue, elem)
    {
      hide Higher, FeeRate, Better, ItemOk, Improving, CoversAll, Pending, BestKept, Cost, Added;
      var desc := g.Desc(split);
      SplitPending(g, todo, elem, split);
      PendingWithin(g, todo, elem.inc, elem.und);
      ghost var best0, queue0 := best, queue;
      FeeRateSize(g, best0.transactions);
      AddItem(elem.inc, elem.und - desc);
      ghost var best1, queue1 := best, queue;
      FeeRateSize(g, best1.transactions);
      var anc := g.Anc(split) * todo;
      var withAnc := SetInfo(elem.inc.transactions + anc, elem.inc.feerate.Plus(FeeRate(g, anc - elem.inc.transactions)));
      AddItem(withAnc, elem.und - anc);
      FeeRateSize(g, best.transactions);
      BestKeptTransitive(best0, best1, best);
      BestKeptOrder(best1, best);
      CoversAllKept(g, todo, best1.feerate, best.feerate, queue1, queue, elem.inc.transactions, elem.und - desc);
      SplitCovers(g, todo, best.feerate, queue, elem, split);
      SplitCost(g, todo, queue0, queue1, queue, elem, split);
    }

    /** The undecided ancestor of first with which the fewest sets are left to consider. */
    method PickSplit(und: set<nat>, first: nat) returns (split: nat)
      requires Static() && und <= todo && first in und
      ensures split in und * g.Anc(first)
      ensures forall t :: t in und * g.Anc(first) ==>
                Pow2(|und - g.Anc(split)|) + Pow2(|und - g.Desc(split)|) <= Pow2(|und - g.Anc(t)|) + Pow2(|und - g.Desc(t)|)
    {
      hide SplitCounts, Pow2;
      split := 0;
      var found := false;
      var counts := (0, 0);
      for t := 0 to |g.entries|
        invariant found ==> split in und * g.Anc(first) && split < t && counts == SplitCounts(g, und, split)
        invariant found ==> forall u :: u in und * g.Anc(first) && u < t ==> !LessPair(SplitCounts(g, und, u), counts)
        invariant !found ==> forall u :: u in und * g.Anc(first) ==> u >= t
      {
        if t in und * g.Anc(first) {
          var c := SplitCounts(g, und, t);
          if !found || LessPair(c, counts) {
            split, counts, found := t, c, true;
          }
        }
      }
      assert first in und * g.Anc(first);
      FewestLeft(g, und, und * g.Anc(first), split);
    }

    /** Start from one item per connected component of todo; without a given best, take the first component. */
    constructor (g: Graph, todo: set<nat>, best0: SetInfo, maxIterations: nat)
      requires Graphs.Valid(g) && SortedByFeerate(g) && todo <= g.used && todo != {}
      requires best0.transactions == {} || Candidate(g, todo, best0.transactions)
      requires Accurate(g, best0)
      ensures Valid() && this.g == g && this.todo == todo && iterationsLeft == maxIterations
      ensures Complete() && Cost(queue) < Pow2(|todo|) && Fits(queue, |todo|)
      ensures best0.transactions != {} ==> best == best0
    {
      hide Higher, FeeRate, ItemOk, Improving, Cost, Pow2, Fits;
      FitsNone(|todo|);
      var b, q := best0, [];
      NoCost();
      FeeRateSize(g, best0.transactions);
      var toCover := todo;
      while toCover != {}
        invariant toCover <= todo
        invariant Partition(g, todo, q, toCover) && Cost(q) + Pow2(|toCover|) <= Pow2(|todo|)
        invariant Fits(q, |todo|) && |q| + |toCover| <= |todo|
        invariant b.transactions == {} <==> b.feerate.size == 0
        invariant Accurate(g, b) && (b.transactions == {} || Candidate(g, todo, b.transactions))
        invariant b.transactions == {} ==> q == []
        invariant best0.transactions != {} ==> b == best0
        invariant toCover == {} ==> b.transactions != {}
        decreases toCover
      {
        var component := FindConnectedComponent(g, toCover);
        NextComponent(g, todo, q, toCover, component);
        FitsComponent(q, toCover, component, WorkItem(SetInfo({}, EMPTY), component, EMPTY), |todo|);
        ComponentCost(q, toCover, component, WorkItem(SetInfo({}, EMPTY), component, EMPTY));
        toCover := toCover - component;
        if b.feerate.size == 0 {
          b := SetInfo(component, FeeRate(g, component));
          FeeRateSize(g, component);
        }
        q := q + [WorkItem(SetInfo({}, EMPTY), component, EMPTY)];
      }
      this.g, this.todo, best, queue, iterationsLeft, imp := g, todo, b, q, maxIterations, todo;
      new;
      FeeRateSize(g, best.transactions);
      ShrinkImp();
      PartitionValid(g, todo, best.feerate, queue);
      PartitionCovers(g, todo, best.feerate, queue);
    }

    /** Process work items until none is left or the iteration limit is reached. The queue never exceeds its capacity. */
    method Run()
      requires Valid() && Complete() && Fits(queue, |todo|)
      modifies this
      ensures Valid() && BestKept(old(best), best) && iterationsLeft <= old(iterationsLeft)
      ensures iterationsLeft > 0 ==> Optimal(g, todo, best.transactions)
      ensures old(iterationsLeft) - iterationsLeft <= old(Cost(queue))
    {
      hide Higher, FeeRate, Better, ItemOk, Improving, Covered, BestKept, Graphs.Valid, SortedByFeerate, Cost, Fits;
      ghost var best0 := best;
      SizedTodo(g, todo);
      BestKeptSelf(best);
      FeeRateSize(g, best.transactions);
      var capacity := if 2 * |todo| > 256 then 2 * |todo| else 256;
      FitsMore(queue, |todo|, capacity);
      QueueFits(g, todo, best.feerate, queue, capacity);
      while queue != []
        invariant Valid() && Complete() && BestKept(best0, best) && best.feerate.size > 0
        invariant iterationsLeft <= old(iterationsLeft)
        invariant old(iterationsLeft) - iterationsLeft + Cost(queue) <= old(Cost(queue))
        invariant Fits(queue, capacity) && |queue| <= capacity
        decreases iterationsLeft, |queue|
      {
        // Which of the first two is taken is left open; nothing below depends on it.
        if |queue| > 1 {
          if * {
            ItemsWithin(g, todo, best.feerate, queue);
            FitsSwap(queue, todo, capacity);
            SwapFirst();
          }
        }
        ghost var left0, size0 := iterationsLeft, |queue|;
        // Process from the back while processing the front could overfill the queue.
        while |queue| - 1 + |queue[0].und| > capacity
          invariant Valid() && Complete() && BestKept(best0, best) && best.feerate.size > 0
          invariant iterationsLeft <= old(iterationsLeft) && queue != []
          invariant iterationsLeft < left0 || |queue| <= size0
          invariant old(iterationsLeft) - iterationsLeft + Cost(queue) <= old(Cost(queue))
          invariant Fits(queue, capacity) && |queue| <= capacity
          decreases iterationsLeft, |queue|
        {
          if iterationsLeft == 0 {
            break;
          }
          FrontFits(g, todo, best.feerate, queue);
          ghost var was := best;
          FitsLast(queue, capacity);
          ProcessAt(|queue| - 1);
          BestKeptTransitive(best0, was, best);
          QueueFits(g, todo, best.feerate, queue, capacity);
        }
        if iterationsLeft == 0 {
          break;
        }
        ghost var was := best;
        ProcessAt(0);
        BestKeptTransitive(best0, was, best);
        QueueFits(g, todo, best.feerate, queue, capacity);
      }
      if queue == [] {
        NothingLeft(g, todo, best.feerate);
      }
    }

    /** Randomization: exchange the first two queue items. */
    method SwapFirst()
      requires Valid() && Complete() && |queue| > 1
      modifies this`queue
      ensures Valid() && Complete() && |queue| == old(|queue|) && Cost(queue) == old(Cost(queue))
      ensures queue == [old(queue)[1], old(queue)[0]] + old(queue)[2..]
    {
      hide Higher, FeeRate, ItemOk, Improving, Covers, Cost;
      CostSwap(queue);
      queue := [queue[1], queue[0]] + queue[2..];
      forall c | Candidate(g, todo, c) && Higher(FeeRate(g, c), best.feerate)
        ensures Covered(g, todo, queue, c)
      {
        var k, c' :| 0 <= k < |old(queue)| && Covers(g, todo, old(queue)[k], c, c');
        var k' := if k == 0 then 1 else if k == 1 then 0 else k;
        assert queue[k'] == old(queue)[k];
      }
    }

    /** Take the item at one end of the queue out and split it. */
    method ProcessAt(n: nat)
      requires Valid() && Complete() && n < |queue| && iterationsLeft > 0
      modifies this
      ensures Valid() && Complete() && BestKept(old(best), best) && best.feerate.size > 0
      ensures iterationsLeft == old(iterationsLeft) - 1 || (iterationsLeft == old(iterationsLeft) && |queue| == old(|queue|) - 1)
      ensures |queue| >= old(|queue|) - 1
      ensures old(iterationsLeft) - iterationsLeft + Cost(queue) <= old(Cost(queue))
      ensures forall capacity :: Fits(old(queue), capacity) && |old(queue)| - 1 + |old(queue)[n].und| <= capacity ==> Fits(queue, capacity)
    {
      hide Higher, FeeRate, Better, ItemOk, Improving, Cost, ItemCost, Fits, SplitUp;
      CostTakeOut(queue, n);
      var elem := queue[n];
      ghost var queue0, best0 := queue, best;
      FeeRateSize(g, best.transactions);
      queue := queue[..n] + queue[n + 1..];
      ghost var queue1 := queue;
      Split(elem);
      FeeRateSize(g, best.transactions);
      BestKeptOrder(best0, best);
      forall c | Candidate(g, todo, c) && Higher(FeeRate(g, c), best.feerate)
        ensures Covered(g, todo, queue, c)
      {
        TakeOut(g, todo, best0.feerate, best.feerate, queue0, queue1, queue, n, c);
      }
      FitsTaken(queue0, n, queue1, queue, elem);
    }
  }

  lemma NothingLeft(g: Graph, todo: set<nat>, best: FeeFrac)
    ensures forall c :: !Covered(g, todo, [], c)
  {
  }

  /** After taking out and splitting item n, what was covered stays covered. */
  lemma TakeOut(g: Graph, todo: set<nat>, best0: FeeFrac, best: FeeFrac, queue0: seq<WorkItem>, queue1: seq<WorkItem>, queue: seq<WorkItem>, n: nat, c: set<nat>)
    requires SizedIn(g, todo) && best0.size > 0 && best.size > 0 && !Higher(best0, best)
    requires n < |queue0| && queue1 == queue0[..n] + queue0[n + 1..] && queue1 <= queue
    requires Candidate(g, todo, c) && Higher(FeeRate(g, c), best)
    requires Higher(FeeRate(g, c), best0) ==> Covered(g, todo, queue0, c)
    requires CoversAll(g, todo, best, queue, queue0[n].inc.transactions, queue0[n].und)
    ensures Covered(g, todo, queue, c)
  {
    hide Higher, FeeRate;
    FeeRateSize(g, c);
    HigherThanBetter(FeeRate(g, c), best0, best);
    var k, c' :| 0 <= k < |queue0| && Covers(g, todo, queue0[k], c, c');
    if k == n {
      FeeRateSize(g, c');
      HigherIfNotLower(FeeRate(g, c), FeeRate(g, c'), best);
      CoveredWeaken(g, todo, queue, c, c');
    } else {
      var k' := if k < n then k else k - 1;
      assert queue1[k'] == queue0[k] && queue[k'] == queue1[k'];
    }
  }

  lemma HigherIfNotLower(a: FeeFrac, b: FeeFrac, l: FeeFrac)
    requires a.size > 0 && b.size > 0 && l.size > 0 && Higher(a, l) && !Higher(a, b)
    ensures Higher(b, l)
  {
    hide Cross, Higher;
    CrossSign(a, l);
    CrossSign(a, b);
    CrossSign(b, a);
    CrossSign(b, l);
    CrossTransitive(b, a, l);
  }

  lemma ItemsWithin(g: Graph, todo: set<nat>, best: FeeFrac, queue: seq<WorkItem>)
    requires forall k :: 0 <= k < |queue| ==> ItemOk(g, todo, best, queue[k])
    ensures forall k :: 0 <= k < |queue| ==> queue[k].und != {} && queue[k].und <= todo
  {
    hide PotBoundsItem;
    forall k | 0 <= k < |queue|
      ensures queue[k].und != {} && queue[k].und <= todo
    {
      assert ItemOk(g, todo, best, queue[k]);
    }
  }

  lemma QueueFits(g: Graph, todo: set<nat>, best: FeeFrac, queue: seq<WorkItem>, capacity: int)
    requires Fits(queue, capacity) && capacity >= 0 && forall k :: 0 <= k < |queue| ==> ItemOk(g, todo, best, queue[k])
    ensures |queue| <= capacity
  {
    hide ItemOk, Fits;
    ItemsWithin(g, todo, best, queue);
    FitsSize(queue, capacity);
  }

  lemma FitsLast(queue: seq<WorkItem>, capacity: int)
    requires Fits(queue, capacity) && queue != []
    ensures |queue| - 1 + |queue[|queue| - 1].und| <= capacity
  {
    var last := |queue| - 1;
    assert last + |queue[last].und| <= capacity;
  }

  /** The queue holds at least two items when its front alone could overfill it. */
  lemma FrontFits(g: Graph, todo: set<nat>, best: FeeFrac, queue: seq<WorkItem>)
    requires queue != [] && forall k :: 0 <= k < |queue| ==> ItemOk(g, todo, best, queue[k])
    ensures |queue[0].und| <= |todo|
  {
    var und := queue[0].und;
    assert ItemOk(g, todo, best, queue[0]);
    assert todo == und + (todo - und);
  }

  // ---------- connected components as initial items ----------

  /** The items are pairwise disjoint components of todo, which together with `rest` make up todo. */
  ghost predicate Partition(g: Graph, todo: set<nat>, queue: seq<WorkItem>, rest: set<nat>) {
    && (forall k :: 0 <= k < |queue| ==> queue[k] == WorkItem(SetInfo({}, EMPTY), queue[k].und, EMPTY))
    && (forall k :: 0 <= k < |queue| ==> queue[k].und != {} && Isolated(g, todo, queue[k].und) && queue[k].und !! rest)
    && (forall i, j :: 0 <= i < j < |queue| ==> queue[i].und !! queue[j].und)
    && Isolated(g, todo, rest)
    && forall x :: x in todo - rest ==> exists k :: 0 <= k < |queue| && x in queue[k].und
  }

  lemma NextComponent(g: Graph, todo: set<nat>, queue: seq<WorkItem>, rest: set<nat>, component: set<nat>)
    requires Valid(g) && todo <= g.used && Partition(g, todo, queue, rest)
    requires component != {} && Isolated(g, rest, component)
    ensures Partition(g, todo, queue + [WorkItem(SetInfo({}, EMPTY), component, EMPTY)], rest - component)
    ensures Candidate(g, todo, component)
  {
    hide Valid, Linked;
    LinkedSymmetric(g);
    assert Isolated(g, todo, component);
    IsolatedClosed(g, todo, component);
    var q := queue + [WorkItem(SetInfo({}, EMPTY), component, EMPTY)];
    forall x | x in todo - (rest - component)
      ensures exists k :: 0 <= k < |q| && x in q[k].und
    {
      if x in component {
        assert x in q[|queue|].und;
      } else {
        assert x in todo - rest;
        var k :| 0 <= k < |queue| && x in queue[k].und;
        assert x in q[k].und;
      }
    }
  }

  lemma IsolatedClosed(g: Graph, todo: set<nat>, c: set<nat>)
    requires Isolated(g, todo, c)
    ensures ClosedIn(g, todo, c)
  {
    forall x, a | x in c && a in g.Anc(x) * todo
      ensures a in c
    {
      assert Linked(g, x, a);
    }
  }

  lemma PartitionValid(g: Graph, todo: set<nat>, best: FeeFrac, queue: seq<WorkItem>)
    requires Partition(g, todo, queue, {})
    ensures forall k :: 0 <= k < |queue| ==> ItemOk(g, todo, best, queue[k])
  {
    forall k | 0 <= k < |queue|
      ensures ItemOk(g, todo, best, queue[k])
    {
      IsolatedClosed(g, todo, queue[k].und);
      FeeRateSingleton(g, 0);
      assert {} + queue[k].und == queue[k].und;
    }
  }

  lemma PartitionCovers(g: Graph, todo: set<nat>, best: FeeFrac, queue: seq<WorkItem>)
    requires Valid(g) && todo <= g.used && Partition(g, todo, queue, {})
    ensures forall c :: Candidate(g, todo, c) && Higher(FeeRate(g, c), best) ==> Covered(g, todo, queue, c)
  {
    hide Valid, Higher, FeeRate;
    forall c | Candidate(g, todo, c)
      ensures Covered(g, todo, queue, c)
    {
      SizedTodo(g, todo);
      forall x | x in c
        ensures exists k :: 0 <= k < |queue| && x in queue[k].und
      {
        assert x in todo - {};
      }
      var k := BestPart(g, todo, queue, c);
      var part := c * queue[k].und;
      assert ClosedIn(g, todo, part) by {
        IsolatedClosed(g, todo, queue[k].und);
      }
      assert Covers(g, todo, queue[k], c, part);
    }
  }

  lemma SizedTodo(g: Graph, todo: set<nat>)
    requires Valid(g) && todo <= g.used
    ensures SizedIn(g, todo)
  {
  }

  /** Of a set divided over disjoint parts, some part has a feerate not below the whole's. */
  lemma {:induction false} BestPart(g: Graph, todo: set<nat>, queue: seq<WorkItem>, c: set<nat>) returns (k: nat)
    requires SizedIn(g, todo) && c <= todo && c != {}
    requires forall i, j :: 0 <= i < j < |queue| ==> queue[i].und !! queue[j].und
    requires forall x :: x in c ==> exists k :: 0 <= k < |queue| && x in queue[k].und
    ensures k < |queue| && c * queue[k].und != {} && !Higher(FeeRate(g, c), FeeRate(g, c * queue[k].und))
    decreases |queue|
  {
    hide Higher, FeeRate;
    var x0 :| x0 in c;
    var n := |queue| - 1;
    var a, b := c * queue[n].und, c - queue[n].und;
    NotBetterNotHigher(FeeRate(g, c), FeeRate(g, c));
    SplitSet(c, queue[n].und);
    if b == {} {
      k := n;
    } else {
      forall x | x in b
        ensures exists k :: 0 <= k < |queue[..n]| && x in queue[..n][k].und
      {
        var i :| 0 <= i < |queue| && x in queue[i].und;
        assert i < n && queue[..n][i] == queue[i];
      }
      var i := BestPart(g, todo, queue[..n], b);
      assert b * queue[i].und == c * queue[i].und;
      if a == {} {
        k := i;
      } else {
        if BetterHalf(g, todo, a, b) {
          k := n;
        } else {
          BetterHalfLemma(g, todo, a, b);
          k := i;
          FeeRateSize(g, c);
          FeeRateSize(g, b);
          FeeRateSize(g, c * queue[i].und);
          NotHigherTransitive(FeeRate(g, c), FeeRate(g, b), FeeRate(g, c * queue[i].und));
        }
      }
    }
  }

  lemma SplitSet(c: set<nat>, d: set<nat>)
    ensures c == c * d + (c - d)
    ensures c - d == {} ==> c * d == c
    ensures c * d == {} ==> c - d == c
  {
    if c - d == {} {
      assert c * d + (c - d) == c * d;
    }
    if c * d == {} {
      assert c * d + (c - d) == c - d;
    }
  }

  ghost predicate BetterHalf(g: Graph, todo: set<nat>, a: set<nat>, b: set<nat>) {
    !Higher(FeeRate(g, a + b), FeeRate(g, a))
  }

  lemma BetterHalfLemma(g: Graph, todo: set<nat>, a: set<nat>, b: set<nat>)
    requires SizedIn(g, todo) && a <= todo && b <= todo && a != {} && b != {} && a !! b
    ensures BetterHalf(g, todo, a, b) || !Higher(FeeRate(g, a + b), FeeRate(g, b))
  {
    hide Cross, Higher, FeeRate;
    var A, B, C := FeeRate(g, a), FeeRate(g, b), FeeRate(g, a + b);
    FeeRateUnion(g, a, b);
    CrossPlus(A, B, C);
    CrossSign(C, C);
    CrossSign(A, C);
    CrossSign(C, A);
    CrossSign(B, C);
    CrossSign(C, B);
  }

  /** How many transactions stay undecided after including, or excluding, t; the larger number first. */
  function SplitCounts(g: Graph, und: set<nat>, t: nat): (nat, nat) {
    var a, b := |und - g.Anc(t)|, |und - g.Desc(t)|;
    if a < b then (b, a) else (a, b)
  }

  predicate LessPair(a: (nat, nat), b: (nat, nat)) {
    a.0 < b.0 || (a.0 == b.0 && a.1 < b.1)
  }

  /** Comparing the pairs is comparing the numbers of sets that both halves allow. */
  lemma CountsOrder(g: Graph, und: set<nat>, s: nat, t: nat)
    ensures !LessPair(SplitCounts(g, und, s), SplitCounts(g, und, t)) <==>
              Pow2(|und - g.Anc(t)|) + Pow2(|und - g.Desc(t)|) <= Pow2(|und - g.Anc(s)|) + Pow2(|und - g.Desc(s)|)
  {
    hide Pow2;
    var a, b := SplitCounts(g, und, s), SplitCounts(g, und, t);
    PowersOrder(a, b);
    PowersOrder(b, a);
  }

  lemma FewestLeft(g: Graph, und: set<nat>, among: set<nat>, split: nat)
    requires forall t :: t in among ==> !LessPair(SplitCounts(g, und, t), SplitCounts(g, und, split))
    ensures forall t :: t in among ==>
              Pow2(|und - g.Anc(split)|) + Pow2(|und - g.Desc(split)|) <= Pow2(|und - g.Anc(t)|) + Pow2(|und - g.Desc(t)|)
  {
    hide Pow2, SplitCounts, LessPair;
    forall t | t in among
      ensures Pow2(|und - g.Anc(split)|) + Pow2(|und - g.Desc(split)|) <= Pow2(|und - g.Anc(t)|) + Pow2(|und - g.Desc(t)|)
    {
      CountsOrder(g, und, t, split);
    }
  }

  lemma PowersOrder(a: (nat, nat), b: (nat, nat))
    requires a.0 >= a.1 && b.0 >= b.1
    ensures LessPair(a, b) ==> Pow2(a.0) + Pow2(a.1) < Pow2(b.0) + Pow2(b.1)
  {
    hide Pow2;
    if a.0 < b.0 {
      Pow2Next(a.0);
      Pow2Monotone(a.0 + 1, b.0);
      Pow2Monotone(a.1, a.0);
    } else if a.0 == b.0 && a.1 < b.1 {
      Pow2Next(a.1);
      Pow2Monotone(a.1 + 1, b.1);
    }
  }

  lemma ItemFacts(g: Graph, todo: set<nat>, best: FeeFrac, item: WorkItem)
    requires SizedIn(g, todo) && ItemOk(g, todo, best, item)
    ensures item.und != {} && item.und <= todo && item.inc.transactions <= todo && item.inc.transactions !! item.und
    ensures Pending(g, todo, item.inc, item.und)
    ensures item.inc.feerate.size == 0 <==> item.inc.transactions == {}
  {
    FeeRateSize(g, item.inc.transactions);
  }

  /** No undecided transaction beats best, so no compatible set does. */
  lemma PruneNoImprovement(g: Graph, todo: set<nat>, best: SetInfo, imp: set<nat>, queue: seq<WorkItem>, item: WorkItem)
    requires SizedIn(g, todo) && best.feerate.size > 0 && Improving(g, todo, best.feerate, imp)
    requires ItemOk(g, todo, best.feerate, item) && item.inc.transactions != {} && item.und !! imp
    ensures CoversAll(g, todo, best.feerate, queue, item.inc.transactions, item.und)
  {
    hide Cross, Higher, FeeRate;
    var l := best.feerate;
    forall c | Candidate(g, todo, c) && Compatible(item.inc.transactions, item.und, c)
      ensures !Higher(FeeRate(g, c), l)
    {
      var rest := c - item.inc.transactions;
      forall i | i in rest
        ensures Cross(g.Fee(i), l) <= 0
      {
        CrossSign(g.Fee(i), l);
      }
      SumOneSided(g, rest, l);
      assert c == item.inc.transactions + rest;
      FeeRateUnion(g, item.inc.transactions, rest);
      CrossPlus(item.inc.feerate, FeeRate(g, rest), l);
      CrossSign(item.inc.feerate, l);
      CrossSign(FeeRate(g, c), l);
    }
  }

  /** The item's potential does not beat best. */
  lemma PrunePotential(g: Graph, todo: set<nat>, best: SetInfo, queue: seq<WorkItem>, item: WorkItem)
    requires SizedIn(g, todo) && best.feerate.size > 0
    requires ItemOk(g, todo, best.feerate, item) && item.inc.transactions != {} && !Better(item.pot, best.feerate)
    ensures CoversAll(g, todo, best.feerate, queue, item.inc.transactions, item.und)
  {
    hide Cross, Higher, FeeRate, Better;
    NotBetterNotHigher(item.pot, best.feerate);
    forall c | Candidate(g, todo, c) && Compatible(item.inc.transactions, item.und, c)
      ensures !Higher(FeeRate(g, c), best.feerate)
    {
      FeeRateSize(g, c);
      if Higher(FeeRate(g, c), best.feerate) {
        NotHigherTransitive(FeeRate(g, c), item.pot, best.feerate);
      }
    }
  }

  /** Nothing is included yet, and the highest-feerate undecided transaction does not beat best. */
  lemma PruneFirst(g: Graph, todo: set<nat>, best: SetInfo, queue: seq<WorkItem>, item: WorkItem, first: nat)
    requires Valid(g) && SortedByFeerate(g) && todo <= g.used && best.feerate.size > 0
    requires ItemOk(g, todo, best.feerate, item) && item.inc.transactions == {}
    requires first in item.und && (forall x :: x in item.und ==> first <= x) && !Better(g.Fee(first), best.feerate)
    ensures CoversAll(g, todo, best.feerate, queue, item.inc.transactions, item.und)
  {
    hide Cross, Higher, FeeRate, Better;
    var l := best.feerate;
    NotBetterNotHigher(g.Fee(first), l);
    forall c | Candidate(g, todo, c) && Compatible(item.inc.transactions, item.und, c)
      ensures !Higher(FeeRate(g, c), l)
    {
      forall i | i in c
        ensures Cross(g.Fee(i), l) <= 0
      {
        if i != first {
          SortedHigher(g, first, i, l);
        }
        CrossSign(g.Fee(i), l);
      }
      SumOneSided(g, c, l);
      CrossSign(FeeRate(g, c), l);
    }
  }

  /** Both halves of a split are well-formed: without the transaction's descendants, or with its ancestors. */
  lemma SplitPending(g: Graph, todo: set<nat>, item: WorkItem, t: nat)
    requires Valid(g) && todo <= g.used && Pending(g, todo, item.inc, item.und) && t in item.und
    ensures Pending(g, todo, item.inc, item.und - g.Desc(t))
    ensures var anc := g.Anc(t) * todo;
            Pending(g, todo,
                    SetInfo(item.inc.transactions + anc, item.inc.feerate.Plus(FeeRate(g, anc - item.inc.transactions))),
                    item.und - anc)
  {
    hide FeeRate;
    var inc, und, anc := item.inc.transactions, item.und, g.Anc(t) * todo;
    forall x, a | x in inc + (und - g.Desc(t)) && a in g.Anc(x) * todo
      ensures a in inc + (und - g.Desc(t))
    {
      if x in und {
        assert t in g.Anc(a) ==> t in g.Anc(x);
      }
    }
    FeeRateUnion(g, inc, anc - inc);
    assert inc + (anc - inc) == inc + anc;
    assert (inc + anc) + (und - anc) == inc + und;
  }

  /** A compatible candidate either lacks the transaction and its descendants, or has it and its ancestors. */
  lemma SplitCovers(g: Graph, todo: set<nat>, best: FeeFrac, queue: seq<WorkItem>, item: WorkItem, t: nat)
    requires Valid(g) && todo <= g.used && Pending(g, todo, item.inc, item.und) && t in item.und
    requires CoversAll(g, todo, best, queue, item.inc.transactions, item.und - g.Desc(t))
    requires CoversAll(g, todo, best, queue, item.inc.transactions + g.Anc(t) * todo, item.und - g.Anc(t) * todo)
    ensures CoversAll(g, todo, best, queue, item.inc.transactions, item.und)
  {
    hide Higher, FeeRate, Covered;
    var inc, und := item.inc.transactions, item.und;
    forall c | Candidate(g, todo, c) && Compatible(inc, und, c)
      ensures Compatible(inc, und - g.Desc(t), c) || Compatible(inc + g.Anc(t) * todo, und - g.Anc(t) * todo, c)
    {
      if t !in c {
        forall x | x in c && x !in inc
          ensures x !in g.Desc(t)
        {
          assert g.Anc(x) * todo <= c;
        }
      } else {
        assert g.Anc(t) * todo <= c;
      }
    }
  }

  ghost predicate Pending(g: Graph, todo: set<nat>, inc: SetInfo, und: set<nat>) {
    && ClosedIn(g, todo, inc.transactions) && Accurate(g, inc)
    && und <= todo && inc.transactions !! und && ClosedIn(g, todo, inc.transactions + und)
  }

  lemma PendingWithin(g: Graph, todo: set<nat>, inc: SetInfo, und: set<nat>)
    requires Pending(g, todo, inc, und)
    ensures und <= todo
  {
  }

  lemma ImprovingSubset(g: Graph, todo: set<nat>, best: FeeFrac, imp: set<nat>)
    requires Improving(g, todo, best, imp)
    ensures imp <= todo
  {
  }

  lemma PotSubset(g: Graph, imp: set<nat>, inc: set<nat>, und: set<nat>, x: set<nat>)
    requires PotOk(g, imp, inc, und, x)
    ensures x <= und
  {
  }

  lemma NotBetterNotHigher(a: FeeFrac, b: FeeFrac)
    ensures !Better(a, b) ==> !Higher(a, b)
    ensures !Higher(a, a)
  {
    BetterCross(a, b);
    CrossSign(a, b);
    CrossSign(a, a);
  }

  lemma EmptyItem(g: Graph, todo: set<nat>, best: FeeFrac, inc: SetInfo, und: set<nat>)
    requires Pending(g, todo, inc, und) && und != {} && inc.transactions == {}
    ensures ItemOk(g, todo, best, WorkItem(inc, und, EMPTY))
  {
  }

  lemma NothingUndecided(g: Graph, todo: set<nat>, best: FeeFrac, inc: SetInfo, queue: seq<WorkItem>)
    requires inc.transactions == {}
    ensures CoversAll(g, todo, best, queue, inc.transactions, {})
  {
  }

  lemma LastItemCovers(g: Graph, todo: set<nat>, best: FeeFrac, queue: seq<WorkItem>)
    requires queue != []
    ensures CoversAll(g, todo, best, queue, queue[|queue| - 1].inc.transactions, queue[|queue| - 1].und)
  {
    hide Higher, FeeRate, Covered;
    var item := queue[|queue| - 1];
    forall c | Candidate(g, todo, c) && Compatible(item.inc.transactions, item.und, c)
      ensures Covered(g, todo, queue, c)
    {
      CoveredByItem(g, todo, queue, |queue| - 1, c);
    }
  }

  /** After the jump-ahead step, the queued item covers what the original item could reach. */
  lemma NewItemCovers(g: Graph, todo: set<nat>, best0: FeeFrac, imp0: set<nat>, best: FeeFrac,
                      inc: set<nat>, und: set<nat>, x: set<nat>, inc': set<nat>, queue: seq<WorkItem>)
    requires SizedIn(g, todo) && best0.size > 0 && best.size > 0 && Improving(g, todo, best0, imp0) && !Higher(best0, best)
    requires inc != {} && inc <= todo && und <= todo && inc !! und && PotOk(g, imp0, inc, und, x)
    requires inc <= inc' <= inc + x && ClosedIn(g, todo, inc')
    requires queue != [] && queue[|queue| - 1].inc.transactions == inc' && queue[|queue| - 1].und == und - inc'
    ensures CoversAll(g, todo, best, queue, inc, und)
  {
    hide Higher, FeeRate, Covered, PotOk, Improving;
    forall c | Candidate(g, todo, c) && Compatible(inc, und, c) && Higher(FeeRate(g, c), best)
      ensures Covered(g, todo, queue, c)
    {
      FeeRateSize(g, c);
      HigherThanBetter(FeeRate(g, c), best0, best);
      JumpAhead(g, todo, best0, imp0, inc, und, x, inc', c);
      CoveredByItem(g, todo, queue, |queue| - 1, c + inc');
      CoveredWeaken(g, todo, queue, c, c + inc');
    }
  }

  /** When all of pot has been included, no compatible candidate beats best anymore. */
  lemma Exhausted(g: Graph, todo: set<nat>, best0: FeeFrac, imp0: set<nat>, best: FeeFrac,
                  inc: set<nat>, und: set<nat>, x: set<nat>, inc': set<nat>, queue: seq<WorkItem>)
    requires SizedIn(g, todo) && best0.size > 0 && best.size > 0 && Improving(g, todo, best0, imp0) && !Higher(best0, best)
    requires inc != {} && inc <= todo && und <= todo && inc !! und && PotOk(g, imp0, inc, und, x)
    requires inc <= inc' <= inc + x && FeeRate(g, inc + x).size == FeeRate(g, inc').size
    requires !Higher(FeeRate(g, inc'), best)
    ensures CoversAll(g, todo, best, queue, inc, und)
  {
    hide Cross, Higher, FeeRate, PotOk, Improving;
    FeeRateSplit(g, inc + x, inc');
    assert (inc + x) * inc' == inc';
    PotSubset(g, imp0, inc, und, x);
    FeeRateSize(g, inc + x - inc');
    forall i | i in inc + x
      ensures i in inc'
    {
      assert i !in inc + x - inc';
    }
    assert inc + x == inc';
    FeeRateSize(g, inc');
    forall c | Candidate(g, todo, c) && Compatible(inc, und, c)
      ensures !Higher(FeeRate(g, c), best)
    {
      FeeRateSize(g, c);
      if Higher(FeeRate(g, c), best) {
        HigherThanBetter(FeeRate(g, c), best0, best);
        PotBounds(g, todo, best0, imp0, inc, und, x, c);
        NotHigherTransitive(FeeRate(g, c), FeeRate(g, inc'), best);
      }
    }
  }

  /** The item queued after the jump-ahead step keeps what every queued item keeps. */
  lemma NewItem(g: Graph, todo: set<nat>, best0: FeeFrac, imp0: set<nat>, best: FeeFrac,
                inc: SetInfo, und: set<nat>, x: set<nat>, inc': SetInfo)
    requires SizedIn(g, todo) && best0.size > 0 && best.size > 0 && Improving(g, todo, best0, imp0) && !Higher(best0, best)
    requires Pending(g, todo, inc, und) && inc.transactions != {} && PotOk(g, imp0, inc.transactions, und, x)
    requires inc.transactions <= inc'.transactions <= inc.transactions + x && ClosedIn(g, todo, inc'.transactions)
    requires Accurate(g, inc') && !Higher(inc'.feerate, best)
    requires FeeRate(g, inc.transactions + x).size != inc'.feerate.size
    ensures ItemOk(g, todo, best, WorkItem(inc', und - inc'.transactions, FeeRate(g, inc.transactions + x)))
  {
    hide Cross, Higher, FeeRate;
    var item := WorkItem(inc', und - inc'.transactions, FeeRate(g, inc.transactions + x));
    FeeRateSize(g, inc.transactions + x);
    assert inc'.transactions + item.und == inc.transactions + und;
    var pot := inc.transactions + x;
    FeeRateSplit(g, pot, inc'.transactions);
    assert pot * inc'.transactions == inc'.transactions;
    FeeRateSize(g, pot - inc'.transactions);
    assert pot - inc'.transactions <= item.und;
    forall d | Compatible(inc'.transactions, item.und, d) && Higher(FeeRate(g, d), best)
      ensures !Higher(FeeRate(g, d), item.pot)
    {
      FeeRateSize(g, d);
      HigherThanBetter(FeeRate(g, d), best0, best);
      PotBounds(g, todo, best0, imp0, inc.transactions, und, x, d);
    }
  }

  lemma SortedHigher(g: Graph, i: nat, j: nat, l: FeeFrac)
    requires Valid(g) && SortedByFeerate(g) && i in g.used && j in g.used && i < j && l.size > 0
    ensures Higher(g.Fee(j), l) ==> Higher(g.Fee(i), l)
  {
    hide Cross, Higher;
    var a, b := g.Fee(i), g.Fee(j);
    CrossSign(b, a);
    CrossSign(a, b);
    CrossSign(b, l);
    CrossSign(a, l);
    if Higher(b, l) {
      CrossTransitive(a, b, l);
    }
  }

  /** Adding a transaction that beats pot leaves pot below it and below all those added before. */
  lemma PotStep(g: Graph, inc: set<nat>, x: set<nat>, pos: nat, pot: FeeFrac)
    requires Valid(g) && SortedByFeerate(g) && inc <= g.used && x <= g.used && pos in g.used
    requires pos !in inc + x && inc != {} && pot == FeeRate(g, inc + x)
    requires forall i :: i in x ==> i < pos
    requires Higher(g.Fee(pos), pot)
    ensures FeeRate(g, inc + x + {pos}) == pot.Plus(g.Fee(pos))
    ensures forall i :: i in x + {pos} ==> Higher(g.Fee(i), pot.Plus(g.Fee(pos)))
  {
    hide Cross, Higher, FeeRate;
    FeeRateUnion(g, inc + x, {pos});
    FeeRateSingleton(g, pos);
    FeeRateSize(g, inc + x);
    var f, next := g.Fee(pos), pot.Plus(g.Fee(pos));
    CrossSign(f, pot);
    CrossPlus(pot, f, f);
    CrossSign(f, f);
    CrossSign(f, next);
    forall i | i in x
      ensures Higher(g.Fee(i), next)
    {
      SortedHigher(g, i, pos, next);
    }
  }

  /** The highest position in a set of positions below n. */
  method Last(s: set<nat>, n: nat) returns (r: nat)
    requires s != {} && forall x :: x in s ==> x < n
    ensures r in s && forall x :: x in s ==> x <= r
  {
    ghost var w :| w in s;
    r := n - 1;
    while r !in s
      invariant r >= w && forall x :: x in s ==> x <= r
      decreases r
    {
      r := r - 1;
    }
  }
}
