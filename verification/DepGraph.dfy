/** The value of a transaction dependency graph (src/cluster_linearize.h, class DepGraph). */
module Graphs {
  import opened FeeRates

  /** Fee and size of one transaction, with its ancestors and descendants (itself included in both). */
  datatype Entry = Entry(feerate: FeeFrac, ancestors: set<nat>, descendants: set<nat>)

  /** The entries by position, and the positions in use. The others are holes. */
  datatype Graph = Graph(entries: seq<Entry>, used: set<nat>) {
    function Fee(i: nat): FeeFrac {
      if i < |entries| then entries[i].feerate else EMPTY
    }

    function Anc(i: nat): set<nat> {
      if i < |entries| then entries[i].ancestors else {}
    }

    function Desc(i: nat): set<nat> {
      if i < |entries| then entries[i].descendants else {}
    }
  }

  /** Ancestry is a preorder on the used positions, and the descendant sets are its transpose. */
  ghost predicate Valid(g: Graph) {
    && (forall i :: i in g.used ==> i < |g.entries| && g.Fee(i).size > 0)
    && (forall i :: i in g.used ==> i in g.Anc(i) && g.Anc(i) <= g.used && g.Desc(i) <= g.used)
    && (forall i, j :: i in g.used && j in g.Anc(i) ==> g.Anc(j) <= g.Anc(i))
    && (forall i, j :: i in g.used && j in g.used ==> (j in g.Anc(i) <==> i in g.Desc(j)))
  }

  ghost predicate Acyclic(g: Graph) {
    forall i, j :: i in g.used && j in g.used && i in g.Anc(j) && j in g.Anc(i) ==> i == j
  }

  /** `s` is a topologically valid subset of what remains: it holds all its remaining ancestors. */
  ghost predicate ClosedIn(g: Graph, todo: set<nat>, s: set<nat>) {
    s <= todo && forall x :: x in s ==> g.Anc(x) * todo <= s
  }

  // ---------- aggregate feerates ----------

  function SumTo(g: Graph, s: set<nat>, n: nat): FeeFrac {
    if n == 0 then EMPTY
    else
      var rest := SumTo(g, s, n - 1);
      if n - 1 in s then rest.Plus(g.Fee(n - 1)) else rest
  }

  /** The sum of fees and the sum of sizes over a set. */
  function FeeRate(g: Graph, s: set<nat>): FeeFrac {
    SumTo(g, s, |g.entries|)
  }

  lemma {:induction false} SumToUnion(g: Graph, a: set<nat>, b: set<nat>, c: set<nat>, n: nat)
    requires forall x :: !(x in a && x in b)
    requires forall x :: x in c <==> x in a || x in b
    ensures SumTo(g, c, n).fee == SumTo(g, a, n).fee + SumTo(g, b, n).fee
    ensures SumTo(g, c, n).size == SumTo(g, a, n).size + SumTo(g, b, n).size
  {
    if n > 0 {
      SumToUnion(g, a, b, c, n - 1);
    }
  }

  lemma FeeRateUnion(g: Graph, a: set<nat>, b: set<nat>)
    requires a !! b
    ensures FeeRate(g, a + b) == FeeRate(g, a).Plus(FeeRate(g, b))
  {
    hide SumTo;
    SumToUnion(g, a, b, a + b, |g.entries|);
  }

  /** A set splits into the part inside and the part outside another set. */
  lemma FeeRateSplit(g: Graph, a: set<nat>, b: set<nat>)
    ensures FeeRate(g, a) == FeeRate(g, a * b).Plus(FeeRate(g, a - b))
  {
    assert a == a * b + (a - b);
    FeeRateUnion(g, a * b, a - b);
  }

  lemma {:induction false} SumToNone(g: Graph, s: set<nat>, n: nat)
    requires forall i :: i in s ==> i >= n
    ensures SumTo(g, s, n) == EMPTY
  {
    if n > 0 {
      SumToNone(g, s, n - 1);
    }
  }

  lemma {:induction false} SumToSingleton(g: Graph, x: nat, n: nat)
    requires x < n
    ensures SumTo(g, {x}, n) == g.Fee(x)
  {
    if x == n - 1 {
      SumToNone(g, {x}, n - 1);
    } else {
      SumToSingleton(g, x, n - 1);
    }
  }

  lemma FeeRateSingleton(g: Graph, x: nat)
    ensures FeeRate(g, {x}) == g.Fee(x)
    ensures FeeRate(g, {}) == EMPTY
  {
    SumToNone(g, {}, |g.entries|);
    if x < |g.entries| {
      SumToSingleton(g, x, |g.entries|);
    } else {
      SumToNone(g, {x}, |g.entries|);
    }
  }

  lemma {:induction false} FeeRateSize(g: Graph, s: set<nat>)
    requires forall x :: x in s ==> x < |g.entries| && g.Fee(x).size > 0
    ensures s == {} <==> FeeRate(g, s).size == 0
    ensures s != {} ==> FeeRate(g, s).size > 0
    decreases s
  {
    if s == {} {
      FeeRateSingleton(g, 0);
    } else {
      var x :| x in s;
      FeeRateSplit(g, s, {x});
      assert s * {x} == {x};
      FeeRateSingleton(g, x);
      FeeRateSize(g, s - {x});
    }
  }

  lemma UsedRange(g: Graph)
    requires Valid(g)
    ensures forall x :: x in g.used ==> x < |g.entries|
  {
  }
}
