/** Connected components of a subset of a dependency graph (src/cluster_linearize.h:253-307). */
module Components {
  import opened Graphs
  import opened Sets

  /** One is an ancestor of the other. */
  ghost predicate Linked(g: Graph, x: nat, y: nat) {
    x in g.Anc(y) || y in g.Anc(x)
  }

  lemma LinkedSymmetric(g: Graph)
    ensures forall x, y :: Linked(g, x, y) ==> Linked(g, y, x)
  {
  }

  /** No transaction of `c` is linked to one of `todo` outside `c`. */
  ghost predicate Isolated(g: Graph, todo: set<nat>, c: set<nat>) {
    c <= todo && forall x, y :: x in c && y in todo && Linked(g, x, y) ==> y in c
  }

  /** A set that cannot be divided into two parts without links between them. */
  ghost predicate Connected(g: Graph, c: set<nat>) {
    forall p :: Isolated(g, c, p) ==> p == {} || p == c
  }

  /** A walk within `c` along links. */
  ghost predicate IsWalk(g: Graph, c: set<nat>, w: seq<nat>) {
    && |w| > 0 && (forall i :: 0 <= i < |w| ==> w[i] in c)
    && forall i :: 0 < i < |w| ==> Linked(g, w[i - 1], w[i])
  }

  ghost predicate Joined(g: Graph, c: set<nat>, x: nat, y: nat) {
    exists w :: IsWalk(g, c, w) && w[0] == x && w[|w| - 1] == y
  }

  /** A set cannot be divided exactly if any two of its transactions are joined by a walk within it. */
  lemma ConnectedByWalks(g: Graph, c: set<nat>)
    ensures Connected(g, c) <==> forall x, y :: x in c && y in c ==> Joined(g, c, x, y)
  {
    hide Linked, Joined;
    if Connected(g, c) {
      forall x, y | x in c && y in c
        ensures Joined(g, c, x, y)
      {
        var p := set z | z in c && Joined(g, c, x, z);
        JoinedSelf(g, c, x);
        forall u, v | u in p && v in c && Linked(g, u, v)
          ensures v in p
        {
          JoinedNext(g, c, x, u, v);
        }
        assert Isolated(g, c, p) && x in p;
        assert p == c;
      }
    }
    if forall x, y :: x in c && y in c ==> Joined(g, c, x, y) {
      forall p | Isolated(g, c, p)
        ensures p == {} || p == c
      {
        if x :| x in p {
          forall y | y in c
            ensures y in p
          {
            JoinedWithin(g, c, p, x, y);
          }
        }
      }
    }
  }

  lemma JoinedSelf(g: Graph, c: set<nat>, x: nat)
    requires x in c
    ensures Joined(g, c, x, x)
  {
    assert IsWalk(g, c, [x]);
  }

  lemma JoinedNext(g: Graph, c: set<nat>, x: nat, y: nat, z: nat)
    requires Joined(g, c, x, y) && z in c && Linked(g, y, z)
    ensures Joined(g, c, x, z)
  {
    hide Linked;
    var w :| IsWalk(g, c, w) && w[0] == x && w[|w| - 1] == y;
    assert IsWalk(g, c, w + [z]);
  }

  lemma JoinedWithin(g: Graph, c: set<nat>, p: set<nat>, x: nat, y: nat)
    requires Isolated(g, c, p) && x in p && Joined(g, c, x, y)
    ensures y in p
  {
    hide Linked;
    var w :| IsWalk(g, c, w) && w[0] == x && w[|w| - 1] == y;
    WalkWithin(g, c, p, w, |w| - 1);
  }

  /** A walk does not leave an isolated set. */
  lemma {:induction false} WalkWithin(g: Graph, c: set<nat>, p: set<nat>, w: seq<nat>, i: nat)
    requires Isolated(g, c, p) && IsWalk(g, c, w) && w[0] in p && i < |w|
    ensures w[i] in p
  {
    hide Linked;
    if i > 0 {
      WalkWithin(g, c, p, w, i - 1);
      assert Linked(g, w[i - 1], w[i]);
    }
  }

  /** Every isolated set with tx contains `s`. */
  ghost predicate Needed(g: Graph, todo: set<nat>, tx: nat, s: set<nat>) {
    forall p :: tx in p && Isolated(g, todo, p) ==> s <= p
  }

  /** All links of `done` into todo lead into `ret`. */
  ghost predicate Explored(g: Graph, todo: set<nat>, done: set<nat>, ret: set<nat>) {
    forall x, y :: x in done && y in todo && Linked(g, x, y) ==> y in ret
  }

  /** The neighbours of `s` in todo. */
  ghost predicate NeighboursOf(g: Graph, s: set<nat>, near: set<nat>) {
    forall y :: y in near <==> y in g.used && exists x :: x in s && Linked(g, x, y)
  }

  lemma ComponentStep(g: Graph, todo: set<nat>, tx: nat, ret: set<nat>, toAdd: set<nat>, near: set<nat>)
    requires todo <= g.used && toAdd <= todo && ret <= todo && NeighboursOf(g, toAdd, near)
    requires Needed(g, todo, tx, ret + toAdd) && Explored(g, todo, ret - toAdd, ret)
    ensures Needed(g, todo, tx, (ret + near) * todo)
    ensures Explored(g, todo, ret + toAdd, (ret + near) * todo)
  {
    hide Linked;
    forall p | tx in p && Isolated(g, todo, p)
      ensures (ret + near) * todo <= p
    {
      forall y | y in near * todo
        ensures y in p
      {
        var x :| x in toAdd && Linked(g, x, y);
        assert x in p;
      }
    }
  }

  lemma NeighboursInclude(g: Graph, s: set<nat>, near: set<nat>)
    requires Valid(g) && s <= g.used && NeighboursOf(g, s, near)
    ensures s <= near
  {
    hide NeighboursOf;
    forall x | x in s
      ensures x in near
    {
      assert Linked(g, x, x);
      LinkedIsNear(g, s, near, x, x);
    }
  }

  lemma LinkedIsNear(g: Graph, s: set<nat>, near: set<nat>, x: nat, y: nat)
    requires NeighboursOf(g, s, near) && x in s && y in g.used && Linked(g, x, y)
    ensures y in near
  {
  }

  lemma ComponentConnected(g: Graph, todo: set<nat>, tx: nat, ret: set<nat>)
    requires tx in ret && ret <= todo && Needed(g, todo, tx, ret) && Explored(g, todo, ret, ret)
    ensures Isolated(g, todo, ret) && Connected(g, ret)
  {
    LinkedSymmetric(g);
    hide Linked;
    forall p | Isolated(g, ret, p)
      ensures p == {} || p == ret
    {
      var z := if tx in p then p else ret - p;
      assert Isolated(g, todo, z);
      assert ret <= z;
    }
  }

  /** The connected component within `todo` that contains tx. */
  method GetConnectedComponent(g: Graph, todo: set<nat>, tx: nat) returns (ret: set<nat>)
    requires Valid(g) && todo <= g.used && tx in todo
    ensures tx in ret && Isolated(g, todo, ret) && Connected(g, ret)
  {
    hide Valid, Needed, Explored, NeighboursOf, Linked;
    var toAdd := {tx};
    ret := {};
    ComponentStart(g, todo, tx);
    while toAdd != {}
      invariant tx in ret + toAdd && (ret == {} || toAdd <= ret)
      invariant ret <= todo && toAdd <= todo
      invariant Explored(g, todo, ret - toAdd, ret)
      invariant Needed(g, todo, tx, ret + toAdd)
      decreases todo - ret, toAdd
    {
      var before := ret;
      var near := Neighbours(g, toAdd);
      NeighboursInclude(g, toAdd, near);
      ComponentStep(g, todo, tx, ret, toAdd, near);
      assert before + toAdd == if before == {} then toAdd else before;
      ghost var explored := before + toAdd;
      ret := (ret + near) * todo;
      toAdd := ret - before;
      assert ret + toAdd == ret;
      ExploredSubset(g, todo, explored, ret - toAdd, ret);
    }
    assert ret - toAdd == ret && ret + toAdd == ret;
    ComponentConnected(g, todo, tx, ret);
  }

  lemma ComponentStart(g: Graph, todo: set<nat>, tx: nat)
    ensures Explored(g, todo, {} - {tx}, {}) && Needed(g, todo, tx, {} + {tx})
  {
  }

  lemma ExploredSubset(g: Graph, todo: set<nat>, a: set<nat>, b: set<nat>, ret: set<nat>)
    requires Explored(g, todo, a, ret) && b <= a
    ensures Explored(g, todo, b, ret)
  {
  }

  method Neighbours(g: Graph, s: set<nat>) returns (r: set<nat>)
    requires Valid(g) && s <= g.used
    ensures NeighboursOf(g, s, r)
  {
    hide Valid, Linked;
    r := {};
    for i := 0 to |g.entries|
      invariant forall y :: y in r <==> y in g.used && exists x :: x in s && x < i && Linked(g, x, y)
    {
      if i in s {
        LinksOf(g, i);
        r := r + g.Desc(i) + g.Anc(i);
      }
    }
    UsedRange(g);
  }

  lemma LinksOf(g: Graph, i: nat)
    requires Valid(g) && i in g.used
    ensures forall y :: y in g.Desc(i) + g.Anc(i) <==> y in g.used && Linked(g, i, y)
  {
  }

  /** The connected component, within todo, of the lowest position in todo; nothing if todo is empty. */
  method FindConnectedComponent(g: Graph, todo: set<nat>) returns (ret: set<nat>)
    requires Valid(g) && todo <= g.used
    ensures todo != {} ==> exists tx :: tx in ret && forall x :: x in todo ==> tx <= x
    ensures Isolated(g, todo, ret) && Connected(g, ret)
  {
    if todo == {} {
      return todo;
    }
    var tx := First(todo);
    ret := GetConnectedComponent(g, todo, tx);
  }

  /** Any two transactions of the subset are joined by a walk of ancestor links within it. */
  method IsConnected(g: Graph, subset: set<nat>) returns (r: bool)
    requires Valid(g) && subset <= g.used
    ensures r <==> forall x, y :: x in subset && y in subset ==> Joined(g, subset, x, y)
  {
    ConnectedByWalks(g, subset);
    hide Joined;
    var c := FindConnectedComponent(g, subset);
    r := c == subset;
  }
}
