/** FixLinearization (src/cluster_linearize.h:1363-1393): making an ordering topological in place. */
module Fixing {
  import opened Graphs
  import opened Diagrams

  /** `t` with `e` placed directly after its last ancestor, or in front if there is none. */
  ghost function Placed(g: Graph, e: nat, t: seq<nat>): seq<nat> {
    if Elems(t) * g.Anc(e) == {} then [e] + t else [t[0]] + Placed(g, e, t[1..])
  }

  /** From the last element to the first, each one is placed behind the last of its ancestors further on. */
  ghost function Fixed(g: Graph, s: seq<nat>): seq<nat> {
    if s == [] then [] else Placed(g, s[0], Fixed(g, s[1..]))
  }

  lemma {:induction false} PlacedElems(g: Graph, e: nat, t: seq<nat>)
    ensures |Placed(g, e, t)| == |t| + 1
    ensures Elems(Placed(g, e, t)) == {e} + Elems(t)
    ensures Distinct(t) && e !in t ==> Distinct(Placed(g, e, t))
  {
    if Elems(t) * g.Anc(e) != {} {
      PlacedElems(g, e, t[1..]);
      assert t == [t[0]] + t[1..];
      var r := Placed(g, e, t[1..]);
      assert Elems([t[0]] + r) == {t[0]} + Elems(r);
      assert Elems(t) == {t[0]} + Elems(t[1..]);
      if Distinct(t) && e !in t {
        assert t[0] !in Elems(t[1..]);
        assert t[0] !in Elems(r);
      }
    }
  }

  /** Placing an element keeps the order topological. */
  lemma {:induction false} PlacedTopo(g: Graph, e: nat, t: seq<nat>)
    requires Valid(g) && Acyclic(g) && Topo(g, t) && Elems(t) <= g.used && e in g.used && e !in t
    ensures Topo(g, Placed(g, e, t))
  {
    hide Valid, Acyclic;
    if Elems(t) * g.Anc(e) == {} {
      forall x | x in t
        ensures x !in g.Anc(e)
      {
        assert x in Elems(t);
        assert x !in Elems(t) * g.Anc(e);
      }
    } else {
      var rest := t[1..];
      assert t[0] in Elems(t);
      assert e !in g.Anc(t[0]) by {
        if e in g.Anc(t[0]) {
          var a :| a in Elems(t) * g.Anc(e);
          NoAncestorAbove(g, e, t, a);
        }
      }
      assert Elems(rest) <= Elems(t);
      assert forall i :: 0 <= i < |rest| ==> rest[i] == t[i + 1];
      PlacedTopo(g, e, rest);
      PlacedElems(g, e, rest);
      var r := Placed(g, e, rest);
      forall j | 0 <= j < |r|
        ensures r[j] !in g.Anc(t[0])
      {
        assert r[j] in Elems(r);
      }
      forall i, j | 0 <= i < j < |r| + 1
        ensures ([t[0]] + r)[j] !in g.Anc(([t[0]] + r)[i])
      {
        assert ([t[0]] + r)[j] == r[j - 1];
      }
    }
  }

  /** The first of a topological ordering holding an ancestor of e cannot be a descendant of e. */
  lemma NoAncestorAbove(g: Graph, e: nat, t: seq<nat>, a: nat)
    requires Valid(g) && Acyclic(g) && Topo(g, t) && Elems(t) <= g.used && e in g.used && e !in t
    requires a in Elems(t) && a in g.Anc(e)
    ensures e !in g.Anc(t[0])
  {
    var j :| 0 <= j < |t| && t[j] == a;
    var first := t[0];
    assert first in Elems(t) && e != first;
    assert e in g.Anc(first) ==> g.Anc(e) <= g.Anc(first);
  }

  lemma {:induction false} FixedElems(g: Graph, s: seq<nat>)
    ensures |Fixed(g, s)| == |s| && Elems(Fixed(g, s)) == Elems(s)
    ensures Distinct(s) ==> Distinct(Fixed(g, s))
  {
    if s != [] {
      FixedElems(g, s[1..]);
      PlacedElems(g, s[0], Fixed(g, s[1..]));
      assert s == [s[0]] + s[1..];
      assert Elems(s) == {s[0]} + Elems(s[1..]);
      assert forall x :: x in Fixed(g, s[1..]) ==> x in Elems(Fixed(g, s[1..]));
    }
  }

  /** The fixed ordering is a topological reordering of the given one. */
  lemma {:induction false} FixedTopo(g: Graph, s: seq<nat>)
    requires Valid(g) && Acyclic(g) && Distinct(s) && Elems(s) <= g.used
    ensures Topo(g, Fixed(g, s)) && Distinct(Fixed(g, s)) && Elems(Fixed(g, s)) == Elems(s)
  {
    hide Valid, Acyclic;
    FixedElems(g, s);
    if s != [] {
      var rest := s[1..];
      assert s == [s[0]] + rest;
      assert Elems(s) == {s[0]} + Elems(rest);
      FixedTopo(g, rest);
      assert s[0] !in Fixed(g, rest) by {
        assert s[0] !in Elems(rest);
        assert forall x :: x in Fixed(g, rest) ==> x in Elems(Fixed(g, rest));
      }
      PlacedTopo(g, s[0], Fixed(g, rest));
    }
  }

  /** An ordering that is already topological is left as it is. */
  lemma {:induction false} FixedIdentity(g: Graph, s: seq<nat>)
    requires Topo(g, s)
    ensures Fixed(g, s) == s
  {
    if s != [] {
      var rest := s[1..];
      assert forall i :: 0 <= i < |rest| ==> rest[i] == s[i + 1];
      FixedIdentity(g, rest);
      assert Elems(rest) * g.Anc(s[0]) == {};
    }
  }

  /** Elements after the last ancestor of e stay behind e, in their order: e moves no further than it must. */
  lemma {:induction false} PlacedKeepsOrder(g: Graph, e: nat, t: seq<nat>, k: nat)
    requires k <= |t| && Elems(t[k..]) * g.Anc(e) == {}
    ensures |Placed(g, e, t)| == |t| + 1 && Placed(g, e, t)[k + 1..] == t[k..]
  {
    PlacedElems(g, e, t);
    if k > 0 && Elems(t) * g.Anc(e) != {} {
      var r := Placed(g, e, t[1..]);
      assert t[1..][k - 1..] == t[k..];
      PlacedKeepsOrder(g, e, t[1..], k - 1);
      assert ([t[0]] + r)[k + 1..] == r[k..];
    } else {
      assert t[0..] == t;
    }
  }

  /** One more element of t goes before e. */
  lemma PlacedStep(g: Graph, e: nat, t: seq<nat>, m: nat)
    requires m < |t| && Elems(t[m..]) * g.Anc(e) != {} && Placed(g, e, t) == t[..m] + Placed(g, e, t[m..])
    ensures Placed(g, e, t) == t[..m + 1] + Placed(g, e, t[m + 1..])
  {
    hide Placed, Elems;
    PlacedUnfold(g, e, t[m..]);
    assert t[m..][1..] == t[m + 1..];
    assert t[..m + 1] == t[..m] + [t[m]];
    assert t[..m] + ([t[m]] + Placed(g, e, t[m + 1..])) == (t[..m] + [t[m]]) + Placed(g, e, t[m + 1..]);
  }

  lemma PlacedUnfold(g: Graph, e: nat, t: seq<nat>)
    requires t != [] && Elems(t) * g.Anc(e) != {}
    ensures Placed(g, e, t) == [t[0]] + Placed(g, e, t[1..])
  {
  }

  lemma RestElems(t: seq<nat>, m: nat)
    requires m < |t| && Distinct(t)
    ensures Elems(t[m + 1..]) == Elems(t[m..]) - {t[m]}
  {
    assert t[m..] == [t[m]] + t[m + 1..];
    assert Elems(t[m..]) == {t[m]} + Elems(t[m + 1..]);
    assert t[m] !in Elems(t[m + 1..]);
  }

  /** Moves the element in front of position `at` to its place among the elements after it. */
  method Place(g: Graph, linearization: array<nat>, at: nat, done: set<nat>)
    requires at < linearization.Length && Distinct(linearization[at + 1..]) && done == Elems(linearization[at + 1..])
    modifies linearization
    ensures linearization[..] == old(linearization[..at]) + Placed(g, old(linearization[at]), old(linearization[at + 1..]))
  {
    hide Placed, Distinct, Elems;
    var len := linearization.Length;
    ghost var s, t := linearization[..], linearization[at + 1..];
    var elem := linearization[at];
    var j := len - 1 - at;
    var placeBefore := done * g.Anc(elem);
    assert t[0..] == t;
    while placeBefore != {}
      invariant 0 <= j <= len - 1 - at
      invariant var m := len - 1 - at - j;
                && placeBefore == Elems(t[m..]) * g.Anc(elem)
                && Placed(g, elem, t) == t[..m] + Placed(g, elem, t[m..])
      invariant forall i :: 0 <= i < at ==> linearization[i] == s[i]
      invariant forall i :: at <= i < len - 1 - j ==> linearization[i] == s[i + 1]
      invariant forall i :: len - 1 - j < i < len ==> linearization[i] == s[i]
      decreases j
    {
      ghost var m := len - 1 - at - j;
      SomeElems(t[m..], g.Anc(elem));
      assert j > 0;
      PlacedStep(g, elem, t, m);
      RestElems(t, m);
      var toSwap := linearization[len - 1 - (j - 1)];
      assert toSwap == t[m];
      placeBefore := placeBefore - {toSwap};
      linearization[len - 1 - j] := toSwap;
      j := j - 1;
    }
    linearization[len - 1 - j] := elem;
    ghost var m := len - 1 - at - j;
    PlacedFront(g, elem, t[m..]);
    assert linearization[..] == s[..at] + (t[..m] + ([elem] + t[m..])) by {
      AfterPlacing(s, linearization[..], at, m);
    }
  }

  lemma SomeElems(t: seq<nat>, s: set<nat>)
    requires Elems(t) * s != {}
    ensures |t| > 0
  {
  }

  lemma PlacedFront(g: Graph, e: nat, t: seq<nat>)
    requires Elems(t) * g.Anc(e) == {}
    ensures Placed(g, e, t) == [e] + t
  {
  }

  /** The elements between the old and the new place of s[at] moved one forward. */
  lemma AfterPlacing(s: seq<nat>, r: seq<nat>, at: nat, m: nat)
    requires at + m < |s| == |r|
    requires forall i :: 0 <= i < at ==> r[i] == s[i]
    requires forall i :: at <= i < at + m ==> r[i] == s[i + 1]
    requires r[at + m] == s[at]
    requires forall i :: at + m < i < |s| ==> r[i] == s[i]
    ensures r == s[..at] + (s[at + 1..][..m] + ([s[at]] + s[at + 1..][m..]))
  {
  }

  lemma FixedStep(g: Graph, s: seq<nat>, at: nat)
    requires at < |s|
    ensures Fixed(g, s[at..]) == Placed(g, s[at], Fixed(g, s[at + 1..]))
  {
    assert s[at..][1..] == s[at + 1..];
  }

  lemma SuffixDistinct(s: seq<nat>, at: nat)
    requires at <= |s| && Distinct(s)
    ensures Distinct(s[at..])
  {
  }

  /** In place: the array becomes Fixed of what it was. */
  method FixLinearization(g: Graph, linearization: array<nat>)
    requires Valid(g) && Acyclic(g) && Distinct(linearization[..]) && Elems(linearization[..]) <= g.used
    modifies linearization
    ensures linearization[..] == Fixed(g, old(linearization[..]))
    ensures Topo(g, linearization[..]) && Distinct(linearization[..])
    ensures Elems(linearization[..]) == Elems(old(linearization[..]))
    ensures old(Topo(g, linearization[..])) ==> linearization[..] == old(linearization[..])
  {
    hide Valid, Acyclic, Fixed, Placed, Distinct, Topo;
    ghost var s := linearization[..];
    var len := linearization.Length;
    var done: set<nat> := {};
    assert s[..len] == s && s[len..] == [];
    FixedElems(g, s[len..]);
    for i := 0 to len
      invariant linearization[..len - i] == s[..len - i]
      invariant linearization[len - i..] == Fixed(g, s[len - i..])
      invariant done == Elems(linearization[len - i..])
    {
      var at := len - 1 - i;
      SuffixDistinct(s, len - i);
      FixedElems(g, s[len - i..]);
      FixedStep(g, s, at);
      PlacedElems(g, s[at], linearization[len - i..]);
      var elem := linearization[at];
      assert elem == s[at];
      Place(g, linearization, at, done);
      done := done + {elem};
      assert linearization[..at] == s[..at];
    }
    assert s[0..] == s && linearization[0..] == linearization[..];
    FixedTopo(g, s);
    if Topo(g, s) {
      FixedIdentity(g, s);
    }
  }
}
