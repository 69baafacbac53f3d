/**
  PostLinearize over its linked lists (src/cluster_linearize.h:1136-1319), proved to compute
  PostOrder. The lists run backwards: from the sentinel, entry 0, to the last group, and from
  the last transaction of a group both to the one before it and to the group before. The entry
  of a transaction is one behind its position.
*/
module PostLinearizing {
  import opened FeeRates
  import opened Graphs
  import opened Diagrams
  import opened Compare
  import opened Chunkings
  import opened Components
  import opened Merging
  import opened Groupings
  import opened PostTheory
  import opened PostTrees
  import opened PostGuarantees

  datatype TxEntry = TxEntry(prevTx: nat, firstTx: nat, prevGroup: nat, group: set<nat>, deps: set<nat>, feerate: FeeFrac)

  const SENTINEL: nat := 0
  const NO_PREV_TX: nat := 0

  // ---------- what the entries represent ----------

  /** The entry of a group's last transaction, which represents the group. */
  ghost function Tail(grp: seq<nat>): nat
    requires grp != []
  {
    grp[|grp| - 1] + 1
  }

  ghost predicate NonEmpty(groups: seq<seq<nat>>) {
    forall k :: 0 <= k < |groups| ==> groups[k] != []
  }

  /** The entry of the k-th group; the sentinel comes after the last one. */
  ghost function Node(groups: seq<seq<nat>>, k: nat): nat
    requires NonEmpty(groups) && k <= |groups|
  {
    if k < |groups| then Tail(groups[k]) else SENTINEL
  }

  /** The entry of the group before the k-th; the sentinel comes before the first one. */
  ghost function Before(groups: seq<seq<nat>>, k: nat): nat
    requires NonEmpty(groups) && k <= |groups|
  {
    if k == 0 then SENTINEL else Tail(groups[k - 1])
  }

  /** Transactions chained back to front, and the group's data at its last one. */
  ghost predicate GroupRep(g: Graph, es: seq<TxEntry>, grp: seq<nat>) {
    && grp != [] && Distinct(grp)
    && (forall j :: 0 <= j < |grp| ==> grp[j] + 1 < |es|)
    && (forall j :: 0 <= j < |grp| ==> es[grp[j] + 1].prevTx == if j == 0 then NO_PREV_TX else grp[j - 1] + 1)
    && var e := es[Tail(grp)];
       e.firstTx == grp[0] + 1 && e.group == Elems(grp) && e.deps == Deps(g, grp) && e.feerate == Sum(g, grp)
  }

  ghost predicate Links(es: seq<TxEntry>, groups: seq<seq<nat>>)
    requires NonEmpty(groups)
  {
    forall k :: 0 <= k <= |groups| ==> Node(groups, k) < |es| && es[Node(groups, k)].prevGroup == Before(groups, k)
  }

  ghost predicate Apart(groups: seq<seq<nat>>) {
    forall i, j :: 0 <= i < j < |groups| ==> Elems(groups[i]) !! Elems(groups[j])
  }

  ghost predicate Rep(g: Graph, es: seq<TxEntry>, groups: seq<seq<nat>>) {
    && |es| > 0 && es[SENTINEL].feerate == EMPTY
    && (forall k :: 0 <= k < |groups| ==> GroupRep(g, es, groups[k]))
    && Apart(groups) && NonEmpty(groups) && Links(es, groups)
  }

  // ---------- the three updates ----------

  function InsertEntry(es: seq<TxEntry>, idx: nat, deps: set<nat>, feerate: FeeFrac): seq<TxEntry>
    requires idx + 1 < |es|
  {
    var e := TxEntry(NO_PREV_TX, idx + 1, es[SENTINEL].prevGroup, {idx}, deps, feerate);
    es[idx + 1 := e][SENTINEL := es[SENTINEL].(prevGroup := idx + 1)]
  }

  function MergeEntries(es: seq<TxEntry>, cur: nat, prev: nat): seq<TxEntry>
    requires cur < |es| && prev < |es| && es[cur].firstTx < |es|
  {
    var c, p := es[cur], es[prev];
    var es1 := es[cur := c.(group := c.group + p.group, deps := c.deps + p.deps, feerate := c.feerate.Plus(p.feerate))];
    var es2 := es1[c.firstTx := es1[c.firstTx].(prevTx := prev)];
    es2[cur := es2[cur].(firstTx := es2[prev].firstTx, prevGroup := es2[prev].prevGroup)]
  }

  function SwapEntries(es: seq<TxEntry>, next: nat, cur: nat, prev: nat): seq<TxEntry>
    requires cur < |es| && prev < |es| && next < |es|
  {
    var preprev := es[prev].prevGroup;
    var es1 := es[next := es[next].(prevGroup := prev)];
    var es2 := es1[prev := es1[prev].(prevGroup := cur)];
    es2[cur := es2[cur].(prevGroup := preprev)]
  }

  /** A group is unaffected by changes elsewhere and to prevGroup fields. */
  lemma GroupRepFrame(g: Graph, es: seq<TxEntry>, es': seq<TxEntry>, grp: seq<nat>)
    requires GroupRep(g, es, grp) && |es'| == |es|
    requires forall x :: x in Elems(grp) ==> x + 1 < |es| && es'[x + 1].(prevGroup := 0) == es[x + 1].(prevGroup := 0)
    ensures GroupRep(g, es', grp)
  {
    hide Sum, Deps;
    forall j | 0 <= j < |grp|
      ensures es'[grp[j] + 1].(prevGroup := 0) == es[grp[j] + 1].(prevGroup := 0)
    {
      assert grp[j] in Elems(grp);
    }
    forall j | 0 <= j < |grp|
      ensures es'[grp[j] + 1].prevTx == if j == 0 then NO_PREV_TX else grp[j - 1] + 1
    {
      assert es'[grp[j] + 1].(prevGroup := 0) == es[grp[j] + 1].(prevGroup := 0);
      assert es'[grp[j] + 1].prevTx == es[grp[j] + 1].prevTx;
    }
    var n := |grp| - 1;
    assert es'[grp[n] + 1].(prevGroup := 0) == es[grp[n] + 1].(prevGroup := 0);
  }

  lemma TailIn(grp: seq<nat>)
    requires grp != []
    ensures Tail(grp) - 1 in Elems(grp) && Tail(grp) > 0
  {
  }

  /** Tails of different groups differ. */
  lemma TailsApart(groups: seq<seq<nat>>, i: nat, j: nat)
    requires NonEmpty(groups) && Apart(groups) && i < |groups| && j < |groups| && i != j
    ensures Tail(groups[i]) != Tail(groups[j])
  {
    TailIn(groups[i]);
    TailIn(groups[j]);
  }

  lemma RepInsert(g: Graph, es: seq<TxEntry>, groups: seq<seq<nat>>, idx: nat)
    requires Rep(g, es, groups) && idx + 1 < |es|
    requires forall k :: 0 <= k < |groups| ==> idx !in Elems(groups[k])
    ensures Rep(g, InsertEntry(es, idx, g.Anc(idx), g.Fee(idx)), groups + [[idx]])
  {
    hide Sum, Deps;
    var es', groups' := InsertEntry(es, idx, g.Anc(idx), g.Fee(idx)), groups + [[idx]];
    var n := |groups|;
    assert NonEmpty(groups');
    assert Elems([idx]) == {idx};
    SingletonData(g, idx);
    forall k | 0 <= k < n
      ensures GroupRep(g, es', groups'[k])
    {
      GroupRepFrame(g, es, es', groups[k]);
    }
    forall k | 0 <= k <= |groups'|
      ensures Node(groups', k) < |es'| && es'[Node(groups', k)].prevGroup == Before(groups', k)
    {
      if k < n {
        assert Node(groups', k) == Node(groups, k) && Before(groups', k) == Before(groups, k);
        TailIn(groups[k]);
      } else if k == n {
        assert Before(groups', n) == Before(groups, n) && Node(groups, n) == SENTINEL;
      }
    }
  }

  lemma SingletonData(g: Graph, x: nat)
    ensures Deps(g, [x]) == g.Anc(x) && Sum(g, [x]) == g.Fee(x)
  {
    hide Graphs.Graph.Fee, Graphs.Graph.Anc;
    var one: seq<nat> := [x];
    assert one[..0] == [];
    assert Sum(g, one).fee == g.Fee(x).fee && Sum(g, one).size == g.Fee(x).size;
  }

  /** The list of groups after merging group k - 1 into group k. */
  ghost function MergedGroups(groups: seq<seq<nat>>, k: nat): seq<seq<nat>>
    requires 0 < k < |groups|
  {
    groups[..k - 1] + [groups[k - 1] + groups[k]] + groups[k + 1..]
  }

  /** The list of groups after swapping group k - 1 and group k. */
  ghost function SwappedGroups(groups: seq<seq<nat>>, k: nat): seq<seq<nat>>
    requires 0 < k < |groups|
  {
    groups[..k - 1] + [groups[k], groups[k - 1]] + groups[k + 1..]
  }

  lemma MergedApart(groups: seq<seq<nat>>, k: nat)
    requires 0 < k < |groups| && Apart(groups) && NonEmpty(groups)
    ensures Apart(MergedGroups(groups, k)) && NonEmpty(MergedGroups(groups, k))
  {
    var m := MergedGroups(groups, k);
    assert Elems(groups[k - 1] + groups[k]) == Elems(groups[k - 1]) + Elems(groups[k]);
    forall i, j | 0 <= i < j < |m|
      ensures Elems(m[i]) !! Elems(m[j])
    {
      if i < k - 1 {
        assert m[i] == groups[i];
      } else if i > k - 1 {
        assert m[i] == groups[i + 1];
      }
      if j < k - 1 {
        assert m[j] == groups[j];
      } else if j > k - 1 {
        assert m[j] == groups[j + 1];
      }
    }
  }

  lemma RepMerge(g: Graph, es: seq<TxEntry>, groups: seq<seq<nat>>, k: nat)
    requires Rep(g, es, groups) && 0 < k < |groups|
    ensures es[Tail(groups[k])].firstTx < |es|
    ensures Rep(g, MergeEntries(es, Tail(groups[k]), Tail(groups[k - 1])), MergedGroups(groups, k))
    ensures es[Tail(groups[k - 1])].prevGroup == Before(groups, k - 1)
  {
    hide Sum, Deps, GroupRep;
    var p, c := groups[k - 1], groups[k];
    assert GroupRep(g, es, p) && GroupRep(g, es, c);
    GroupRepTail(g, es, c);
    GroupRepTail(g, es, p);
    TailsApart(groups, k - 1, k);
    assert Node(groups, k - 1) == Tail(p);
    var es', m := MergeEntries(es, Tail(c), Tail(p)), MergedGroups(groups, k);
    MergedApart(groups, k);
    MergedGroupRep(g, es, p, c);
    TailIn(c);
    forall i | 0 <= i < |m|
      ensures GroupRep(g, es', m[i])
    {
      if i != k - 1 {
        var i' := if i < k - 1 then i else i + 1;
        assert m[i] == groups[i'];
        OutsideMerge(g, es, p, c, groups[i']);
      }
    }
    forall i | 0 <= i <= |m|
      ensures Node(m, i) < |es'| && es'[Node(m, i)].prevGroup == Before(m, i)
    {
      MergedLink(g, es, groups, k, i);
    }
  }

  lemma GroupRepTail(g: Graph, es: seq<TxEntry>, grp: seq<nat>)
    requires GroupRep(g, es, grp)
    ensures grp != [] && Tail(grp) < |es| && grp[0] + 1 < |es| && es[Tail(grp)].firstTx == grp[0] + 1
  {
  }

  /** A third group is unaffected by merging p into c. */
  lemma OutsideMerge(g: Graph, es: seq<TxEntry>, p: seq<nat>, c: seq<nat>, other: seq<nat>)
    requires GroupRep(g, es, p) && GroupRep(g, es, c) && GroupRep(g, es, other)
    requires Elems(p) !! Elems(other) && Elems(c) !! Elems(other)
    ensures GroupRep(g, MergeEntries(es, Tail(c), Tail(p)), other)
  {
    hide Sum, Deps;
    TailIn(c);
    assert c[0] in Elems(c);
    forall x | x in Elems(other)
      ensures x + 1 < |es|
    {
      var j :| 0 <= j < |other| && other[j] == x;
    }
    GroupRepFrame(g, es, MergeEntries(es, Tail(c), Tail(p)), other);
  }

  /** The chain and data of the merged group. */
  lemma MergedGroupRep(g: Graph, es: seq<TxEntry>, p: seq<nat>, c: seq<nat>)
    requires GroupRep(g, es, p) && GroupRep(g, es, c) && Elems(p) !! Elems(c)
    ensures GroupRep(g, MergeEntries(es, Tail(c), Tail(p)), p + c)
  {
    var es', m := MergeEntries(es, Tail(c), Tail(p)), p + c;
    MergedChain(g, es, p, c);
    hide Sum, Deps;
    DistinctSplit(p, c);
    SumConcat(g, p, c);
    DepsConcat(g, p, c);
    TailIn(p);
    TailIn(c);
    assert c[0] in Elems(c);
    assert Tail(m) == Tail(c);
    assert Elems(m) == Elems(p) + Elems(c);
  }

  lemma MergedChain(g: Graph, es: seq<TxEntry>, p: seq<nat>, c: seq<nat>)
    requires GroupRep(g, es, p) && GroupRep(g, es, c) && Elems(p) !! Elems(c)
    ensures var es', m := MergeEntries(es, Tail(c), Tail(p)), p + c;
            forall j :: 0 <= j < |m| ==> m[j] + 1 < |es'| && es'[m[j] + 1].prevTx == if j == 0 then NO_PREV_TX else m[j - 1] + 1
  {
    hide Sum, Deps, Elems;
    var es', m := MergeEntries(es, Tail(c), Tail(p)), p + c;
    forall j | 0 <= j < |m|
      ensures m[j] + 1 < |es'| && es'[m[j] + 1].prevTx == if j == 0 then NO_PREV_TX else m[j - 1] + 1
    {
      if j < |p| {
        InElems(p, j);
        InElems(c, 0);
        InElems(c, |c| - 1);
      } else if j > |p| {
        var i := j - |p|;
        assert c[i] != c[0];
      }
    }
  }

  lemma InElems(s: seq<nat>, j: nat)
    requires j < |s|
    ensures s[j] in Elems(s)
  {
  }

  lemma MergedLink(g: Graph, es: seq<TxEntry>, groups: seq<seq<nat>>, k: nat, i: nat)
    requires Rep(g, es, groups) && 0 < k < |groups| && NonEmpty(MergedGroups(groups, k)) && i <= |MergedGroups(groups, k)|
    requires Node(groups, k) < |es| && Node(groups, k - 1) < |es| && es[Node(groups, k)].firstTx < |es|
    ensures var es', m := MergeEntries(es, Tail(groups[k]), Tail(groups[k - 1])), MergedGroups(groups, k);
            Node(m, i) < |es'| && es'[Node(m, i)].prevGroup == Before(m, i)
  {
    hide Sum, Deps, GroupRep;
    assert Node(groups, k) < |es| && Node(groups, k - 1) < |es|;
    var es', m := MergeEntries(es, Tail(groups[k]), Tail(groups[k - 1])), MergedGroups(groups, k);
    TailsApart(groups, k - 1, k);
    TailIn(groups[k]);
    var i' := if i < k - 1 then i else i + 1;
    if i != k - 1 {
      assert Node(m, i) == Node(groups, i');
      assert Before(m, i) == Before(groups, i');
      if i' < |groups| {
        TailsApart(groups, i', k);
      }
    } else {
      assert Node(m, i) == Tail(groups[k]) && Before(m, i) == Before(groups, k - 1);
      assert Node(groups, k - 1) == Tail(groups[k - 1]);
    }
  }

  lemma RepSwap(g: Graph, es: seq<TxEntry>, groups: seq<seq<nat>>, k: nat)
    requires Rep(g, es, groups) && 0 < k < |groups|
    ensures var next, cur, prev := Node(groups, k + 1), Tail(groups[k]), Tail(groups[k - 1]);
            Rep(g, SwapEntries(es, next, cur, prev), SwappedGroups(groups, k)) && es[prev].prevGroup == Before(groups, k - 1)
  {
    hide Sum, Deps, GroupRep;
    var next, cur, prev := Node(groups, k + 1), Tail(groups[k]), Tail(groups[k - 1]);
    assert Node(groups, k) == cur && Node(groups, k - 1) == prev;
    var es', m := SwapEntries(es, next, cur, prev), SwappedGroups(groups, k);
    assert NonEmpty(m);
    forall i | 0 <= i < |m|
      ensures GroupRep(g, es', m[i])
    {
      var i' := if i == k - 1 then k else if i == k then k - 1 else i;
      assert m[i] == groups[i'] && GroupRep(g, es, groups[i']);
      OnlyPrevGroup(g, es, next, cur, prev, groups[i']);
    }
    assert Apart(m) by {
      SwappedApart(groups, k);
    }
    forall i | 0 <= i <= |m|
      ensures Node(m, i) < |es'| && es'[Node(m, i)].prevGroup == Before(m, i)
    {
      SwappedLink(g, es, groups, k, i);
    }
  }

  lemma OnlyPrevGroup(g: Graph, es: seq<TxEntry>, next: nat, cur: nat, prev: nat, grp: seq<nat>)
    requires GroupRep(g, es, grp) && next < |es| && cur < |es| && prev < |es|
    ensures GroupRep(g, SwapEntries(es, next, cur, prev), grp)
  {
    hide Sum, Deps;
    forall x | x in Elems(grp)
      ensures x + 1 < |es|
    {
      var j :| 0 <= j < |grp| && grp[j] == x;
    }
    GroupRepFrame(g, es, SwapEntries(es, next, cur, prev), grp);
  }

  lemma SwappedApart(groups: seq<seq<nat>>, k: nat)
    requires 0 < k < |groups| && Apart(groups)
    ensures Apart(SwappedGroups(groups, k))
  {
    var m := SwappedGroups(groups, k);
    forall i, j | 0 <= i < j < |m|
      ensures Elems(m[i]) !! Elems(m[j])
    {
      var i' := if i == k - 1 then k else if i == k then k - 1 else i;
      var j' := if j == k - 1 then k else if j == k then k - 1 else j;
      assert m[i] == groups[i'] && m[j] == groups[j'];
    }
  }

  lemma SwappedLink(g: Graph, es: seq<TxEntry>, groups: seq<seq<nat>>, k: nat, i: nat)
    requires Rep(g, es, groups) && 0 < k < |groups| && NonEmpty(SwappedGroups(groups, k)) && i <= |groups|
    ensures var next, cur, prev := Node(groups, k + 1), Tail(groups[k]), Tail(groups[k - 1]);
            var es', m := SwapEntries(es, next, cur, prev), SwappedGroups(groups, k);
            |m| == |groups| && Node(m, i) < |es'| && es'[Node(m, i)].prevGroup == Before(m, i)
  {
    hide Sum, Deps, GroupRep;
    var next, cur, prev := Node(groups, k + 1), Tail(groups[k]), Tail(groups[k - 1]);
    var m := SwappedGroups(groups, k);
    assert Node(groups, k) == cur && Node(groups, k - 1) == prev;
    assert Before(groups, k - 1) == es[prev].prevGroup;
    TailsApart(groups, k - 1, k);
    TailIn(groups[k]);
    TailIn(groups[k - 1]);
    if k + 1 < |groups| {
      TailsApart(groups, k + 1, k);
      TailsApart(groups, k + 1, k - 1);
    }
    if i == k - 1 {
      assert Node(m, i) == cur && Before(m, i) == Before(groups, k - 1);
    } else if i == k {
      assert Node(m, i) == prev && Before(m, i) == cur;
    } else if i == k + 1 {
      assert Node(m, i) == next && Before(m, i) == prev;
    } else {
      assert Node(m, i) == Node(groups, i) && Before(m, i) == Before(groups, i);
      if i < |groups| {
        TailsApart(groups, i, k);
        TailsApart(groups, i, k - 1);
        TailIn(groups[i]);
        if k + 1 < |groups| {
          TailsApart(groups, i, k + 1);
        }
      } else {
        TailIn(groups[k + 1]);
      }
    }
  }

  // ---------- the steps on the entries ----------

  method InsertGroup(entries: array<TxEntry>, idx: nat, deps: set<nat>, feerate: FeeFrac)
    requires idx + 1 < entries.Length
    modifies entries
    ensures entries[..] == InsertEntry(old(entries[..]), idx, deps, feerate)
  {
    var cur := idx + 1;
    entries[cur] := entries[cur].(group := {idx}, deps := deps, feerate := feerate);
    entries[cur] := entries[cur].(prevTx := NO_PREV_TX, firstTx := cur, prevGroup := entries[SENTINEL].prevGroup);
    entries[SENTINEL] := entries[SENTINEL].(prevGroup := cur);
  }

  /** Merges the previous group into the current one, and returns the new previous group. */
  method MergePrevious(entries: array<TxEntry>, cur: nat, prev: nat) returns (prev': nat)
    requires cur < entries.Length && prev < entries.Length && cur != prev
    requires entries[cur].firstTx < entries.Length && entries[cur].firstTx != prev
    modifies entries
    ensures entries[..] == MergeEntries(old(entries[..]), cur, prev)
    ensures prev' == old(entries[prev].prevGroup)
  {
    var p := entries[prev];
    entries[cur] := entries[cur].(group := entries[cur].group + p.group, deps := entries[cur].deps + p.deps,
                                  feerate := entries[cur].feerate.Plus(p.feerate));
    var first := entries[cur].firstTx;
    entries[first] := entries[first].(prevTx := prev);
    entries[cur] := entries[cur].(firstTx := entries[prev].firstTx);
    prev' := entries[prev].prevGroup;
    entries[cur] := entries[cur].(prevGroup := prev');
  }

  /** Swaps the previous and the current group, and returns the new next and previous groups. */
  method SwapPrevious(entries: array<TxEntry>, next: nat, cur: nat, prev: nat) returns (next': nat, prev': nat)
    requires cur < entries.Length && prev < entries.Length && next < entries.Length
    modifies entries
    ensures entries[..] == SwapEntries(old(entries[..]), next, cur, prev)
    ensures next' == prev && prev' == old(entries[prev].prevGroup)
  {
    prev' := entries[prev].prevGroup;
    entries[next] := entries[next].(prevGroup := prev);
    entries[prev] := entries[prev].(prevGroup := cur);
    entries[cur] := entries[cur].(prevGroup := prev');
    next' := prev;
  }

  // ---------- inserting one transaction ----------

  /** The entries represent `before + [c] + after`, and the three indices point around c. */
  ghost predicate Around(g: Graph, es: seq<TxEntry>, before: seq<seq<nat>>, c: seq<nat>, after: seq<seq<nat>>,
                         next: nat, cur: nat, prev: nat)
  {
    var groups := before + [c] + after;
    && Rep(g, es, groups)
    && next == Node(groups, |before| + 1) && cur == Node(groups, |before|) && prev == Before(groups, |before|)
  }

  /** What can be read off the entries at this point. */
  lemma AroundFacts(g: Graph, es: seq<TxEntry>, before: seq<seq<nat>>, c: seq<nat>, after: seq<seq<nat>>,
                    next: nat, cur: nat, prev: nat)
    requires Around(g, es, before, c, after, next, cur, prev)
    ensures next < |es| && cur < |es| && prev < |es|
    ensures es[next].prevGroup == cur && es[cur].prevGroup == prev
    ensures es[cur].feerate == Sum(g, c) && es[cur].deps == Deps(g, c) && cur != SENTINEL
    ensures before == [] ==> prev == SENTINEL && es[prev].feerate == EMPTY
    ensures before != [] ==> PrevFacts(g, es, before[|before| - 1], prev) && prev != cur
    ensures es[cur].firstTx < |es| && (before != [] ==> es[cur].firstTx != prev)
  {
    hide Sum, Deps;
    var groups, k := before + [c] + after, |before|;
    assert groups[k] == c;
    assert Node(groups, k + 1) < |es| && es[Node(groups, k + 1)].prevGroup == Before(groups, k + 1);
    assert Node(groups, k) < |es| && es[Node(groups, k)].prevGroup == Before(groups, k);
    assert GroupRep(g, es, groups[k]);
    if before != [] {
      assert groups[k - 1] == before[k - 1];
      assert GroupRep(g, es, groups[k - 1]);
      TailsApart(groups, k - 1, k);
      TailIn(groups[k - 1]);
      assert c[0] in Elems(groups[k]);
    }
  }

  ghost predicate PrevFacts(g: Graph, es: seq<TxEntry>, p: seq<nat>, prev: nat) {
    prev < |es| && prev != SENTINEL && es[prev].feerate == Sum(g, p) && es[prev].group == Elems(p)
  }

  lemma AroundInsert(g: Graph, es: seq<TxEntry>, groups: seq<seq<nat>>, idx: nat)
    requires Rep(g, es, groups) && idx + 1 < |es| && idx !in Concat(groups)
    ensures var es' := InsertEntry(es, idx, g.Anc(idx), g.Fee(idx));
            Around(g, es', groups, [idx], [], SENTINEL, idx + 1, es'[idx + 1].prevGroup)
  {
    hide GroupRep;
    forall k | 0 <= k < |groups|
      ensures idx !in Elems(groups[k])
    {
      InConcat(groups, k);
    }
    RepInsert(g, es, groups, idx);
    assert groups + [[idx]] == groups + [[idx]] + [];
    var es' := InsertEntry(es, idx, g.Anc(idx), g.Fee(idx));
    var groups' := groups + [[idx]] + [];
    assert es'[Node(groups', |groups|)].prevGroup == Before(groups', |groups|);
  }

  lemma InConcat(groups: seq<seq<nat>>, k: nat)
    requires k < |groups|
    ensures forall x :: x in groups[k] ==> x in Concat(groups)
  {
    ConcatBounds(groups, k + 1);
    assert groups[..k + 1][..k] == groups[..k];
    assert Concat(groups[..k + 1]) == Concat(groups[..k]) + groups[k];
  }

  lemma AroundMerge(g: Graph, es: seq<TxEntry>, before: seq<seq<nat>>, c: seq<nat>, after: seq<seq<nat>>,
                    next: nat, cur: nat, prev: nat)
    requires Around(g, es, before, c, after, next, cur, prev) && before != []
    requires cur < |es| && prev < |es| && es[cur].firstTx < |es|
    ensures var n := |before| - 1;
            Around(g, MergeEntries(es, cur, prev), before[..n], before[n] + c, after, next, cur, es[prev].prevGroup)
  {
    hide GroupRep, MergeEntries, Apart;
    var n := |before| - 1;
    var groups := before + [c] + after;
    RepMerge(g, es, groups, n + 1);
    var m := before[..n] + [before[n] + c] + after;
    assert MergedGroups(groups, n + 1) == m;
    assert Before(groups, n) == Before(m, n);
  }

  lemma AroundSwap(g: Graph, es: seq<TxEntry>, before: seq<seq<nat>>, c: seq<nat>, after: seq<seq<nat>>,
                   next: nat, cur: nat, prev: nat)
    requires Around(g, es, before, c, after, next, cur, prev) && before != []
    requires cur < |es| && prev < |es| && next < |es|
    ensures var n := |before| - 1;
            Around(g, SwapEntries(es, next, cur, prev), before[..n], c, [before[n]] + after, prev, cur, es[prev].prevGroup)
  {
    hide GroupRep, SwapEntries, Apart;
    var n := |before| - 1;
    var groups := before + [c] + after;
    RepSwap(g, es, groups, n + 1);
    var m := before[..n] + [c] + ([before[n]] + after);
    assert SwappedGroups(groups, n + 1) == m;
    assert Before(groups, n) == Before(m, n);
  }

  /** Appends idx as a group of its own, and lets it merge with or move past groups of lower feerate. */
  method InsertTransaction(ghost g: Graph, ghost s: seq<nat>, ghost groups: seq<seq<nat>>,
                           entries: array<TxEntry>, idx: nat, deps: set<nat>, feerate: FeeFrac)
    returns (ghost groups': seq<seq<nat>>)
    requires Rep(g, entries[..], groups) && GroupState(g, s, groups)
    requires idx + 1 < entries.Length && idx < |g.entries| && g.Fee(idx).size > 0
    requires deps == g.Anc(idx) && feerate == g.Fee(idx)
    requires Distinct(s + [idx]) && Topo(g, s + [idx])
    modifies entries
    ensures Rep(g, entries[..], groups') && GroupState(g, s + [idx], groups') && groups' == Insert(g, groups, [idx], [])
  {
    hide Insert, GroupState, MovingState, Around, Rep, Sum, Deps, MergeEntries, SwapEntries, InsertEntry, Topo, Higher;
    StartMoving(g, s, groups, idx);
    assert idx !in Concat(groups) by {
      NotYetPlaced(g, s, groups, idx);
    }
    AroundInsert(g, entries[..], groups, idx);
    InsertGroup(entries, idx, deps, feerate);
    var next: nat, cur: nat := SENTINEL, idx + 1;
    var prev: nat := entries[cur].prevGroup;
    ghost var before, c, after := groups, [idx], [];
    AroundFacts(g, entries[..], before, c, after, next, cur, prev);
    while Higher(entries[cur].feerate, entries[prev].feerate)
      invariant next < entries.Length && cur < entries.Length && prev < entries.Length
      invariant Around(g, entries[..], before, c, after, next, cur, prev)
      invariant MovingState(g, s + [idx], before, c, after) && Insert(g, before, c, after) == Insert(g, groups, [idx], [])
      decreases |before|
    {
      AroundFacts(g, entries[..], before, c, after, next, cur, prev);
      NotAboveEmpty(entries[cur].feerate);
      ghost var n := |before| - 1;
      InsertStep(g, before, c, after);
      if !(entries[cur].deps !! entries[prev].group) {
        MergeState(g, s + [idx], before, c, after);
        AroundMerge(g, entries[..], before, c, after, next, cur, prev);
        prev := MergePrevious(entries, cur, prev);
        before, c := before[..n], before[n] + c;
      } else {
        SwapState(g, s + [idx], before, c, after);
        AroundSwap(g, entries[..], before, c, after, next, cur, prev);
        next, prev := SwapPrevious(entries, next, cur, prev);
        before, after := before[..n], [before[n]] + after;
      }
      AroundFacts(g, entries[..], before, c, after, next, cur, prev);
    }
    AroundFacts(g, entries[..], before, c, after, next, cur, prev);
    FinishState(g, s + [idx], before, c, after);
    InsertDone(g, before, c, after);
    groups' := before + [c] + after;
    AroundRep(g, entries[..], before, c, after, next, cur, prev);
  }

  lemma AroundRep(g: Graph, es: seq<TxEntry>, before: seq<seq<nat>>, c: seq<nat>, after: seq<seq<nat>>,
                  next: nat, cur: nat, prev: nat)
    requires Around(g, es, before, c, after, next, cur, prev)
    ensures Rep(g, es, before + [c] + after)
  {
    hide Rep;
  }

  lemma NotAboveEmpty(f: FeeFrac)
    ensures !Higher(f, EMPTY)
  {
  }

  lemma NotYetPlaced(g: Graph, s: seq<nat>, groups: seq<seq<nat>>, idx: nat)
    requires GroupState(g, s, groups) && Distinct(s + [idx])
    ensures idx !in Concat(groups)
  {
    DistinctSplit(s, [idx]);
    assert idx in Elems([idx]);
    assert idx !in Elems(Concat(groups));
  }

  // ---------- writing the groups back ----------

  ghost function Offset(groups: seq<seq<nat>>, k: nat): nat
    requires k <= |groups|
  {
    |Concat(groups[..k])|
  }

  lemma OffsetFacts(groups: seq<seq<nat>>, k: nat)
    requires k < |groups|
    ensures Offset(groups, k + 1) == Offset(groups, k) + |groups[k]| <= |Concat(groups)|
    ensures forall j :: 0 <= j < |groups[k]| ==> Concat(groups)[Offset(groups, k) + j] == groups[k][j]
  {
    hide Concat;
    ConcatBounds(groups, k + 1);
    assert groups[..k + 1][..k] == groups[..k];
    ConcatLast(groups[..k + 1]);
    var t := Concat(groups[..k + 1]);
    assert t == Concat(groups[..k]) + groups[k];
    assert forall i :: 0 <= i < |t| ==> t[i] == Concat(groups)[i];
    forall j | 0 <= j < |groups[k]|
      ensures Concat(groups)[Offset(groups, k) + j] == groups[k][j]
    {
      assert t[Offset(groups, k) + j] == groups[k][j];
    }
  }

  /** The first `done` writes have put the last transactions of s where the pass wants them. */
  ghost predicate Written(lin: seq<nat>, s: seq<nat>, rev: bool, done: nat) {
    |lin| == |s| && done <= |s| && (forall i :: |s| - done <= i < |s| ==> s[i] == lin[Slot(|s|, rev, i)])
  }

  /** Where the i-th of n transactions goes: backward passes write in reverse. */
  ghost function Slot(n: nat, rev: bool, i: nat): nat
    requires i < n
  {
    if rev then n - 1 - i else i
  }

  lemma WrittenAll(lin: seq<nat>, s: seq<nat>, rev: bool)
    requires Written(lin, s, rev, |s|)
    ensures lin == if rev then Reverse(s) else s
  {
    if rev {
      forall i | 0 <= i < |s|
        ensures lin[i] == Reverse(s)[i]
      {
        var j := |s| - 1 - i;
        assert s[j] == lin[Slot(|s|, rev, j)];
      }
    } else {
      forall i | 0 <= i < |s|
        ensures lin[i] == s[i]
      {
        assert s[i] == lin[Slot(|s|, rev, i)];
      }
    }
  }

  lemma WrittenStep(lin: seq<nat>, s: seq<nat>, rev: bool, done: nat)
    requires Written(lin, s, rev, done) && done < |s|
    ensures Written(lin[Slot(|s|, rev, |s| - 1 - done) := s[|s| - 1 - done]], s, rev, done + 1)
  {
  }

  lemma GroupRepPrev(g: Graph, es: seq<TxEntry>, grp: seq<nat>, j: nat)
    requires GroupRep(g, es, grp) && j < |grp|
    ensures grp[j] + 1 < |es| && es[grp[j] + 1].prevTx == if j == 0 then NO_PREV_TX else grp[j - 1] + 1
  {
  }

  lemma RepGroup(g: Graph, es: seq<TxEntry>, groups: seq<seq<nat>>, k: nat)
    requires Rep(g, es, groups) && 0 < k <= |groups|
    ensures NonEmpty(groups) && GroupRep(g, es, groups[k - 1])
    ensures Before(groups, k) == Tail(groups[k - 1]) < |es|
    ensures es[Tail(groups[k - 1])].prevGroup == Before(groups, k - 1)
  {
    hide GroupRep;
    assert Node(groups, k - 1) == Tail(groups[k - 1]);
  }

  lemma RepFirst(g: Graph, es: seq<TxEntry>, groups: seq<seq<nat>>)
    requires Rep(g, es, groups)
    ensures NonEmpty(groups) && es != [] && es[SENTINEL].prevGroup == Before(groups, |groups|)
  {
    assert Node(groups, |groups|) == SENTINEL;
  }

  /** Writes one group, from back to front. */
  method WriteGroup(ghost g: Graph, entries: array<TxEntry>, ghost groups: seq<seq<nat>>, ghost k: nat,
                    linearization: array<nat>, rev: bool, group: nat, done: nat)
    returns (done': nat)
    requires k < |groups| && GroupRep(g, entries[..], groups[k]) && group == Tail(groups[k])
    requires |Concat(groups)| == linearization.Length && done + Offset(groups, k + 1) == linearization.Length
    requires Written(linearization[..], Concat(groups), rev, done)
    modifies linearization
    ensures done' + Offset(groups, k) == linearization.Length
    ensures Written(linearization[..], Concat(groups), rev, done')
  {
    hide GroupRep, Concat, Offset, Written;
    OffsetFacts(groups, k);
    ghost var grp, all, at := groups[k], Concat(groups), Offset(groups, k);
    GroupRepTail(g, entries[..], grp);
    ghost var j: nat := |grp| - 1;
    var tx: nat := group;
    done' := done;
    while true
      invariant j < |grp| && tx == grp[j] + 1 < entries.Length
      invariant done' + at + j + 1 == linearization.Length
      invariant Written(linearization[..], all, rev, done')
      decreases j
    {
      assert all[at + j] == grp[j];
      WrittenStep(linearization[..], all, rev, done');
      if rev {
        linearization[done'] := tx - 1;
        done' := done' + 1;
      } else {
        done' := done' + 1;
        linearization[linearization.Length - done'] := tx - 1;
      }
      GroupRepPrev(g, entries[..], grp, j);
      tx := entries[tx].prevTx;
      if tx == NO_PREV_TX {
        break;
      }
      j := j - 1;
      GroupRepPrev(g, entries[..], grp, j);
    }
  }

  method WriteGroups(ghost g: Graph, entries: array<TxEntry>, ghost groups: seq<seq<nat>>, linearization: array<nat>, rev: bool)
    requires Rep(g, entries[..], groups) && |Concat(groups)| == linearization.Length
    modifies linearization
    ensures linearization[..] == if rev then Reverse(Concat(groups)) else Concat(groups)
  {
    hide GroupRep, Rep, Concat;
    RepFirst(g, entries[..], groups);
    assert groups[..|groups|] == groups;
    ghost var k: nat := |groups|;
    var group: nat, done: nat := entries[SENTINEL].prevGroup, 0;
    while group != SENTINEL
      invariant k <= |groups| && group == Before(groups, k)
      invariant done + Offset(groups, k) == linearization.Length
      invariant Written(linearization[..], Concat(groups), rev, done)
      decreases k
    {
      RepGroup(g, entries[..], groups, k);
      done := WriteGroup(g, entries, groups, k - 1, linearization, rev, group, done);
      group := entries[group].prevGroup;
      k := k - 1;
    }
    assert k == 0 by {
      if k > 0 {
        TailIn(groups[k - 1]);
      }
    }
    assert Concat(groups[..0]) == [] by {
      EmptyConcat();
    }
    assert groups[..0] == [];
    WrittenAll(linearization[..], Concat(groups), rev);
  }

  lemma EmptyConcat()
    ensures Concat([]) == []
  {
  }

  // ---------- the passes ----------

  lemma PrefixOrder(g: Graph, o: seq<nat>, i: nat)
    requires i < |o| && Distinct(o) && Topo(g, o)
    ensures o[..i] + [o[i]] == o[..i + 1] && Distinct(o[..i + 1]) && Topo(g, o[..i + 1])
  {
  }

  lemma RepEmpty(g: Graph, es: seq<TxEntry>)
    requires es != [] && es[SENTINEL].feerate == EMPTY && es[SENTINEL].prevGroup == SENTINEL
    ensures Rep(g, es, [])
  {
  }

  lemma RepSentinel(g: Graph, es: seq<TxEntry>, groups: seq<seq<nat>>)
    requires Rep(g, es, groups)
    ensures es != [] && es[SENTINEL].feerate == EMPTY
  {
  }

  method Pass(g: Graph, entries: array<TxEntry>, linearization: array<nat>, rev: bool) returns (ghost groups: seq<seq<nat>>)
    requires Valid(g) && IsLinearization(g, linearization[..])
    requires entries.Length == |g.entries| + 1 && entries[SENTINEL].feerate == EMPTY
    modifies entries, linearization
    ensures Reordered(g, old(linearization[..]), linearization[..])
    ensures var gg, o := PassGraph(g, rev), PassOrder(old(linearization[..]), rev);
            GroupState(gg, o, groups) && Sized(gg, o) && Rep(gg, entries[..], groups) && groups == GroupsOf(gg, o)
    ensures linearization[..] == PassOrder(Concat(groups), rev) && entries[SENTINEL].feerate == EMPTY
  {
    hide Valid, Topo, Reordered, GroupState, Rep, Dual, Sum, Concat, PassOrder, IsLinearization, Insert, GroupsOf;
    ghost var s := linearization[..];
    ghost var gg, o := PassGraph(g, rev), PassOrder(s, rev);
    PassInput(g, s, rev);
    entries[SENTINEL] := entries[SENTINEL].(prevGroup := SENTINEL);
    RepEmpty(gg, entries[..]);
    groups := [];
    GroupStart(gg);
    NoGroups(gg);
    assert o[..0] == [];
    var n := linearization.Length;
    for i := 0 to n
      invariant linearization[..] == s && |o| == n
      invariant Rep(gg, entries[..], groups) && GroupState(gg, o[..i], groups) && groups == GroupsOf(gg, o[..i])
    {
      var idx := linearization[if rev then n - 1 - i else i];
      PassIndex(s, rev, i);
      PrefixOrder(gg, o, i);
      DualFacts(g, idx);
      GroupsOfNext(gg, o[..i], idx);
      var feerate := g.Fee(idx);
      if rev {
        feerate := feerate.(fee := -feerate.fee);
      }
      groups := InsertTransaction(gg, o[..i], groups, entries, idx, if rev then g.Desc(idx) else g.Anc(idx), feerate);
    }
    assert o[..n] == o;
    ghost var r := Concat(groups);
    SameLength(gg, o, groups);
    RepSentinel(gg, entries[..], groups);
    WriteGroups(gg, entries, groups, linearization, rev);
    PassDone(g, s, groups, rev);
    assert linearization[..] == PassOrder(r, rev) by {
      PassOrderIs(r, rev);
    }
  }

  lemma PassIndex(s: seq<nat>, rev: bool, i: nat)
    requires i < |s|
    ensures i < |PassOrder(s, rev)| && PassOrder(s, rev)[i] == s[if rev then |s| - 1 - i else i]
  {
  }

  lemma PassDone(g: Graph, s: seq<nat>, groups: seq<seq<nat>>, rev: bool)
    requires Valid(g) && IsLinearization(g, s) && GroupState(PassGraph(g, rev), PassOrder(s, rev), groups)
    ensures Reordered(g, s, PassOrder(Concat(groups), rev))
  {
    hide Valid, Topo, Reordered, Dual, Concat, PassOrder, IsLinearization;
    PassOutput(g, s, Concat(groups), rev);
  }

  lemma SameLength(g: Graph, s: seq<nat>, groups: seq<seq<nat>>)
    requires GroupState(g, s, groups) && Distinct(s)
    ensures |Concat(groups)| == |s|
  {
    ElemsCount(s);
    ElemsCount(Concat(groups));
  }

  /**
    Improve a linearization: the result is a linearization whose diagram is nowhere below
    that of the input, and all its chunks are connected. For trees it is optimal. PostLeaf
    states what holds when a leaf was replaced.
  */
  method PostLinearize(g: Graph, linearization: array<nat>) returns (ghost groups: seq<seq<nat>>)
    requires Valid(g) && IsLinearization(g, linearization[..])
    modifies linearization
    ensures IsLinearization(g, linearization[..])
    ensures AtLeastAsGood(g, linearization[..], old(linearization[..]))
    ensures AllConnected(g, Chunks(g, linearization[..]))
    ensures groups == Chunks(g, linearization[..]) && linearization[..] == PostOrder(g, old(linearization[..]))
    ensures SingleChild(g) || SingleParent(g) ==>
              forall other :: IsLinearization(g, other) ==> AtLeastAsGood(g, linearization[..], other)
  {
    hide GroupsOf, SingleChild, SingleParent, Valid, Topo, Reordered, Rep, Dual, Sum, Concat, IsLinearization, AtLeastAsGood, Chunks, Absorb, IsChunking, Connected;
    ghost var s0 := linearization[..];
    var entries := new TxEntry[|g.entries| + 1](_ => TxEntry(0, 0, 0, {}, {}, EMPTY));
    groups := Pass(g, entries, linearization, true);
    ghost var s1 := linearization[..];
    ReorderedLinearization(g, s0, s1);
    groups := Pass(g, entries, linearization, false);
    ghost var s2 := linearization[..];
    ReorderedLinearization(g, s1, s2);
    assert PassGraph(g, false) == g;
    PassOrderIs(s1, false);
    PassOrderIs(Concat(groups), false);
    GroupsAreChunks(g, s1, groups);
    AtLeastAsGoodTransitive(g, s2, s1, s0);
    if SingleChild(g) || SingleParent(g) {
      forall other | IsLinearization(g, other)
        ensures AtLeastAsGood(g, s2, other)
      {
        TreeOptimal(g, s0, other);
      }
    }
  }
}
