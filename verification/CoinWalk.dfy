/** What a walk along the links of the flagged entries establishes (src/coins.cpp:334-343). */
module CoinWalks {
  import opened CoinLists

  /** The checks of one node of the walk. */
  predicate NodeOk(s: Store, it: Ref) {
    && it.At? && it.o in s.coins && s.coins[it.o].IsFlagged()
    && s.At(s.At(it).next).prev == it && s.At(s.At(it).prev).next == it
  }

  /** The node after the first k of the trail, if the walk has come to `it` after the whole trail. */
  ghost function NodeAfter(trail: seq<OutPoint>, it: Ref, k: nat): Ref
    requires k <= |trail|
  {
    if k < |trail| then Ref.At(trail[k]) else it
  }

  /** The walk has passed the nodes of the trail, all of them in order, and has come to `it`. */
  ghost predicate Trail(s: Store, trail: seq<OutPoint>, it: Ref) {
    && s.sentinel.next == NodeAfter(trail, it, 0)
    && forall i :: 0 <= i < |trail| ==> StepOk(s, trail, it, i)
  }

  ghost predicate StepOk(s: Store, trail: seq<OutPoint>, it: Ref, i: nat)
    requires i < |trail|
  {
    NodeOk(s, Ref.At(trail[i])) && s.At(Ref.At(trail[i])).next == NodeAfter(trail, it, i + 1)
  }

  /** The walk comes back to the sentinel, and passes exactly this list. */
  ghost predicate Walked(s: Store, list: seq<OutPoint>) {
    Trail(s, list, Sentinel)
  }

  /** What the walk does not see: entries that are not flagged carry no links, and an empty list is empty backwards too. */
  ghost predicate Unseen(s: Store) {
    && (forall o :: o in s.coins && !s.coins[o].IsFlagged() ==> s.coins[o].links == Links(Null, Null))
    && (s.sentinel.next == Sentinel ==> s.sentinel.prev == Sentinel)
  }

  lemma TrailStart(s: Store)
    ensures Trail(s, [], s.sentinel.next)
  {
  }

  lemma TrailStep(s: Store, trail: seq<OutPoint>, it: Ref)
    requires Trail(s, trail, it) && NodeOk(s, it)
    ensures Trail(s, trail + [it.o], s.At(it).next)
  {
    var longer, next := trail + [it.o], s.At(it).next;
    assert NodeAfter(longer, next, 0) == NodeAfter(trail, it, 0);
    forall i | 0 <= i < |longer|
      ensures StepOk(s, longer, next, i)
    {
      assert i < |trail| ==> StepOk(s, trail, it, i);
      assert i < |trail| ==> NodeAfter(longer, next, i + 1) == NodeAfter(trail, it, i + 1);
    }
  }

  lemma TrailAt(s: Store, trail: seq<OutPoint>, it: Ref, i: nat)
    requires Trail(s, trail, it) && i < |trail|
    ensures NodeOk(s, Ref.At(trail[i])) && NodeAfter(trail, it, i) == Ref.At(trail[i])
    ensures s.At(NodeAfter(trail, it, i)).next == NodeAfter(trail, it, i + 1)
  {
    assert StepOk(s, trail, it, i);
  }

  lemma NodeEnd(trail: seq<OutPoint>, it: Ref, k: nat)
    requires k <= |trail| && NodeAfter(trail, it, k).At? && !it.At?
    ensures k < |trail| && NodeAfter(trail, it, k) == Ref.At(trail[k])
  {
  }

  /** The walk is determined by the links: any trail is a part of the list it comes back along. */
  lemma {:induction false} TrailWithin(s: Store, trail: seq<OutPoint>, it: Ref, list: seq<OutPoint>, k: nat)
    requires Trail(s, trail, it) && Walked(s, list) && k <= |trail|
    ensures k <= |list| && trail[..k] == list[..k] && NodeAfter(trail, it, k) == NodeAfter(list, Sentinel, k)
  {
    hide NodeOk, StepOk, Store.At;
    if k > 0 {
      var j := k - 1;
      TrailWithin(s, trail, it, list, j);
      TrailAt(s, trail, it, j);
      NodeEnd(list, Sentinel, j);
      TrailAt(s, list, Sentinel, j);
      assert trail[..k] == trail[..j] + [trail[j]] && list[..k] == list[..j] + [list[j]];
    }
  }

  lemma WalkedMember(s: Store, list: seq<OutPoint>, o: OutPoint)
    requires Walked(s, list) && o in list
    ensures o in s.coins && s.coins[o].IsFlagged()
  {
    var i :| 0 <= i < |list| && list[i] == o;
    TrailAt(s, list, Sentinel, i);
  }

  /** A walk that comes back passes no node twice. */
  lemma WalkedOnce(s: Store, list: seq<OutPoint>)
    requires Walked(s, list)
    ensures NoRepeats(list)
  {
    forall i, j | 0 <= i < j < |list|
      ensures list[i] != list[j]
    {
      if list[i] == list[j] {
        SameNode(s, list, i, j);
        assert false;
      }
    }
  }

  /** The walk goes on exactly as along a list that comes back. */
  lemma WalkGoesOn(s: Store, trail: seq<OutPoint>, it: Ref, list: seq<OutPoint>)
    requires Trail(s, trail, it) && Walked(s, list)
    ensures it == Sentinel ==> trail == list
    ensures it != Sentinel ==> NodeOk(s, it) && |trail| < |s.coins|
  {
    hide NodeOk, StepOk;
    TrailWithin(s, trail, it, list, |trail|);
    if it != Sentinel {
      assert it == Ref.At(list[|trail|]);
      TrailAt(s, list, Sentinel, |trail|);
      WalkedOnce(s, list);
      WalkedKeys(s, list);
    }
  }

  lemma {:induction false} CountDistinct(list: seq<OutPoint>)
    requires NoRepeats(list)
    ensures |set o | o in list| == |list|
  {
    if list != [] {
      var n := |list| - 1;
      CountDistinct(list[..n]);
      assert list == list[..n] + [list[n]];
      assert (set o | o in list) == (set o | o in list[..n]) + {list[n]};
      assert list[n] !in list[..n];
    }
  }

  lemma WalkedKeys(s: Store, list: seq<OutPoint>)
    requires Walked(s, list) && NoRepeats(list)
    ensures |list| <= |s.coins|
  {
    CountDistinct(list);
    var keys := set o | o in list;
    forall o | o in keys
      ensures o in s.coins.Keys
    {
      WalkedMember(s, list, o);
    }
    SubsetSize(keys, s.coins.Keys);
  }

  lemma {:induction false} SubsetSize(a: set<OutPoint>, b: set<OutPoint>)
    requires a <= b
    ensures |a| <= |b|
    ensures |a| == |b| ==> a == b
  {
    if a != {} {
      var o :| o in a;
      SubsetSize(a - {o}, b - {o});
    }
  }

  lemma {:induction false} SameNode(s: Store, list: seq<OutPoint>, i: nat, j: nat)
    requires Walked(s, list) && i < j < |list| && list[i] == list[j]
    ensures false
    decreases |list| - j
  {
    TrailAt(s, list, Sentinel, i);
    TrailAt(s, list, Sentinel, j);
    hide NodeOk, StepOk, Store.At;
    if j + 1 < |list| {
      SameNode(s, list, i + 1, j + 1);
    }
  }

  /** The list of flagged entries is walked. */
  lemma LinkedWalked(s: Store, list: seq<OutPoint>)
    requires Linked(s, list)
    ensures Walked(s, list)
  {
    hide NoRepeats;
    assert s.At(Node(list, 0)).next == Node(list, 0 + 1);
    forall i | 0 <= i < |list|
      ensures StepOk(s, list, Sentinel, i)
    {
      assert Node(list, i + 1) == Ref.At(list[i]) && list[i] in list;
      assert s.At(Node(list, i)).next == Node(list, i + 1) && s.At(Node(list, i + 1)).prev == Node(list, i);
      var k := i + 1;
      assert s.At(Node(list, k)).next == Node(list, k + 1) && s.At(Node(list, k + 1)).prev == Node(list, k);
    }
  }

  /** If no other entry carries links, a walk over all flagged entries is over a circular list. */
  lemma WalkedLinked(s: Store, list: seq<OutPoint>)
    requires Walked(s, list) && Unseen(s)
    requires forall o :: o in s.coins && s.coins[o].IsFlagged() ==> o in list
    ensures Linked(s, list)
  {
    WalkedOnce(s, list);
    forall o
      ensures o in list <==> o in s.coins && s.coins[o].IsFlagged()
    {
      if o in list {
        WalkedMember(s, list, o);
      }
    }
    forall i: nat | i <= |list|
      ensures s.At(Node(list, i)).next == Node(list, i + 1) && s.At(Node(list, i + 1)).prev == Node(list, i)
    {
      WalkedLink(s, list, i);
    }
  }

  lemma WalkedLink(s: Store, list: seq<OutPoint>, i: nat)
    requires Walked(s, list) && Unseen(s) && i <= |list| && NoRepeats(list)
    requires forall o :: o in s.coins && s.coins[o].IsFlagged() ==> o in list
    ensures s.At(Node(list, i)).next == Node(list, i + 1) && s.At(Node(list, i + 1)).prev == Node(list, i)
  {
    assert Node(list, i + 1) == NodeAfter(list, Sentinel, i);
    if i > 0 {
      TrailAt(s, list, Sentinel, i - 1);
    } else if |list| > 0 {
      FirstLink(s, list);
    }
  }

  lemma FirstLink(s: Store, list: seq<OutPoint>)
    requires Walked(s, list) && Unseen(s) && |list| > 0 && NoRepeats(list)
    requires forall o :: o in s.coins && s.coins[o].IsFlagged() ==> o in list
    ensures s.At(Ref.At(list[0])).prev == Sentinel
  {
    var first := Ref.At(list[0]);
    TrailAt(s, list, Sentinel, 0);
    var q := s.At(first).prev;
    if q.At? {
      var i :| 0 <= i < |list| && list[i] == q.o;
      TrailAt(s, list, Sentinel, i);
      assert false;
    }
  }
}
