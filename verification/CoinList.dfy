/**
  Cached coins and the intrusive list of flagged entries (src/coins.h:90-214).

  A pointer to a cache entry is modelled by the outpoint it is stored under.
*/
module CoinLists {

  datatype OutPoint = OutPoint(hash: nat, n: nat)

  datatype Coin = Spent | Unspent(value: nat, script: seq<nat>, coinBase: bool, height: nat)

  const OP_RETURN: nat := 0x6a
  const MAX_SCRIPT_SIZE: nat := 10000

  predicate IsUnspendable(script: seq<nat>) {
    (script != [] && script[0] == OP_RETURN) || |script| > MAX_SCRIPT_SIZE
  }

  lemma Spendable(script: seq<nat>)
    ensures IsUnspendable(script) <==> |script| > 10000 || (script != [] && script[0] == 0x6a)
  {
  }

  /** Memory allocated for a coin: scripts of up to 36 bytes are stored in place, and a spent coin holds nothing. */
  function DynamicMemoryUsage(coin: Coin): nat {
    if coin.Spent? || |coin.script| <= 36 then 0 else (|coin.script| + 31) / 16 * 16
  }

  /** A script of more than 36 bytes takes the multiple of 16 that leaves at least 16 bytes, and less than 32, to spare. */
  lemma UsageOfScript(coin: Coin)
    requires coin.Unspent?
    ensures var u := DynamicMemoryUsage(coin);
            if |coin.script| <= 36 then u == 0 else u % 16 == 0 && |coin.script| + 16 <= u < |coin.script| + 32
  {
  }

  datatype Ref = Null | Sentinel | At(o: OutPoint)

  datatype Links = Links(prev: Ref, next: Ref)

  /** The links are those of the list of flagged entries. */
  datatype Entry = Entry(coin: Coin, isDirty: bool, isFresh: bool, links: Links) {
    predicate IsFlagged() {
      isDirty || isFresh
    }
  }

  type CoinsMap = map<OutPoint, Entry>

  datatype Store = Store(coins: CoinsMap, sentinel: Links) {
    function At(r: Ref): Links {
      match r
      case Sentinel => sentinel
      case At(o) => if o in coins then coins[o].links else Links(Null, Null)
      case Null => Links(Null, Null)
    }

    function SetNext(r: Ref, v: Ref): Store {
      match r
      case Sentinel => this.(sentinel := sentinel.(next := v))
      case At(o) => if o in coins then this.(coins := coins[o := coins[o].(links := coins[o].links.(next := v))]) else this
      case Null => this
    }

    function SetPrev(r: Ref, v: Ref): Store {
      match r
      case Sentinel => this.(sentinel := sentinel.(prev := v))
      case At(o) => if o in coins then this.(coins := coins[o := coins[o].(links := coins[o].links.(prev := v))]) else this
      case Null => this
    }
  }

  // ---------- the circular list ----------

  /** Position i of the circular list: the sentinel is both before the first and after the last. */
  ghost function Node(list: seq<OutPoint>, i: nat): Ref
    requires i <= |list| + 1
  {
    if i == 0 || i == |list| + 1 then Sentinel else Ref.At(list[i - 1])
  }

  ghost predicate NoRepeats(list: seq<OutPoint>) {
    forall i, j :: 0 <= i < j < |list| ==> list[i] != list[j]
  }

  ghost predicate Chained(s: Store, list: seq<OutPoint>) {
    forall i: nat :: i <= |list| ==> s.At(Node(list, i)).next == Node(list, i + 1) && s.At(Node(list, i + 1)).prev == Node(list, i)
  }

  /** The list links exactly the flagged entries, in a circle through the sentinel. */
  ghost predicate Linked(s: Store, list: seq<OutPoint>) {
    && NoRepeats(list) && Chained(s, list)
    && (forall o :: o in list <==> o in s.coins && s.coins[o].IsFlagged())
    && (forall o :: o in s.coins && !s.coins[o].IsFlagged() ==> s.coins[o].links == Links(Null, Null))
  }

  /** Inserting an entry, not flagged before, at the end of the list. */
  function Attach(s: Store, o: OutPoint): Store
    requires o in s.coins
  {
    var last := s.sentinel.prev;
    var s1 := s.SetPrev(Ref.At(o), last).SetNext(Ref.At(o), Sentinel);
    s1.SetPrev(Sentinel, Ref.At(o)).SetNext(last, Ref.At(o))
  }

  /** Taking an entry out of the list, and clearing its flags. */
  function Detach(s: Store, o: OutPoint): Store
    requires o in s.coins
  {
    var l := s.coins[o].links;
    var s1 := s.SetPrev(l.next, l.prev).SetNext(l.prev, l.next);
    s1.(coins := s1.coins[o := s1.coins[o].(isDirty := false, isFresh := false, links := Links(Null, Null))])
  }

  function Flagging(s: Store, o: OutPoint, isDirty: bool, isFresh: bool): Store
    requires o in s.coins
  {
    var s1 := if s.coins[o].IsFlagged() then s else Attach(s, o);
    s1.(coins := s1.coins[o := s1.coins[o].(isDirty := s1.coins[o].isDirty || isDirty, isFresh := s1.coins[o].isFresh || isFresh)])
  }

  // ---------- the entries, without their links ----------

  datatype Cached = Cached(coin: Coin, isDirty: bool, isFresh: bool)

  type Level = map<OutPoint, Cached>

  function Plain(e: Entry): Cached {
    Cached(e.coin, e.isDirty, e.isFresh)
  }

  function Entries(coins: CoinsMap): Level {
    map o | o in coins :: Plain(coins[o])
  }

  lemma SetNextFacts(s: Store, r: Ref, v: Ref)
    requires r.At? ==> r.o in s.coins
    ensures Entries(s.SetNext(r, v).coins) == Entries(s.coins) && s.SetNext(r, v).coins.Keys == s.coins.Keys
    ensures forall q :: s.SetNext(r, v).At(q) == if q == r && !q.Null? then s.At(q).(next := v) else s.At(q)
  {
  }

  lemma SetPrevFacts(s: Store, r: Ref, v: Ref)
    requires r.At? ==> r.o in s.coins
    ensures Entries(s.SetPrev(r, v).coins) == Entries(s.coins) && s.SetPrev(r, v).coins.Keys == s.coins.Keys
    ensures forall q :: s.SetPrev(r, v).At(q) == if q == r && !q.Null? then s.At(q).(prev := v) else s.At(q)
  {
  }

  ghost predicate Known(s: Store, r: Ref) {
    r.Sentinel? || (r.At? && r.o in s.coins)
  }

  lemma NodeKnown(s: Store, list: seq<OutPoint>, i: nat)
    requires Linked(s, list) && i <= |list| + 1
    ensures Known(s, Node(list, i))
  {
    if 0 < i <= |list| {
      assert list[i - 1] in list;
    }
  }

  /** Distinct positions are distinct nodes, apart from the sentinel's two. */
  lemma NodesDiffer(list: seq<OutPoint>, i: nat, j: nat)
    requires NoRepeats(list) && i < j <= |list| + 1 && !(i == 0 && j == |list| + 1)
    ensures Node(list, i) != Node(list, j)
  {
  }

  lemma LastNode(s: Store, list: seq<OutPoint>)
    requires Linked(s, list)
    ensures s.sentinel.prev == Node(list, |list|)
  {
    assert s.At(Node(list, |list| + 1)).prev == Node(list, |list|);
  }

  /** The links of q after o has been attached. */
  ghost function AttachedLinks(s: Store, o: OutPoint, q: Ref): Links {
    var last := s.sentinel.prev;
    var l := if q == Ref.At(o) then Links(last, Sentinel) else if q == Sentinel then s.sentinel.(prev := Ref.At(o)) else s.At(q);
    if q == last && !q.Null? then l.(next := Ref.At(o)) else l
  }

  lemma AttachFacts(s: Store, o: OutPoint)
    requires o in s.coins && Known(s, s.sentinel.prev)
    ensures Entries(Attach(s, o).coins) == Entries(s.coins) && Attach(s, o).coins.Keys == s.coins.Keys
    ensures forall q :: Attach(s, o).At(q) == AttachedLinks(s, o, q)
  {
    hide Entries, Store.SetNext, Store.SetPrev;
    var last := s.sentinel.prev;
    var a := s.SetPrev(Ref.At(o), last);
    SetPrevFacts(s, Ref.At(o), last);
    var b := a.SetNext(Ref.At(o), Sentinel);
    SetNextFacts(a, Ref.At(o), Sentinel);
    var c := b.SetPrev(Sentinel, Ref.At(o));
    SetPrevFacts(b, Sentinel, Ref.At(o));
    SetNextFacts(c, last, Ref.At(o));
    assert Attach(s, o) == c.SetNext(last, Ref.At(o));
  }

  lemma AttachChained(s: Store, list: seq<OutPoint>, o: OutPoint)
    requires Linked(s, list) && o in s.coins && o !in list
    ensures Chained(Attach(s, o), list + [o])
  {
    hide Attach, Store.At, Linked;
    var s', list', n := Attach(s, o), list + [o], |list|;
    LastNode(s, list);
    NodeKnown(s, list, n);
    AttachFacts(s, o);
    forall i: nat | i <= n + 1
      ensures s'.At(Node(list', i)).next == Node(list', i + 1) && s'.At(Node(list', i + 1)).prev == Node(list', i)
    {
      AttachedLink(s, list, o, i);
    }
  }

  lemma AttachedLink(s: Store, list: seq<OutPoint>, o: OutPoint, i: nat)
    requires Linked(s, list) && o !in list && i <= |list| + 1 && s.sentinel.prev == Node(list, |list|)
    ensures AttachedLinks(s, o, Node(list + [o], i)).next == Node(list + [o], i + 1)
    ensures AttachedLinks(s, o, Node(list + [o], i + 1)).prev == Node(list + [o], i)
  {
    var list', n := list + [o], |list|;
    assert Node(list', i) == if i <= n then Node(list, i) else Ref.At(o);
    assert Node(list', i + 1) == if i < n then Node(list, i + 1) else if i == n then Ref.At(o) else Sentinel;
    if i <= n {
      assert s.At(Node(list, i)).next == Node(list, i + 1) && s.At(Node(list, i + 1)).prev == Node(list, i);
      if i < n && !(i == 0) {
        NodesDiffer(list, i, n);
      }
    }
  }

  /** Flagging an entry appends it to the list if it was not in it. */
  ghost function ListWith(list: seq<OutPoint>, o: OutPoint): seq<OutPoint> {
    if o in list then list else list + [o]
  }

  /** Linked, except that the flags of o are still to be set. */
  ghost predicate AlmostLinked(s: Store, list: seq<OutPoint>, o: OutPoint) {
    && NoRepeats(list) && Chained(s, list) && o in s.coins
    && (forall q :: q in list <==> q in s.coins && (q == o || s.coins[q].IsFlagged()))
    && (forall q :: q in s.coins && q != o && !s.coins[q].IsFlagged() ==> s.coins[q].links == Links(Null, Null))
  }

  lemma AttachLinked(s: Store, list: seq<OutPoint>, o: OutPoint)
    requires Linked(s, list) && o in s.coins && o !in list
    ensures AlmostLinked(Attach(s, o), list + [o], o) && Entries(Attach(s, o).coins) == Entries(s.coins)
  {
    hide Attach, Chained, NoRepeats, Entries;
    LastNode(s, list);
    NodeKnown(s, list, |list|);
    AttachFacts(s, o);
    AttachChained(s, list, o);
    var s1 := Attach(s, o);
    SamePlain(s.coins, s1.coins);
    AppendNoRepeats(list, o);
    UnflaggedUntouched(s, list, o);
    forall q | q in s1.coins && q != o && !s1.coins[q].IsFlagged()
      ensures s1.coins[q].links == Links(Null, Null)
    {
      assert Plain(s.coins[q]) == Plain(s1.coins[q]);
      assert s1.At(Ref.At(q)) == s1.coins[q].links;
    }
    forall q
      ensures q in list + [o] <==> q in s1.coins && (q == o || s1.coins[q].IsFlagged())
    {
      if q in s.coins {
        assert Plain(s.coins[q]) == Plain(s1.coins[q]);
      }
    }
  }

  lemma FlagsLinked(s: Store, list: seq<OutPoint>, o: OutPoint, e: Entry)
    requires AlmostLinked(s, list, o) && e.IsFlagged() && e.links == s.coins[o].links
    ensures Linked(s.(coins := s.coins[o := e]), list)
  {
    hide Chained, NoRepeats;
    SameLinks(s, s.(coins := s.coins[o := e]), list);
  }

  lemma FlaggingLinked(s: Store, list: seq<OutPoint>, o: OutPoint, isDirty: bool, isFresh: bool)
    requires Linked(s, list) && o in s.coins && (isDirty || isFresh)
    ensures Linked(Flagging(s, o, isDirty, isFresh), ListWith(list, o))
    ensures var e := Plain(s.coins[o]);
            Entries(Flagging(s, o, isDirty, isFresh).coins)
            == Entries(s.coins)[o := e.(isDirty := e.isDirty || isDirty, isFresh := e.isFresh || isFresh)]
  {
    hide Attach, Chained, NoRepeats, Entries;
    var s1 := if s.coins[o].IsFlagged() then s else Attach(s, o);
    assert AlmostLinked(s1, ListWith(list, o), o) && Entries(s1.coins) == Entries(s.coins) && s1.coins.Keys == s.coins.Keys by {
      if !s.coins[o].IsFlagged() {
        AttachLinked(s, list, o);
        LastNode(s, list);
        NodeKnown(s, list, |list|);
        AttachFacts(s, o);
      }
    }
    SamePlain(s.coins, s1.coins);
    var c := s1.coins[o];
    var e := c.(isDirty := c.isDirty || isDirty, isFresh := c.isFresh || isFresh);
    FlagsLinked(s1, ListWith(list, o), o, e);
    EntriesUpdate(s1.coins, o, e);
  }

  lemma SamePlain(c: CoinsMap, c': CoinsMap)
    requires Entries(c) == Entries(c') && c.Keys == c'.Keys
    ensures forall q :: q in c ==> Plain(c[q]) == Plain(c'[q])
  {
    forall q | q in c
      ensures Plain(c[q]) == Plain(c'[q])
    {
      assert Entries(c)[q] == Entries(c')[q];
    }
  }

  lemma AppendNoRepeats(list: seq<OutPoint>, o: OutPoint)
    requires NoRepeats(list) && o !in list
    ensures NoRepeats(list + [o])
  {
  }

  lemma UnflaggedUntouched(s: Store, list: seq<OutPoint>, o: OutPoint)
    requires Linked(s, list) && o in s.coins && o !in list
    ensures forall q :: q in s.coins && q !in list && q != o ==> Attach(s, o).At(Ref.At(q)) == Links(Null, Null)
  {
    hide Attach;
    LastNode(s, list);
    NodeKnown(s, list, |list|);
    AttachFacts(s, o);
  }

  /** Chaining depends only on the links. */
  lemma SameLinks(s: Store, s': Store, list: seq<OutPoint>)
    requires Chained(s, list) && forall q :: s'.At(q) == s.At(q)
    ensures Chained(s', list)
  {
    forall i: nat | i <= |list|
      ensures s'.At(Node(list, i)).next == Node(list, i + 1) && s'.At(Node(list, i + 1)).prev == Node(list, i)
    {
      assert s.At(Node(list, i)).next == Node(list, i + 1) && s.At(Node(list, i + 1)).prev == Node(list, i);
    }
  }

  // ---------- taking an entry out ----------

  ghost function IndexOf(list: seq<OutPoint>, o: OutPoint): (i: nat)
    requires o in list
    ensures i < |list| && list[i] == o
  {
    var i :| 0 <= i < |list| && list[i] == o;
    i
  }

  ghost function ListWithout(list: seq<OutPoint>, o: OutPoint): seq<OutPoint> {
    if o in list then list[..IndexOf(list, o)] + list[IndexOf(list, o) + 1..] else list
  }

  lemma ListWithoutFacts(list: seq<OutPoint>, o: OutPoint)
    requires NoRepeats(list)
    ensures NoRepeats(ListWithout(list, o)) && (forall q :: q in ListWithout(list, o) <==> q in list && q != o)
  {
    if o in list {
      var k := IndexOf(list, o);
      var r := list[..k] + list[k + 1..];
      forall q | q in list && q != o
        ensures q in r
      {
        var j :| 0 <= j < |list| && list[j] == q;
        assert r[if j < k then j else j - 1] == q;
      }
      forall q | q in r
        ensures q in list && q != o
      {
        var j :| 0 <= j < |r| && r[j] == q;
        assert list[if j < k then j else j + 1] == q;
      }
    }
  }

  ghost function DetachedLinks(s: Store, o: OutPoint, q: Ref): Links {
    var l := s.At(Ref.At(o));
    if q == Ref.At(o) then Links(Null, Null) else
      Links(if q == l.next && !q.Null? then l.prev else s.At(q).prev, if q == l.prev && !q.Null? then l.next else s.At(q).next)
  }

  lemma DetachFacts(s: Store, o: OutPoint)
    requires o in s.coins && Known(s, s.coins[o].links.next) && Known(s, s.coins[o].links.prev)
    ensures Entries(Detach(s, o).coins) == Entries(s.coins)[o := Cached(s.coins[o].coin, false, false)]
    ensures Detach(s, o).coins.Keys == s.coins.Keys
    ensures forall q :: Detach(s, o).At(q) == DetachedLinks(s, o, q)
  {
    hide Store.SetNext, Store.SetPrev, Entries;
    var l := s.coins[o].links;
    var a := s.SetPrev(l.next, l.prev);
    SetPrevFacts(s, l.next, l.prev);
    var b := a.SetNext(l.prev, l.next);
    SetNextFacts(a, l.prev, l.next);
    SamePlain(s.coins, b.coins);
    var s' := Detach(s, o);
    assert s' == b.(coins := b.coins[o := b.coins[o].(isDirty := false, isFresh := false, links := Links(Null, Null))]);
    EntriesUpdate(b.coins, o, s'.coins[o]);
  }

  lemma EntriesUpdate(c: CoinsMap, o: OutPoint, e: Entry)
    ensures Entries(c[o := e]) == Entries(c)[o := Plain(e)]
  {
  }

  lemma DetachChained(s: Store, list: seq<OutPoint>, o: OutPoint)
    requires Linked(s, list) && o in list
    ensures o in s.coins && Known(s, s.coins[o].links.next) && Known(s, s.coins[o].links.prev)
    ensures Chained(Detach(s, o), ListWithout(list, o))
  {
    hide Detach, ListWithout;
    var k := IndexOf(list, o);
    assert Node(list, k + 1) == Ref.At(o);
    assert s.At(Node(list, k + 1)).next == Node(list, k + 2);
    assert s.At(Node(list, k + 1)).prev == Node(list, k) by {
      assert s.At(Node(list, k)).next == Node(list, k + 1);
    }
    NodeKnown(s, list, k);
    NodeKnown(s, list, k + 2);
    DetachFacts(s, o);
    WithoutIs(list, o);
    var s', list' := Detach(s, o), list[..k] + list[k + 1..];
    forall i: nat | i <= |list'|
      ensures s'.At(Node(list', i)).next == Node(list', i + 1) && s'.At(Node(list', i + 1)).prev == Node(list', i)
    {
      DetachedLink(s, list, o, k, i);
    }
  }

  lemma WithoutIs(list: seq<OutPoint>, o: OutPoint)
    requires o in list
    ensures ListWithout(list, o) == list[..IndexOf(list, o)] + list[IndexOf(list, o) + 1..]
  {
  }

  lemma DetachedLink(s: Store, list: seq<OutPoint>, o: OutPoint, k: nat, i: nat)
    requires NoRepeats(list) && Chained(s, list) && k < |list| && list[k] == o && i < |list|
    ensures var list' := list[..k] + list[k + 1..];
            && DetachedLinks(s, o, Node(list', i)).next == Node(list', i + 1)
            && DetachedLinks(s, o, Node(list', i + 1)).prev == Node(list', i)
  {
    var list' := list[..k] + list[k + 1..];
    var l := s.At(Ref.At(o));
    assert Node(list, k + 1) == Ref.At(o);
    assert l.next == Node(list, k + 1 + 1) by {
      assert s.At(Node(list, k + 1)).next == Node(list, k + 1 + 1);
    }
    assert l.prev == Node(list, k) by {
      assert s.At(Node(list, k)).next == Node(list, k + 1);
    }
    var a, b := if i <= k then i else i + 1, if i < k then i + 1 else i + 2;
    assert Node(list', i) == Node(list, a) && Node(list', i + 1) == Node(list, b);
    OtherNode(list, o, k, a);
    OtherNode(list, o, k, b);
    if i == k {
    } else {
      assert b == a + 1;
      assert s.At(Node(list, a)).next == Node(list, a + 1) && s.At(Node(list, a + 1)).prev == Node(list, a);
      PrevUnlike(list, k, a);
      NextUnlike(list, k, b);
    }
  }

  lemma OtherNode(list: seq<OutPoint>, o: OutPoint, k: nat, a: nat)
    requires NoRepeats(list) && k < |list| && list[k] == o && a <= |list| + 1 && a != k + 1
    ensures Node(list, a) != Ref.At(o)
  {
  }

  lemma PrevUnlike(list: seq<OutPoint>, k: nat, a: nat)
    requires NoRepeats(list) && k < |list| && a <= |list| && a != k
    ensures Node(list, a) != Node(list, k)
  {
  }

  lemma NextUnlike(list: seq<OutPoint>, k: nat, b: nat)
    requires NoRepeats(list) && k < |list| && 0 < b <= |list| + 1 && b != k + 2
    ensures Node(list, b) != Node(list, k + 2)
  {
  }

  lemma DetachLinked(s: Store, list: seq<OutPoint>, o: OutPoint)
    requires Linked(s, list) && o in list
    ensures o in s.coins && Linked(Detach(s, o), ListWithout(list, o))
    ensures Entries(Detach(s, o).coins) == Entries(s.coins)[o := Cached(s.coins[o].coin, false, false)]
  {
    hide Detach, ListWithout, Chained, NoRepeats;
    DetachChained(s, list, o);
    DetachFacts(s, o);
    ListWithoutFacts(list, o);
    var s' := Detach(s, o);
    forall q | q in s.coins
      ensures Plain(s'.coins[q]) == if q == o then Cached(s.coins[o].coin, false, false) else Plain(s.coins[q])
    {
      assert Entries(s'.coins)[q] == Plain(s'.coins[q]);
    }
    forall q | q in s'.coins && !s'.coins[q].IsFlagged()
      ensures s'.coins[q].links == Links(Null, Null)
    {
      assert s'.At(Ref.At(q)) == s'.coins[q].links == DetachedLinks(s, o, Ref.At(q));
      if q != o {
        UnflaggedNotLinked(s, list, o, q);
      }
    }
  }

  /** Neighbours of a listed entry are listed. */
  lemma UnflaggedNotLinked(s: Store, list: seq<OutPoint>, o: OutPoint, q: OutPoint)
    requires Linked(s, list) && o in list && q !in list
    ensures s.At(Ref.At(o)).next != Ref.At(q) && s.At(Ref.At(o)).prev != Ref.At(q)
  {
    var k := IndexOf(list, o);
    assert Node(list, k + 1) == Ref.At(o);
    assert s.At(Node(list, k + 1)).next == Node(list, k + 1 + 1);
    assert s.At(Node(list, k)).next == Node(list, k + 1) && s.At(Node(list, k + 1)).prev == Node(list, k);
  }

  /** Removing an entry that is not in the list. */
  lemma RemoveLinked(s: Store, list: seq<OutPoint>, o: OutPoint)
    requires Linked(s, list) && o !in list
    ensures Linked(s.(coins := s.coins - {o}), list) && Entries(s.coins - {o}) == Entries(s.coins) - {o}
  {
    var s' := s.(coins := s.coins - {o});
    forall i: nat | i <= |list|
      ensures s'.At(Node(list, i)).next == Node(list, i + 1) && s'.At(Node(list, i + 1)).prev == Node(list, i)
    {
      assert s.At(Node(list, i)).next == Node(list, i + 1) && s.At(Node(list, i + 1)).prev == Node(list, i);
      NodeKnown(s, list, i);
      NodeKnown(s, list, i + 1);
      assert Node(list, i) != Ref.At(o) && Node(list, i + 1) != Ref.At(o);
    }
  }

  /** Adding an entry without flags, or changing the coin of an entry. */
  lemma PutLinked(s: Store, list: seq<OutPoint>, o: OutPoint, coin: Coin)
    requires Linked(s, list)
    ensures Linked(Put(s, o, coin), list)
    ensures Entries(Put(s, o, coin).coins)
         == Entries(s.coins)[o := if o in s.coins then Plain(s.coins[o]).(coin := coin) else Cached(coin, false, false)]
  {
    hide NoRepeats, Chained;
    var s' := Put(s, o, coin);
    assert o !in s.coins ==> s.At(Ref.At(o)) == s'.At(Ref.At(o));
    SameLinks(s, s', list);
  }

  function Put(s: Store, o: OutPoint, coin: Coin): Store {
    if o in s.coins then s.(coins := s.coins[o := s.coins[o].(coin := coin)])
    else s.(coins := s.coins[o := Entry(coin, false, false, Links(Null, Null))])
  }
}
