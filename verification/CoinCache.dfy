/** One level of the coins cache hierarchy (src/coins.cpp:48-103, 130-150, 183-272, 315-346). */
module CoinCaches {
  import opened CoinLists
  import opened CoinWalks

  // ---------- memory usage ----------

  ghost function Usage(l: Level): nat
    decreases |l|
  {
    if l == map[] then 0 else var o :| o in l; DynamicMemoryUsage(l[o].coin) + Usage(l - {o})
  }

  lemma {:induction false} UsageRemove(l: Level, o: OutPoint)
    requires o in l
    ensures Usage(l) == DynamicMemoryUsage(l[o].coin) + Usage(l - {o})
    decreases |l|
  {
    hide DynamicMemoryUsage;
    var p :| p in l && Usage(l) == DynamicMemoryUsage(l[p].coin) + Usage(l - {p});
    if p != o {
      UsageRemove(l - {p}, o);
      UsageRemove(l - {o}, p);
      assert l - {p} - {o} == l - {o} - {p};
    }
  }

  lemma UsagePut(l: Level, o: OutPoint, e: Cached)
    ensures Usage(l[o := e]) == DynamicMemoryUsage(e.coin) + Usage(l - {o})
    ensures o !in l ==> Usage(l[o := e]) == DynamicMemoryUsage(e.coin) + Usage(l)
    ensures o in l ==> Usage(l[o := e]) == DynamicMemoryUsage(e.coin) + Usage(l) - DynamicMemoryUsage(l[o].coin)
  {
    hide DynamicMemoryUsage, Usage;
    UsageRemove(l[o := e], o);
    assert l[o := e] - {o} == l - {o};
    if o in l {
      UsageRemove(l, o);
    } else {
      assert l - {o} == l;
    }
  }

  // ---------- what the operations do to the entries ----------

  /** Only five combinations of dirty, fresh and spent are possible. */
  predicate Possible(e: Cached) {
    var attr := (if e.isDirty then 1 else 0) + (if e.isFresh then 2 else 0) + (if e.coin.Spent? then 4 else 0);
    attr != 2 && attr != 4 && attr != 7
  }

  /** A fresh entry is dirty or spent; a spent entry is fresh or dirty, but not both; an unmodified coin is neither. */
  lemma PossibleExactly(e: Cached)
    ensures Possible(e) <==> if e.coin.Spent? then e.isDirty != e.isFresh else e.isFresh ==> e.isDirty
  {
  }

  ghost predicate AllPossible(l: Level) {
    forall o :: o in l ==> Possible(l[o])
  }

  /** The entry after adding a coin. */
  function Added(l: Level, o: OutPoint, coin: Coin, possibleOverwrite: bool): Cached {
    var was := if o in l then l[o] else Cached(Spent, false, false);
    Cached(coin, true, was.isFresh || (!possibleOverwrite && !was.isDirty))
  }

  /** The entries after spending a coin that is in the cache. */
  function AfterSpend(l: Level, o: OutPoint): Level
    requires o in l
  {
    if l[o].isFresh then l - {o} else l[o := Cached(Spent, true, false)]
  }

  /** A fresh entry of the child meets an unspent coin in the parent. */
  predicate Misapplied(l: Level, o: OutPoint, e: Cached) {
    e.isFresh && o in l && l[o].coin.Unspent?
  }

  /** The parent's entries after receiving the child's dirty entry e for o. */
  function Received(l: Level, o: OutPoint, e: Cached): Level {
    if o !in l then
      if e.isFresh && e.coin.Spent? then l else l[o := Cached(e.coin, true, e.isFresh)]
    else if l[o].isFresh && e.coin.Spent? then l - {o}
    else l[o := Cached(e.coin, true, l[o].isFresh)]
  }

  /**
    A coin that is added and spent again leaves no entry exactly if there was a fresh one, or
    if an overwrite is ruled out and there was none that is dirty. For a coin that is new to
    the cache nothing changes at all.
  */
  lemma AddThenSpend(l: Level, o: OutPoint, coin: Coin, possibleOverwrite: bool)
    ensures var after := AfterSpend(l[o := Added(l, o, coin, possibleOverwrite)], o);
            && (o !in after <==> (o in l && l[o].isFresh) || (!possibleOverwrite && (o in l ==> !l[o].isDirty)))
            && (o in after ==> after[o] == Cached(Spent, true, false))
            && (o !in l && !possibleOverwrite ==> after == l)
  {
    assert o !in l ==> l[o := Added(l, o, coin, possibleOverwrite)] - {o} == l;
  }

  /** Nor does it change the parent, if that received the new coin in between and the spend later. */
  lemma ReceiveThenSpend(parent: Level, child: Level, o: OutPoint, coin: Coin)
    requires o !in parent && o !in child && coin.Unspent?
    ensures var handed := Received(parent, o, Added(child, o, coin, false));
            o in handed && handed[o].coin == coin && Received(handed, o, Cached(Spent, true, false)) == parent
  {
    var handed := Received(parent, o, Added(child, o, coin, false));
    assert handed - {o} == parent;
  }

  ghost function FlaggedOf(l: Level): set<OutPoint> {
    set o | o in l && (l[o].isDirty || l[o].isFresh)
  }

  lemma FlaggedRemove(l: Level, o: OutPoint)
    requires o in l
    ensures |FlaggedOf(l)| == |FlaggedOf(l - {o})| + if l[o].isDirty || l[o].isFresh then 1 else 0
  {
    assert FlaggedOf(l - {o}) == FlaggedOf(l) - {o};
  }

  /** The list has as many elements as there are flagged entries. */
  lemma FlaggedCount(s: Store, list: seq<OutPoint>)
    requires Linked(s, list)
    ensures |list| == |FlaggedOf(Entries(s.coins))|
  {
    hide Chained;
    assert FlaggedOf(Entries(s.coins)) == set o | o in list;
    CountDistinct(list);
  }

  /** The walk comes back, and passes as many entries as are flagged. */
  ghost predicate ListChecks(s: Store) {
    exists list :: Walked(s, list) && |list| == |FlaggedOf(Entries(s.coins))|
  }

  lemma ListChecksLinked(s: Store, list: seq<OutPoint>)
    requires Linked(s, list)
    ensures ListChecks(s) && Unseen(s)
  {
    LinkedWalked(s, list);
    FlaggedCount(s, list);
    assert s.At(Node(list, 0)).next == Node(list, 0 + 1) && s.At(Node(list, 0 + 1)).prev == Node(list, 0);
  }

  /** The flagged entries are in a circular list exactly if the checks pass and nothing is wrong where they do not look. */
  lemma ListChecksExact(s: Store)
    ensures (exists list :: Linked(s, list)) <==> ListChecks(s) && Unseen(s)
  {
    if list :| Linked(s, list) {
      ListChecksLinked(s, list);
    }
    if ListChecks(s) && Unseen(s) {
      var list :| Walked(s, list) && |list| == |FlaggedOf(Entries(s.coins))|;
      WalkedAll(s, list);
      WalkedLinked(s, list);
    }
  }

  lemma WalkedAll(s: Store, list: seq<OutPoint>)
    requires Walked(s, list) && |list| == |FlaggedOf(Entries(s.coins))|
    ensures forall o :: o in s.coins && s.coins[o].IsFlagged() ==> o in list
  {
    WalkedOnce(s, list);
    CountDistinct(list);
    var keys := set o | o in list;
    var all := FlaggedOf(Entries(s.coins));
    forall o | o in keys
      ensures o in all
    {
      WalkedMember(s, list, o);
    }
    SubsetSize(keys, all);
    forall o | o in s.coins && s.coins[o].IsFlagged()
      ensures o in list
    {
      assert o in all;
    }
  }

  /** The checks pass for a list whose first entry points back to an entry that is not in it. */
  lemma ListChecksMiss()
    ensures exists s :: ListChecks(s) && !exists list :: Linked(s, list)
  {
    var a, b, coin := OutPoint(0, 0), OutPoint(0, 1), Unspent(0, [], false, 0);
    var inList := Entry(coin, true, false, Links(Ref.At(b), Sentinel));
    var outside := Entry(coin, false, false, Links(Null, Ref.At(a)));
    var s := Store(map[a := inList, b := outside], Links(Ref.At(a), Ref.At(a)));
    assert Walked(s, [a]) by {
      assert StepOk(s, [a], Sentinel, 0);
    }
    assert FlaggedOf(Entries(s.coins)) == {a};
    assert !s.coins[b].IsFlagged();
    ListChecksExact(s);
  }

  lemma InPlace(coin: Coin)
    requires coin.Unspent?
    ensures DynamicMemoryUsage(coin) == 0 <==> |coin.script| <= 36
  {
  }

  lemma NoUsage()
    ensures Usage(map[]) == 0
  {
  }

  lemma EntryAt(coins: CoinsMap, o: OutPoint)
    ensures o in Entries(coins) <==> o in coins
    ensures o in coins ==> Entries(coins)[o] == Plain(coins[o])
  {
  }

  class CoinsViewCache {
    var cacheCoins: CoinsMap
    var sentinel: Links
    var cachedCoinsUsage: int
    ghost var flagged: seq<OutPoint>

    ghost predicate ListOk()
      reads this
    {
      Linked(Store(cacheCoins, sentinel), flagged)
    }

    ghost function Level(): Level
      reads this
    {
      Entries(cacheCoins)
    }

    ghost predicate Valid()
      reads this
    {
      ListOk() && cachedCoinsUsage == Usage(Level())
    }

    constructor ()
      ensures Valid() && Level() == map[]
    {
      cacheCoins := map[];
      sentinel := Links(Sentinel, Sentinel);
      cachedCoinsUsage := 0;
      flagged := [];
    }

    // ---------- the list ----------

    method SetPrev(r: Ref, v: Ref)
      modifies `cacheCoins, `sentinel
      ensures Store(cacheCoins, sentinel) == Store(old(cacheCoins), old(sentinel)).SetPrev(r, v)
    {
      match r
      case Sentinel => sentinel := sentinel.(prev := v);
      case At(o) =>
        if o in cacheCoins {
          cacheCoins := cacheCoins[o := cacheCoins[o].(links := cacheCoins[o].links.(prev := v))];
        }
      case Null =>
    }

    method SetNext(r: Ref, v: Ref)
      modifies `cacheCoins, `sentinel
      ensures Store(cacheCoins, sentinel) == Store(old(cacheCoins), old(sentinel)).SetNext(r, v)
    {
      match r
      case Sentinel => sentinel := sentinel.(next := v);
      case At(o) =>
        if o in cacheCoins {
          cacheCoins := cacheCoins[o := cacheCoins[o].(links := cacheCoins[o].links.(next := v))];
        }
      case Null =>
    }

    method AddFlags(o: OutPoint, isDirty: bool, isFresh: bool)
      requires ListOk() && o in cacheCoins && (isDirty || isFresh)
      modifies `cacheCoins, `sentinel, `flagged
      ensures ListOk() && flagged == ListWith(old(flagged), o) && o in cacheCoins && Level()[o] == Plain(cacheCoins[o])
      ensures var e := Plain(old(cacheCoins[o]));
              Level() == old(Level())[o := e.(isDirty := e.isDirty || isDirty, isFresh := e.isFresh || isFresh)]
    {
      ghost var s := Store(cacheCoins, sentinel);
      FlaggingLinked(s, flagged, o, isDirty, isFresh);
      hide Linked, Entries, ListWith;
      if !cacheCoins[o].IsFlagged() {
        Link(o);
      }
      var e := cacheCoins[o];
      cacheCoins := cacheCoins[o := e.(isDirty := e.isDirty || isDirty, isFresh := e.isFresh || isFresh)];
      assert Store(cacheCoins, sentinel) == Flagging(s, o, isDirty, isFresh);
      flagged := ListWith(flagged, o);
      EntryAt(cacheCoins, o);
    }

    method Link(o: OutPoint)
      requires o in cacheCoins
      modifies `cacheCoins, `sentinel
      ensures o in cacheCoins && Store(cacheCoins, sentinel) == Attach(Store(old(cacheCoins), old(sentinel)), o)
    {
      var last := sentinel.prev;
      SetPrev(At(o), last);
      SetNext(At(o), Sentinel);
      SetPrev(Sentinel, At(o));
      SetNext(last, At(o));
    }

    method SetClean(o: OutPoint)
      requires ListOk() && o in cacheCoins
      modifies `cacheCoins, `sentinel, `flagged
      ensures ListOk() && flagged == ListWithout(old(flagged), o)
      ensures Level() == old(Level())[o := Cached(old(Level()[o].coin), false, false)]
    {
      ghost var s := Store(cacheCoins, sentinel);
      if !cacheCoins[o].IsFlagged() {
        return;
      }
      DetachLinked(s, flagged, o);
      hide Linked, Entries, ListWithout;
      var l := cacheCoins[o].links;
      SetPrev(l.next, l.prev);
      SetNext(l.prev, l.next);
      cacheCoins := cacheCoins[o := cacheCoins[o].(isDirty := false, isFresh := false, links := Links(Null, Null))];
      assert Store(cacheCoins, sentinel) == Detach(s, o);
      flagged := ListWithout(flagged, o);
    }

    /** Erasing an entry first takes it out of the list. */
    method Erase(o: OutPoint)
      requires ListOk() && o in cacheCoins
      modifies `cacheCoins, `sentinel, `flagged
      ensures ListOk() && flagged == ListWithout(old(flagged), o)
      ensures Level() == old(Level()) - {o}
    {
      SetClean(o);
      RemoveLinked(Store(cacheCoins, sentinel), flagged, o);
      cacheCoins := cacheCoins - {o};
    }

    /** Writes the coin of an entry, which is created without flags if needed. */
    method PutCoin(o: OutPoint, coin: Coin)
      requires ListOk()
      modifies `cacheCoins
      ensures ListOk() && o in cacheCoins && Level()[o] == Plain(cacheCoins[o])
      ensures Level() == old(Level())[o := if o in old(Level()) then old(Level()[o]).(coin := coin) else Cached(coin, false, false)]
    {
      PutLinked(Store(cacheCoins, sentinel), flagged, o, coin);
      if o in cacheCoins {
        cacheCoins := cacheCoins[o := cacheCoins[o].(coin := coin)];
      } else {
        cacheCoins := cacheCoins[o := Entry(coin, false, false, Links(Null, Null))];
      }
    }

    /** Writes a coin and marks it dirty, and fresh if asked. */
    method PutModified(o: OutPoint, coin: Coin, isFresh: bool)
      requires ListOk()
      modifies `cacheCoins, `sentinel, `flagged
      ensures ListOk() && o in cacheCoins && Level()[o] == Plain(cacheCoins[o])
      ensures Level() == old(Level())[o := Cached(coin, true, isFresh || (o in old(Level()) && old(Level())[o].isFresh))]
    {
      hide Linked, Entries;
      ghost var l := Level();
      PutCoin(o, coin);
      AddFlags(o, true, false);
      if isFresh {
        AddFlags(o, false, true);
      }
      assert Level() == l[o := Cached(coin, true, isFresh || (o in l && l[o].isFresh))];
    }

    // ---------- operations on this level ----------

    /** The part of FetchCoin after the base returned a coin. */
    method Install(o: OutPoint, coin: Coin)
      requires Valid() && o !in cacheCoins
      modifies this
      ensures Valid() && Level() == old(Level())[o := Cached(coin, false, coin.Spent?)]
    {
      hide Linked, Entries, Usage, DynamicMemoryUsage;
      EntryAt(cacheCoins, o);
      ghost var l := Level();
      UsagePut(l, o, Cached(coin, false, coin.Spent?));
      PutCoin(o, coin);
      cachedCoinsUsage := cachedCoinsUsage + DynamicMemoryUsage(cacheCoins[o].coin);
      if cacheCoins[o].coin.Spent? {
        AddFlags(o, false, true);
      }
      assert Level() == l[o := Cached(coin, false, coin.Spent?)];
    }

    /**
      Adds a coin. If it is not a possible overwrite and an unspent coin is cached, an
      exception is thrown, after the usage was already reduced.
    */
    method AddCoin(o: OutPoint, coin: Coin, possibleOverwrite: bool) returns (thrown: bool)
      requires Valid() && coin.Unspent?
      modifies this
      ensures thrown <==> !IsUnspendable(coin.script) && !possibleOverwrite && o in old(Level()) && old(Level()[o].coin).Unspent?
      ensures thrown ==> Level() == old(Level()) && cachedCoinsUsage == old(cachedCoinsUsage) - DynamicMemoryUsage(old(Level()[o].coin))
      ensures Valid() <==> (thrown ==> |old(Level()[o].coin).script| <= 36)
      ensures !thrown ==> Level() == if IsUnspendable(coin.script) then old(Level()) else old(Level())[o := Added(old(Level()), o, coin, possibleOverwrite)]
    {
      hide Linked, Entries, Usage, DynamicMemoryUsage, IsUnspendable;
      EntryAt(cacheCoins, o);
      if IsUnspendable(coin.script) {
        return false;
      }
      ghost var l := Level();
      UsagePut(l, o, Added(l, o, coin, possibleOverwrite));
      var inserted := o !in cacheCoins;
      if inserted {
        PutCoin(o, Spent);
      } else {
        cachedCoinsUsage := cachedCoinsUsage - DynamicMemoryUsage(cacheCoins[o].coin);
      }
      var isFresh := false;
      if !possibleOverwrite {
        if cacheCoins[o].coin.Unspent? {
          InPlace(cacheCoins[o].coin);
          return true;
        }
        isFresh := !cacheCoins[o].isDirty;
      }
      PutModified(o, coin, isFresh);
      cachedCoinsUsage := cachedCoinsUsage + DynamicMemoryUsage(cacheCoins[o].coin);
      assert Level() == l[o := Added(l, o, coin, possibleOverwrite)];
      return false;
    }

    /** The part of SpendCoin after the coin was found in the cache. */
    method SpendCached(o: OutPoint) returns (moved: Coin)
      requires Valid() && o in cacheCoins
      modifies this
      ensures Valid() && Level() == AfterSpend(old(Level()), o) && moved == old(Level()[o].coin)
    {
      hide Linked, Entries, Usage;
      EntryAt(cacheCoins, o);
      ghost var l := Level();
      UsageRemove(l, o);
      UsagePut(l, o, Cached(Spent, true, false));
      cachedCoinsUsage := cachedCoinsUsage - DynamicMemoryUsage(cacheCoins[o].coin);
      moved := cacheCoins[o].coin;
      if cacheCoins[o].isFresh {
        Erase(o);
      } else {
        AddFlags(o, true, false);
        PutCoin(o, Spent);
        assert Level() == l[o := Cached(Spent, true, false)];
      }
    }

    /** Removes the entry unless it is modified. */
    method Uncache(o: OutPoint)
      requires Valid()
      modifies this
      ensures Valid() && Level() == if o in old(Level()) && !old(Level()[o]).isDirty && !old(Level()[o]).isFresh then old(Level()) - {o} else old(Level())
    {
      hide Linked, Entries, Usage, DynamicMemoryUsage;
      EntryAt(cacheCoins, o);
      if o in cacheCoins && !cacheCoins[o].isDirty && !cacheCoins[o].isFresh {
        UsageRemove(Level(), o);
        cachedCoinsUsage := cachedCoinsUsage - DynamicMemoryUsage(cacheCoins[o].coin);
        Erase(o);
      }
    }

    /** BatchWrite's treatment of one dirty entry of the child. */
    method Receive(o: OutPoint, e: Cached) returns (thrown: bool)
      requires Valid()
      modifies this
      ensures thrown <==> Misapplied(old(Level()), o, e)
      ensures Valid() && Level() == if thrown then old(Level()) else Received(old(Level()), o, e)
    {
      hide Linked, Entries, Usage, DynamicMemoryUsage;
      EntryAt(cacheCoins, o);
      ghost var l := Level();
      if o !in cacheCoins {
        if !(e.isFresh && e.coin.Spent?) {
          UsagePut(l, o, Cached(e.coin, true, e.isFresh));
          PutModified(o, e.coin, e.isFresh);
          cachedCoinsUsage := cachedCoinsUsage + DynamicMemoryUsage(cacheCoins[o].coin);
        }
        return false;
      }
      if e.isFresh && cacheCoins[o].coin.Unspent? {
        return true;
      }
      if cacheCoins[o].isFresh && e.coin.Spent? {
        UsageRemove(l, o);
        cachedCoinsUsage := cachedCoinsUsage - DynamicMemoryUsage(cacheCoins[o].coin);
        Erase(o);
      } else {
        UsagePut(l, o, Cached(e.coin, true, l[o].isFresh));
        cachedCoinsUsage := cachedCoinsUsage - DynamicMemoryUsage(cacheCoins[o].coin);
        PutModified(o, e.coin, false);
        cachedCoinsUsage := cachedCoinsUsage + DynamicMemoryUsage(cacheCoins[o].coin);
      }
      return false;
    }

    /** The cursor's first entry. */
    method Begin() returns (first: Ref)
      requires Valid()
      ensures first == Node(flagged, 1) == sentinel.next
    {
      ghost var s := Store(cacheCoins, sentinel);
      assert s.At(Node(flagged, 0)).next == Node(flagged, 1);
      first := sentinel.next;
    }

    /** The cursor's step to the next flagged entry; without erasure to come, spent entries go and others lose their flags. */
    method NextAndMaybeErase(o: OutPoint, willErase: bool) returns (next: Ref)
      requires Valid() && o in flagged
      modifies this
      ensures Valid() && o in old(cacheCoins) && next == old(cacheCoins[o].links.next)
      ensures willErase ==> Level() == old(Level()) && flagged == old(flagged)
      ensures !willErase ==> flagged == ListWithout(old(flagged), o) && Level() == Passed(old(Level()), o)
    {
      assert o in cacheCoins;
      hide Linked, Entries, Usage, DynamicMemoryUsage;
      EntryAt(cacheCoins, o);
      next := cacheCoins[o].links.next;
      if !willErase {
        if cacheCoins[o].coin.Spent? {
          UsageRemove(Level(), o);
          cachedCoinsUsage := cachedCoinsUsage - DynamicMemoryUsage(cacheCoins[o].coin);
          Erase(o);
        } else {
          UsagePut(Level(), o, Cached(cacheCoins[o].coin, false, false));
          SetClean(o);
        }
      }
    }

    /** SanityCheck's pass over the map. */
    method CheckEntries() returns (ok: bool, recomputedUsage: nat, countFlagged: nat)
      ensures ok <==> AllPossible(Level())
      ensures recomputedUsage == Usage(Level()) && countFlagged == |FlaggedOf(Level())|
    {
      hide Usage, DynamicMemoryUsage, Possible;
      ok, recomputedUsage, countFlagged := true, 0, 0;
      var todo := cacheCoins.Keys;
      ghost var rest := Level();
      NoUsage();
      while todo != {}
        invariant todo == rest.Keys && (forall o :: o in rest ==> o in cacheCoins && rest[o] == Plain(cacheCoins[o]))
        invariant ok <==> forall o :: o in cacheCoins && o !in todo ==> Possible(Plain(cacheCoins[o]))
        invariant recomputedUsage + Usage(rest) == Usage(Level())
        invariant countFlagged + |FlaggedOf(rest)| == |FlaggedOf(Level())|
        decreases |todo|
      {
        var o :| o in todo;
        var entry := cacheCoins[o];
        UsageRemove(rest, o);
        FlaggedRemove(rest, o);
        ok := ok && Possible(Plain(entry));
        recomputedUsage := recomputedUsage + DynamicMemoryUsage(entry.coin);
        if entry.IsFlagged() {
          countFlagged := countFlagged + 1;
        }
        todo, rest := todo - {o}, rest - {o};
      }
      assert rest == map[];
      assert FlaggedOf(rest) == {};
      forall o
        ensures o in Level() <==> o in cacheCoins
        ensures o in Level() ==> Level()[o] == Plain(cacheCoins[o])
      {
        EntryAt(cacheCoins, o);
      }
    }

    /**
      SanityCheck's walk along the list, up to the first failed assertion. A walk over more nodes
      than there are entries would go on for ever, and does not pass.
    */
    method CheckList() returns (ok: bool, countLinked: nat)
      ensures ok <==> exists list :: Walked(Store(cacheCoins, sentinel), list)
      ensures forall list :: ok && Walked(Store(cacheCoins, sentinel), list) ==> countLinked == |list|
    {
      hide Trail;
      ghost var s := Store(cacheCoins, sentinel);
      ghost var trail := [];
      ok, countLinked := true, 0;
      var it := sentinel.next;
      TrailStart(s);
      while it != Sentinel && ok && countLinked <= |cacheCoins|
        invariant countLinked == |trail| && Trail(s, trail, it)
        invariant !ok ==> it != Sentinel && !NodeOk(s, it)
        decreases |cacheCoins| + 1 - countLinked, ok
      {
        var links := LinksAt(it);
        ok := LinksAt(links.next).prev == it && LinksAt(links.prev).next == it && it.At? && it.o in cacheCoins && cacheCoins[it.o].IsFlagged();
        if ok {
          TrailStep(s, trail, it);
          trail := trail + [it.o];
          countLinked := countLinked + 1;
          it := links.next;
        }
      }
      ok := it == Sentinel;
      assert ok ==> Walked(s, trail);
      forall list | Walked(s, list)
        ensures ok && countLinked == |list|
      {
        WalkGoesOn(s, trail, it, list);
      }
    }

    function LinksAt(r: Ref): (l: Links)
      reads this
      ensures l == Store(cacheCoins, sentinel).At(r)
    {
      match r
      case Sentinel => sentinel
      case At(o) => if o in cacheCoins then cacheCoins[o].links else Links(Null, Null)
      case Null => Links(Null, Null)
    }

    /** All assertions of SanityCheck hold. */
    method SanityCheck() returns (ok: bool)
      ensures ok <==> AllPossible(Level()) && cachedCoinsUsage == Usage(Level()) && ListChecks(Store(cacheCoins, sentinel))
      ensures Valid() && AllPossible(Level()) ==> ok
    {
      hide Walked, FlaggedOf, Linked, AllPossible, Usage;
      var entriesOk, recomputedUsage, countFlagged := CheckEntries();
      var listOk, countLinked := CheckList();
      ok := entriesOk && listOk && countLinked == countFlagged && recomputedUsage == cachedCoinsUsage;
      if ListOk() {
        ListChecksLinked(Store(cacheCoins, sentinel), flagged);
      }
    }

    method Clear()
      modifies this
      ensures Valid() && Level() == map[]
    {
      cacheCoins := map[];
      sentinel := Links(Sentinel, Sentinel);
      flagged := [];
      cachedCoinsUsage := 0;
    }
  }

  /** After the exception, the usage is wrong if the coin in the way has a script of 37 bytes. */
  method UsageLost() returns (cache: CoinsViewCache, thrown: bool)
    ensures thrown && cache.Level().Keys != {} && cache.cachedCoinsUsage == 0 < Usage(cache.Level())
  {
    var o, coin := OutPoint(0, 0), Unspent(0, seq(37, _ => 0), false, 0);
    cache := new CoinsViewCache();
    thrown := cache.AddCoin(o, coin, false);
    UsageRemove(cache.Level(), o);
    thrown := cache.AddCoin(o, coin, false);
    assert o in cache.Level();
  }

  /** The child's entries after the cursor has passed o without erasing. */
  function Passed(l: Level, o: OutPoint): Level
    requires o in l
  {
    if l[o].coin.Spent? then l - {o} else l[o := Cached(l[o].coin, false, false)]
  }
}
