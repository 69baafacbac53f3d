/** A stack of coin caches over a database (src/coins.cpp:48-150, 183-272). */
module CoinStacks {
  import opened CoinLists
  import opened CoinCaches
  import opened CoinViews

  class CoinsViewStack {
    var db: Db
    // The caches, each backed by the one before it and the first by the database.
    const caches: seq<CoinsViewCache>

    ghost function Levels(): (ls: seq<Level>)
      reads caches
      ensures |ls| == |caches| && forall i :: 0 <= i < |ls| ==> ls[i] == caches[i].Level()
    {
      seq(|caches|, i requires 0 <= i < |caches| reads caches => caches[i].Level())
    }

    ghost predicate CachesOk()
      reads caches
    {
      && (forall i, j :: 0 <= i < j < |caches| ==> caches[i] != caches[j])
      && (forall i :: 0 <= i < |caches| ==> caches[i].Valid())
    }

    ghost predicate Valid()
      reads this, caches
    {
      CachesOk() && StackOk(db, Levels())
    }

    ghost function ViewAt(n: nat, o: OutPoint): Coin
      requires n <= |caches|
      reads this, caches
    {
      View(db, Levels(), n, o)
    }

    constructor (db: Db, caches: seq<CoinsViewCache>)
      requires DbOk(db)
      requires forall i, j :: 0 <= i < j < |caches| ==> caches[i] != caches[j]
      requires forall i :: 0 <= i < |caches| ==> caches[i].Valid() && caches[i].Level() == map[]
      ensures Valid() && this.db == db && this.caches == caches
      ensures forall n: nat, o :: n <= |caches| ==> ViewAt(n, o) == if o in db then db[o] else Spent
    {
      this.db := db;
      this.caches := caches;
      new;
      forall n: nat, o | n <= |caches|
        ensures ViewAt(n, o) == if o in db then db[o] else Spent
      {
        EmptyLevels(db, Levels(), n, o);
      }
    }

    /** A stack of caches that are in use already, with the given entries. */
    constructor Of(db: Db, caches: seq<CoinsViewCache>, ghost levels: seq<Level>)
      requires forall i, j :: 0 <= i < j < |caches| ==> caches[i] != caches[j]
      requires |levels| == |caches| && forall i :: 0 <= i < |caches| ==> caches[i].Valid() && caches[i].Level() == levels[i]
      requires StackOk(db, levels)
      ensures Valid() && this.db == db && this.caches == caches && Levels() == levels
    {
      this.db := db;
      this.caches := caches;
      new;
      assert Levels() == levels;
    }

    /** A new cache on top of the stack. */
    method Push() returns (s: CoinsViewStack)
      requires Valid()
      ensures fresh(s) && s.db == db && |s.caches| == |caches| + 1 && s.caches[..|caches|] == caches && fresh(s.caches[|caches|])
      ensures s.Valid() && s.Levels() == Levels() + [map[]]
    {
      hide StackOk, CoinsViewCache.Valid, CoinsViewCache.Level;
      var top := new CoinsViewCache();
      StackPush(db, Levels(), map[]);
      s := new CoinsViewStack.Of(db, caches + [top], Levels() + [map[]]);
    }

    /** Gives up the top cache, without writing it back. */
    method Pop() returns (s: CoinsViewStack)
      requires Valid() && |caches| > 0
      ensures fresh(s) && s.db == db && s.caches == caches[..|caches| - 1]
      ensures s.Valid() && s.Levels() == Levels()[..|caches| - 1]
    {
      hide StackOk, CoinsViewCache.Valid, CoinsViewCache.Level;
      var n := |caches| - 1;
      StackPrefix(db, Levels(), n);
      s := new CoinsViewStack.Of(db, caches[..n], Levels()[..n]);
    }

    // ---------- reading ----------

    /** The coin at level n, or Spent if there is none; reading fills the caches but changes no view. */
    method GetCoin(n: nat, o: OutPoint) returns (coin: Coin)
      requires Valid() && n <= |caches|
      modifies caches[..n]
      ensures Valid() && SameViews(db, old(Levels()), Levels())
      ensures coin == old(ViewAt(n, o))
      ensures coin.Spent? ==> Levels() == old(Levels())
      ensures forall i :: n <= i < |caches| ==> caches[i].Level() == old(caches[i].Level())
      decreases n, 0
    {
      if n == 0 {
        return if o in db then db[o] else Spent;
      }
      var found := FetchCoin(n - 1, o);
      if found && caches[n - 1].cacheCoins[o].coin.Unspent? {
        coin := caches[n - 1].cacheCoins[o].coin;
      } else {
        coin := Spent;
      }
    }

    /** Looks the coin up in cache n, filling it from below if needed. */
    method FetchCoin(n: nat, o: OutPoint) returns (found: bool)
      requires Valid() && n < |caches|
      modifies caches[..n + 1]
      ensures Valid() && SameViews(db, old(Levels()), Levels())
      ensures found <==> o in caches[n].cacheCoins
      ensures found ==> caches[n].cacheCoins[o].coin == old(ViewAt(n + 1, o))
      ensures !found ==> old(ViewAt(n + 1, o)).Spent?
      ensures found <==> o in old(caches[n].Level()) || old(ViewAt(n + 1, o)).Unspent?
      ensures old(ViewAt(n + 1, o)).Spent? ==> Levels() == old(Levels())
      ensures forall i :: n < i < |caches| ==> caches[i].Level() == old(caches[i].Level())
      decreases n, 1
    {
      hide EntryOk, StackOk, SameViews, CoinsViewCache.Valid, CoinsViewCache.Level;
      ghost var was := Levels();
      ghost var c := caches[n];
      LevelKeys(caches[n], o);
      SameViewsReflexive(db, was);
      found := o in caches[n].cacheCoins;
      if !found {
        var coin := GetCoin(n, o);
        ghost var mid := Levels();
        if coin.Unspent? {
          found := true;
          SameViewsAt(db, was, mid, n, o);
          LevelKeys(caches[n], o);
          FetchKeeps(db, mid, n, o);
          caches[n].Install(o, coin);
          assert Levels() == mid[n := mid[n][o := Cached(coin, false, false)]];
          SameViewsTransitive(db, was, mid, Levels());
        }
        LevelKeys(caches[n], o);
      }
    }

    /** Removes an unmodified entry from cache n; no view changes. */
    method Uncache(n: nat, o: OutPoint)
      requires Valid() && n < |caches|
      modifies caches[n]
      ensures Valid() && SameViews(db, old(Levels()), Levels())
      ensures var l := old(caches[n].Level());
              caches[n].Level() == if o in l && !l[o].isDirty && !l[o].isFresh then l - {o} else l
    {
      hide EntryOk, StackOk, SameViews, CoinsViewCache.Valid, CoinsViewCache.Level;
      ghost var was := Levels();
      ghost var l := caches[n].Level();
      SameViewsReflexive(db, was);
      if o in l && !l[o].isDirty && !l[o].isFresh {
        UncacheKeeps(db, was, n, o);
      }
      caches[n].Uncache(o);
      assert Levels() == was[n := caches[n].Level()];
      assert was[n := was[n]] == was;
    }

    // ---------- modifying the top ----------

    /**
      Adds a coin at the top: exactly one outpoint of the top view changes, and no exception is
      thrown. The coin is visible afterwards unless its script starts with 0x6a or is longer
      than 10000 bytes; then nothing changes.
    */
    method AddCoin(o: OutPoint, coin: Coin, possibleOverwrite: bool) returns (thrown: bool)
      requires Valid() && |caches| > 0 && coin.Unspent?
      requires possibleOverwrite || ViewAt(|caches|, o).Spent?
      modifies caches[|caches| - 1]
      ensures Valid() && !thrown
      ensures if IsUnspendable(coin.script) then SameViews(db, old(Levels()), Levels()) else Updates(db, old(Levels()), Levels(), o, coin)
      ensures |coin.script| <= 10000 && (coin.script == [] || coin.script[0] != 0x6a) ==> ViewAt(|caches|, o) == coin
      ensures |coin.script| > 10000 || (coin.script != [] && coin.script[0] == 0x6a) ==> Levels() == old(Levels())
    {
      hide EntryOk, StackOk, SameViews, Updates, CoinsViewCache.Valid, CoinsViewCache.Level, IsUnspendable;
      Spendable(coin.script);
      ghost var was := Levels();
      var n := |caches| - 1;
      AddUpdates(db, was, o, coin, possibleOverwrite);
      SameViewsReflexive(db, was);
      CachedView(db, was, o);
      thrown := caches[n].AddCoin(o, coin, possibleOverwrite);
      assert Levels() == was[n := caches[n].Level()];
      assert was[n := was[n]] == was;
      if !IsUnspendable(coin.script) {
        UpdatesTop(db, was, Levels(), o, coin);
      }
    }

    /**
      Spends the coin at the top: exactly that outpoint of the top view becomes spent. The
      result says whether the cache had an entry or the coin was unspent; the coin moved out
      is the one that was visible. Spending a coin that is not visible leaves every cache as
      it was.
    */
    method SpendCoin(o: OutPoint) returns (ok: bool, moved: Coin)
      requires Valid() && |caches| > 0
      modifies caches
      ensures Valid() && Updates(db, old(Levels()), Levels(), o, Spent)
      ensures ok <==> o in old(caches[|caches| - 1].Level()) || old(ViewAt(|caches|, o)).Unspent?
      ensures moved == old(ViewAt(|caches|, o))
      ensures moved.Spent? ==> Levels() == old(Levels())
    {
      hide EntryOk, StackOk, SameViews, Updates, CoinsViewCache.Valid, CoinsViewCache.Level;
      ghost var was := Levels();
      var n := |caches| - 1;
      moved := Spent;
      ok := FetchCoin(n, o);
      ghost var mid := Levels();
      if !ok {
        SpentAlready(db, was, mid, o);
        return;
      }
      LevelKeys(caches[n], o);
      SpendUpdates(db, mid, o);
      if caches[n].cacheCoins[o].coin.Spent? {
        SpentStays(db, mid, n, o);
        assert mid[n := mid[n]] == mid;
      }
      moved := caches[n].SpendCached(o);
      assert Levels() == mid[n := caches[n].Level()];
      UpdatesAfter(db, was, mid, Levels(), o, Spent);
    }

    // ---------- writing back ----------

    /** Writes one dirty entry of cache n to its base. */
    method WriteEntry(n: nat, o: OutPoint, e: Cached) returns (thrown: bool)
      requires CachesOk() && n < |caches|
      modifies this`db, caches[..n]
      ensures CachesOk()
      ensures n == 0 ==> !thrown && db == Stored(old(db), o, e.coin)
      ensures n > 0 ==> db == old(db) && (thrown <==> Misapplied(old(caches[n - 1].Level()), o, e))
      ensures n > 0 && !thrown ==> caches[n - 1].Level() == Received(old(caches[n - 1].Level()), o, e)
      ensures forall i :: 0 <= i < |caches| && i != n - 1 ==> caches[i].Level() == old(caches[i].Level())
    {
      hide CoinsViewCache.Valid, CoinsViewCache.Level;
      thrown := false;
      if n == 0 {
        if e.coin.Spent? {
          db := db - {o};
        } else {
          db := db[o := e.coin];
        }
      } else {
        thrown := caches[n - 1].Receive(o, e);
      }
    }

    /** The first k entries of cache n's list have been written to its base. */
    ghost predicate Writing(n: nat, willErase: bool, db0: Db, was: seq<Level>, list: seq<OutPoint>, k: nat)
      requires n < |caches| == |was| && k <= |list|
      reads this, caches
    {
      && CachesOk() && StackOk(db0, was) && ListsFlagged(list, was[n])
      && Written(db0, was, db, Levels()[..n], n, list[..k])
      && (n > 0 ==> db == db0 && Levels()[..n - 1] == was[..n - 1])
      && Levels()[n + 1..] == was[n + 1..]
      && caches[n].flagged == (if willErase then list else list[k..])
      && caches[n].Level() == if willErase then was[n] else Synced(was[n], list[..k])
    }

    /** Writes the next flagged entry, and moves the cursor. */
    method WriteNext(n: nat, willErase: bool, ghost db0: Db, ghost was: seq<Level>, ghost list: seq<OutPoint>, ghost k: nat, o: OutPoint)
      returns (thrown: bool, next: Ref)
      requires n < |caches| == |was| && k < |list| && o == list[k]
      requires Writing(n, willErase, db0, was, list, k)
      modifies this`db, caches[..n + 1]
      ensures !thrown && Writing(n, willErase, db0, was, list, k + 1) && next == Node(list, k + 2)
    {
      hide EntryOk, StackOk, CoinViews.Written, CoinsViewCache.Level, CoinsViewCache.Valid, Synced, Stored, ListWithout;
      hide Received, Misapplied, Passed, View, NoRepeats;
      ghost var mid := Levels();
      CursorEntry(caches[n], list, k, was[n], willErase);
      var entry := caches[n].cacheCoins[o];
      FlaggedDirty(db0, was, n, o);
      assert entry.isDirty && Plain(entry) == was[n][o];
      if n == 0 {
        WrittenDbStep(db0, was, db, list, k);
        assert mid[..0] == [];
      } else {
        WrittenStep(db0, was, db, mid[..n], n, list, k);
      }
      thrown := false;
      if entry.isDirty {
        thrown := WriteEntry(n, o, Plain(entry));
      }
      ghost var after := Levels();
      assert n > 0 ==> after[..n] == mid[..n][n - 1 := Received(mid[n - 1], o, was[n][o])];
      assert after[n + 1..] == mid[n + 1..];
      assert after[n] == mid[n];
      SyncedStep(was[n], list, k);
      DropFirst(list, k);
      next := caches[n].NextAndMaybeErase(o, willErase);
      assert Levels() == after[n := caches[n].Level()];
      assert n == 0 ==> Levels()[..n] == [];
    }

    /** Pushes the flagged entries of cache n to its base. */
    method BatchWrite(n: nat, willErase: bool) returns (thrown: bool)
      requires Valid() && n < |caches|
      modifies this`db, caches[..n + 1]
      ensures !thrown && Writing(n, willErase, old(db), old(Levels()), old(caches[n].flagged), |old(caches[n].flagged)|)
    {
      hide EntryOk, StackOk, CoinViews.Written, CoinsViewCache.Level, CoinsViewCache.Valid, Synced;
      ghost var db0, was, list := db, Levels(), caches[n].flagged;
      ghost var k: nat := 0;
      thrown := false;
      assert Writing(n, willErase, db0, was, list, 0) by {
        WrittenNone(db0, was, n);
        SyncedNone(was[n]);
        FlaggedList(caches[n]);
        assert list[..0] == [] && list[0..] == list;
      }
      var it := caches[n].Begin();
      hide CoinsViewStack.Writing;
      while it != Sentinel
        invariant k <= |list| && it == Node(list, k + 1) && !thrown
        invariant Writing(n, willErase, db0, was, list, k)
        decreases |list| - k
      {
        thrown, it := WriteNext(n, willErase, db0, was, list, k, it.o);
        k := k + 1;
      }
    }

    ghost predicate FlushedTo(n: nat, db0: Db, was: seq<Level>)
      requires n < |caches| == |was|
      reads this, caches
    {
      && (forall m: nat, o :: m < n ==> ViewAt(m, o) == View(db0, was, m, o))
      && (forall o :: ViewAt(n, o) == View(db0, was, n + 1, o))
      && (forall m: nat, o :: n < m <= |caches| ==> ViewAt(m, o) == View(db0, was, m, o))
    }

    /** Pushes cache n to its base and wipes it: the base then shows what the cache showed, and no view above changes. */
    method Flush(n: nat) returns (thrown: bool)
      requires Valid() && n < |caches|
      modifies this`db, caches[..n + 1]
      ensures Valid() && !thrown && caches[n].Level() == map[]
      ensures FlushedTo(n, old(db), old(Levels()))
    {
      hide EntryOk, StackOk, CoinViews.Written, View, ListsFlagged, CoinsViewCache.Valid, CoinsViewCache.Level, Synced;
      ghost var db0, was, list := db, Levels(), caches[n].flagged;
      thrown := BatchWrite(n, true);
      assert list[..|list|] == list;
      ghost var lower := Levels()[..n];
      caches[n].Clear();
      assert Levels()[..n] == lower;
      Settled(db0, was, db, Levels(), n, list);
    }

    /** Pushes cache n to its base and keeps its unspent entries, unflagged. */
    method Sync(n: nat) returns (thrown: bool)
      requires Valid() && n < |caches|
      modifies this`db, caches[..n + 1]
      ensures Valid() && !thrown && caches[n].sentinel.next == Sentinel && caches[n].Level() == UnspentOf(old(caches[n].Level()))
      ensures FlushedTo(n, old(db), old(Levels()))
    {
      hide EntryOk, StackOk, CoinViews.Written, View, ListsFlagged, CoinsViewCache.Valid, CoinsViewCache.Level, Synced, UnspentOf;
      ghost var db0, was, list := db, Levels(), caches[n].flagged;
      thrown := BatchWrite(n, false);
      assert list[..|list|] == list && list[|list|..] == [];
      StackPossible(db0, was, n);
      SyncedFacts(was[n], list);
      SyncedAll(was[n], list);
      var first := caches[n].Begin();
      Settled(db0, was, db, Levels(), n, list);
    }
  }

  /** The whole stack, once the flagged entries of cache n are in its base. */
  lemma Settled(db0: Db, was: seq<Level>, db: Db, levels: seq<Level>, n: nat, list: seq<OutPoint>)
    requires StackOk(db0, was) && n < |was| == |levels| && ListsFlagged(list, was[n])
    requires Written(db0, was, db, levels[..n], n, list) && levels[n + 1..] == was[n + 1..]
    requires n > 0 ==> db == db0 && levels[..n - 1] == was[..n - 1]
    requires Cleaned(was[n], levels[n])
    ensures StackOk(db, levels)
    ensures forall m: nat, o :: m < n ==> View(db, levels, m, o) == View(db0, was, m, o)
    ensures forall o :: View(db, levels, n, o) == View(db0, was, n + 1, o)
    ensures forall m: nat, o :: n < m <= |was| ==> View(db, levels, m, o) == View(db0, was, m, o)
  {
    hide StackOk, EntryOk;
    assert levels == levels[..n] + [levels[n]] + was[n + 1..];
    WrittenAll(db0, was, db, levels[..n], n, list, levels[n]);
    forall m: nat, o | m < n
      ensures View(db, levels, m, o) == View(db0, was, m, o)
    {
      assert levels[..m] == levels[..n - 1][..m] == was[..n - 1][..m] == was[..m];
      ViewPrefix(db, levels, was, m, o);
    }
  }

  /** A spent entry of a valid stack is dirty and not fresh, so that spending it again changes nothing. */
  lemma SpentStays(db: Db, levels: seq<Level>, n: nat, o: OutPoint)
    requires StackOk(db, levels) && n < |levels| && o in levels[n] && levels[n][o].coin.Spent?
    ensures AfterSpend(levels[n], o) == levels[n]
  {
    hide StackOk;
    StackEntry(db, levels, n, o);
  }

  /** The flag combinations SanityCheck allows are the only ones. */
  lemma StackPossible(db: Db, levels: seq<Level>, n: nat)
    requires StackOk(db, levels) && n < |levels|
    ensures AllPossible(levels[n])
  {
    hide StackOk;
    forall o | o in levels[n]
      ensures Possible(levels[n][o])
    {
      StackEntry(db, levels, n, o);
    }
  }

  /** `l` holds only unspent entries of `was`, without flags. */
  ghost predicate Cleaned(was: Level, l: Level) {
    forall o :: o in l ==> o in was && was[o].coin.Unspent? && l[o] == Cached(was[o].coin, false, false)
  }

  // ---------- the cursor ----------

  ghost predicate ListsFlagged(list: seq<OutPoint>, l: Level) {
    NoRepeats(list) && forall o :: o in list <==> o in l && (l[o].isDirty || l[o].isFresh)
  }

  lemma FlaggedList(c: CoinsViewCache)
    requires c.Valid()
    ensures ListsFlagged(c.flagged, c.Level())
  {
    forall o
      ensures o in c.flagged <==> o in c.Level() && (c.Level()[o].isDirty || c.Level()[o].isFresh)
    {
      LevelKeys(c, o);
    }
  }

  lemma SyncedNone(l: Level)
    ensures Synced(l, []) == l
  {
  }

  /** The unspent entries, without flags. */
  ghost function UnspentOf(l: Level): Level {
    map o | o in l && l[o].coin.Unspent? :: Cached(l[o].coin, false, false)
  }

  /** Once the whole list is written, exactly the unspent entries are left. */
  lemma SyncedAll(l: Level, list: seq<OutPoint>)
    requires ListsFlagged(list, l) && AllPossible(l)
    ensures Synced(l, list) == UnspentOf(l)
  {
    SyncedFacts(l, list);
    forall o
      ensures o in Synced(l, list) <==> o in UnspentOf(l)
    {
      assert o in Synced(l, list) ==> o in l && l[o].coin.Unspent?;
    }
  }

  lemma SyncedFacts(l: Level, list: seq<OutPoint>)
    requires ListsFlagged(list, l) && AllPossible(l)
    ensures Cleaned(l, Synced(l, list))
  {
    forall o | o in Synced(l, list)
      ensures o in l && l[o].coin.Unspent? && Synced(l, list)[o] == Cached(l[o].coin, false, false)
    {
      assert Possible(l[o]);
    }
  }

  lemma DropFirst(list: seq<OutPoint>, k: nat)
    requires NoRepeats(list) && k < |list|
    ensures ListWithout(list[k..], list[k]) == list[k + 1..]
  {
    var rest := list[k..];
    assert rest[0] == list[k];
    var i := IndexOf(rest, list[k]);
    assert list[k + i] == list[k];
    assert i == 0;
  }

  /** The cursor's k-th entry is as it was, and points to the next one of the original list. */
  lemma CursorEntry(c: CoinsViewCache, list: seq<OutPoint>, k: nat, l: Level, willErase: bool)
    requires c.Valid() && k < |list| && ListsFlagged(list, l)
    requires c.flagged == (if willErase then list else list[k..])
    requires c.Level() == if willErase then l else Synced(l, list[..k])
    ensures list[k] in l && list[k] in c.flagged && list[k] in c.cacheCoins
    ensures Plain(c.cacheCoins[list[k]]) == l[list[k]] && c.cacheCoins[list[k]].links.next == Node(list, k + 2)
  {
    hide Synced, CoinsViewCache.Level;
    var o, j := list[k], if willErase then k else 0;
    assert o in list && c.flagged[j] == o;
    SyncedStep(l, list, k);
    LevelKeys(c, o);
    CursorNext(c, j);
    assert Node(c.flagged, j + 2) == Node(list, k + 2);
  }

  lemma CursorNext(c: CoinsViewCache, j: nat)
    requires c.Valid() && j < |c.flagged|
    ensures c.flagged[j] in c.cacheCoins && c.cacheCoins[c.flagged[j]].links.next == Node(c.flagged, j + 2)
  {
    var s := Store(c.cacheCoins, c.sentinel);
    NodeKnown(s, c.flagged, j + 1);
    assert s.At(Node(c.flagged, j + 1)).next == Node(c.flagged, j + 1 + 1);
  }

  // ---------- about levels and views ----------

  lemma {:induction false} EmptyLevels(db: Db, levels: seq<Level>, n: nat, o: OutPoint)
    requires n <= |levels| && forall i :: 0 <= i < n ==> levels[i] == map[]
    ensures View(db, levels, n, o) == if o in db then db[o] else Spent
  {
    if n > 0 {
      EmptyLevels(db, levels, n - 1, o);
    }
  }

  lemma LevelKeys(c: CoinsViewCache, o: OutPoint)
    ensures o in c.Level() <==> o in c.cacheCoins
    ensures o in c.Level() ==> c.Level()[o] == Plain(c.cacheCoins[o])
  {
  }

  lemma SameViewsReflexive(db: Db, a: seq<Level>)
    ensures SameViews(db, a, a)
  {
  }

  lemma SameViewsAt(db: Db, a: seq<Level>, b: seq<Level>, n: nat, o: OutPoint)
    requires SameViews(db, a, b) && n <= |a|
    ensures View(db, a, n, o) == View(db, b, n, o)
  {
  }

  lemma SameViewsTransitive(db: Db, a: seq<Level>, b: seq<Level>, c: seq<Level>)
    requires SameViews(db, a, b) && SameViews(db, b, c)
    ensures SameViews(db, a, c)
  {
  }

  lemma CachedView(db: Db, levels: seq<Level>, o: OutPoint)
    requires levels != []
    ensures o in levels[|levels| - 1] ==> levels[|levels| - 1][o].coin == View(db, levels, |levels|, o)
  {
  }

  lemma SpentAlready(db: Db, a: seq<Level>, b: seq<Level>, o: OutPoint)
    requires SameViews(db, a, b) && a != [] && View(db, a, |a|, o).Spent?
    ensures Updates(db, a, b, o, Spent)
  {
  }

  lemma UpdatesAfter(db: Db, a: seq<Level>, b: seq<Level>, c: seq<Level>, o: OutPoint, coin: Coin)
    requires SameViews(db, a, b) && Updates(db, b, c, o, coin)
    ensures Updates(db, a, c, o, coin)
  {
  }
}
