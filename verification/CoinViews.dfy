/** The view of a stack of caches over a database, and what each change of a level does to it. */
module CoinViews {
  import opened CoinLists
  import opened CoinCaches

  type Db = map<OutPoint, Coin>

  /** The coin visible at level n for o: level 0 is the database, and a missing coin reads as spent. */
  ghost function View(db: Db, levels: seq<Level>, n: nat, o: OutPoint): Coin
    requires n <= |levels|
  {
    if n == 0 then if o in db then db[o] else Spent
    else if o in levels[n - 1] then levels[n - 1][o].coin
    else View(db, levels, n - 1, o)
  }

  /**
    A cached entry fits the coin `base` visible below it: an entry that is not dirty agrees
    with the base, a fresh one has no unspent coin below it, and fresh entries are dirty.
  */
  ghost predicate EntryOk(e: Cached, base: Coin) {
    && Possible(e)
    && (!e.isDirty ==> e.coin == base && !e.isFresh)
    && (e.isFresh ==> base.Spent?)
  }

  ghost predicate LevelOk(db: Db, levels: seq<Level>, n: nat)
    requires n < |levels|
  {
    forall o :: o in levels[n] ==> EntryOk(levels[n][o], View(db, levels, n, o))
  }

  ghost predicate DbOk(db: Db) {
    forall o :: o in db ==> db[o].Unspent?
  }

  ghost predicate StackOk(db: Db, levels: seq<Level>) {
    DbOk(db) && forall n: nat :: n < |levels| ==> LevelOk(db, levels, n)
  }

  // ---------- views of changed stacks ----------

  lemma {:induction false} ViewPrefix(db: Db, a: seq<Level>, b: seq<Level>, n: nat, o: OutPoint)
    requires n <= |a| && n <= |b| && a[..n] == b[..n]
    ensures View(db, a, n, o) == View(db, b, n, o)
  {
    if n > 0 {
      assert a[n - 1] == a[..n][n - 1] == b[..n][n - 1] == b[n - 1];
      assert a[..n - 1] == a[..n][..n - 1] == b[..n][..n - 1] == b[..n - 1];
      ViewPrefix(db, a, b, n - 1, o);
    }
  }

  /** Two stacks that agree in their view at level n and in all levels above it agree in all views above n. */
  lemma {:induction false} ViewAbove(db: Db, a: seq<Level>, db': Db, b: seq<Level>, n: nat, m: nat, o: OutPoint)
    requires n <= m <= |a| == |b| && a[n..] == b[n..]
    requires View(db, a, n, o) == View(db', b, n, o)
    ensures View(db, a, m, o) == View(db', b, m, o)
  {
    if m > n {
      assert a[m - 1] == a[n..][m - 1 - n] == b[n..][m - 1 - n] == b[m - 1];
      ViewAbove(db, a, db', b, n, m - 1, o);
    }
  }

  /** A changed stack is fine if its lower part is, and the view and the levels above are as before. */
  lemma StackAbove(db: Db, a: seq<Level>, db': Db, b: seq<Level>, n: nat)
    requires StackOk(db, a) && n <= |a| == |b| && a[n..] == b[n..]
    requires forall o :: View(db, a, n, o) == View(db', b, n, o)
    requires StackOk(db', b[..n])
    ensures StackOk(db', b)
    ensures forall m: nat, o :: n <= m <= |a| ==> View(db', b, m, o) == View(db, a, m, o)
  {
    hide EntryOk, View;
    forall m: nat, o | n <= m <= |a|
      ensures View(db', b, m, o) == View(db, a, m, o)
    {
      ViewAbove(db, a, db', b, n, m, o);
    }
    forall m: nat | m < |b|
      ensures LevelOk(db', b, m)
    {
      if m < n {
        LevelPrefix(db', b, n, m);
      } else {
        assert a[m] == a[n..][m - n] == b[n..][m - n] == b[m];
        assert LevelOk(db, a, m);
      }
    }
  }

  lemma LevelPrefix(db: Db, levels: seq<Level>, n: nat, m: nat)
    requires m < n <= |levels|
    ensures LevelOk(db, levels[..n], m) <==> LevelOk(db, levels, m)
  {
    hide EntryOk, View;
    assert levels[..n][..m] == levels[..m];
    forall o
      ensures View(db, levels[..n], m, o) == View(db, levels, m, o)
    {
      ViewPrefix(db, levels[..n], levels, m, o);
    }
  }

  lemma StackPrefix(db: Db, levels: seq<Level>, n: nat)
    requires StackOk(db, levels) && n <= |levels|
    ensures StackOk(db, levels[..n])
    ensures forall o :: View(db, levels[..n], n, o) == View(db, levels, n, o)
  {
    hide EntryOk, View, LevelOk;
    forall m: nat | m < n
      ensures LevelOk(db, levels[..n], m)
    {
      LevelPrefix(db, levels, n, m);
    }
    forall o
      ensures View(db, levels[..n], n, o) == View(db, levels, n, o)
    {
      ViewPrefix(db, levels[..n], levels, n, o);
    }
  }

  /** The stack with level n replaced. */
  lemma ReplaceTop(db: Db, lower: seq<Level>, l: Level, o: OutPoint)
    ensures var stack := lower + [l];
            View(db, stack, |lower| + 1, o) == if o in l then l[o].coin else View(db, lower, |lower|, o)
    ensures View(db, lower + [l], |lower|, o) == View(db, lower, |lower|, o)
  {
    assert (lower + [l])[..|lower|] == lower == lower[..|lower|];
    ViewPrefix(db, lower + [l], lower, |lower|, o);
  }

  lemma StackPush(db: Db, lower: seq<Level>, l: Level)
    requires StackOk(db, lower) && forall o :: o in l ==> EntryOk(l[o], View(db, lower, |lower|, o))
    ensures StackOk(db, lower + [l])
  {
    hide EntryOk, View;
    var stack := lower + [l];
    assert stack[..|lower|] == lower;
    forall m: nat | m < |stack|
      ensures LevelOk(db, stack, m)
    {
      if m < |lower| {
        LevelPrefix(db, stack, |lower|, m);
      } else {
        forall o | o in stack[m]
          ensures EntryOk(stack[m][o], View(db, stack, m, o))
        {
          ReplaceTop(db, lower, l, o);
        }
      }
    }
  }

  /** What holds of the entries of level n. */
  lemma StackEntry(db: Db, levels: seq<Level>, n: nat, o: OutPoint)
    requires StackOk(db, levels) && n < |levels| && o in levels[n]
    ensures EntryOk(levels[n][o], View(db, levels, n, o))
  {
    assert LevelOk(db, levels, n);
  }

  // ---------- single entries ----------

  /** Adding a coin keeps the entry fitting its base. */
  lemma AddedOk(l: Level, o: OutPoint, coin: Coin, possibleOverwrite: bool, base: Coin)
    requires coin.Unspent? && (o in l ==> EntryOk(l[o], base))
    requires possibleOverwrite || (if o in l then l[o].coin else base).Spent?
    ensures EntryOk(Added(l, o, coin, possibleOverwrite), base)
  {
  }

  lemma SpentOk(l: Level, o: OutPoint, base: Coin)
    requires o in l && EntryOk(l[o], base)
    ensures o in AfterSpend(l, o) ==> EntryOk(AfterSpend(l, o)[o], base) && AfterSpend(l, o)[o].coin.Spent?
    ensures o !in AfterSpend(l, o) ==> base.Spent?
  {
  }

  /** A parent that receives a dirty entry which fits the parent's view never finds the fresh flag misapplied. */
  lemma ReceivedOk(l: Level, o: OutPoint, e: Cached, base: Coin)
    requires e.isDirty && (o in l ==> EntryOk(l[o], base))
    requires EntryOk(e, if o in l then l[o].coin else base)
    ensures !Misapplied(l, o, e)
    ensures o in Received(l, o, e) ==> EntryOk(Received(l, o, e)[o], base) && Received(l, o, e)[o].coin == e.coin
    ensures o !in Received(l, o, e) ==> base == e.coin
  {
  }

  // ---------- changing one level ----------

  ghost predicate SameViews(db: Db, a: seq<Level>, b: seq<Level>) {
    |a| == |b| && forall m: nat, o :: m <= |a| ==> View(db, a, m, o) == View(db, b, m, o)
  }

  ghost predicate FitsAt(db: Db, levels: seq<Level>, n: nat, l: Level)
    requires n <= |levels|
  {
    forall o :: o in l ==> EntryOk(l[o], View(db, levels, n, o))
  }

  /** Replacing a level without changing what is visible at it. */
  lemma KeepViews(db: Db, levels: seq<Level>, n: nat, l: Level)
    requires StackOk(db, levels) && n < |levels| && FitsAt(db, levels, n, l)
    requires forall o :: View(db, levels, n + 1, o) == if o in l then l[o].coin else View(db, levels, n, o)
    ensures StackOk(db, levels[n := l]) && SameViews(db, levels, levels[n := l])
  {
    hide EntryOk, LevelOk;
    var b := levels[n := l];
    StackPrefix(db, levels, n);
    StackPush(db, levels[..n], l);
    assert b[..n + 1] == levels[..n] + [l];
    assert b[n + 1..] == levels[n + 1..];
    forall m: nat, o | m <= n
      ensures View(db, b, m, o) == View(db, levels, m, o)
    {
      assert b[..m] == levels[..m];
      ViewPrefix(db, b, levels, m, o);
    }
    StackAbove(db, levels, db, b, n + 1);
  }

  /** Replacing the topmost level. */
  lemma ChangeTop(db: Db, levels: seq<Level>, l: Level)
    requires StackOk(db, levels) && levels != [] && FitsAt(db, levels, |levels| - 1, l)
    ensures var n := |levels| - 1;
            && StackOk(db, levels[n := l])
            && (forall m: nat, o :: m <= n ==> View(db, levels[n := l], m, o) == View(db, levels, m, o))
            && (forall o :: View(db, levels[n := l], n + 1, o) == if o in l then l[o].coin else View(db, levels, n, o))
  {
    hide EntryOk, LevelOk;
    var n := |levels| - 1;
    var b := levels[n := l];
    StackPrefix(db, levels, n);
    StackPush(db, levels[..n], l);
    assert b == levels[..n] + [l];
    forall m: nat, o | m <= n
      ensures View(db, b, m, o) == View(db, levels, m, o)
    {
      assert b[..m] == levels[..m];
      ViewPrefix(db, b, levels, m, o);
    }
  }

  /** Fetching a visible coin into a level. */
  lemma FetchKeeps(db: Db, levels: seq<Level>, n: nat, o: OutPoint)
    requires StackOk(db, levels) && n < |levels| && o !in levels[n] && View(db, levels, n, o).Unspent?
    ensures var b := levels[n := levels[n][o := Cached(View(db, levels, n, o), false, false)]];
            StackOk(db, b) && SameViews(db, levels, b)
  {
    hide StackOk;
    var l := levels[n][o := Cached(View(db, levels, n, o), false, false)];
    forall q | q in l
      ensures EntryOk(l[q], View(db, levels, n, q))
    {
      if q != o {
        StackEntry(db, levels, n, q);
      }
    }
    KeepViews(db, levels, n, l);
  }

  /** Removing an entry that is not flagged. */
  lemma UncacheKeeps(db: Db, levels: seq<Level>, n: nat, o: OutPoint)
    requires StackOk(db, levels) && n < |levels| && o in levels[n] && !levels[n][o].isDirty && !levels[n][o].isFresh
    ensures StackOk(db, levels[n := levels[n] - {o}]) && SameViews(db, levels, levels[n := levels[n] - {o}])
  {
    hide StackOk;
    var l := levels[n] - {o};
    forall q | q in levels[n]
      ensures EntryOk(levels[n][q], View(db, levels, n, q))
    {
      StackEntry(db, levels, n, q);
    }
    KeepViews(db, levels, n, l);
  }

  ghost predicate Updates(db: Db, a: seq<Level>, b: seq<Level>, o: OutPoint, coin: Coin) {
    && |a| == |b| > 0
    && (forall m: nat, q :: m < |a| ==> View(db, b, m, q) == View(db, a, m, q))
    && (forall q :: View(db, b, |b|, q) == if q == o then coin else View(db, a, |a|, q))
  }

  lemma UpdatesTop(db: Db, a: seq<Level>, b: seq<Level>, o: OutPoint, coin: Coin)
    requires Updates(db, a, b, o, coin)
    ensures View(db, b, |b|, o) == coin
  {
  }

  /** Adding a coin at the top changes exactly one outpoint of the top view. */
  lemma AddUpdates(db: Db, levels: seq<Level>, o: OutPoint, coin: Coin, possibleOverwrite: bool)
    requires StackOk(db, levels) && levels != [] && coin.Unspent?
    requires possibleOverwrite || View(db, levels, |levels|, o).Spent?
    ensures var n := |levels| - 1;
            var b := levels[n := levels[n][o := Added(levels[n], o, coin, possibleOverwrite)]];
            StackOk(db, b) && Updates(db, levels, b, o, coin)
  {
    hide StackOk, EntryOk;
    var n := |levels| - 1;
    var l := levels[n][o := Added(levels[n], o, coin, possibleOverwrite)];
    forall q | q in levels[n]
      ensures EntryOk(levels[n][q], View(db, levels, n, q))
    {
      StackEntry(db, levels, n, q);
    }
    AddedOk(levels[n], o, coin, possibleOverwrite, View(db, levels, n, o));
    ChangeTop(db, levels, l);
  }

  /** Spending a cached coin at the top changes exactly one outpoint of the top view. */
  lemma SpendUpdates(db: Db, levels: seq<Level>, o: OutPoint)
    requires StackOk(db, levels) && levels != [] && o in levels[|levels| - 1]
    ensures var n := |levels| - 1;
            var b := levels[n := AfterSpend(levels[n], o)];
            StackOk(db, b) && Updates(db, levels, b, o, Spent)
  {
    hide StackOk, EntryOk;
    var n := |levels| - 1;
    var l := AfterSpend(levels[n], o);
    forall q | q in levels[n]
      ensures EntryOk(levels[n][q], View(db, levels, n, q))
    {
      StackEntry(db, levels, n, q);
    }
    SpentOk(levels[n], o, View(db, levels, n, o));
    ChangeTop(db, levels, l);
  }

  // ---------- writing a level back ----------

  /** The top of a stack receives a dirty entry of the level above it. */
  lemma TopReceives(db: Db, lower: seq<Level>, o: OutPoint, e: Cached)
    requires StackOk(db, lower) && lower != [] && e.isDirty && EntryOk(e, View(db, lower, |lower|, o))
    ensures var n := |lower| - 1;
            var b := lower[n := Received(lower[n], o, e)];
            !Misapplied(lower[n], o, e) && StackOk(db, b) && Updates(db, lower, b, o, e.coin)
  {
    hide StackOk, EntryOk;
    var n := |lower| - 1;
    forall q | q in lower[n]
      ensures EntryOk(lower[n][q], View(db, lower, n, q))
    {
      StackEntry(db, lower, n, q);
    }
    ReceivedOk(lower[n], o, e, View(db, lower, n, o));
    ChangeTop(db, lower, Received(lower[n], o, e));
  }

  /** The database after writing a dirty entry. */
  function Stored(db: Db, o: OutPoint, coin: Coin): Db {
    if coin.Spent? then db - {o} else db[o := coin]
  }

  lemma StoredView(db: Db, o: OutPoint, coin: Coin)
    requires DbOk(db)
    ensures DbOk(Stored(db, o, coin))
    ensures forall q :: View(Stored(db, o, coin), [], 0, q) == if q == o then coin else View(db, [], 0, q)
  {
  }

  /** What is left of the child's entries once the cursor has passed the first k of the list without erasing. */
  ghost function Synced(l: Level, done: seq<OutPoint>): Level {
    map o | o in l && !(o in done && l[o].coin.Spent?) :: if o in done then Cached(l[o].coin, false, false) else l[o]
  }

  lemma SyncedStep(l: Level, list: seq<OutPoint>, k: nat)
    requires NoRepeats(list) && k < |list| && list[k] in l
    ensures list[k] in Synced(l, list[..k]) && Synced(l, list[..k])[list[k]] == l[list[k]]
    ensures Passed(Synced(l, list[..k]), list[k]) == Synced(l, list[..k + 1])
  {
    assert list[..k + 1] == list[..k] + [list[k]];
    assert list[k] !in list[..k];
  }

  /** The base's view once the entries in `done` have been written to it. */
  ghost predicate Written(db: Db, levels: seq<Level>, db': Db, lower: seq<Level>, n: nat, done: seq<OutPoint>)
    requires n < |levels|
  {
    && |lower| == n && StackOk(db', lower)
    && (forall q :: View(db', lower, n, q) == if q in done && q in levels[n] then levels[n][q].coin else View(db, levels, n, q))
  }

  /** Once all flagged entries are written, the base shows what level n showed; level n may keep any of its entries, cleaned. */
  lemma WrittenAll(db: Db, levels: seq<Level>, db': Db, lower: seq<Level>, n: nat, list: seq<OutPoint>, l: Level)
    requires StackOk(db, levels) && n < |levels| && Written(db, levels, db', lower, n, list)
    requires forall o :: o in list <==> o in levels[n] && (levels[n][o].isDirty || levels[n][o].isFresh)
    requires forall o :: o in l ==> o in levels[n] && levels[n][o].coin.Unspent? && l[o] == Cached(levels[n][o].coin, false, false)
    ensures var b := lower + [l] + levels[n + 1..];
            && StackOk(db', b)
            && (forall q :: View(db', b, n, q) == View(db, levels, n + 1, q))
            && (forall m: nat, q :: n < m <= |levels| ==> View(db', b, m, q) == View(db, levels, m, q))
  {
    hide StackOk, EntryOk;
    var b := lower + [l] + levels[n + 1..];
    forall q
      ensures View(db', lower, n, q) == View(db, levels, n + 1, q)
    {
      if q in levels[n] {
        StackEntry(db, levels, n, q);
        CleanAgrees(levels[n][q], View(db, levels, n, q));
      }
    }
    forall o | o in l
      ensures EntryOk(l[o], View(db', lower, n, o))
    {
      CleanFits(levels[n][o].coin);
    }
    StackPush(db', lower, l);
    assert b[..n] == lower && b[..n + 1] == lower + [l];
    forall q
      ensures View(db', b, n, q) == View(db, levels, n + 1, q) && View(db', b, n + 1, q) == View(db, levels, n + 1, q)
    {
      assert lower[..n] == lower;
      ViewPrefix(db', b, lower, n, q);
    }
    assert b[n + 1..] == levels[n + 1..];
    StackAbove(db, levels, db', b, n + 1);
  }

  lemma CleanAgrees(e: Cached, base: Coin)
    requires EntryOk(e, base)
    ensures !e.isDirty && !e.isFresh ==> e.coin == base
  {
  }

  lemma CleanFits(coin: Coin)
    requires coin.Unspent?
    ensures EntryOk(Cached(coin, false, false), coin)
  {
  }

  /** Writing the next entry of the list to a cache. */
  lemma WrittenStep(db: Db, levels: seq<Level>, db': Db, lower: seq<Level>, n: nat, list: seq<OutPoint>, k: nat)
    requires StackOk(db, levels) && 0 < n < |levels| && k < |list| && NoRepeats(list) && list[k] in levels[n]
    requires levels[n][list[k]].isDirty
    requires Written(db, levels, db', lower, n, list[..k])
    ensures var o, e := list[k], levels[n][list[k]];
            var b := lower[n - 1 := Received(lower[n - 1], o, e)];
            !Misapplied(lower[n - 1], o, e) && Written(db, levels, db', b, n, list[..k + 1])
  {
    hide StackOk, EntryOk;
    var o, e := list[k], levels[n][list[k]];
    StackEntry(db, levels, n, o);
    assert list[..k + 1] == list[..k] + [o];
    assert o !in list[..k];
    TopReceives(db', lower, o, e);
  }

  /** Writing the next entry of the list to the database. */
  lemma WrittenDbStep(db: Db, levels: seq<Level>, db': Db, list: seq<OutPoint>, k: nat)
    requires StackOk(db, levels) && 0 < |levels| && k < |list| && NoRepeats(list) && list[k] in levels[0]
    requires Written(db, levels, db', [], 0, list[..k])
    ensures Written(db, levels, Stored(db', list[k], levels[0][list[k]].coin), [], 0, list[..k + 1])
  {
    var o := list[k];
    assert list[..k + 1] == list[..k] + [o];
    assert o !in list[..k];
    StoredView(db', o, levels[0][o].coin);
  }

  lemma WrittenNone(db: Db, levels: seq<Level>, n: nat)
    requires StackOk(db, levels) && n < |levels|
    ensures Written(db, levels, db, levels[..n], n, [])
  {
    StackPrefix(db, levels, n);
  }

  /** Flagged entries are dirty. */
  lemma FlaggedDirty(db: Db, levels: seq<Level>, n: nat, o: OutPoint)
    requires StackOk(db, levels) && n < |levels| && o in levels[n] && (levels[n][o].isDirty || levels[n][o].isFresh)
    ensures levels[n][o].isDirty
  {
    StackEntry(db, levels, n, o);
  }
}
