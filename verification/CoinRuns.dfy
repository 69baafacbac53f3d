/** Whole runs of a stack of coin caches, against a stack of plain maps of unspent coins. */
module CoinRuns {
  import opened CoinLists
  import opened CoinCaches
  import opened CoinViews
  import opened CoinStacks

  /**
    Calls on a stack: coins are added and spent at the top, caches come and go at the top, and
    everything else can be done at any cache.
  */
  datatype Op =
    | Get(cache: nat, o: OutPoint)
    | Add(o: OutPoint, coin: Coin, possibleOverwrite: bool)
    | Spend(o: OutPoint)
    | Uncache(cache: nat, o: OutPoint)
    | Flush(cache: nat)
    | Sync(cache: nat)
    | Push
    | Pop

  datatype Answer = Done | Found(coin: Coin) | Gone(ok: bool, moved: Coin)

  /**
    The stack of plain maps: the coins of the database, then those visible at each cache. A
    call changes at most one of them; reading and uncaching change none.
  */
  ghost function Apply(ms: seq<Db>, op: Op): seq<Db>
    requires Legal(ms, op)
  {
    var top := |ms| - 1;
    match op
    case Get(_, _) => ms
    case Add(o, coin, _) => if IsUnspendable(coin.script) then ms else ms[top := Stored(ms[top], o, coin)]
    case Spend(o) => ms[top := Stored(ms[top], o, Spent)]
    case Uncache(_, _) => ms
    case Flush(i) => ms[i := ms[i + 1]]
    case Sync(i) => ms[i := ms[i + 1]]
    case Push => ms + [ms[top]]
    case Pop => ms[..top]
  }

  /** The cache exists; non-overwriting additions happen only where the top map has no coin. */
  ghost predicate Legal(ms: seq<Db>, op: Op) {
    match op
    case Get(i, _) => i + 1 < |ms|
    case Add(o, coin, possibleOverwrite) => |ms| > 1 && coin.Unspent? && (possibleOverwrite || o !in ms[|ms| - 1])
    case Spend(_) => |ms| > 1
    case Uncache(i, _) => i + 1 < |ms|
    case Flush(i) => i + 1 < |ms|
    case Sync(i) => i + 1 < |ms|
    case Push => |ms| > 0
    case Pop => |ms| > 1
  }

  ghost predicate LegalRun(ms: seq<Db>, ops: seq<Op>)
    decreases |ops|, 0
  {
    ops == [] || (LegalRun(ms, ops[..|ops| - 1]) && Legal(ApplyAll(ms, ops[..|ops| - 1]), ops[|ops| - 1]))
  }

  ghost function ApplyAll(ms: seq<Db>, ops: seq<Op>): seq<Db>
    requires LegalRun(ms, ops)
    decreases |ops|, 1
  {
    if ops == [] then ms else Apply(ApplyAll(ms, ops[..|ops| - 1]), ops[|ops| - 1])
  }

  ghost function Lookup(m: Db, o: OutPoint): Coin {
    if o in m then m[o] else Spent
  }

  /** What a call answers is read off the plain maps; spending succeeds if there is a coin. */
  ghost predicate Answered(ms: seq<Db>, op: Op, a: Answer)
    requires Legal(ms, op)
  {
    match op
    case Get(i, o) => a == Found(Lookup(ms[i + 1], o))
    case Spend(o) => a.Gone? && a.moved == Lookup(ms[|ms| - 1], o) && (o in ms[|ms| - 1] ==> a.ok)
    case _ => a == Done
  }

  ghost predicate Showing(db: Db, levels: seq<Level>, ms: seq<Db>) {
    && |ms| == |levels| + 1
    && (forall m :: m in ms ==> DbOk(m))
    && forall n: nat, o :: n < |ms| ==> View(db, levels, n, o) == Lookup(ms[n], o)
  }

  /** The database and every cache show exactly the coins of their plain map. */
  ghost predicate Shows(s: CoinsViewStack, ms: seq<Db>)
    reads s, s.caches
  {
    Showing(s.db, s.Levels(), ms)
  }

  // ---------- the views after each kind of call ----------

  lemma ShowingAt(db: Db, levels: seq<Level>, ms: seq<Db>, n: nat, o: OutPoint)
    requires Showing(db, levels, ms) && n < |ms|
    ensures View(db, levels, n, o) == Lookup(ms[n], o) && (o in ms[n] <==> View(db, levels, n, o).Unspent?)
  {
    assert ms[n] in ms;
  }

  lemma StillShowing(db: Db, a: seq<Level>, b: seq<Level>, ms: seq<Db>)
    requires SameViews(db, a, b) && Showing(db, a, ms)
    ensures Showing(db, b, ms)
  {
    hide View, Lookup;
  }

  lemma UpdatedShowing(db: Db, a: seq<Level>, b: seq<Level>, ms: seq<Db>, o: OutPoint, coin: Coin)
    requires Updates(db, a, b, o, coin) && Showing(db, a, ms)
    ensures Showing(db, b, ms[|ms| - 1 := Stored(ms[|ms| - 1], o, coin)])
  {
    hide View;
    var top := |ms| - 1;
    var ms' := ms[top := Stored(ms[top], o, coin)];
    forall n: nat, q | n < |ms'|
      ensures View(db, b, n, q) == Lookup(ms'[n], q)
    {
      assert View(db, a, n, q) == Lookup(ms[n], q);
    }
    assert ms[top] in ms;
  }

  lemma FlushedShowing(s: CoinsViewStack, i: nat, db: Db, was: seq<Level>, ms: seq<Db>)
    requires Showing(db, was, ms) && i < |was| == |s.caches| && s.FlushedTo(i, db, was)
    ensures Shows(s, ms[i := ms[i + 1]])
  {
    hide View, Lookup, DbOk;
    var ms' := ms[i := ms[i + 1]];
    forall n: nat, o | n < |ms'|
      ensures View(s.db, s.Levels(), n, o) == Lookup(ms'[n], o)
    {
      assert View(s.db, s.Levels(), n, o) == s.ViewAt(n, o);
      assert View(db, was, n, o) == Lookup(ms[n], o) && View(db, was, i + 1, o) == Lookup(ms[i + 1], o);
    }
    assert ms[i + 1] in ms;
  }

  lemma PushedShowing(db: Db, levels: seq<Level>, ms: seq<Db>)
    requires Showing(db, levels, ms)
    ensures Showing(db, levels + [map[]], ms + [ms[|ms| - 1]])
  {
    hide Lookup, DbOk;
    var n, more, ms' := |levels|, levels + [map[]], ms + [ms[|ms| - 1]];
    forall k: nat, o | k < |ms'|
      ensures View(db, more, k, o) == Lookup(ms'[k], o)
    {
      var below := if k <= n then k else n;
      ViewPrefix(db, more, levels, below, o);
      assert View(db, levels, below, o) == Lookup(ms[below], o);
    }
    assert ms[|ms| - 1] in ms;
  }

  lemma PoppedShowing(db: Db, levels: seq<Level>, ms: seq<Db>)
    requires Showing(db, levels, ms) && |levels| > 0
    ensures Showing(db, levels[..|levels| - 1], ms[..|ms| - 1])
  {
    hide View, Lookup, DbOk;
    var n := |levels| - 1;
    forall k: nat, o | k <= n
      ensures View(db, levels[..n], k, o) == Lookup(ms[k], o)
    {
      ViewPrefix(db, levels[..n], levels, k, o);
    }
  }

  // ---------- runs ----------

  /** One call: it throws nothing, keeps the stack valid, and does and answers what the plain maps say. */
  method Step(s: CoinsViewStack, op: Op, ghost ms: seq<Db>) returns (s': CoinsViewStack, thrown: bool, answer: Answer)
    requires s.Valid() && Shows(s, ms) && Legal(ms, op)
    modifies s`db, s.caches
    ensures s'.Valid() && !thrown && Shows(s', Apply(ms, op)) && Answered(ms, op, answer)
    ensures (s' == s || fresh(s')) && forall i :: 0 <= i < |s'.caches| ==> s'.caches[i] in s.caches || fresh(s'.caches[i])
  {
    hide CoinsViewStack.Valid, StackOk, EntryOk, CoinsViewCache.Valid, IsUnspendable, View, SameViews, Updates, Showing, Lookup;
    ghost var was, db0 := s.Levels(), s.db;
    ghost var top := |ms| - 1;
    assert |ms| == |was| + 1 by {
      ShownSize(db0, was, ms);
    }
    s', thrown, answer := s, false, Done;
    match op
    case Get(i, o) =>
      ShowingAt(db0, was, ms, i + 1, o);
      var coin := s.GetCoin(i + 1, o);
      answer := Found(coin);
      StillShowing(s.db, was, s.Levels(), ms);
    case Add(o, coin, possibleOverwrite) =>
      ShowingAt(db0, was, ms, top, o);
      thrown := s.AddCoin(o, coin, possibleOverwrite);
      if IsUnspendable(coin.script) {
        StillShowing(s.db, was, s.Levels(), ms);
      } else {
        UpdatedShowing(s.db, was, s.Levels(), ms, o, coin);
      }
    case Spend(o) =>
      ShowingAt(db0, was, ms, top, o);
      var ok, moved := s.SpendCoin(o);
      answer := Gone(ok, moved);
      UpdatedShowing(s.db, was, s.Levels(), ms, o, Spent);
    case Uncache(i, o) =>
      s.Uncache(i, o);
      StillShowing(s.db, was, s.Levels(), ms);
    case Flush(i) =>
      thrown := s.Flush(i);
      FlushedShowing(s, i, db0, was, ms);
    case Sync(i) =>
      thrown := s.Sync(i);
      FlushedShowing(s, i, db0, was, ms);
    case Push =>
      s' := s.Push();
      PushedShowing(db0, was, ms);
    case Pop =>
      s' := s.Pop();
      PoppedShowing(db0, was, ms);
  }

  lemma ShownSize(db: Db, levels: seq<Level>, ms: seq<Db>)
    requires Showing(db, levels, ms)
    ensures |ms| == |levels| + 1
  {
  }

  lemma {:induction false} LegalPrefix(ms: seq<Db>, ops: seq<Op>, i: nat)
    requires LegalRun(ms, ops) && i <= |ops|
    ensures LegalRun(ms, ops[..i])
    ensures i < |ops| ==> Legal(ApplyAll(ms, ops[..i]), ops[i])
    ensures i < |ops| ==> LegalRun(ms, ops[..i + 1]) && ApplyAll(ms, ops[..i + 1]) == Apply(ApplyAll(ms, ops[..i]), ops[i])
    decreases |ops|
  {
    hide Apply, Legal;
    var n := |ops|;
    assert ops[..n] == ops;
    if i < n {
      var rest := ops[..n - 1];
      LegalPrefix(ms, rest, i);
      assert rest[..i] == ops[..i];
      assert i < n - 1 ==> rest[..i + 1] == ops[..i + 1];
    }
  }

  /** Each answer is the one of the plain maps at its time. */
  ghost predicate AllAnswered(ms: seq<Db>, ops: seq<Op>, answers: seq<Answer>)
    requires LegalRun(ms, ops)
  {
    |answers| <= |ops| && forall i :: 0 <= i < |answers| ==> AnsweredAt(ms, ops, i, answers[i])
  }

  ghost predicate AnsweredAt(ms: seq<Db>, ops: seq<Op>, i: nat, a: Answer)
    requires LegalRun(ms, ops) && i < |ops|
  {
    LegalPrefix(ms, ops, i);
    Answered(ApplyAll(ms, ops[..i]), ops[i], a)
  }

  /** Every run refines the stack of plain maps in all it shows and answers, keeps all invariants and throws nothing. */
  method Run(s: CoinsViewStack, ops: seq<Op>, ghost ms: seq<Db>) returns (s': CoinsViewStack, thrown: bool, answers: seq<Answer>)
    requires s.Valid() && Shows(s, ms) && LegalRun(ms, ops)
    modifies s`db, s.caches
    ensures s'.Valid() && !thrown && Shows(s', ApplyAll(ms, ops))
    ensures |answers| == |ops| && AllAnswered(ms, ops, answers)
  {
    hide Shows, CoinsViewStack.Valid, Apply, Answered, Legal, LegalRun, ApplyAll;
    s', thrown, answers := s, false, [];
    LegalPrefix(ms, ops, 0);
    NoCalls(ms, ops);
    for i := 0 to |ops|
      invariant LegalRun(ms, ops[..i]) && s'.Valid() && !thrown && Shows(s', ApplyAll(ms, ops[..i]))
      invariant (s' == s || fresh(s')) && forall k :: 0 <= k < |s'.caches| ==> s'.caches[k] in s.caches || fresh(s'.caches[k])
      invariant |answers| == i && AllAnswered(ms, ops, answers)
    {
      LegalPrefix(ms, ops, i);
      var answer: Answer;
      s', thrown, answer := Step(s', ops[i], ApplyAll(ms, ops[..i]));
      answers := answers + [answer];
    }
    assert ops[..|ops|] == ops;
  }

  lemma NoCalls(ms: seq<Db>, ops: seq<Op>)
    ensures LegalRun(ms, ops[..0]) && ApplyAll(ms, ops[..0]) == ms
  {
  }

  /** After any run, the sanity check of every cache passes. */
  method SanityCheckAll(s: CoinsViewStack) returns (ok: bool)
    requires s.Valid()
    ensures ok
  {
    hide StackOk, CoinsViewCache.Valid, CoinsViewCache.Level;
    ok := true;
    for i := 0 to |s.caches|
      invariant ok
    {
      StackPossible(s.db, s.Levels(), i);
      var good := s.caches[i].SanityCheck();
      ok := ok && good;
    }
  }
}
