/** What the public operations of the address manager do to its state (src/addrman.cpp:69-92, 491-711, 812-973). */
module AddrEffects {
  import opened Options
  import opened AddrTables
  import opened AddrSteps

  const ADDRMAN_HORIZON := 30 * 24 * 3600
  const ADDRMAN_RETRIES := 3
  const ADDRMAN_MAX_FAILURES := 10
  const ADDRMAN_MIN_FAIL := 7 * 24 * 3600
  const ADDRMAN_REPLACEMENT := 4 * 3600
  const ADDRMAN_TEST_WINDOW := 40 * 60

  /** The statistics of an entry are bad enough to delete it. */
  predicate IsTerrible(info: AddrInfo, now: int) {
    if now - info.lastTry <= 60 then false
    else
      || info.time > now + 600
      || now - info.time > ADDRMAN_HORIZON
      || (info.lastSuccess == 0 && info.attempts >= ADDRMAN_RETRIES)
      || (now - info.lastSuccess > ADDRMAN_MIN_FAIL && info.attempts >= ADDRMAN_MAX_FAILURES)
  }

  // ---------- moving an entry to the tried table ----------

  /** The new table without an entry. */
  ghost function Without(news: Table, id: int): Table {
    map slot | slot in news && news[slot] != id :: news[slot]
  }

  lemma WithoutOne(news: Table, slot: Slot, id: int)
    requires slot in news && news[slot] == id
    ensures Without(news - {slot}, id) == Without(news, id)
  {
  }

  lemma WithoutNone(h: Hashes, s: State, id: int)
    requires Tables(h, s) && id in s.infos && s.infos[id].refCount == 0
    ensures Without(s.news, id) == s.news
  {
    hide Tables;
    forall slot | slot in s.news
      ensures s.news[slot] != id
    {
      NotHeld(h, s, slot, id);
    }
  }

  /** The entry that disappears when another one takes over a slot of the new table. */
  ghost function LostAt(s: State, at: Slot): set<int> {
    if ClearDeletes(s, at) then {s.news[at]} else {}
  }

  /** The occupant of a tried slot went to its place in the new table; only what it displaced there may be lost. */
  ghost predicate Evicted(h: Hashes, s: State, t: State, slot: Slot) {
    && slot in s.tried && s.tried[slot] in s.infos && t.tried == s.tried - {slot}
    && var at := EvictSlot(h, s.infos[s.tried[slot]]);
       t.news == s.news[at := s.tried[slot]] && t.infos.Keys == s.infos.Keys - LostAt(s, at)
  }

  lemma EvictedIs(h: Hashes, s: State, s2: State, e: int, at: Slot, slot: Slot)
    requires e in s.infos && slot in s.tried && s.tried[slot] == e && slot == h.TriedSlot(s.infos[e].addr)
    requires at == EvictSlot(h, s.infos[e]) && ClearedFrom(Demote(h, s, e), s2, at) && e in s2.infos
    ensures Evicted(h, s, Place(s2, at, e), slot)
  {
    hide Hashes.TriedSlot, EvictSlot;
    var s1 := Demote(h, s, e);
    assert ClearDeletes(s1, at) <==> ClearDeletes(s, at);
    assert (s.news - {at})[at := e] == s.news[at := e];
  }

  /**
    The entry id is in the tried table and no longer in the new one. Another occupant of its
    slot is back in the new table, at its own place. All records are otherwise as before, and
    only an entry that lost its last slot to that occupant is gone.
  */
  ghost predicate MovedToTried(h: Hashes, s: State, t: State, id: int) {
    && id in s.infos && id in t.infos && t.infos[id].inTried && Kept(s.infos, t.infos)
    && var slot, rest := h.TriedSlot(s.infos[id].addr), s.(news := Without(s.news, id));
       && t.tried == s.tried[slot := id]
       && if slot in s.tried && s.tried[slot] in s.infos then
            var at := EvictSlot(h, s.infos[s.tried[slot]]);
            t.news == rest.news[at := s.tried[slot]] && t.infos.Keys == s.infos.Keys - LostAt(rest, at)
          else
            t.news == rest.news && t.infos.Keys == s.infos.Keys
  }

  lemma MovedIs(h: Hashes, s: State, s1: State, s2: State, id: int)
    requires id in s.infos && id in s2.infos && Kept(s.infos, Promote(h, s2, id).infos)
    requires s1 == s.(infos := s.infos[id := s.infos[id].(refCount := 0)], news := Without(s.news, id))
    requires h.TriedSlot(s2.infos[id].addr) == h.TriedSlot(s.infos[id].addr)
    requires var slot := h.TriedSlot(s.infos[id].addr);
             if slot in s.tried then s.tried[slot] != id && Evicted(h, s1, s2, slot) else s2 == s1
    ensures MovedToTried(h, s, Promote(h, s2, id), id)
  {
    hide Hashes.TriedSlot, Kept, Without, EvictSlot;
    var slot, rest := h.TriedSlot(s.infos[id].addr), s.(news := Without(s.news, id));
    if slot in s.tried {
      assert (s.tried - {slot})[slot := id] == s.tried[slot := id];
      var at := EvictSlot(h, s.infos[s.tried[slot]]);
      assert LostAt(s1, at) == LostAt(rest, at) by {
        WithoutId(s.news, at, id);
      }
    }
  }

  lemma WithoutId(news: Table, at: Slot, id: int)
    ensures at in Without(news, id) ==> Without(news, id)[at] != id
  {
  }

  // ---------- Good and Attempt ----------

  function Succeeded(info: AddrInfo, time: int): AddrInfo {
    info.(lastSuccess := time, lastTry := time, attempts := 0)
  }

  function Attempted(info: AddrInfo, countFailure: bool, time: int, lastGood: int): AddrInfo {
    if countFailure && info.lastCountAttempt < lastGood
    then info.(lastTry := time, lastCountAttempt := time, attempts := info.attempts + 1)
    else info.(lastTry := time)
  }

  /** A number of attempts in a row, each with whether a failure counts and its time. */
  function AttemptedAll(info: AddrInfo, attempts: seq<(bool, int)>, lastGood: int): AddrInfo {
    if attempts == [] then info
    else
      var (countFailure, time) := attempts[|attempts| - 1];
      Attempted(AttemptedAll(info, attempts[..|attempts| - 1], lastGood), countFailure, time, lastGood)
  }

  /**
    As long as there is no new success anywhere, at most one failure counts, and none if one
    has been counted since the last success; provided that no attempt is made at a time before
    that success.
  */
  lemma {:induction false} CountedOnce(info: AddrInfo, attempts: seq<(bool, int)>, lastGood: int)
    requires forall i :: 0 <= i < |attempts| ==> attempts[i].1 >= lastGood
    ensures var due := info.lastCountAttempt < lastGood && exists i :: 0 <= i < |attempts| && attempts[i].0;
            && AttemptedAll(info, attempts, lastGood).attempts == info.attempts + (if due then 1 else 0)
            && (AttemptedAll(info, attempts, lastGood).lastCountAttempt < lastGood <==> info.lastCountAttempt < lastGood && !due)
  {
    if attempts != [] {
      var n := |attempts| - 1;
      CountedOnce(info, attempts[..n], lastGood);
      assert attempts == attempts[..n] + [attempts[n]];
      assert (exists i :: 0 <= i < |attempts| && attempts[i].0) <==> (exists i :: 0 <= i < n && attempts[..n][i].0) || attempts[n].0;
    }
  }

  /** After a failure that counted, another one counts exactly if the first was at a time before the last success. */
  lemma CountedAgain(info: AddrInfo, first: int, second: int, lastGood: int)
    requires info.lastCountAttempt < lastGood
    ensures var once := Attempted(info, true, first, lastGood);
            once.attempts == info.attempts + 1
            && Attempted(once, true, second, lastGood).attempts == info.attempts + (if first < lastGood then 2 else 1)
  {
  }

  // ---------- Connected and SetServices ----------

  /** A connection updates the time, unless that is recent. */
  function Met(info: AddrInfo, time: int): AddrInfo {
    if time - info.time > 20 * 60 then info.(time := time) else info
  }

  ghost predicate Known(s: State, addr: Service) {
    addr in s.addrs && s.addrs[addr] in s.infos
  }

  /** The state after noting a success. */
  ghost function Greeted(s: State, addr: Service, time: int): State {
    if Known(s, addr) then s.(infos := s.infos[s.addrs[addr] := Succeeded(s.infos[s.addrs[addr]], time)]) else s
  }

  /** A known address of the new table, whose tried slot is taken although its occupant has to be tested first. */
  ghost predicate Blocked(h: Hashes, s: State, addr: Service, testBeforeEvict: bool) {
    Known(s, addr) && !s.infos[s.addrs[addr]].inTried && testBeforeEvict && h.TriedSlot(addr) in s.tried
  }

  ghost predicate Moves(h: Hashes, s: State, addr: Service, testBeforeEvict: bool) {
    Known(s, addr) && !s.infos[s.addrs[addr]].inTried && !(testBeforeEvict && h.TriedSlot(addr) in s.tried)
  }

  // ---------- collisions ----------

  datatype Verdict = Drop | Replace | Wait

  /** What is done about a recorded collision: the occupant stays if it works, and goes if it failed its test. */
  ghost function Judge(h: Hashes, s: State, id: int, now: int, isValid: Service -> bool): Verdict {
    if id !in s.infos || !isValid(s.infos[id].addr) then Drop
    else if !Holding(h, s, id) then Replace
    else
      var info, occupant := s.infos[id], s.infos[s.tried[h.TriedSlot(s.infos[id].addr)]];
      if now - occupant.lastSuccess < ADDRMAN_REPLACEMENT then Drop
      else if now - occupant.lastTry < ADDRMAN_REPLACEMENT then
        if now - occupant.lastTry > 60 then Replace else Wait
      else if now - info.lastSuccess > ADDRMAN_TEST_WINDOW then Replace
      else Wait
  }

  /** The tried slot of id is occupied. */
  ghost predicate Holding(h: Hashes, s: State, id: int)
    requires id in s.infos
  {
    h.TriedSlot(s.infos[id].addr) in s.tried && s.tried[h.TriedSlot(s.infos[id].addr)] in s.infos
  }

  /** The effect of the verdict. */
  ghost predicate Resolved(h: Hashes, s: State, t: State, id: int, now: int, isValid: Service -> bool) {
    if Judge(h, s, id, now, isValid) == Replace then
      id in s.infos && var g := Greeted(s, s.infos[id].addr, now);
      if s.infos[id].inTried then t == g else MovedToTried(h, g, t, id)
    else
      t == s
  }

  /** Collisions resolved one after the other, each in the state that the previous one left. */
  ghost predicate ResolvedAll(h: Hashes, states: seq<State>, order: seq<nat>, now: int, isValid: Service -> bool) {
    |states| == |order| + 1 && forall k :: 0 <= k < |order| ==> Resolved(h, states[k], states[k + 1], order[k], now, isValid)
  }

  /** The collisions with a given verdict. */
  ghost function Judged(h: Hashes, states: seq<State>, order: seq<nat>, now: int, isValid: Service -> bool, verdict: Verdict): set<nat>
    requires |states| == |order| + 1
  {
    set k | 0 <= k < |order| && Judge(h, states[k], order[k], now, isValid) == verdict :: order[k]
  }

  lemma ResolvedNext(h: Hashes, states: seq<State>, order: seq<nat>, t: State, id: nat, now: int, isValid: Service -> bool)
    requires ResolvedAll(h, states, order, now, isValid) && Resolved(h, states[|order|], t, id, now, isValid)
    ensures ResolvedAll(h, states + [t], order + [id], now, isValid)
    ensures forall v :: Judged(h, states + [t], order + [id], now, isValid, v)
              == Judged(h, states, order, now, isValid, v) + if Judge(h, states[|order|], id, now, isValid) == v then {id} else {}
  {
    hide Resolved, Judge;
    var states', order' := states + [t], order + [id];
    forall k | 0 <= k < |order'|
      ensures Resolved(h, states'[k], states'[k + 1], order'[k], now, isValid)
    {
      assert k < |order| ==> Resolved(h, states[k], states[k + 1], order[k], now, isValid);
    }
    forall v
      ensures Judged(h, states', order', now, isValid, v)
           == Judged(h, states, order, now, isValid, v) + if Judge(h, states[|order|], id, now, isValid) == v then {id} else {}
    {
      JudgedNext(h, states, order, t, id, now, isValid, v);
    }
  }

  lemma JudgedNext(h: Hashes, states: seq<State>, order: seq<nat>, t: State, id: nat, now: int, isValid: Service -> bool, v: Verdict)
    requires |states| == |order| + 1
    ensures Judged(h, states + [t], order + [id], now, isValid, v)
         == Judged(h, states, order, now, isValid, v) + if Judge(h, states[|order|], id, now, isValid) == v then {id} else {}
  {
    hide Judge;
    var states', order' := states + [t], order + [id];
    var a, b := Judged(h, states, order, now, isValid, v), Judged(h, states', order', now, isValid, v);
    forall x | x in a
      ensures x in b
    {
      var k :| 0 <= k < |order| && Judge(h, states[k], order[k], now, isValid) == v && order[k] == x;
      assert Judge(h, states'[k], order'[k], now, isValid) == v && order'[k] == x;
    }
    assert order'[|order|] == id && states'[|order|] == states[|order|];
    forall x | x in b
      ensures x in a || (x == id && Judge(h, states[|order|], id, now, isValid) == v)
    {
      var k :| 0 <= k < |order'| && Judge(h, states'[k], order'[k], now, isValid) == v && order'[k] == x;
      if k < |order| {
        assert Judge(h, states[k], order[k], now, isValid) == v && order[k] == x;
      }
    }
  }

  lemma ResolvedNone(h: Hashes, s: State, now: int, isValid: Service -> bool)
    ensures ResolvedAll(h, [s], [], now, isValid) && forall v :: Judged(h, [s], [], now, isValid, v) == {}
  {
  }

  ghost predicate AllIndexed(states: seq<State>) {
    forall k :: 0 <= k < |states| ==> Index(states[k])
  }

  lemma IndexedFirst(s: State)
    requires Index(s)
    ensures AllIndexed([s])
  {
    hide Index;
  }

  lemma IndexedNext(states: seq<State>, s: State)
    requires AllIndexed(states) && Index(s)
    ensures AllIndexed(states + [s])
  {
    hide Index;
  }

  ghost predicate Increasing(order: seq<nat>) {
    forall i, j :: 0 <= i < j < |order| ==> order[i] < order[j]
  }

  ghost predicate Beyond(order: seq<nat>, todo: set<nat>) {
    forall i, id :: 0 <= i < |order| && id in todo ==> order[i] < id
  }

  lemma IncreasingNone(todo: set<nat>)
    ensures Increasing([]) && Beyond([], todo)
  {
  }

  lemma IncreasingNext(order: seq<nat>, todo: set<nat>, id: nat)
    requires Increasing(order) && Beyond(order, todo) && id in todo && forall x :: x in todo ==> id <= x
    ensures Increasing(order + [id]) && Beyond(order + [id], todo - {id})
  {
  }

  // ---------- adding an address ----------

  function Floor(time: int): int {
    if time > 0 then time else 0
  }

  /** A known entry, with its time updated if it is old enough, and with the services announced added. */
  function Aged(info: AddrInfo, services: set<nat>, time: int, penalty: int, now: int): AddrInfo {
    var interval := if now - time < 24 * 3600 then 3600 else 24 * 3600;
    info.(time := if info.time < time - interval - penalty then Floor(time - penalty) else info.time,
          services := info.services + services)
  }

  /** New information about an entry that may get one more slot; the more it has, the more luck it needs. */
  predicate Worthwhile(info: AddrInfo, time: int, lucky: bool) {
    time > info.time && !info.inTried && info.refCount != ADDRMAN_NEW_BUCKETS_PER_ADDRESS && (info.refCount > 0 ==> lucky)
  }

  function FirstHeard(addr: Service, services: set<nat>, source: int, time: int, penalty: int): AddrInfo {
    AddrInfo(addr, services, source, Floor(time - penalty), 0, 0, 0, 0, 0, false, -1)
  }

  /** The slot is free, or its occupant can be displaced by the entry. */
  ghost predicate Admits(s: State, slot: Slot, id: int, now: int) {
    slot in s.news ==>
      var e := s.news[slot];
      && e != id && e in s.infos && id in s.infos
      && (IsTerrible(s.infos[e], now) || (s.infos[e].refCount > 1 && s.infos[id].refCount == 0))
  }

  /** The entry occupies the slot. Records are otherwise as before, and only an entry that lost its last slot is gone. */
  ghost predicate Entered(s: State, t: State, slot: Slot, id: int) {
    && t.news == s.news[slot := id] && t.tried == s.tried
    && Kept(s.infos, t.infos) && t.infos.Keys == s.infos.Keys - LostAt(s, slot)
  }

  lemma EnteredIs(s: State, s1: State, slot: Slot, id: int)
    requires ClearedFrom(s, s1, slot) && id in s1.infos && Kept(s.infos, Place(s1, slot, id).infos)
    ensures Entered(s, Place(s1, slot, id), slot, id)
  {
    hide Kept;
    assert (s.news - {slot})[slot := id] == s.news[slot := id];
  }

  /** The state in which a slot is looked for. */
  ghost function Heard(s: State, idCount: int, addr: Service, services: set<nat>, source: int, time: int, penalty: int, now: int): State {
    if Known(s, addr)
    then s.(infos := s.infos[s.addrs[addr] := Aged(s.infos[s.addrs[addr]], services, time, penalty, now)])
    else Create(s, idCount, FirstHeard(addr, services, source, time, penalty))
  }

  ghost function IdOf(s: State, idCount: int, addr: Service): int {
    if Known(s, addr) then s.addrs[addr] else idCount
  }

  ghost predicate Inserts(h: Hashes, s: State, idCount: int, addr: Service, services: set<nat>, source: int, time: int, penalty: int, now: int, lucky: bool) {
    var g, id := Heard(s, idCount, addr, services, source, time, penalty, now), IdOf(s, idCount, addr);
    && (Known(s, addr) ==> id in g.infos && Worthwhile(g.infos[id], time, lucky))
    && Admits(g, h.NewSlot(addr, h.NewBucket(addr, source)), id, now)
  }

  // ---------- drawing addresses ----------

  function Limit(n: nat, maxAddresses: nat, maxPct: nat): nat {
    var k := if maxPct != 0 then (if maxPct > 100 then 100 else maxPct) * n / 100 else n;
    if maxAddresses != 0 && maxAddresses < k then maxAddresses else k
  }

  /** Which addresses are asked for. */
  datatype Filter = Filter(network: Option<int>, filtered: bool, now: int)

  /** The entry is of the network asked for, if any, and not terrible if quality matters. */
  predicate Suits(info: AddrInfo, f: Filter) {
    !(f.network.Some? && info.addr.network != f.network.value) && !(f.filtered && IsTerrible(info, f.now))
  }

  ghost predicate Different(addresses: seq<Service>) {
    forall i, j :: 0 <= i < j < |addresses| ==> addresses[i] != addresses[j]
  }

  /** The addresses are those of the suitable ones among the first n entries of the shuffled list, each once. */
  ghost predicate TakenFrom(s: State, n: int, addresses: seq<Service>, f: Filter) {
    && 0 <= n <= |s.random| && Different(addresses)
    && (forall i :: 0 <= i < |addresses| ==> TakenAt(s, n, addresses[i], f))
    && (forall k :: 0 <= k < n ==> Considered(s, s.random[k], addresses, f))
  }

  ghost predicate TakenAt(s: State, n: int, addr: Service, f: Filter) {
    Known(s, addr) && s.infos[s.addrs[addr]].randomPos < n && Suits(s.infos[s.addrs[addr]], f)
  }

  ghost predicate Considered(s: State, id: int, addresses: seq<Service>, f: Filter) {
    id in s.infos && (Suits(s.infos[id], f) ==> s.infos[id].addr in addresses)
  }

  /** The addresses are those of suitable entries, each once; fewer than the limit only if all suitable ones are there. */
  ghost predicate Drawn(s: State, addresses: seq<Service>, f: Filter, limit: nat) {
    && Different(addresses) && |addresses| <= limit
    && (forall i :: 0 <= i < |addresses| ==> TakenAt(s, |s.random|, addresses[i], f))
    && (|addresses| < limit ==> forall id :: id in s.infos ==> Considered(s, id, addresses, f))
  }

  lemma TakenNone(s: State, f: Filter)
    ensures TakenFrom(s, 0, [], f)
  {
  }

  lemma TakenNext(s: State, n: int, addresses: seq<Service>, f: Filter)
    requires Index(s) && TakenFrom(s, n, addresses, f) && n < |s.random|
    ensures s.random[n] in s.infos
    ensures TakenFrom(s, n + 1, if Suits(s.infos[s.random[n]], f) then addresses + [s.infos[s.random[n]].addr] else addresses, f)
  {
    hide Suits;
    var id := s.random[n];
    assert id in s.infos && s.infos[id].randomPos == n;
    var a := s.infos[id].addr;
    assert a in s.addrs && s.addrs[a] == id;
    var next := if Suits(s.infos[id], f) then addresses + [a] else addresses;
    forall i | 0 <= i < |addresses|
      ensures addresses[i] != a && TakenAt(s, n + 1, addresses[i], f)
    {
      assert TakenAt(s, n, addresses[i], f);
    }
    forall k | 0 <= k < n + 1
      ensures Considered(s, s.random[k], next, f)
    {
      assert k < n ==> Considered(s, s.random[k], addresses, f);
      assert Suits(s.infos[id], f) ==> next[|addresses|] == a;
    }
  }

  lemma TakenDone(s: State, n: int, addresses: seq<Service>, f: Filter, limit: nat)
    requires Index(s) && TakenFrom(s, n, addresses, f) && |addresses| <= limit && (n == |s.random| || |addresses| == limit)
    ensures Drawn(s, addresses, f, limit)
  {
    hide Suits, Different;
    forall i | 0 <= i < |addresses|
      ensures TakenAt(s, |s.random|, addresses[i], f)
    {
      assert TakenAt(s, n, addresses[i], f);
    }
    if |addresses| < limit {
      forall id | id in s.infos
        ensures Considered(s, id, addresses, f)
      {
        assert s.random[s.infos[id].randomPos] == id;
      }
    }
  }

  /** Shuffling positions from n on keeps what was taken before n. */
  lemma TakenShuffled(s: State, n: nat, pos: nat, addresses: seq<Service>, f: Filter)
    requires Index(s) && n <= pos < |s.random| && TakenFrom(s, n, addresses, f)
    ensures s.random[n] in s.infos && s.random[pos] in s.infos && TakenFrom(Swap(s, n, pos), n, addresses, f)
  {
    hide Suits, Different, Index, Swap;
    SwapIndex(s, n, pos);
    var t := Swap(s, n, pos);
    forall i | 0 <= i < |addresses|
      ensures TakenAt(t, n, addresses[i], f)
    {
      assert TakenAt(s, n, addresses[i], f);
      SwapBefore(s, n, pos, s.addrs[addresses[i]]);
    }
    forall k | 0 <= k < n
      ensures Considered(t, t.random[k], addresses, f)
    {
      assert Considered(s, s.random[k], addresses, f);
      PositionOf(s, k);
      SwapBefore(s, n, pos, s.random[k]);
      SwapRest(s, n, pos, k);
    }
  }

  lemma PositionOf(s: State, k: nat)
    requires Index(s) && k < |s.random|
    ensures s.random[k] in s.infos && s.infos[s.random[k]].randomPos == k
  {
  }

  lemma SwapBefore(s: State, n: nat, pos: nat, id: int)
    requires Index(s) && n <= pos < |s.random| && s.random[n] in s.infos && s.random[pos] in s.infos
    requires id in s.infos && s.infos[id].randomPos < n
    ensures id in Swap(s, n, pos).infos && Swap(s, n, pos).infos[id] == s.infos[id] && Swap(s, n, pos).addrs == s.addrs
  {
  }

  lemma SwapRest(s: State, n: nat, pos: nat, k: nat)
    requires k < n <= pos < |s.random| && s.random[n] in s.infos && s.random[pos] in s.infos
    ensures |Swap(s, n, pos).random| == |s.random| && Swap(s, n, pos).random[k] == s.random[k]
  {
  }
}
