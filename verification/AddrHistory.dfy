/** What a run of calls does to the counted failures of the entries (src/addrman.cpp:626-646, 693-711, src/addrman_impl.h:213-215). */
module AddrHistories {
  import opened Options
  import opened AddrTables
  import opened AddrSteps
  import opened AddrEffects
  import opened AddrSelection

  datatype Call =
    | Add(addr: Service, services: set<nat>, time: int, source: int, routable: bool, selfAnnounced: bool, penalty: int, now: int, lucky: bool)
    | Good(addr: Service, time: int)
    | Attempt(addr: Service, countFailure: bool, time: int)
    | ResolveCollisions(time: int)
    | SelectTriedCollision
    | GetAddr(maxAddresses: nat, maxPct: nat, network: Option<int>, filtered: bool, now: int, random: nat -> nat)
    | Connected(addr: Service, time: int)
    | SetServices(addr: Service, services: set<nat>)
    | Select(newOnly: bool, networks: set<nat>, preferTried: bool, draws: nat -> Draw)

  /** A call, and the entries that it put in the place of others in the tried table, if it resolved collisions. */
  datatype Event = Event(call: Call, replaced: set<nat>)

  type Infos = map<int, AddrInfo>

  // ---------- the last success ----------

  /** The time of a success that the event brings, if any. */
  function SuccessTime(e: Event): Option<int> {
    match e.call
    case Good(_, time) => Some(time)
    case ResolveCollisions(time) => if e.replaced != {} then Some(time) else None
    case _ => None
  }

  /** The time of the last success before event i, and `start` if there was none. */
  function LastSuccess(events: seq<Event>, i: nat, start: int): int
    requires i <= |events|
  {
    if i == 0 then start
    else match SuccessTime(events[i - 1])
      case Some(time) => time
      case None => LastSuccess(events, i - 1, start)
  }

  // ---------- counted failures of an entry ----------

  /** The event is a success of this entry. */
  predicate SucceedsFor(e: Event, id: int, addr: Service) {
    match e.call
    case Good(a, _) => a == addr
    case ResolveCollisions(_) => id in e.replaced
    case _ => false
  }

  /** The event is a failed attempt at this address that is to be counted. */
  predicate FailsFor(e: Event, addr: Service) {
    e.call.Attempt? && e.call.addr == addr && e.call.countFailure
  }

  /** The number of failures counted since the last success, and the time of the last one counted. */
  datatype Standing = Standing(failures: int, counted: int)

  function StandingOf(info: AddrInfo): Standing {
    Standing(info.attempts, info.lastCountAttempt)
  }

  /**
    The standing of an entry before event i, counted from the events: a success resets the
    number, and a failure counts if none was counted since the last success of any address.
  */
  ghost function StandingAt(trace: seq<Infos>, events: seq<Event>, id: int, i: nat, start: int): Standing
    requires |trace| == |events| + 1 && i < |trace|
  {
    if i == 0 then if id in trace[0] then StandingOf(trace[0][id]) else Standing(0, 0)
    else if id !in trace[i - 1] then Standing(0, 0)
    else
      var was, e, addr := StandingAt(trace, events, id, i - 1, start), events[i - 1], trace[i - 1][id].addr;
      if SucceedsFor(e, id, addr) then was.(failures := 0)
      else if FailsFor(e, addr) && was.counted < LastSuccess(events, i - 1, start) then Standing(was.failures + 1, e.call.time)
      else was
  }

  /** What one event does to the entries. */
  ghost predicate Evolves(before: Infos, after: Infos, e: Event, lastGood: int) {
    forall id :: id in after ==> EvolvesTo(before, after[id], id, e, lastGood)
  }

  ghost predicate EvolvesTo(before: Infos, info: AddrInfo, id: int, e: Event, lastGood: int) {
    if id !in before then StandingOf(info) == Standing(0, 0)
    else
      && info.addr == before[id].addr
      && StandingOf(info) == (if SucceedsFor(e, id, info.addr) then StandingOf(before[id]).(failures := 0)
                              else if FailsFor(e, info.addr) && before[id].lastCountAttempt < lastGood then Standing(before[id].attempts + 1, e.call.time)
                              else StandingOf(before[id]))
  }

  /** The entries after every event of a run, and the times of the last successes. */
  ghost predicate IsHistory(trace: seq<Infos>, events: seq<Event>, start: int) {
    |trace| == |events| + 1 && forall i :: 0 <= i < |events| ==> Evolves(trace[i], trace[i + 1], events[i], LastSuccess(events, i, start))
  }

  /** In every run, the statistics of every entry are those counted from the events. */
  lemma {:induction false} StandingExact(trace: seq<Infos>, events: seq<Event>, start: int, id: int, i: nat)
    requires IsHistory(trace, events, start) && i < |trace| && id in trace[i]
    ensures StandingOf(trace[i][id]) == StandingAt(trace, events, id, i, start)
  {
    hide SucceedsFor, FailsFor, LastSuccess;
    if i > 0 {
      var j := i - 1;
      assert Evolves(trace[j], trace[j + 1], events[j], LastSuccess(events, j, start));
      assert EvolvesTo(trace[j], trace[i][id], id, events[j], LastSuccess(events, j, start));
      if id in trace[j] {
        StandingExact(trace, events, start, id, j);
      }
    }
  }

  // ---------- before the first success ----------

  /** The entry has been there since event j, which was a failed attempt to be counted. */
  ghost predicate FailedAt(trace: seq<Infos>, events: seq<Event>, id: int, j: nat, i: nat)
    requires |trace| == |events| + 1 && j < i < |trace|
  {
    (forall k :: j <= k <= i ==> id in trace[k]) && FailsFor(events[j], trace[j][id].addr)
  }

  ghost predicate EverFailed(trace: seq<Infos>, events: seq<Event>, id: int, i: nat)
    requires |trace| == |events| + 1 && i < |trace|
  {
    exists j: nat :: j < i && FailedAt(trace, events, id, j, i)
  }

  /**
    In a run from a new manager, as long as there has been no success at all, an entry has one
    counted failure if there was an attempt to be counted since it was created, and else none.
  */
  lemma {:induction false} FirstFailure(trace: seq<Infos>, events: seq<Event>, id: int, i: nat)
    requires |trace| == |events| + 1 && i < |trace| && trace[0] == map[] && id in trace[i]
    requires forall k :: 0 <= k < i ==> SuccessTime(events[k]).None? && (events[k].call.Attempt? ==> events[k].call.time > 0)
    ensures var s := StandingAt(trace, events, id, i, 1);
            s.failures == (if EverFailed(trace, events, id, i) then 1 else 0) && (s.counted > 0 <==> s.failures == 1)
  {
    hide FailedAt;
    var j := i - 1;
    NoSuccessYet(events, j);
    assert SuccessTime(events[j]).None?;
    if id in trace[j] {
      FirstFailure(trace, events, id, j);
      FailedStep(trace, events, id, j);
      NoReset(events[j], id, trace[j][id].addr);
    } else {
      NotFailed(trace, events, id, j);
    }
  }

  lemma NoReset(e: Event, id: int, addr: Service)
    requires SuccessTime(e).None?
    ensures !SucceedsFor(e, id, addr)
  {
  }

  lemma {:induction false} NoSuccessYet(events: seq<Event>, i: nat)
    requires i <= |events| && forall k :: 0 <= k < i ==> SuccessTime(events[k]).None?
    ensures LastSuccess(events, i, 1) == 1
  {
    if i > 0 {
      NoSuccessYet(events, i - 1);
    }
  }

  lemma FailedStep(trace: seq<Infos>, events: seq<Event>, id: int, j: nat)
    requires |trace| == |events| + 1 && j < |events| && id in trace[j] && id in trace[j + 1]
    ensures EverFailed(trace, events, id, j + 1) <==> EverFailed(trace, events, id, j) || FailsFor(events[j], trace[j][id].addr)
  {
    var i := j + 1;
    if k: nat :| k < i && FailedAt(trace, events, id, k, i) {
      if k < j {
        assert FailedAt(trace, events, id, k, j);
      }
    }
    if k: nat :| k < j && FailedAt(trace, events, id, k, j) {
      assert FailedAt(trace, events, id, k, i);
    }
    if FailsFor(events[j], trace[j][id].addr) {
      assert FailedAt(trace, events, id, j, i);
    }
  }

  lemma NotFailed(trace: seq<Infos>, events: seq<Event>, id: int, j: nat)
    requires |trace| == |events| + 1 && j < |events| && id !in trace[j]
    ensures !EverFailed(trace, events, id, j + 1)
  {
    var i := j + 1;
    forall k: nat | k < i
      ensures !FailedAt(trace, events, id, k, i)
    {
    }
  }

  // ---------- the effect of each call ----------

  lemma GreetedEvolves(s: State, t: State, addr: Service, time: int, e: Event, lastGood: int)
    requires Index(s) && e == Event(Good(addr, time), {})
    requires var g := Greeted(s, addr, time); t == g || Kept(g.infos, t.infos)
    ensures Evolves(s.infos, t.infos, e, lastGood)
  {
    var g := Greeted(s, addr, time);
    forall id | id in t.infos
      ensures EvolvesTo(s.infos, t.infos[id], id, e, lastGood)
    {
      assert id in g.infos && (t == g || SameRecord(g.infos[id], t.infos[id]));
      GreetedAt(s, addr, time, id);
    }
  }

  lemma GreetedAt(s: State, addr: Service, time: int, id: int)
    requires Index(s) && id in Greeted(s, addr, time).infos
    ensures id in s.infos
    ensures Greeted(s, addr, time).infos[id] == if s.infos[id].addr == addr then Succeeded(s.infos[id], time) else s.infos[id]
  {
  }

  /** The entries whose records a resolution resets. */
  ghost predicate Carried(a: Infos, b: Infos, reset: set<nat>) {
    forall id :: id in b ==> id in a && b[id].addr == a[id].addr && b[id].lastCountAttempt == a[id].lastCountAttempt
                             && b[id].attempts == if id in reset then 0 else a[id].attempts
  }

  lemma ResolvedCarries(h: Hashes, s: State, t: State, id: nat, now: int, isValid: Service -> bool)
    requires Index(s) && Resolved(h, s, t, id, now, isValid)
    ensures Carried(s.infos, t.infos, if Judge(h, s, id, now, isValid) == Replace then {id} else {})
  {
    hide Judge, Index;
    if Judge(h, s, id, now, isValid) == Replace {
      var addr := s.infos[id].addr;
      var g := Greeted(s, addr, now);
      forall q | q in t.infos
        ensures q in s.infos && t.infos[q].addr == s.infos[q].addr && t.infos[q].lastCountAttempt == s.infos[q].lastCountAttempt
        ensures t.infos[q].attempts == if q == id then 0 else s.infos[q].attempts
      {
        assert q in g.infos && (t == g || SameRecord(g.infos[q], t.infos[q]));
        GreetedAt(s, addr, now, q);
        SameAddress(s, id, q);
      }
    }
  }

  lemma SameAddress(s: State, a: int, b: int)
    requires Index(s) && a in s.infos && b in s.infos
    ensures s.infos[a].addr == s.infos[b].addr ==> a == b
  {
  }

  lemma {:induction false} ResolvedAllCarries(h: Hashes, states: seq<State>, order: seq<nat>, now: int, isValid: Service -> bool)
    requires ResolvedAll(h, states, order, now, isValid) && AllIndexed(states)
    ensures Carried(states[0].infos, states[|order|].infos, Judged(h, states, order, now, isValid, Replace))
    decreases |order|
  {
    hide Resolved, Judge, Index, Judged;
    var n := |order|;
    if n == 0 {
      assert Carried(states[0].infos, states[0].infos, Judged(h, states, order, now, isValid, Replace)) by {
        NoneJudged(h, states, order, now, isValid);
      }
    } else {
      var before, earlier := states[..n], order[..n - 1];
      forall k | 0 <= k < n - 1
        ensures Resolved(h, before[k], before[k + 1], earlier[k], now, isValid)
      {
        assert Resolved(h, states[k], states[k + 1], order[k], now, isValid);
      }
      ResolvedAllCarries(h, before, earlier, now, isValid);
      var last := n - 1;
      assert Resolved(h, states[last], states[last + 1], order[last], now, isValid);
      ResolvedCarries(h, states[last], states[n], order[last], now, isValid);
      JudgedNext(h, before, earlier, states[n], order[last], now, isValid, Replace);
      assert before + [states[n]] == states && earlier + [order[last]] == order;
      CarriedOn(states[0].infos, states[last].infos, states[n].infos, Judged(h, before, earlier, now, isValid, Replace),
                if Judge(h, states[last], order[last], now, isValid) == Replace then {order[last]} else {});
    }
  }

  lemma NoneJudged(h: Hashes, states: seq<State>, order: seq<nat>, now: int, isValid: Service -> bool)
    requires |states| == |order| + 1 && order == []
    ensures Judged(h, states, order, now, isValid, Replace) == {}
  {
  }

  lemma CarriedOn(a: Infos, b: Infos, c: Infos, x: set<nat>, y: set<nat>)
    requires Carried(a, b, x) && Carried(b, c, y)
    ensures Carried(a, c, x + y)
  {
  }

  /** Adding an address changes no standing, and a new entry has none. */
  lemma AddedEvolves(s: State, t: State, idCount: int, addr: Service, services: set<nat>, source: int, time: int, penalty: int, now: int, e: Event, lastGood: int)
    requires e.call.Add?
    requires var g := Heard(s, idCount, addr, services, source, time, penalty, now); t == s || t == g || Kept(g.infos, t.infos)
    requires idCount !in s.infos
    ensures Evolves(s.infos, t.infos, e, lastGood)
  {
    var g := Heard(s, idCount, addr, services, source, time, penalty, now);
    forall id | id in t.infos
      ensures EvolvesTo(s.infos, t.infos[id], id, e, lastGood)
    {
      assert t == s || (id in g.infos && (t == g || SameRecord(g.infos[id], t.infos[id])));
      HeardAt(s, idCount, addr, services, source, time, penalty, now, id);
    }
  }

  lemma HeardAt(s: State, idCount: int, addr: Service, services: set<nat>, source: int, time: int, penalty: int, now: int, id: int)
    requires idCount !in s.infos
    ensures var g := Heard(s, idCount, addr, services, source, time, penalty, now);
            id in g.infos ==> if id in s.infos then g.infos[id].addr == s.infos[id].addr && StandingOf(g.infos[id]) == StandingOf(s.infos[id])
                              else StandingOf(g.infos[id]) == Standing(0, 0)
  {
  }

  /** A change of one record that keeps its standing. */
  lemma TouchedEvolves(a: Infos, b: Infos, id: int, e: Event, lastGood: int)
    requires !e.call.Good? && !e.call.ResolveCollisions? && !e.call.Attempt?
    requires b == a || (id in a && id in b && b == a[id := b[id]] && b[id].addr == a[id].addr && StandingOf(b[id]) == StandingOf(a[id]))
    ensures Evolves(a, b, e, lastGood)
  {
  }

  lemma RepositionedEvolves(a: Infos, b: Infos, e: Event, lastGood: int)
    requires !e.call.Good? && !e.call.ResolveCollisions? && !e.call.Attempt? && Repositioned(a, b)
    ensures Evolves(a, b, e, lastGood)
  {
  }

  lemma AttemptedEvolves(s: State, b: Infos, addr: Service, countFailure: bool, time: int, lastGood: int)
    requires Index(s)
    requires b == if addr in s.addrs && s.addrs[addr] in s.infos
                  then s.infos[s.addrs[addr] := Attempted(s.infos[s.addrs[addr]], countFailure, time, lastGood)] else s.infos
    ensures Evolves(s.infos, b, Event(Attempt(addr, countFailure, time), {}), lastGood)
  {
  }

  lemma CarriedEvolves(a: Infos, b: Infos, e: Event, lastGood: int)
    requires e.call.ResolveCollisions? && Carried(a, b, e.replaced)
    ensures Evolves(a, b, e, lastGood)
  {
  }
}
