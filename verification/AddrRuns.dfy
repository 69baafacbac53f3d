/** Runs of public calls of the address manager, with the consistency check before and after each (src/addrman.cpp:1175-1260). */
module AddrRuns {
  import opened Options
  import opened AddrTables
  import opened AddrSteps
  import opened AddrEffects
  import opened AddrManagers
  import opened AddrChecks
  import opened AddrSelection
  import opened AddrHistories
  import opened AddrLaws

  /** Times passed in are positive, and the random choices of a selection are fair. */
  ghost predicate Legal(call: Call) {
    match call
    case Good(_, time) => time > 0
    case Attempt(_, _, time) => time > 0
    case ResolveCollisions(time) => time > 0
    case Select(_, _, _, draws) => Fair(draws)
    case _ => true
  }

  /** The event happened: the entries and the time of the last success are as it says. */
  ghost predicate Happened(before: Infos, lastGood: int, e: Event, after: Infos, lastGood': int) {
    && Evolves(before, after, e, lastGood)
    && lastGood' == match SuccessTime(e) case Some(time) => time case None => lastGood
  }

  /** One public call: it keeps all invariants, every filled tried slot stays filled, and counted failures change as the event says. */
  method Step(a: AddrMan, call: Call, isValid: Service -> bool) returns (ghost e: Event)
    requires a.Valid() && Legal(call)
    modifies a, a.vvNew, a.vvTried
    ensures a.Valid() && old(a.S()).tried.Keys <= a.S().tried.Keys
    ensures e.call == call && Happened(old(a.mapInfo), old(a.lastGood), e, a.mapInfo, a.lastGood)
  {
    hide *;
    e := Event(call, {});
    ghost var s, lastGood, idCount := a.S(), a.lastGood, a.nIdCount;
    a.ValidParts();
    a.StateParts();
    FreshId(a.h, s, a.triedCollisions, idCount);
    match call {
      case Add(addr, services, time, source, routable, selfAnnounced, penalty, now, lucky) =>
        var inserted := a.AddSingle(addr, services, time, source, routable, selfAnnounced, penalty, now, lucky);
        a.StateParts();
        EnteredKept(a.h, s, a.S(), idCount, addr, services, source, time, if selfAnnounced then 0 else penalty, now, inserted);
        AddedEvolves(s, a.S(), idCount, addr, services, source, time, if selfAnnounced then 0 else penalty, now, e, lastGood);
        NoSuccess(e);
      case Good(addr, time) =>
        LegalTime(call);
        var moved := a.Good(addr, true, time);
        a.StateParts();
        MovedKept(a.h, Greeted(s, addr, time), a.S(), if addr in s.addrs then s.addrs[addr] else 0);
        GreetedEvolves(s, a.S(), addr, time, e, lastGood);
        ASuccess(e);
      case Attempt(addr, countFailure, time) =>
        LegalTime(call);
        a.Attempt(addr, countFailure, time);
        a.StateParts();
        AttemptedEvolves(s, a.mapInfo, addr, countFailure, time, lastGood);
        NoSuccess(e);
      case ResolveCollisions(time) =>
        LegalTime(call);
        ghost var states, order := a.ResolveCollisions(time, isValid);
        a.StateParts();
        e := Event(call, Judged(a.h, states, order, time, isValid, Replace));
        ResolvedAllCarries(a.h, states, order, time, isValid);
        CarriedEvolves(s.infos, a.mapInfo, e, lastGood);
        ASuccess(e);
      case SelectTriedCollision =>
        var r, id := a.SelectTriedCollision();
        a.StateParts();
        TouchedEvolves(s.infos, a.mapInfo, 0, e, lastGood);
        NoSuccess(e);
      case GetAddr(maxAddresses, maxPct, network, filtered, now, random) =>
        var addresses := a.GetAddr(maxAddresses, maxPct, network, filtered, now, random);
        a.StateParts();
        RepositionedEvolves(s.infos, a.mapInfo, e, lastGood);
        NoSuccess(e);
      case Connected(addr, time) =>
        a.Connected(addr, time);
        a.StateParts();
        MetStanding(s, addr, time);
        TouchedEvolves(s.infos, a.mapInfo, if addr in s.addrs then s.addrs[addr] else 0, e, lastGood);
        NoSuccess(e);
      case SetServices(addr, services) =>
        a.SetServices(addr, services);
        a.StateParts();
        ServicesStanding(s, addr, services);
        TouchedEvolves(s.infos, a.mapInfo, if addr in s.addrs then s.addrs[addr] else 0, e, lastGood);
        NoSuccess(e);
      case Select(newOnly, networks, preferTried, draws) =>
        LegalTime(call);
        var selected := AddrSelection.Select(a, newOnly, networks, preferTried, draws);
        TouchedEvolves(s.infos, a.mapInfo, 0, e, lastGood);
        NoSuccess(e);
    }
    HappenedIs(s.infos, lastGood, e, a.mapInfo, a.lastGood);
  }

  lemma HappenedIs(before: Infos, lastGood: int, e: Event, after: Infos, lastGood': int)
    requires Evolves(before, after, e, lastGood) && lastGood' == match SuccessTime(e) case Some(time) => time case None => lastGood
    ensures Happened(before, lastGood, e, after, lastGood')
  {
  }

  lemma NoSuccess(e: Event)
    requires !e.call.Good? && !e.call.ResolveCollisions?
    ensures SuccessTime(e).None?
  {
  }

  lemma ASuccess(e: Event)
    requires e.call.Good? || e.call.ResolveCollisions?
    ensures SuccessTime(e) == if e.call.Good? || e.replaced != {} then Some(e.call.time) else None
  {
  }

  lemma FreshId(h: Hashes, s: State, collisions: set<int>, idCount: int)
    requires Recorded(h, s, collisions, idCount)
    ensures idCount !in s.infos
  {
  }

  lemma EnteredKept(h: Hashes, s: State, t: State, idCount: int, addr: Service, services: set<nat>, source: int, time: int, penalty: int, now: int, inserted: bool)
    requires var g := Heard(s, idCount, addr, services, source, time, penalty, now);
             if inserted then Entered(g, t, h.NewSlot(addr, h.NewBucket(addr, source)), IdOf(s, idCount, addr)) else t == s || t == g
    ensures var g := Heard(s, idCount, addr, services, source, time, penalty, now); t == s || t == g || Kept(g.infos, t.infos)
  {
    hide Hashes.NewSlot, Hashes.NewBucket;
  }

  lemma MovedKept(h: Hashes, g: State, t: State, id: int)
    ensures MovedToTried(h, g, t, id) ==> Kept(g.infos, t.infos)
  {
    hide Hashes.TriedSlot, EvictSlot;
  }

  lemma MetStanding(s: State, addr: Service, time: int)
    ensures Known(s, addr) ==> var info := s.infos[s.addrs[addr]]; Met(info, time).addr == info.addr && StandingOf(Met(info, time)) == StandingOf(info)
    ensures Known(s, addr) <==> addr in s.addrs && s.addrs[addr] in s.infos
  {
  }

  lemma ServicesStanding(s: State, addr: Service, services: set<nat>)
    ensures Known(s, addr) ==> var info := s.infos[s.addrs[addr]]; StandingOf(info.(services := services)) == StandingOf(info)
    ensures Known(s, addr) <==> addr in s.addrs && s.addrs[addr] in s.infos
  {
  }

  lemma LegalTime(call: Call)
    requires Legal(call)
    ensures call.Good? || call.Attempt? || call.ResolveCollisions? ==> call.time > 0
    ensures call.Select? ==> Fair(call.draws)
  {
  }

  /**
    Over every run, whatever is drawn at each call: the consistency check passes before and
    after every call unless the key is null, no tried slot becomes empty, the statistics of
    every entry are those counted from the events, and the numbers of entries and of recorded
    collisions stay bounded.
  */
  method Run(a: AddrMan, calls: seq<Call>, isValid: Service -> bool) returns (ok: bool, ghost trace: seq<Infos>, ghost events: seq<Event>)
    requires a.Valid() && forall i :: 0 <= i < |calls| ==> Legal(calls[i])
    modifies a, a.vvNew, a.vvTried
    ensures (ok <==> !a.nullKey) && a.Valid() && old(a.S()).tried.Keys <= a.S().tried.Keys
    ensures |a.mapInfo| <= 81920 && |a.triedCollisions| <= 10
    ensures |events| == |calls| && (forall i :: 0 <= i < |calls| ==> events[i].call == calls[i])
    ensures |trace| == |calls| + 1 && trace[0] == old(a.mapInfo) && trace[|calls|] == a.mapInfo
    ensures a.lastGood == LastSuccess(events, |events|, old(a.lastGood))
    ensures forall id :: id in a.mapInfo ==> StandingOf(a.mapInfo[id]) == StandingAt(trace, events, id, |calls|, old(a.lastGood))
  {
    hide *;
    ghost var start := a.lastGood;
    ValidPasses(a);
    var err := CheckAddrman(a);
    ok := err == 0;
    trace, events := [a.mapInfo], [];
    HistoryStart(a.mapInfo, start);
    for i := 0 to |calls|
      invariant (ok <==> !a.nullKey) && a.Valid() && old(a.S()).tried.Keys <= a.S().tried.Keys
      invariant |events| == i && |trace| == i + 1 && trace[0] == old(a.mapInfo) && trace[i] == a.mapInfo
      invariant forall k :: 0 <= k < i ==> events[k].call == calls[k]
      invariant IsHistory(trace, events, start) && a.lastGood == LastSuccess(events, i, start)
    {
      ghost var lastGood := a.lastGood;
      ghost var e := Step(a, calls[i], isValid);
      HistoryNext(trace, events, start, e, a.mapInfo, a.lastGood);
      trace, events := trace + [a.mapInfo], events + [e];
      ValidPasses(a);
      err := CheckAddrman(a);
      ok := ok && err == 0;
    }
    forall id | id in a.mapInfo
      ensures StandingOf(a.mapInfo[id]) == StandingAt(trace, events, id, |calls|, start)
    {
      StandingExact(trace, events, start, id, |calls|);
    }
    Bounded(a);
  }

  lemma Bounded(a: AddrMan)
    requires a.Valid()
    ensures |a.mapInfo| <= 81920 && |a.triedCollisions| <= 10
  {
    hide Tables, AllFine, Tally;
    a.StateParts();
    SizeBound(a.h, a.S());
  }

  lemma HistoryStart(infos: Infos, start: int)
    ensures IsHistory([infos], [], start) && LastSuccess([], 0, start) == start
  {
  }

  lemma HistoryNext(trace: seq<Infos>, events: seq<Event>, start: int, e: Event, infos: Infos, lastGood: int)
    requires IsHistory(trace, events, start) && Happened(trace[|events|], LastSuccess(events, |events|, start), e, infos, lastGood)
    ensures IsHistory(trace + [infos], events + [e], start) && lastGood == LastSuccess(events + [e], |events| + 1, start)
  {
    hide Evolves, SuccessTime;
    var trace', events' := trace + [infos], events + [e];
    SameLast(events, e, |events|, start);
    forall i | 0 <= i < |events'|
      ensures Evolves(trace'[i], trace'[i + 1], events'[i], LastSuccess(events', i, start))
    {
      SameLast(events, e, i, start);
      assert i < |events| ==> Evolves(trace[i], trace[i + 1], events[i], LastSuccess(events, i, start));
    }
  }

  lemma {:induction false} SameLast(events: seq<Event>, e: Event, i: nat, start: int)
    requires i <= |events|
    ensures LastSuccess(events + [e], i, start) == LastSuccess(events, i, start)
  {
    hide SuccessTime;
    if i > 0 {
      SameLast(events, e, i - 1, start);
    }
  }

  /** A run from a new manager: the time of the last success starts at 1, so that the first counted failure of an entry always counts. */
  method FromNew(h: Hashes, nullKey: bool, calls: seq<Call>, isValid: Service -> bool)
    returns (a: AddrMan, ok: bool, ghost trace: seq<Infos>, ghost events: seq<Event>)
    requires forall i :: 0 <= i < |calls| ==> Legal(calls[i])
    ensures fresh(a) && a.Valid() && (ok <==> !nullKey) && |events| == |calls| && (forall i :: 0 <= i < |calls| ==> events[i].call == calls[i])
    ensures |trace| == |calls| + 1 && trace[0] == map[] && trace[|calls|] == a.mapInfo && a.lastGood == LastSuccess(events, |events|, 1)
    ensures forall id :: id in a.mapInfo ==> StandingOf(a.mapInfo[id]) == StandingAt(trace, events, id, |calls|, 1)
    ensures (forall k :: 0 <= k < |events| ==> SuccessTime(events[k]).None?) ==>
              forall id :: id in a.mapInfo ==> a.mapInfo[id].attempts == if EverFailed(trace, events, id, |calls|) then 1 else 0
  {
    hide *;
    a := new AddrMan(h, nullKey);
    ok, trace, events := Run(a, calls, isValid);
    if forall k :: 0 <= k < |events| ==> SuccessTime(events[k]).None? {
      forall id | id in a.mapInfo
        ensures a.mapInfo[id].attempts == if EverFailed(trace, events, id, |calls|) then 1 else 0
      {
        AttemptTimes(calls, events);
        FirstFailure(trace, events, id, |calls|);
        StandingParts(a.mapInfo[id]);
      }
    }
  }

  lemma AttemptTimes(calls: seq<Call>, events: seq<Event>)
    requires |events| == |calls| && (forall i :: 0 <= i < |calls| ==> Legal(calls[i]) && events[i].call == calls[i])
    ensures forall k :: 0 <= k < |events| ==> events[k].call.Attempt? ==> events[k].call.time > 0
  {
  }

  lemma StandingParts(info: AddrInfo)
    ensures StandingOf(info).failures == info.attempts
  {
  }
}
