/** Picking an address to connect to (src/addrman.cpp:713-793). */
module AddrSelection {
  import opened Options
  import opened AddrTables
  import opened AddrSteps
  import opened AddrManagers

  /** The random choices of one round: a bucket, a position in it, and whether the entry's chance comes up. */
  datatype Draw = Draw(bucket: nat, position: nat, accept: bool)

  /** Every bucket comes up with an entry accepted, sooner or later. */
  ghost predicate Fair(draws: nat -> Draw) {
    forall b: nat :: b < ADDRMAN_NEW_BUCKET_COUNT ==> ComesUp(draws, b)
  }

  ghost predicate ComesUp(draws: nat -> Draw, b: nat) {
    exists k :: draws(k).bucket == b && draws(k).accept
  }

  predicate Wanted(info: AddrInfo, networks: set<nat>) {
    networks == {} || info.addr.network in networks
  }

  ghost function TableFor(s: State, tried: bool): Table {
    if tried then s.tried else s.news
  }

  function BucketCount(tried: bool): nat {
    if tried then ADDRMAN_TRIED_BUCKET_COUNT else ADDRMAN_NEW_BUCKET_COUNT
  }

  lemma Sizes(tried: bool)
    ensures 0 < ADDRMAN_BUCKET_SIZE && 0 < BucketCount(tried) <= ADDRMAN_NEW_BUCKET_COUNT
  {
  }

  /** The slot holds an entry of one of the networks asked for. */
  ghost predicate Candidate(s: State, tried: bool, slot: Slot, networks: set<nat>) {
    var t := TableFor(s, tried);
    slot in t && t[slot] in s.infos && Wanted(s.infos[t[slot]], networks)
  }

  /** There is an entry to choose from. */
  ghost predicate Available(s: State, tried: bool, networks: set<nat>) {
    exists id :: Has(s.infos, tried, None, id) && Wanted(s.infos[id], networks)
  }

  // ---------- what the counters say ----------

  lemma SomeOf(members: set<Member>) returns (m: Member)
    requires |members| > 0
    ensures m in members
  {
    m :| m in members;
  }

  lemma NotNone(members: set<Member>, m: Member)
    requires m in members
    ensures |members| > 0
  {
  }

  /** An entry with the given place in the tables, of the given network if there is one. */
  ghost predicate Has(infos: map<int, AddrInfo>, tried: bool, network: Option<int>, id: int) {
    id in infos && infos[id].inTried == tried && (network.Some? ==> infos[id].addr.network == network.value)
  }

  ghost function Those(infos: map<int, AddrInfo>, tried: bool, network: Option<int>): set<Member> {
    var members := if tried then TriedMembers(infos) else NewMembers(infos);
    if network.Some? then InNetwork(members, network.value) else members
  }

  lemma HasSome(infos: map<int, AddrInfo>, tried: bool, network: Option<int>, id: int)
    requires Has(infos, tried, network, id)
    ensures |Those(infos, tried, network)| > 0
  {
    hide NewMembers, TriedMembers;
    var m: Member := (id, infos[id].addr.network);
    IsMember(infos, m);
    NotNone(Those(infos, tried, network), m);
  }

  lemma SomeHas(infos: map<int, AddrInfo>, tried: bool, network: Option<int>) returns (id: int)
    requires |Those(infos, tried, network)| > 0
    ensures Has(infos, tried, network, id)
  {
    hide NewMembers, TriedMembers;
    var m := SomeOf(Those(infos, tried, network));
    IsMember(infos, m);
    id := m.0;
  }

  /** A positive count means that there is such an entry. */
  lemma ThoseExist(infos: map<int, AddrInfo>, tried: bool, network: Option<int>)
    ensures |Those(infos, tried, network)| > 0 <==> exists id :: Has(infos, tried, network, id)
  {
    hide Has, Those;
    if |Those(infos, tried, network)| > 0 {
      var id := SomeHas(infos, tried, network);
    }
    if id :| Has(infos, tried, network, id) {
      HasSome(infos, tried, network, id);
    }
  }

  lemma CountPositive(infos: map<int, AddrInfo>, c: Counters, network: int)
    requires Tally(c, NewMembers(infos), TriedMembers(infos))
    ensures var n := CountOf(c.networkCounts, network);
            && n.nNew >= 0 && n.nTried >= 0
            && (n.nNew > 0 <==> exists id :: Has(infos, false, Some(network), id))
            && (n.nTried > 0 <==> exists id :: Has(infos, true, Some(network), id))
  {
    hide NewMembers, TriedMembers, Has, InNetwork;
    ThoseExist(infos, false, Some(network));
    ThoseExist(infos, true, Some(network));
    assert CountOf(c.networkCounts, network) == NewTriedCount(|Those(infos, false, Some(network))|, |Those(infos, true, Some(network))|);
  }

  lemma TotalPositive(infos: map<int, AddrInfo>, c: Counters)
    requires Tally(c, NewMembers(infos), TriedMembers(infos))
    ensures c.nNew >= 0 && c.nTried >= 0
    ensures c.nNew > 0 <==> exists id :: Has(infos, false, None, id)
    ensures c.nTried > 0 <==> exists id :: Has(infos, true, None, id)
  {
    hide NewMembers, TriedMembers, Has, InNetwork;
    ThoseExist(infos, false, None);
    ThoseExist(infos, true, None);
  }

  ghost predicate CountedFor(s: State, networks: set<nat>, newCount: int, triedCount: int) {
    && newCount >= 0 && triedCount >= 0
    && (newCount > 0 <==> exists id, network :: network in networks && Has(s.infos, false, Some(network), id))
    && (triedCount > 0 <==> exists id, network :: network in networks && Has(s.infos, true, Some(network), id))
  }

  lemma CountedMore(s: State, c: Counters, done: set<nat>, network: nat, newCount: int, triedCount: int)
    requires Tally(c, NewMembers(s.infos), TriedMembers(s.infos)) && CountedFor(s, done, newCount, triedCount)
    ensures var n := CountOf(c.networkCounts, network); CountedFor(s, done + {network}, newCount + n.nNew, triedCount + n.nTried)
  {
    hide Tally, CountOf, Has;
    CountPositive(s.infos, c, network);
  }

  /** How many entries there are to choose from: only whether there are any matters. */
  method CountsFor(a: AddrMan, networks: set<nat>) returns (newCount: int, triedCount: int)
    requires a.Valid()
    ensures newCount >= 0 && triedCount >= 0
    ensures newCount > 0 <==> Available(a.S(), false, networks)
    ensures triedCount > 0 <==> Available(a.S(), true, networks)
  {
    hide *;
    a.ValidParts();
    a.StateParts();
    CountedParts(a.S(), a.C());
    newCount, triedCount := a.nNew, a.nTried;
    if networks != {} {
      newCount, triedCount := 0, 0;
      var todo := networks;
      NothingCounted(a.S());
      while todo != {}
        invariant todo <= networks && CountedFor(a.S(), networks - todo, newCount, triedCount)
        decreases |todo|
      {
        var network :| network in todo;
        CountedMore(a.S(), a.C(), networks - todo, network, newCount, triedCount);
        NetworkCounted(a.networkCounts, network);
        if network in a.networkCounts {
          newCount := newCount + a.networkCounts[network].nNew;
          triedCount := triedCount + a.networkCounts[network].nTried;
        }
        assert networks - todo + {network} == networks - (todo - {network});
        todo := todo - {network};
      }
      assert networks - todo == networks;
    }
    AvailableIs(a.S(), a.C(), networks, newCount, triedCount);
  }

  lemma CountedParts(s: State, c: Counters)
    requires Counted(s, c)
    ensures Tally(c, NewMembers(s.infos), TriedMembers(s.infos)) && AllFine(s.infos)
  {
  }

  lemma NothingCounted(s: State)
    ensures forall networks :: CountedFor(s, networks - networks, 0, 0)
  {
  }

  lemma NetworkCounted(counts: map<int, NewTriedCount>, network: int)
    ensures CountOf(counts, network) == if network in counts then counts[network] else NewTriedCount(0, 0)
  {
  }

  lemma AvailableIs(s: State, c: Counters, networks: set<nat>, newCount: int, triedCount: int)
    requires Tally(c, NewMembers(s.infos), TriedMembers(s.infos))
    requires networks == {} ==> newCount == c.nNew && triedCount == c.nTried
    requires networks != {} ==> CountedFor(s, networks, newCount, triedCount)
    ensures newCount >= 0 && triedCount >= 0
    ensures newCount > 0 <==> Available(s, false, networks)
    ensures triedCount > 0 <==> Available(s, true, networks)
  {
    hide Tally, Has, Available;
    TotalPositive(s.infos, c);
    AvailableFor(s, false, networks);
    AvailableFor(s, true, networks);
  }

  lemma AvailableFor(s: State, tried: bool, networks: set<nat>)
    ensures networks == {} ==> (Available(s, tried, networks) <==> exists id :: Has(s.infos, tried, None, id))
    ensures networks != {} ==> (Available(s, tried, networks) <==> exists id, network :: network in networks && Has(s.infos, tried, Some(network), id))
  {
    if id :| Has(s.infos, tried, None, id) && Wanted(s.infos[id], networks) {
      if networks != {} {
        var network: nat := s.infos[id].addr.network;
        assert Has(s.infos, tried, Some(network), id);
      }
    }
    if id, network :| network in networks && Has(s.infos, tried, Some(network), id) {
      assert Has(s.infos, tried, None, id) && Wanted(s.infos[id], networks);
    }
  }

  // ---------- the search ----------

  /** An entry to choose from is in the table, so that the search can find it. */
  lemma AvailableCandidate(h: Hashes, s: State, tried: bool, networks: set<nat>) returns (slot: Slot)
    requires Tables(h, s) && AllFine(s.infos) && Available(s, tried, networks)
    ensures Candidate(s, tried, slot, networks)
  {
    hide Hashes.TriedSlot, Hashes.NewSlot, TriedOk, NewOk, Wanted;
    var id :| Has(s.infos, tried, None, id) && Wanted(s.infos[id], networks);
    assert CountOk(h, s, id) && Fine(s.infos[id]);
    if tried {
      slot := h.TriedSlot(s.infos[id].addr);
    } else {
      slot :| slot in Occurrences(s.news, id);
    }
  }

  /** What is in a slot of a table is an entry of that table. */
  lemma CandidateEntry(h: Hashes, s: State, tried: bool, slot: Slot)
    requires Tables(h, s) && slot in TableFor(s, tried)
    ensures TableFor(s, tried)[slot] in s.infos && s.infos[TableFor(s, tried)[slot]].inTried == tried
  {
    hide Hashes.TriedSlot, Hashes.NewSlot, CountOk;
    assert if tried then TriedOk(h, s, slot) else NewOk(h, s, slot);
  }

  method GetEntry(a: AddrMan, tried: bool, bucket: nat, position: nat) returns (id: int)
    requires a.Shape() && bucket < BucketCount(tried) && position < ADDRMAN_BUCKET_SIZE
    ensures id >= -1 && (id >= 0 <==> (bucket, position) in TableFor(a.S(), tried))
    ensures id >= 0 ==> id == TableFor(a.S(), tried)[(bucket, position)]
  {
    a.ShapeParts();
    CellIs(a.vvTried, (bucket, position));
    CellIs(a.vvNew, (bucket, position));
    id := if tried then a.vvTried[bucket, position] else a.vvNew[bucket, position];
  }

  /** The i-th position looked at, going round from the initial one. */
  function Turn(start: nat, i: nat): (p: nat)
    ensures p < ADDRMAN_BUCKET_SIZE
  {
    (start + i) % ADDRMAN_BUCKET_SIZE
  }

  lemma TurnsAll(start: nat, p: nat) returns (i: nat)
    requires p < ADDRMAN_BUCKET_SIZE
    ensures i < ADDRMAN_BUCKET_SIZE && Turn(start, i) == p
  {
    i := (p + ADDRMAN_BUCKET_SIZE - start % ADDRMAN_BUCKET_SIZE) % ADDRMAN_BUCKET_SIZE;
  }

  /** One round: the first candidate of the bucket, from the initial position on. */
  method Round(a: AddrMan, tried: bool, networks: set<nat>, bucket: nat, start: nat) returns (r: Option<int>, ghost i: nat)
    requires a.Valid() && bucket < BucketCount(tried)
    ensures forall j: nat :: j < i ==> !Candidate(a.S(), tried, (bucket, Turn(start, j)), networks)
    ensures r.Some? ==> Candidate(a.S(), tried, (bucket, Turn(start, i)), networks) && r.value == TableFor(a.S(), tried)[(bucket, Turn(start, i))]
    ensures r.Some? ==> r.value in a.mapInfo && a.mapInfo[r.value].inTried == tried
    ensures r.None? ==> forall p: nat :: p < ADDRMAN_BUCKET_SIZE ==> !Candidate(a.S(), tried, (bucket, p), networks)
  {
    hide *;
    a.ValidParts();
    a.StateParts();
    i := 0;
    Sizes(tried);
    for k := 0 to ADDRMAN_BUCKET_SIZE
      invariant i == k && forall j: nat :: j < k ==> !Candidate(a.S(), tried, (bucket, Turn(start, j)), networks)
    {
      var position := Turn(start, k);
      var id := GetEntry(a, tried, bucket, position);
      CandidateIs(a.S(), tried, (bucket, position), networks);
      if id != -1 {
        CandidateEntry(a.h, a.S(), tried, (bucket, position));
        if Wanted(a.mapInfo[id], networks) {
          return Some(id), k;
        }
      }
      i := k + 1;
    }
    r := None;
    forall p: nat | p < ADDRMAN_BUCKET_SIZE
      ensures !Candidate(a.S(), tried, (bucket, p), networks)
    {
      var j := TurnsAll(start, p);
    }
  }

  lemma CandidateIs(s: State, tried: bool, slot: Slot, networks: set<nat>)
    ensures Candidate(s, tried, slot, networks) <==>
      slot in TableFor(s, tried) && TableFor(s, tried)[slot] in s.infos && Wanted(s.infos[TableFor(s, tried)[slot]], networks)
  {
  }

  lemma CandidateWithin(a: AddrMan, tried: bool, slot: Slot, networks: set<nat>)
    requires a.Shape() && Candidate(a.S(), tried, slot, networks)
    ensures 0 <= slot.0 < BucketCount(tried) && 0 <= slot.1 < ADDRMAN_BUCKET_SIZE
  {
    a.ShapeParts();
    CellIs(a.vvTried, slot);
    CellIs(a.vvNew, slot);
  }

  lemma WhenUp(draws: nat -> Draw, b: nat) returns (k: nat)
    requires Fair(draws) && b < ADDRMAN_NEW_BUCKET_COUNT
    ensures draws(k).bucket == b && draws(k).accept
  {
    assert ComesUp(draws, b);
    k :| draws(k).bucket == b && draws(k).accept;
  }

  /** Where a candidate of the table is, and when its bucket comes up. */
  lemma Reachable(a: AddrMan, tried: bool, networks: set<nat>, draws: nat -> Draw) returns (slot: Slot, k: nat)
    requires a.Valid() && Fair(draws) && Available(a.S(), tried, networks)
    ensures Candidate(a.S(), tried, slot, networks) && 0 <= slot.0 < BucketCount(tried) && 0 <= slot.1 < ADDRMAN_BUCKET_SIZE
    ensures draws(k).bucket == slot.0 && draws(k).accept
  {
    hide *;
    a.ValidParts();
    a.StateParts();
    CountedParts(a.S(), a.C());
    slot := AvailableCandidate(a.h, a.S(), tried, networks);
    CandidateWithin(a, tried, slot, networks);
    Sizes(tried);
    k := WhenUp(draws, slot.0);
  }

  /**
    Picks an entry of the networks asked for, and a new one if only those are asked for. There
    is no result exactly if there is no such entry; otherwise the search finds one.
  */
  method Select(a: AddrMan, newOnly: bool, networks: set<nat>, preferTried: bool, draws: nat -> Draw) returns (r: Option<(Service, int)>)
    requires a.Valid() && Fair(draws)
    ensures r.None? <==> !Available(a.S(), false, networks) && (newOnly || !Available(a.S(), true, networks))
    ensures r.Some? ==> exists id :: id in a.mapInfo && r.value == (a.mapInfo[id].addr, a.mapInfo[id].lastTry)
                                     && Wanted(a.mapInfo[id], networks) && (newOnly ==> !a.mapInfo[id].inTried)
  {
    hide *;
    a.StateParts();
    EmptyList(a);
    if |a.vRandom| == 0 {
      return None;
    }
    var newCount, triedCount := CountsFor(a, networks);
    if newOnly && newCount == 0 {
      return None;
    }
    if newCount + triedCount == 0 {
      return None;
    }
    var searchTried := if newOnly || triedCount == 0 then false else if newCount == 0 then true else preferTried;
    ghost var slot, last := Reachable(a, searchTried, networks, draws);
    Sizes(searchTried);
    var round := 0;
    while true
      invariant round <= last
      decreases last - round
    {
      var bucket := draws(round).bucket % BucketCount(searchTried);
      var id, i := Round(a, searchTried, networks, bucket, draws(round).position);
      if id.Some? && draws(round).accept {
        CandidateIs(a.S(), searchTried, (bucket, Turn(draws(round).position, i)), networks);
        return Some((a.mapInfo[id.value].addr, a.mapInfo[id.value].lastTry));
      }
      assert round != last by {
        SmallMod(slot.0, BucketCount(searchTried));
      }
      round := round + 1;
    }
  }

  lemma SmallMod(x: int, n: int)
    requires 0 <= x < n
    ensures x % n == x
  {
  }

  lemma EmptyList(a: AddrMan)
    requires a.Valid()
    ensures |a.vRandom| == 0 ==> forall tried, networks :: !Available(a.S(), tried, networks)
  {
  }
}
