/** The address manager's own consistency check (src/addrman.cpp:1063-1166): what it detects, and that it never fails. */
module AddrChecks {
  import opened AddrTables
  import opened AddrSteps
  import opened AddrEffects
  import opened AddrManagers

  // ---------- counting entries ----------

  /** The entries with ids below k. */
  ghost function Below(infos: map<int, AddrInfo>, k: int): map<int, AddrInfo> {
    map id | id in infos && id < k :: infos[id]
  }

  lemma BelowStep(infos: map<int, AddrInfo>, k: int)
    ensures k !in infos ==> Below(infos, k + 1) == Below(infos, k)
    ensures k in infos ==> Below(infos, k + 1) == Below(infos, k)[k := infos[k]] && k !in Below(infos, k)
  {
  }

  /** Adding an entry that is tried. */
  lemma MembersWithTried(infos: map<int, AddrInfo>, id: int, info: AddrInfo)
    requires id !in infos && info.inTried
    ensures TriedMembers(infos[id := info]) == TriedMembers(infos) + {(id, info.addr.network)} && (id, info.addr.network) !in TriedMembers(infos)
    ensures NewMembers(infos[id := info]) == NewMembers(infos)
  {
    hide NewMembers, TriedMembers;
    var b := infos[id := info];
    forall m: Member
      ensures m in TriedMembers(b) <==> m in TriedMembers(infos) || m == (id, info.addr.network)
      ensures m in NewMembers(b) <==> m in NewMembers(infos)
      ensures m == (id, info.addr.network) ==> m !in TriedMembers(infos)
    {
      IsMember(infos, m);
      IsMember(b, m);
    }
  }

  lemma {:induction false} MembersCount(infos: map<int, AddrInfo>, k: nat)
    ensures (forall id :: id in infos ==> id >= 0) ==> |NewMembers(Below(infos, k))| + |TriedMembers(Below(infos, k))| == |Below(infos, k)|
  {
    hide NewMembers, TriedMembers;
    if forall id :: id in infos ==> id >= 0 {
      if k == 0 {
        assert Below(infos, 0) == map[];
        NoMembers();
      } else {
        MembersCount(infos, k - 1);
        BelowStep(infos, k - 1);
        if k - 1 in infos {
          if infos[k - 1].inTried {
            MembersWithTried(Below(infos, k - 1), k - 1, infos[k - 1]);
          } else {
            MembersWith(Below(infos, k - 1), k - 1, infos[k - 1]);
          }
        }
      }
    }
  }

  lemma NoMembers()
    ensures NewMembers(map[]) == {} && TriedMembers(map[]) == {}
  {
  }

  ghost function IdsOf(ids: seq<int>): set<int> {
    set id | id in ids
  }

  lemma {:induction false} CountIds(ids: seq<int>)
    requires forall i, j :: 0 <= i < j < |ids| ==> ids[i] != ids[j]
    ensures |IdsOf(ids)| == |ids|
  {
    if ids != [] {
      var n := |ids| - 1;
      CountIds(ids[..n]);
      assert ids == ids[..n] + [ids[n]];
      assert IdsOf(ids) == IdsOf(ids[..n]) + {ids[n]};
      assert ids[n] !in ids[..n];
    }
  }

  /** The shuffled list has as many elements as there are entries. */
  lemma RandomCount(s: State)
    requires Index(s)
    ensures |s.random| == |s.infos|
  {
    forall i, j | 0 <= i < j < |s.random|
      ensures s.random[i] != s.random[j]
    {
      assert s.infos[s.random[i]].randomPos == i && s.infos[s.random[j]].randomPos == j;
    }
    CountIds(s.random);
    forall id
      ensures id in IdsOf(s.random) <==> id in s.infos.Keys
    {
      if id in s.infos {
        assert s.random[s.infos[id].randomPos] == id;
      }
    }
    assert IdsOf(s.random) == s.infos.Keys;
    assert |s.infos| == |s.infos.Keys|;
  }

  lemma TotalCount(s: State, c: Counters, idCount: nat)
    requires Index(s) && Counted(s, c) && forall id :: id in s.infos ==> id < idCount
    ensures |s.random| == c.nTried + c.nNew
  {
    hide NewMembers, TriedMembers;
    RandomCount(s);
    assert Below(s.infos, idCount) == s.infos;
    MembersCount(s.infos, idCount);
  }

  // ---------- the first pass, over the entries ----------

  /** What the check has collected from the entries with ids below k. */
  ghost predicate Collected(infos: map<int, AddrInfo>, k: int, tried: set<nat>, news: map<nat, int>, counts: map<int, NewTriedCount>) {
    && CollectedIds(infos, k, tried, news) && AllPositive(counts)
    && Tally(Counters(|news|, |tried|, counts), NewMembers(Below(infos, k)), TriedMembers(Below(infos, k)))
  }

  ghost predicate CollectedIds(infos: map<int, AddrInfo>, k: int, tried: set<nat>, news: map<nat, int>) {
    && (forall id: nat :: id in tried <==> id in infos && id < k && infos[id].inTried)
    && (forall id: nat :: id in news <==> id in infos && id < k && !infos[id].inTried)
    && (forall id: nat :: id in news ==> news[id] == infos[id].refCount)
  }

  ghost predicate AllPositive(counts: map<int, NewTriedCount>) {
    forall network :: network in counts ==> counts[network].nNew > 0 || counts[network].nTried > 0
  }

  lemma CollectedNone(infos: map<int, AddrInfo>)
    requires forall id :: id in infos ==> id >= 0
    ensures Collected(infos, 0, {}, map[], map[])
  {
    assert Below(infos, 0) == map[];
    NoMembers();
    EmptyTally();
  }

  lemma CollectedSkip(infos: map<int, AddrInfo>, k: int, tried: set<nat>, news: map<nat, int>, counts: map<int, NewTriedCount>)
    requires Collected(infos, k, tried, news, counts) && k !in infos
    ensures Collected(infos, k + 1, tried, news, counts)
  {
    hide Tally, NewMembers, TriedMembers, Below, AllPositive, CollectedIds;
    BelowStep(infos, k);
    IdsSkip(infos, k, tried, news);
  }

  lemma IdsSkip(infos: map<int, AddrInfo>, k: int, tried: set<nat>, news: map<nat, int>)
    requires CollectedIds(infos, k, tried, news) && k !in infos
    ensures CollectedIds(infos, k + 1, tried, news)
  {
  }

  lemma IdsTried(infos: map<int, AddrInfo>, k: nat, tried: set<nat>, news: map<nat, int>)
    requires CollectedIds(infos, k, tried, news) && k in infos && infos[k].inTried
    ensures CollectedIds(infos, k + 1, tried + {k}, news) && k !in tried
  {
    forall id: nat
      ensures id in tried + {k} <==> id in infos && id < k + 1 && infos[id].inTried
    {
      assert id in tried <==> id in infos && id < k && infos[id].inTried;
    }
  }

  lemma IdsNew(infos: map<int, AddrInfo>, k: nat, tried: set<nat>, news: map<nat, int>)
    requires CollectedIds(infos, k, tried, news) && k in infos && !infos[k].inTried
    ensures CollectedIds(infos, k + 1, tried, news[k := infos[k].refCount]) && k !in news
  {
  }

  lemma CollectedTried(infos: map<int, AddrInfo>, k: nat, tried: set<nat>, news: map<nat, int>, counts: map<int, NewTriedCount>)
    requires Collected(infos, k, tried, news, counts) && k in infos && infos[k].inTried
    ensures Collected(infos, k + 1, tried + {k}, news, AddToTried(Counters(0, 0, counts), infos[k].addr.network, 1).networkCounts)
  {
    hide Tally, NewMembers, TriedMembers, AddToTried, AllPositive, Below, CollectedIds;
    BelowStep(infos, k);
    IdsTried(infos, k, tried, news);
    OneMore(tried, k);
    var b, network := Below(infos, k), infos[k].addr.network;
    MembersWithTried(b, k, infos[k]);
    TallyTried(Counters(|news|, |tried|, counts), NewMembers(b), TriedMembers(b), (k, network));
    Bumped(counts, network, NewMembers(b), TriedMembers(b), |news|, |tried|);
  }

  lemma CollectedNew(infos: map<int, AddrInfo>, k: nat, tried: set<nat>, news: map<nat, int>, counts: map<int, NewTriedCount>)
    requires Collected(infos, k, tried, news, counts) && k in infos && !infos[k].inTried
    ensures Collected(infos, k + 1, tried, news[k := infos[k].refCount], AddToNew(Counters(0, 0, counts), infos[k].addr.network, 1).networkCounts)
  {
    hide Tally, NewMembers, TriedMembers, AddToNew, AllPositive, Below, CollectedIds;
    BelowStep(infos, k);
    IdsNew(infos, k, tried, news);
    var b, network := Below(infos, k), infos[k].addr.network;
    MembersWith(b, k, infos[k]);
    TallyNew(Counters(|news|, |tried|, counts), NewMembers(b), TriedMembers(b), (k, network));
    assert |news[k := infos[k].refCount]| == |news| + 1;
    Bumped(counts, network, NewMembers(b), TriedMembers(b), |news|, |tried|);
  }

  lemma OneMore(ids: set<nat>, k: nat)
    requires k !in ids
    ensures |ids + {k}| == |ids| + 1
  {
  }

  /** Counting one more in a network. */
  lemma Bumped(counts: map<int, NewTriedCount>, network: int, n: set<Member>, t: set<Member>, nNew: int, nTried: int)
    requires Tally(Counters(nNew, nTried, counts), n, t) && AllPositive(counts)
    ensures AllPositive(AddToNew(Counters(0, 0, counts), network, 1).networkCounts)
    ensures AllPositive(AddToTried(Counters(0, 0, counts), network, 1).networkCounts)
    ensures AddToNew(Counters(nNew, nTried, counts), network, 1) == Counters(nNew + 1, nTried, AddToNew(Counters(0, 0, counts), network, 1).networkCounts)
    ensures AddToTried(Counters(nNew, nTried, counts), network, 1) == Counters(nNew, nTried + 1, AddToTried(Counters(0, 0, counts), network, 1).networkCounts)
  {
    assert CountOf(counts, network) == NewTriedCount(|InNetwork(n, network)|, |InNetwork(t, network)|);
  }

  // ---------- what the check is about ----------

  /** The conditions on a single entry. */
  ghost predicate EntryOk(s: State, id: int)
    requires id in s.infos
  {
    var info := s.infos[id];
    && (if info.inTried then info.lastSuccess != 0 && info.refCount == 0 else 0 < info.refCount <= ADDRMAN_NEW_BUCKETS_PER_ADDRESS)
    && info.addr in s.addrs && s.addrs[info.addr] == id
    && 0 <= info.randomPos < |s.random| && s.random[info.randomPos] == id
    && info.lastTry >= 0 && info.lastSuccess >= 0
  }

  ghost predicate EntriesOk(s: State) {
    forall id :: id in s.infos ==> EntryOk(s, id)
  }

  ghost function Networks(infos: map<int, AddrInfo>): set<int> {
    set id | id in infos :: infos[id].addr.network
  }

  /** The counts that are kept are right, and there are at least as many as networks with entries. */
  ghost predicate CountsAgree(infos: map<int, AddrInfo>, counts: map<int, NewTriedCount>) {
    && |Networks(infos)| <= |counts|
    && forall network :: network in counts ==> counts[network] == NetworkCount(infos, network)
  }

  ghost function NetworkCount(infos: map<int, AddrInfo>, network: int): NewTriedCount {
    NewTriedCount(|InNetwork(NewMembers(infos), network)|, |InNetwork(TriedMembers(infos), network)|)
  }

  /** Everything that the check tests. */
  ghost predicate Sound(h: Hashes, s: State, c: Counters) {
    && |s.random| == c.nTried + c.nNew && EntriesOk(s)
    && c.nNew == |NewMembers(s.infos)| && c.nTried == |TriedMembers(s.infos)| && CountsAgree(s.infos, c.networkCounts)
    && Tables(h, s)
  }

  /** Ids have been handed out by the id counter. */
  ghost predicate HandedOut(infos: map<int, AddrInfo>, idCount: int) {
    forall id :: id in infos ==> 0 <= id < idCount
  }

  lemma HasNetwork(infos: map<int, AddrInfo>, id: int)
    requires id in infos
    ensures infos[id].addr.network in Networks(infos)
  {
  }

  lemma InNetworkIs(infos: map<int, AddrInfo>, network: int)
    ensures network in Networks(infos) <==> InNetwork(NewMembers(infos), network) != {} || InNetwork(TriedMembers(infos), network) != {}
  {
    hide NewMembers, TriedMembers;
    if network in Networks(infos) {
      var id :| id in infos && infos[id].addr.network == network;
      IsMember(infos, (id, network));
      assert (id, network) in InNetwork(NewMembers(infos), network) || (id, network) in InNetwork(TriedMembers(infos), network);
    }
    forall m: Member | m in InNetwork(NewMembers(infos), network) || m in InNetwork(TriedMembers(infos), network)
      ensures network in Networks(infos)
    {
      IsMember(infos, m);
      HasNetwork(infos, m.0);
    }
  }

  /** A positive count means that the network has entries. */
  lemma TallyNetworks(infos: map<int, AddrInfo>, c: Counters, network: int)
    requires Tally(c, NewMembers(infos), TriedMembers(infos))
    ensures CountOf(c.networkCounts, network) == NetworkCount(infos, network)
    ensures network in Networks(infos) <==> CountOf(c.networkCounts, network) != NewTriedCount(0, 0)
    ensures CountOf(c.networkCounts, network).nNew >= 0 && CountOf(c.networkCounts, network).nTried >= 0
  {
    hide NewMembers, TriedMembers, InNetwork, Networks;
    InNetworkIs(infos, network);
  }

  /** What is known between calls includes what the check tests. */
  lemma ValidSound(h: Hashes, s: State, c: Counters, idCount: nat)
    requires Index(s) && Tables(h, s) && Counted(s, c) && HandedOut(s.infos, idCount)
    ensures Sound(h, s, c)
  {
    hide Tables, NewMembers, TriedMembers, NetworkCount, Tally;
    TotalCount(s, c, idCount);
    forall id | id in s.infos
      ensures EntryOk(s, id)
    {
      assert Fine(s.infos[id]);
      if s.infos[id].inTried {
        TriedUncounted(h, s, id);
      }
    }
    TallyTotals(c, NewMembers(s.infos), TriedMembers(s.infos));
    forall network
      ensures network in Networks(s.infos) ==> network in c.networkCounts.Keys
      ensures network in c.networkCounts ==> c.networkCounts[network] == NetworkCount(s.infos, network)
    {
      TallyNetworks(s.infos, c, network);
    }
    SubsetCount(Networks(s.infos), c.networkCounts.Keys);
    assert |c.networkCounts| == |c.networkCounts.Keys|;
  }

  lemma TallyTotals(c: Counters, n: set<Member>, t: set<Member>)
    requires Tally(c, n, t)
    ensures c.nNew == |n| && c.nTried == |t|
  {
  }

  lemma SubsetCount(a: set<int>, b: set<int>)
    requires a <= b
    ensures |a| <= |b|
  {
    assert b == a + (b - a);
  }

  lemma {:induction false} IdsBound(ids: seq<int>)
    ensures |IdsOf(ids)| <= |ids|
    ensures |IdsOf(ids)| == |ids| ==> forall i, j :: 0 <= i < j < |ids| ==> ids[i] != ids[j]
  {
    if ids != [] {
      var n := |ids| - 1;
      IdsBound(ids[..n]);
      assert ids == ids[..n] + [ids[n]];
      assert IdsOf(ids) == IdsOf(ids[..n]) + {ids[n]};
    }
  }

  lemma SubsetFull(a: set<int>, b: set<int>)
    requires a <= b && |b| <= |a|
    ensures a == b
  {
    assert b == a + (b - a);
    assert |b - a| == 0;
  }

  /** As many entries as list positions, each at its own position: the list holds nothing else. */
  lemma ListFull(s: State)
    requires EntriesOk(s) && |s.random| == |s.infos|
    ensures forall i :: 0 <= i < |s.random| ==> s.random[i] in s.infos && s.infos[s.random[i]].randomPos == i
  {
    forall id | id in s.infos
      ensures id in IdsOf(s.random)
    {
      assert EntryOk(s, id);
    }
    IdsBound(s.random);
    assert |s.infos| == |s.infos.Keys|;
    SubsetFull(s.infos.Keys, IdsOf(s.random));
    forall i | 0 <= i < |s.random|
      ensures s.random[i] in s.infos && s.infos[s.random[i]].randomPos == i
    {
      assert s.random[i] in IdsOf(s.random);
      assert s.random[i] in s.infos.Keys;
      assert EntryOk(s, s.random[i]);
    }
  }

  /**
    What the check misses: addresses in mapAddr that belong to no entry, and networks without
    a count while another one has a zero count. Otherwise it implies all that holds between calls.
  */
  lemma SoundSuffices(h: Hashes, s: State, c: Counters, idCount: nat)
    requires Sound(h, s, c) && HandedOut(s.infos, idCount)
    ensures Index(s) && Counted(s, c) <==>
      (forall a :: a in s.addrs ==> Known(s, a) && s.infos[s.addrs[a]].addr == a) && Networks(s.infos) <= c.networkCounts.Keys
  {
    hide Tables, NewMembers, TriedMembers, InNetwork, Networks;
    var infos := s.infos;
    if Index(s) && Counted(s, c) {
      forall network | network in Networks(infos)
        ensures network in c.networkCounts.Keys
      {
        TallyNetworks(infos, c, network);
      }
    }
    if (forall a :: a in s.addrs ==> Known(s, a) && infos[s.addrs[a]].addr == a) && Networks(infos) <= c.networkCounts.Keys {
      assert Below(infos, idCount) == infos;
      MembersCount(infos, idCount);
      SoundIndex(s, idCount);
      SoundTally(s, c);
      forall id | id in infos
        ensures Fine(infos[id])
      {
        assert EntryOk(s, id);
      }
    }
  }

  /** The check passes although an address belongs to no entry. */
  lemma AddressMissed(h: Hashes, addr: Service)
    ensures var s := State(map[], map[addr := 0], [], map[], map[]);
            Sound(h, s, Counters(0, 0, map[])) && HandedOut(s.infos, 0) && !Index(s)
  {
    NoMembers();
    var s := State(map[], map[addr := 0], [], map[], map[]);
    assert addr in s.addrs && s.addrs[addr] !in s.infos;
    assert Networks(s.infos) == {};
  }

  /** The state with a single entry, which is in the tried table. */
  ghost function Single(h: Hashes, addr: Service): State {
    var info := AddrInfo(addr, {}, 0, 0, 0, 0, 1, 0, 0, true, 0);
    State(map[0 := info], map[addr := 0], [0], map[], map[h.TriedSlot(addr) := 0])
  }

  /** The check passes although the only network with an entry has no count, if another network has a zero count. */
  lemma CountMissed(h: Hashes, addr: Service)
    ensures var s, c := Single(h, addr), Counters(0, 1, map[addr.network + 1 := NewTriedCount(0, 0)]);
            Sound(h, s, c) && HandedOut(s.infos, 1) && Index(s) && !Counted(s, c)
  {
    hide Single, Index, Tables, EntryOk, HandedOut, NewMembers, TriedMembers, InNetwork, Networks, Fine;
    SingleSound(h, addr);
    SingleMembers(h, addr);
    SingleCounts(h, addr);
    var s, c := Single(h, addr), Counters(0, 1, map[addr.network + 1 := NewTriedCount(0, 0)]);
    assert |s.random| == 1 && |{(0, addr.network)}| == 1 && |{addr.network}| == 1;
    assert CountOf(c.networkCounts, addr.network) == NewTriedCount(0, 0) != NetworkCount(s.infos, addr.network);
  }

  lemma SingleSound(h: Hashes, addr: Service)
    ensures var s := Single(h, addr); Index(s) && Tables(h, s) && EntriesOk(s) && HandedOut(s.infos, 1) && s.random == [0]
  {
    hide Hashes.TriedSlot;
    var s := Single(h, addr);
    assert Occurrences(s.news, 0) == {};
  }

  lemma SingleMembers(h: Hashes, addr: Service)
    ensures var infos := Single(h, addr).infos;
            NewMembers(infos) == {} && TriedMembers(infos) == {(0, addr.network)} && Networks(infos) == {addr.network}
  {
    hide Hashes.TriedSlot, NewMembers, TriedMembers;
    var infos := Single(h, addr).infos;
    forall m: Member
      ensures m !in NewMembers(infos) && (m in TriedMembers(infos) <==> m == (0, addr.network))
    {
      IsMember(infos, m);
    }
    forall network
      ensures network in Networks(infos) <==> network in {addr.network}
    {
      if network == addr.network {
        HasNetwork(infos, 0);
      }
    }
    SameElements(Networks(infos), {addr.network});
  }

  lemma SingleCounts(h: Hashes, addr: Service)
    ensures var infos := Single(h, addr).infos;
            NetworkCount(infos, addr.network).nTried == 1 && NetworkCount(infos, addr.network + 1) == NewTriedCount(0, 0)
  {
    hide Single;
    SingleMembers(h, addr);
    var infos := Single(h, addr).infos;
    assert InNetwork(TriedMembers(infos), addr.network) == {(0, addr.network)};
    assert InNetwork(TriedMembers(infos), addr.network + 1) == {};
    assert InNetwork(NewMembers(infos), addr.network + 1) == {};
  }

  lemma SoundIndex(s: State, idCount: nat)
    requires EntriesOk(s) && HandedOut(s.infos, idCount) && |s.random| == |s.infos|
    requires forall a :: a in s.addrs ==> Known(s, a) && s.infos[s.addrs[a]].addr == a
    ensures Index(s)
  {
    forall id | id in s.infos
      ensures id >= 0 && s.infos[id].addr in s.addrs && s.addrs[s.infos[id].addr] == id
      ensures 0 <= s.infos[id].randomPos < |s.random| && s.random[s.infos[id].randomPos] == id
    {
      assert EntryOk(s, id);
    }
    ListFull(s);
  }

  lemma SoundTally(s: State, c: Counters)
    requires c.nNew == |NewMembers(s.infos)| && c.nTried == |TriedMembers(s.infos)| && CountsAgree(s.infos, c.networkCounts)
    requires Networks(s.infos) <= c.networkCounts.Keys
    ensures Tally(c, NewMembers(s.infos), TriedMembers(s.infos))
  {
    hide NewMembers, TriedMembers, InNetwork, Networks;
    forall network
      ensures CountOf(c.networkCounts, network) == NetworkCount(s.infos, network)
    {
      if network !in c.networkCounts {
        InNetworkIs(s.infos, network);
      }
    }
  }

  // ---------- the first pass ----------

  lemma AllCollected(infos: map<int, AddrInfo>, idCount: int, tried: set<nat>, news: map<nat, int>, counts: map<int, NewTriedCount>)
    requires Collected(infos, idCount, tried, news, counts) && HandedOut(infos, idCount)
    ensures |tried| == |TriedMembers(infos)| && |news| == |NewMembers(infos)| && counts.Keys == Networks(infos)
    ensures forall network :: CountOf(counts, network) == NetworkCount(infos, network)
    ensures CollectedIds(infos, idCount, tried, news)
  {
    hide NewMembers, TriedMembers, NetworkCount, Tally;
    assert Below(infos, idCount) == infos;
    var c := Counters(|news|, |tried|, counts);
    TallyTotals(c, NewMembers(infos), TriedMembers(infos));
    forall network
      ensures network in counts.Keys <==> network in Networks(infos)
      ensures CountOf(counts, network) == NetworkCount(infos, network)
    {
      TallyNetworks(infos, c, network);
    }
    SameElements(counts.Keys, Networks(infos));
  }

  lemma SameElements(a: set<int>, b: set<int>)
    requires forall x :: x in a <==> x in b
    ensures a == b
  {
    forall x | x in a
      ensures x in b
    {
    }
    forall x | x in b
      ensures x in a
    {
    }
    assert a <= b;
    assert b <= a;
  }

  /** The pass over the entries fails exactly if one of them is wrong. */
  method CheckEntries(a: AddrMan) returns (err: int, setTried: set<nat>, mapNew: map<nat, int>, localCounts: map<int, NewTriedCount>)
    requires HandedOut(a.mapInfo, a.nIdCount)
    ensures err == 0 <==> EntriesOk(a.S())
    ensures err == 0 ==> Collected(a.mapInfo, a.nIdCount, setTried, mapNew, localCounts)
  {
    hide *;
    a.StateParts();
    ghost var s := a.S();
    setTried, mapNew, localCounts := {}, map[], map[];
    HandedOutIs(a.mapInfo, a.nIdCount);
    CollectedNone(a.mapInfo);
    for id := 0 to a.nIdCount
      invariant Collected(a.mapInfo, id, setTried, mapNew, localCounts)
      invariant forall q :: q in s.infos && q < id ==> EntryOk(s, q)
    {
      if id in a.mapInfo {
        var info := a.mapInfo[id];
        EntryIs(s, id);
        if info.inTried {
          if info.lastSuccess == 0 {
            return -1, setTried, mapNew, localCounts;
          }
          if info.refCount != 0 {
            return -2, setTried, mapNew, localCounts;
          }
          CollectedTried(a.mapInfo, id, setTried, mapNew, localCounts);
          setTried := setTried + {id};
          localCounts := AddToTried(Counters(0, 0, localCounts), info.addr.network, 1).networkCounts;
        } else {
          if info.refCount < 0 || info.refCount > ADDRMAN_NEW_BUCKETS_PER_ADDRESS {
            return -3, setTried, mapNew, localCounts;
          }
          if info.refCount == 0 {
            return -4, setTried, mapNew, localCounts;
          }
          CollectedNew(a.mapInfo, id, setTried, mapNew, localCounts);
          mapNew := mapNew[id := info.refCount];
          localCounts := AddToNew(Counters(0, 0, localCounts), info.addr.network, 1).networkCounts;
        }
        if info.addr !in a.mapAddr || a.mapAddr[info.addr] != id {
          return -5, setTried, mapNew, localCounts;
        }
        if info.randomPos < 0 || info.randomPos >= |a.vRandom| || a.vRandom[info.randomPos] != id {
          return -14, setTried, mapNew, localCounts;
        }
        if info.lastTry < 0 {
          return -6, setTried, mapNew, localCounts;
        }
        if info.lastSuccess < 0 {
          return -8, setTried, mapNew, localCounts;
        }
      } else {
        CollectedSkip(a.mapInfo, id, setTried, mapNew, localCounts);
      }
    }
    EntriesAre(s);
    err := 0;
  }

  lemma HandedOutIs(infos: map<int, AddrInfo>, idCount: int)
    requires HandedOut(infos, idCount)
    ensures forall id :: id in infos ==> 0 <= id < idCount
  {
  }

  lemma EntryIs(s: State, id: int)
    requires id in s.infos
    ensures EntriesOk(s) ==> EntryOk(s, id)
    ensures var info := s.infos[id];
            EntryOk(s, id) <==>
              && (info.inTried ==> !(info.lastSuccess == 0) && !(info.refCount != 0))
              && (!info.inTried ==> !(info.refCount < 0 || info.refCount > ADDRMAN_NEW_BUCKETS_PER_ADDRESS) && !(info.refCount == 0))
              && !(info.addr !in s.addrs || s.addrs[info.addr] != id)
              && !(info.randomPos < 0 || info.randomPos >= |s.random| || s.random[info.randomPos] != id)
              && !(info.lastTry < 0) && !(info.lastSuccess < 0)
  {
  }

  lemma EntriesAre(s: State)
    requires forall id :: id in s.infos ==> EntryOk(s, id)
    ensures EntriesOk(s)
  {
  }

  // ---------- the passes over the tables ----------

  /** The slots before position i of bucket n, in the order of the passes. */
  ghost predicate Seen(slot: Slot, n: int, i: int) {
    slot.0 < n || (slot.0 == n && slot.1 < i)
  }

  lemma SeenSplit(n: int, i: int)
    ensures forall slot: Slot :: Seen(slot, n, i + 1) <==> Seen(slot, n, i) || slot == (n, i)
  {
  }

  ghost predicate InRows(t: Table, rows: int) {
    forall slot :: slot in t ==> 0 <= slot.0 < rows && 0 <= slot.1 < ADDRMAN_BUCKET_SIZE
  }

  lemma TableRows(a: array2<int>)
    requires a.Length1 == ADDRMAN_BUCKET_SIZE
    ensures InRows(TableOf(a), a.Length0)
  {
  }

  ghost predicate TriedHeld(h: Hashes, s: State, id: int)
    requires id in s.infos
  {
    h.TriedSlot(s.infos[id].addr) in s.tried && s.tried[h.TriedSlot(s.infos[id].addr)] == id
  }

  ghost predicate AllTriedOk(h: Hashes, s: State) {
    forall slot :: slot in s.tried ==> TriedOk(h, s, slot)
  }

  /** The occupants seen so far are where they belong, and rest holds the tried entries that were not among them. */
  ghost predicate TriedSoFar(h: Hashes, s: State, rest: set<nat>, n: int, i: int) {
    && (forall slot :: slot in s.tried && Seen(slot, n, i) ==> TriedOk(h, s, slot))
    && (forall id: nat :: id in rest <==> id in s.infos && s.infos[id].inTried && !(TriedHeld(h, s, id) && Seen(h.TriedSlot(s.infos[id].addr), n, i)))
  }

  lemma TriedStart(h: Hashes, s: State, idCount: int, tried: set<nat>, news: map<nat, int>)
    requires InRows(s.tried, ADDRMAN_TRIED_BUCKET_COUNT) && CollectedIds(s.infos, idCount, tried, news) && HandedOut(s.infos, idCount)
    ensures TriedSoFar(h, s, tried, 0, 0)
  {
    hide Hashes.TriedSlot;
  }

  /** An occupant is accepted exactly if it is where it belongs. */
  lemma TriedAt(h: Hashes, s: State, rest: set<nat>, n: int, i: int)
    requires TriedSoFar(h, s, rest, n, i) && (n, i) in s.tried && s.tried[(n, i)] >= 0
    ensures var id: nat := s.tried[(n, i)];
            TriedOk(h, s, (n, i)) <==> id in rest && id in s.infos && h.TriedBucket(s.infos[id].addr) == n && h.BucketPosition(s.infos[id].addr, false, n) == i
    ensures AllTriedOk(h, s) ==> TriedOk(h, s, (n, i))
  {
    var id: nat := s.tried[(n, i)];
    assert id in rest <==> id in s.infos && s.infos[id].inTried && !(TriedHeld(h, s, id) && Seen(h.TriedSlot(s.infos[id].addr), n, i));
  }

  lemma TriedNext(h: Hashes, s: State, rest: set<nat>, n: int, i: int)
    requires TriedSoFar(h, s, rest, n, i)
    ensures (n, i) !in s.tried ==> TriedSoFar(h, s, rest, n, i + 1)
    ensures (n, i) in s.tried && s.tried[(n, i)] >= 0 && TriedOk(h, s, (n, i)) ==> TriedSoFar(h, s, rest - {s.tried[(n, i)]}, n, i + 1)
  {
    hide Hashes.TriedSlot, TriedOk;
    var here: Slot := (n, i);
    SeenSplit(n, i);
    if here in s.tried && s.tried[here] >= 0 && TriedOk(h, s, here) {
      var x: nat := s.tried[here];
      TriedPlace(h, s, here);
      forall id: nat
        ensures id in rest - {x} <==> id in s.infos && s.infos[id].inTried && !(TriedHeld(h, s, id) && Seen(h.TriedSlot(s.infos[id].addr), n, i + 1))
      {
        assert id in rest <==> id in s.infos && s.infos[id].inTried && !(TriedHeld(h, s, id) && Seen(h.TriedSlot(s.infos[id].addr), n, i));
      }
    }
  }

  lemma TriedPlace(h: Hashes, s: State, slot: Slot)
    requires slot in s.tried && TriedOk(h, s, slot)
    ensures s.tried[slot] in s.infos && h.TriedSlot(s.infos[s.tried[slot]].addr) == slot && TriedHeld(h, s, s.tried[slot])
  {
  }

  lemma TriedRow(h: Hashes, s: State, rest: set<nat>, n: int)
    requires TriedSoFar(h, s, rest, n, ADDRMAN_BUCKET_SIZE) && InRows(s.tried, ADDRMAN_TRIED_BUCKET_COUNT)
    ensures TriedSoFar(h, s, rest, n + 1, 0)
  {
    hide Hashes.TriedSlot, TriedOk;
    assert forall slot :: slot in s.tried ==> (Seen(slot, n + 1, 0) <==> Seen(slot, n, ADDRMAN_BUCKET_SIZE));
    forall id: nat
      ensures id in rest <==> id in s.infos && s.infos[id].inTried && !(TriedHeld(h, s, id) && Seen(h.TriedSlot(s.infos[id].addr), n + 1, 0))
    {
      assert id in rest <==> id in s.infos && s.infos[id].inTried && !(TriedHeld(h, s, id) && Seen(h.TriedSlot(s.infos[id].addr), n, ADDRMAN_BUCKET_SIZE));
    }
  }

  lemma TriedEnd(h: Hashes, s: State, rest: set<nat>, idCount: int)
    requires TriedSoFar(h, s, rest, ADDRMAN_TRIED_BUCKET_COUNT, 0) && InRows(s.tried, ADDRMAN_TRIED_BUCKET_COUNT) && HandedOut(s.infos, idCount)
    ensures AllTriedOk(h, s)
    ensures rest == {} <==> forall id :: id in s.infos && s.infos[id].inTried ==> TriedHeld(h, s, id)
  {
    hide Hashes.TriedSlot, TriedOk;
    assert forall slot :: slot in s.tried ==> Seen(slot, ADDRMAN_TRIED_BUCKET_COUNT, 0);
    forall id: nat
      ensures id in rest <==> id in s.infos && s.infos[id].inTried && !TriedHeld(h, s, id)
    {
    }
    if rest == {} {
      forall id | id in s.infos && s.infos[id].inTried
        ensures TriedHeld(h, s, id)
      {
        var k: nat := id;
        assert k !in rest;
      }
    }
  }

  /** The pass over the tried table fails exactly if an occupant is not where it belongs, and finds those not in the table. */
  method CheckTried(a: AddrMan, setTried: set<nat>, ghost mapNew: map<nat, int>) returns (err: int, rest: set<nat>)
    requires a.Shape() && HandedOut(a.mapInfo, a.nIdCount) && CollectedIds(a.mapInfo, a.nIdCount, setTried, mapNew)
    ensures err == 0 <==> AllTriedOk(a.h, a.S())
    ensures err == 0 ==> (rest == {} <==> forall id :: id in a.mapInfo && a.mapInfo[id].inTried ==> TriedHeld(a.h, a.S(), id))
  {
    hide *;
    a.StateParts();
    a.ShapeParts();
    ghost var s := a.S();
    TableRows(a.vvTried);
    rest := setTried;
    TriedStart(a.h, s, a.nIdCount, rest, mapNew);
    for n := 0 to ADDRMAN_TRIED_BUCKET_COUNT
      invariant TriedSoFar(a.h, s, rest, n, 0)
    {
      for i := 0 to ADDRMAN_BUCKET_SIZE
        invariant TriedSoFar(a.h, s, rest, n, i)
      {
        CellIs(a.vvTried, (n, i));
        CellsIs(a.vvTried, n, i);
        TriedNext(a.h, s, rest, n, i);
        if a.vvTried[n, i] != -1 {
          TriedAt(a.h, s, rest, n, i);
          var id := a.vvTried[n, i];
          if id !in rest {
            return -11, rest;
          }
          if id !in a.mapInfo || a.h.TriedBucket(a.mapInfo[id].addr) != n {
            return -17, rest;
          }
          if a.h.BucketPosition(a.mapInfo[id].addr, false, n) != i {
            return -18, rest;
          }
          rest := rest - {id};
        }
      }
      TriedRow(a.h, s, rest, n);
    }
    TriedEnd(a.h, s, rest, a.nIdCount);
    err := 0;
  }

  lemma CellsIs(a: array2<int>, b: int, p: int)
    requires Cells(a) && 0 <= b < a.Length0 && 0 <= p < a.Length1
    ensures a[b, p] >= -1
  {
  }

  /** The slots of the new table that hold id and have been seen. */
  ghost function SeenOf(news: Table, id: int, n: int, i: int): set<Slot> {
    set slot | slot in Occurrences(news, id) && Seen(slot, n, i)
  }

  lemma SeenNext(news: Table, id: int, n: int, i: int)
    ensures (n, i) in news && news[(n, i)] == id ==>
              SeenOf(news, id, n, i + 1) == SeenOf(news, id, n, i) + {(n, i)} && |SeenOf(news, id, n, i + 1)| == |SeenOf(news, id, n, i)| + 1
    ensures !((n, i) in news && news[(n, i)] == id) ==> SeenOf(news, id, n, i + 1) == SeenOf(news, id, n, i)
  {
    var here: Slot := (n, i);
    SeenSplit(n, i);
    if here in news && news[here] == id {
      assert here in Occurrences(news, id) && here !in SeenOf(news, id, n, i);
      assert SeenOf(news, id, n, i + 1) == SeenOf(news, id, n, i) + {here};
    } else {
      assert here !in Occurrences(news, id);
      assert SeenOf(news, id, n, i + 1) == SeenOf(news, id, n, i);
    }
  }

  ghost predicate IsNew(s: State, id: int) {
    id in s.infos && !s.infos[id].inTried
  }

  /** What is left of the reference count of an entry. */
  ghost predicate LeftOf(s: State, rest: map<nat, int>, id: nat, n: int, i: int) {
    && (id in rest <==> IsNew(s, id) && |SeenOf(s.news, id, n, i)| < s.infos[id].refCount)
    && (id in rest ==> rest[id] == s.infos[id].refCount - |SeenOf(s.news, id, n, i)|)
    && (IsNew(s, id) ==> |SeenOf(s.news, id, n, i)| <= s.infos[id].refCount)
  }

  /** The occupants seen so far are where they belong, and rest counts the references that were not among them. */
  ghost predicate NewSoFar(h: Hashes, s: State, rest: map<nat, int>, n: int, i: int) {
    && (forall slot :: slot in s.news && Seen(slot, n, i) ==> NewOk(h, s, slot))
    && (forall id: nat :: LeftOf(s, rest, id, n, i))
  }

  lemma NewStart(h: Hashes, s: State, idCount: int, tried: set<nat>, news: map<nat, int>)
    requires InRows(s.news, ADDRMAN_NEW_BUCKET_COUNT) && CollectedIds(s.infos, idCount, tried, news) && HandedOut(s.infos, idCount) && EntriesOk(s)
    ensures NewSoFar(h, s, news, 0, 0)
  {
    forall id: nat
      ensures LeftOf(s, news, id, 0, 0)
    {
      assert SeenOf(s.news, id, 0, 0) == {};
      assert id in s.infos ==> EntryOk(s, id);
    }
  }

  /** An occupant is accepted exactly if it is where it belongs and has not been seen too often. */
  lemma NewAt(h: Hashes, s: State, rest: map<nat, int>, n: int, i: int)
    requires NewSoFar(h, s, rest, n, i) && (n, i) in s.news && s.news[(n, i)] >= 0 && 0 <= n < ADDRMAN_NEW_BUCKET_COUNT
    ensures var id: nat := s.news[(n, i)];
            id in rest && id in s.infos && h.BucketPosition(s.infos[id].addr, true, n) == i <==>
              NewOk(h, s, (n, i)) && |SeenOf(s.news, id, n, i)| < s.infos[id].refCount
  {
    hide SeenOf;
    var id: nat := s.news[(n, i)];
    assert LeftOf(s, rest, id, n, i);
  }

  /** One occurrence of id less. */
  function Less(rest: map<nat, int>, id: nat): map<nat, int>
    requires id in rest
  {
    if rest[id] - 1 == 0 then rest - {id} else rest[id := rest[id] - 1]
  }

  lemma NewNext(h: Hashes, s: State, rest: map<nat, int>, n: int, i: int)
    requires NewSoFar(h, s, rest, n, i)
    ensures (n, i) !in s.news ==> NewSoFar(h, s, rest, n, i + 1)
    ensures (n, i) in s.news && s.news[(n, i)] >= 0 && s.news[(n, i)] in rest && NewOk(h, s, (n, i)) ==>
              NewSoFar(h, s, Less(rest, s.news[(n, i)]), n, i + 1)
  {
    hide NewOk, SeenOf;
    var here: Slot, next := (n, i), i + 1;
    SeenSplit(n, i);
    if here !in s.news {
      forall id: nat
        ensures LeftOf(s, rest, id, n, next)
      {
        assert LeftOf(s, rest, id, n, i);
        SeenNext(s.news, id, n, i);
      }
    } else if s.news[here] >= 0 && s.news[here] in rest {
      var x: nat := s.news[here];
      var less := Less(rest, x);
      forall id: nat
        ensures LeftOf(s, less, id, n, next)
      {
        assert LeftOf(s, rest, id, n, i);
        SeenNext(s.news, id, n, i);
      }
    }
  }

  lemma SeenRow(news: Table, id: int, n: int)
    requires InRows(news, ADDRMAN_NEW_BUCKET_COUNT)
    ensures SeenOf(news, id, n + 1, 0) == SeenOf(news, id, n, ADDRMAN_BUCKET_SIZE)
    ensures SeenOf(news, id, ADDRMAN_NEW_BUCKET_COUNT, 0) == Occurrences(news, id)
  {
  }

  lemma NewRow(h: Hashes, s: State, rest: map<nat, int>, n: int)
    requires NewSoFar(h, s, rest, n, ADDRMAN_BUCKET_SIZE) && InRows(s.news, ADDRMAN_NEW_BUCKET_COUNT)
    ensures NewSoFar(h, s, rest, n + 1, 0)
  {
    hide NewOk, SeenOf;
    assert forall slot :: slot in s.news ==> (Seen(slot, n + 1, 0) <==> Seen(slot, n, ADDRMAN_BUCKET_SIZE));
    var row := n + 1;
    forall id: nat
      ensures LeftOf(s, rest, id, row, 0)
    {
      assert LeftOf(s, rest, id, n, ADDRMAN_BUCKET_SIZE);
      SeenRow(s.news, id, n);
    }
  }

  ghost predicate Complete(s: State, id: int)
    requires id in s.infos
  {
    |Occurrences(s.news, id)| == s.infos[id].refCount
  }

  lemma NewEnd(h: Hashes, s: State, rest: map<nat, int>, idCount: int)
    requires NewSoFar(h, s, rest, ADDRMAN_NEW_BUCKET_COUNT, 0) && InRows(s.news, ADDRMAN_NEW_BUCKET_COUNT) && HandedOut(s.infos, idCount)
    ensures forall slot :: slot in s.news ==> NewOk(h, s, slot)
    ensures NewFits(h, s)
    ensures rest == map[] <==> forall id :: IsNew(s, id) ==> Complete(s, id)
  {
    hide NewOk, SeenOf, Occurrences;
    forall id | IsNew(s, id)
      ensures |Occurrences(s.news, id)| <= s.infos[id].refCount
    {
      var k: nat := id;
      assert LeftOf(s, rest, k, ADDRMAN_NEW_BUCKET_COUNT, 0);
      SeenRow(s.news, k, 0);
    }
    assert forall slot :: slot in s.news ==> Seen(slot, ADDRMAN_NEW_BUCKET_COUNT, 0);
    forall id: nat
      ensures id in rest <==> IsNew(s, id) && !Complete(s, id)
    {
      assert LeftOf(s, rest, id, ADDRMAN_NEW_BUCKET_COUNT, 0);
      SeenRow(s.news, id, 0);
    }
    if rest == map[] {
      forall id | IsNew(s, id)
        ensures Complete(s, id)
      {
        var k: nat := id;
        assert k !in rest;
      }
    }
  }

  /** Every occupant of the new table is where it belongs, and none has more slots than references. */
  ghost predicate NewFits(h: Hashes, s: State) {
    && (forall slot :: slot in s.news ==> NewOk(h, s, slot))
    && (forall id :: IsNew(s, id) ==> |Occurrences(s.news, id)| <= s.infos[id].refCount)
  }

  lemma NewFitsIs(h: Hashes, s: State)
    ensures NewFits(h, s) <==>
      && (forall slot :: slot in s.news ==> NewOk(h, s, slot))
      && (forall id :: IsNew(s, id) ==> |Occurrences(s.news, id)| <= s.infos[id].refCount)
    ensures NewFits(h, s) <== (forall slot :: slot in s.news ==> NewOk(h, s, slot)) && (forall id :: IsNew(s, id) ==> Complete(s, id))
  {
    hide NewOk, Occurrences;
    if forall id :: IsNew(s, id) ==> Complete(s, id) {
      forall id | IsNew(s, id)
        ensures |Occurrences(s.news, id)| <= s.infos[id].refCount
      {
        assert Complete(s, id);
      }
    }
  }

  /** An occupant that is not accepted does not fit. */
  lemma NewFails(h: Hashes, s: State, n: int, i: int)
    requires (n, i) in s.news && NewFits(h, s)
    ensures s.news[(n, i)] in s.infos && NewOk(h, s, (n, i))
    ensures |SeenOf(s.news, s.news[(n, i)], n, i)| < s.infos[s.news[(n, i)]].refCount
  {
    hide SeenOf, Occurrences, Hashes.TriedSlot, Hashes.NewSlot;
    var id := s.news[(n, i)];
    assert NewOk(h, s, (n, i));
    assert IsNew(s, id);
    SeenNext(s.news, id, n, i);
    SeenAtMost(s.news, id, n, i + 1);
  }

  lemma SeenAtMost(news: Table, id: int, n: int, i: int)
    ensures |SeenOf(news, id, n, i)| <= |Occurrences(news, id)|
  {
    var a, b := SeenOf(news, id, n, i), Occurrences(news, id);
    assert b == a + (b - a);
  }

  /** The pass over the new table succeeds exactly if its occupants fit, and then finds the missing references. */
  method CheckNew(a: AddrMan, ghost setTried: set<nat>, mapNew: map<nat, int>) returns (err: int, rest: map<nat, int>)
    requires a.Shape() && HandedOut(a.mapInfo, a.nIdCount) && CollectedIds(a.mapInfo, a.nIdCount, setTried, mapNew) && EntriesOk(a.S())
    ensures err == 0 <==> NewFits(a.h, a.S())
    ensures err == 0 ==> (rest == map[] <==> forall id :: IsNew(a.S(), id) ==> Complete(a.S(), id))
  {
    hide *;
    a.StateParts();
    a.ShapeParts();
    ghost var s := a.S();
    TableRows(a.vvNew);
    rest := mapNew;
    NewStart(a.h, s, a.nIdCount, setTried, rest);
    for n := 0 to ADDRMAN_NEW_BUCKET_COUNT
      invariant NewSoFar(a.h, s, rest, n, 0)
    {
      for i := 0 to ADDRMAN_BUCKET_SIZE
        invariant NewSoFar(a.h, s, rest, n, i)
      {
        CellIs(a.vvNew, (n, i));
        CellsIs(a.vvNew, n, i);
        NewNext(a.h, s, rest, n, i);
        if a.vvNew[n, i] != -1 {
          NewAt(a.h, s, rest, n, i);
          var id := a.vvNew[n, i];
          if NewFits(a.h, s) {
            NewFails(a.h, s, n, i);
          }
          if id !in rest {
            return -12, rest;
          }
          if id !in a.mapInfo || a.h.BucketPosition(a.mapInfo[id].addr, true, n) != i {
            return -19, rest;
          }
          LessIs(rest, id);
          rest := if rest[id] - 1 == 0 then rest - {id} else rest[id := rest[id] - 1];
        }
      }
      NewRow(a.h, s, rest, n);
    }
    NewEnd(a.h, s, rest, a.nIdCount);
    err := 0;
  }

  lemma LessIs(rest: map<nat, int>, id: nat)
    requires id in rest
    ensures Less(rest, id) == if rest[id] - 1 == 0 then rest - {id} else rest[id := rest[id] - 1]
  {
  }

  /** The tables are right exactly if every occupant is where it belongs and every entry has all its references. */
  lemma TablesIs(h: Hashes, s: State)
    requires EntriesOk(s)
    ensures Tables(h, s) <==>
      && AllTriedOk(h, s)
      && (forall slot :: slot in s.news ==> NewOk(h, s, slot))
      && (forall id :: id in s.infos && s.infos[id].inTried ==> TriedHeld(h, s, id))
      && (forall id :: IsNew(s, id) ==> Complete(s, id))
  {
    hide Hashes.TriedSlot, Hashes.NewSlot, TriedOk, Occurrences;
    if Tables(h, s) {
      forall id | id in s.infos
        ensures CountOk(h, s, id)
      {
      }
    }
    if (forall slot :: slot in s.news ==> NewOk(h, s, slot))
       && (forall id :: id in s.infos && s.infos[id].inTried ==> TriedHeld(h, s, id))
       && (forall id :: IsNew(s, id) ==> Complete(s, id))
    {
      forall id | id in s.infos
        ensures CountOk(h, s, id)
      {
        assert EntryOk(s, id);
        if s.infos[id].inTried {
          NoneOf(h, s, id);
          assert TriedHeld(h, s, id);
        } else {
          assert IsNew(s, id) && Complete(s, id);
        }
      }
    }
  }

  lemma NoneOf(h: Hashes, s: State, id: int)
    requires (forall slot :: slot in s.news ==> NewOk(h, s, slot)) && id in s.infos && s.infos[id].inTried
    ensures |Occurrences(s.news, id)| == 0
  {
    hide Hashes.NewSlot;
    forall slot | slot in s.news
      ensures s.news[slot] != id
    {
      assert NewOk(h, s, slot);
    }
    assert Occurrences(s.news, id) == {};
  }

  // ---------- the check ----------

  /** The consistency check finds nothing wrong exactly if the state is sound and the key is not null. */
  method CheckAddrman(a: AddrMan) returns (err: int)
    requires a.Shape() && HandedOut(a.mapInfo, a.nIdCount)
    ensures err == 0 <==> Sound(a.h, a.S(), a.C()) && !a.nullKey
  {
    hide *;
    a.StateParts();
    ghost var s, c := a.S(), a.C();
    SoundIs(a.h, s, c);
    if |a.vRandom| != a.nTried + a.nNew {
      return -7;
    }
    var e1, setTried, mapNew, localCounts := CheckEntries(a);
    if e1 != 0 {
      return e1;
    }
    AllCollected(s.infos, a.nIdCount, setTried, mapNew, localCounts);
    if |setTried| != a.nTried {
      return -9;
    }
    if |mapNew| != a.nNew {
      return -10;
    }
    TablesIs(a.h, s);
    NewFitsIs(a.h, s);
    var e2, restTried := CheckTried(a, setTried, mapNew);
    if e2 != 0 {
      return e2;
    }
    var e3, restNew := CheckNew(a, setTried, mapNew);
    if e3 != 0 {
      return e3;
    }
    if |restTried| != 0 {
      return -13;
    }
    if |restNew| != 0 {
      return -15;
    }
    if a.nullKey {
      return -16;
    }
    CountsAgreeIs(s.infos, localCounts, a.networkCounts);
    if |a.networkCounts| < |localCounts| {
      return -20;
    }
    if exists network :: network in a.networkCounts && CountOf(localCounts, network) != a.networkCounts[network] {
      return -21;
    }
    return 0;
  }

  lemma SoundIs(h: Hashes, s: State, c: Counters)
    ensures Sound(h, s, c) <==>
      && |s.random| == c.nTried + c.nNew && EntriesOk(s)
      && c.nNew == |NewMembers(s.infos)| && c.nTried == |TriedMembers(s.infos)| && CountsAgree(s.infos, c.networkCounts)
      && Tables(h, s)
  {
  }

  lemma CountsAgreeIs(infos: map<int, AddrInfo>, local: map<int, NewTriedCount>, counts: map<int, NewTriedCount>)
    requires local.Keys == Networks(infos) && forall network :: CountOf(local, network) == NetworkCount(infos, network)
    ensures CountsAgree(infos, counts) <==> |local| <= |counts| && !exists network :: network in counts && CountOf(local, network) != counts[network]
  {
    hide NetworkCount, Networks;
    assert |local| == |local.Keys|;
  }

  /** Between calls the check finds nothing wrong. */
  lemma ValidPasses(a: AddrMan)
    requires a.Valid()
    ensures a.Shape() && HandedOut(a.mapInfo, a.nIdCount) && Sound(a.h, a.S(), a.C())
  {
    hide *;
    a.ValidParts();
    a.StateParts();
    IdsBelow(a.h, a.S(), a.triedCollisions, a.nIdCount);
    ValidSound(a.h, a.S(), a.C(), a.nIdCount);
  }

  lemma IdsBelow(h: Hashes, s: State, collisions: set<int>, idCount: int)
    requires Recorded(h, s, collisions, idCount) && Index(s)
    ensures HandedOut(s.infos, idCount)
  {
  }
}
