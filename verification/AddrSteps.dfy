/** Counters of the address manager, and its composite changes as values (src/addrman.cpp:432-489). */
module AddrSteps {
  import opened AddrTables

  // ---------- counters ----------

  datatype NewTriedCount = NewTriedCount(nNew: int, nTried: int)

  datatype Counters = Counters(nNew: int, nTried: int, networkCounts: map<int, NewTriedCount>)

  /** The count of a network; looking up a missing network yields zeros. */
  function CountOf(counts: map<int, NewTriedCount>, network: int): NewTriedCount {
    if network in counts then counts[network] else NewTriedCount(0, 0)
  }

  function AddToNew(c: Counters, network: int, d: int): Counters {
    var n := CountOf(c.networkCounts, network);
    Counters(c.nNew + d, c.nTried, c.networkCounts[network := n.(nNew := n.nNew + d)])
  }

  function AddToTried(c: Counters, network: int, d: int): Counters {
    var n := CountOf(c.networkCounts, network);
    Counters(c.nNew, c.nTried + d, c.networkCounts[network := n.(nTried := n.nTried + d)])
  }

  /** An id together with the network of its address. */
  type Member = (int, int)

  ghost function InNetwork(members: set<Member>, network: int): set<Member> {
    set m | m in members && m.1 == network
  }

  /** The counters count these members, in total and per network. */
  ghost predicate Tally(c: Counters, news: set<Member>, tried: set<Member>) {
    && c.nNew == |news| && c.nTried == |tried|
    && (forall network :: CountOf(c.networkCounts, network) == NewTriedCount(|InNetwork(news, network)|, |InNetwork(tried, network)|))
  }

  lemma InNetworkAdd(members: set<Member>, m: Member, network: int)
    requires m !in members
    ensures |InNetwork(members + {m}, network)| == |InNetwork(members, network)| + if m.1 == network then 1 else 0
  {
    var a, b := InNetwork(members, network), InNetwork(members + {m}, network);
    assert b == if m.1 == network then a + {m} else a;
  }

  lemma TallyNew(c: Counters, news: set<Member>, tried: set<Member>, m: Member)
    requires m !in news
    ensures Tally(c, news, tried) ==> Tally(AddToNew(c, m.1, 1), news + {m}, tried)
    ensures Tally(c, news + {m}, tried) ==> Tally(AddToNew(c, m.1, -1), news, tried)
  {
    hide InNetwork;
    forall network
      ensures |InNetwork(news + {m}, network)| == |InNetwork(news, network)| + if m.1 == network then 1 else 0
    {
      InNetworkAdd(news, m, network);
    }
  }

  lemma TallyTried(c: Counters, news: set<Member>, tried: set<Member>, m: Member)
    requires m !in tried
    ensures Tally(c, news, tried) ==> Tally(AddToTried(c, m.1, 1), news, tried + {m})
    ensures Tally(c, news, tried + {m}) ==> Tally(AddToTried(c, m.1, -1), news, tried)
  {
    hide InNetwork;
    forall network
      ensures |InNetwork(tried + {m}, network)| == |InNetwork(tried, network)| + if m.1 == network then 1 else 0
    {
      InNetworkAdd(tried, m, network);
    }
  }

  ghost function NewMembers(infos: map<int, AddrInfo>): set<Member> {
    set id | id in infos && !infos[id].inTried :: (id, infos[id].addr.network)
  }

  ghost function TriedMembers(infos: map<int, AddrInfo>): set<Member> {
    set id | id in infos && infos[id].inTried :: (id, infos[id].addr.network)
  }

  /** Entries that differ at most in fields other than the address and the table. */
  ghost predicate SameSites(a: map<int, AddrInfo>, b: map<int, AddrInfo>) {
    a.Keys == b.Keys && forall id :: id in a ==> SameSite(a[id], b[id])
  }

  lemma IsMember(infos: map<int, AddrInfo>, m: Member)
    ensures m in NewMembers(infos) <==> m.0 in infos && !infos[m.0].inTried && infos[m.0].addr.network == m.1
    ensures m in TriedMembers(infos) <==> m.0 in infos && infos[m.0].inTried && infos[m.0].addr.network == m.1
  {
    var (id, network) := m;
    if id in infos && infos[id].addr.network == network {
      if infos[id].inTried {
        assert (id, infos[id].addr.network) in TriedMembers(infos);
      } else {
        assert (id, infos[id].addr.network) in NewMembers(infos);
      }
    }
  }

  lemma SameMembers(a: map<int, AddrInfo>, b: map<int, AddrInfo>)
    requires SameSites(a, b)
    ensures NewMembers(a) == NewMembers(b) && TriedMembers(a) == TriedMembers(b)
  {
    hide NewMembers, TriedMembers;
    forall m: Member
      ensures (m in NewMembers(a) <==> m in NewMembers(b)) && (m in TriedMembers(a) <==> m in TriedMembers(b))
    {
      IsMember(a, m);
      IsMember(b, m);
      var (id, network) := m;
      assert id in a.Keys <==> id in b.Keys;
      assert id in a ==> SameSite(a[id], b[id]);
    }
  }

  /** Adding or removing an entry that is not tried. */
  lemma MembersWith(infos: map<int, AddrInfo>, id: int, info: AddrInfo)
    requires id !in infos && !info.inTried
    ensures NewMembers(infos[id := info]) == NewMembers(infos) + {(id, info.addr.network)} && (id, info.addr.network) !in NewMembers(infos)
    ensures TriedMembers(infos[id := info]) == TriedMembers(infos)
  {
    hide NewMembers, TriedMembers;
    var b := infos[id := info];
    forall m
      ensures m in NewMembers(b) <==> m in NewMembers(infos) || m == (id, info.addr.network)
      ensures m in TriedMembers(b) <==> m in TriedMembers(infos)
      ensures m == (id, info.addr.network) ==> m !in NewMembers(infos)
    {
      IsMember(infos, m);
      IsMember(b, m);
    }
  }

  /** Moving an entry between the tables. */
  lemma MembersMoved(infos: map<int, AddrInfo>, id: int, info: AddrInfo)
    requires id in infos && infos[id].addr == info.addr && infos[id].inTried != info.inTried
    ensures var m := (id, info.addr.network);
            && m in (if info.inTried then NewMembers(infos) else TriedMembers(infos))
            && m !in (if info.inTried then TriedMembers(infos) else NewMembers(infos))
            && NewMembers(infos[id := info]) == (if info.inTried then NewMembers(infos) - {m} else NewMembers(infos) + {m})
            && TriedMembers(infos[id := info]) == (if info.inTried then TriedMembers(infos) + {m} else TriedMembers(infos) - {m})
  {
    hide NewMembers, TriedMembers;
    var b, x := infos[id := info], (id, info.addr.network);
    IsMember(infos, x);
    forall m
      ensures m in NewMembers(b) <==> if m == x then !info.inTried else m in NewMembers(infos)
      ensures m in TriedMembers(b) <==> if m == x then info.inTried else m in TriedMembers(infos)
    {
      IsMember(infos, m);
      IsMember(b, m);
    }
  }

  // ---------- deleting an entry ----------

  function Deleted(s: State, id: int): State
    requires Index(s) && id in s.infos
  {
    SwapIndex(s, s.infos[id].randomPos, |s.random| - 1);
    LastAfterSwap(s, id);
    DropLast(Swap(s, s.infos[id].randomPos, |s.random| - 1))
  }

  lemma LastAfterSwap(s: State, id: int)
    requires Index(s) && id in s.infos
    ensures 0 <= s.infos[id].randomPos < |s.random| && s.random[s.infos[id].randomPos] in s.infos && s.random[|s.random| - 1] in s.infos
    ensures var t := Swap(s, s.infos[id].randomPos, |s.random| - 1);
            |t.random| == |s.random| && t.random[|t.random| - 1] == id && id in t.infos
  {
    hide Swap, Repositioned;
    var i := s.infos[id].randomPos;
    SwapIndex(s, i, |s.random| - 1);
    var t := Swap(s, i, |s.random| - 1);
    assert t.random[|t.random| - 1] in t.infos;
  }

  lemma DeletedKeeps(h: Hashes, s: State, id: int)
    requires Index(s) && Tables(h, s) && id in s.infos && s.infos[id].refCount == 0 && !s.infos[id].inTried
    ensures Index(Deleted(s, id)) && Tables(h, Deleted(s, id))
    ensures Deleted(s, id).news == s.news && Deleted(s, id).tried == s.tried
    ensures Repositioned(s.infos - {id}, Deleted(s, id).infos)
  {
    hide Index, Tables, Swap, Hashes.TriedSlot;
    LastAfterSwap(s, id);
    var i, n := s.infos[id].randomPos, |s.random| - 1;
    SwapKeeps(h, s, i, n);
    SwapTables(s, i, n);
    var t := Swap(s, i, n);
    DropLastKeeps(h, t);
  }

  // ---------- clearing a slot of the new table ----------

  /** The state after emptying a slot of the new table: an entry left without occurrences is deleted. */
  function Cleared(h: Hashes, s: State, slot: Slot): State
    requires Index(s) && Tables(h, s)
  {
    if slot !in s.news then s else
      UnplaceKeeps(h, s, slot);
      var id := s.news[slot];
      var u := Unplace(s, slot);
      if u.infos[id].refCount == 0 then Deleted(u, id) else u
  }

  /** Whether emptying the slot deletes an entry. */
  predicate ClearDeletes(s: State, slot: Slot) {
    slot in s.news && s.news[slot] in s.infos && s.infos[s.news[slot]].refCount == 1
  }

  ghost predicate ClearedFrom(s: State, t: State, slot: Slot) {
    && t.tried == s.tried && t.news == s.news - {slot}
    && t.infos.Keys == (if ClearDeletes(s, slot) then s.infos.Keys - {s.news[slot]} else s.infos.Keys)
    && forall q :: q in t.infos ==> q in s.infos && t.infos[q] == s.infos[q].(randomPos := t.infos[q].randomPos, refCount := t.infos[q].refCount)
                                    && t.infos[q].refCount == s.infos[q].refCount - if slot in s.news && s.news[slot] == q then 1 else 0
  }

  lemma ClearedKeeps(h: Hashes, s: State, slot: Slot)
    requires Index(s) && Tables(h, s)
    ensures Index(Cleared(h, s, slot)) && Tables(h, Cleared(h, s, slot)) && ClearedFrom(s, Cleared(h, s, slot), slot)
  {
    hide Index, Tables, ClearedFrom, Deleted;
    if slot in s.news {
      UnplaceKeeps(h, s, slot);
      NewFacts(h, s, slot);
      var id := s.news[slot];
      var u := Unplace(s, slot);
      if u.infos[id].refCount == 0 {
        ClearedDeleted(h, s, slot);
      } else {
        ClearedOnly(h, s, slot);
      }
    } else {
      ClearedNot(s, slot);
    }
  }

  lemma ClearedNot(s: State, slot: Slot)
    requires slot !in s.news
    ensures ClearedFrom(s, s, slot)
  {
    assert s.news - {slot} == s.news;
  }

  lemma ClearedOnly(h: Hashes, s: State, slot: Slot)
    requires Index(s) && Tables(h, s) && slot in s.news && s.news[slot] in s.infos && s.infos[s.news[slot]].refCount != 1
    ensures ClearedFrom(s, Unplace(s, slot), slot)
  {
    hide Index, Tables;
  }

  lemma ClearedDeleted(h: Hashes, s: State, slot: Slot)
    requires Index(s) && Tables(h, s) && slot in s.news && s.news[slot] in s.infos && s.infos[s.news[slot]].refCount == 1
    ensures var u := Unplace(s, slot);
            Index(u) && Index(Deleted(u, s.news[slot])) && Tables(h, Deleted(u, s.news[slot])) && ClearedFrom(s, Deleted(u, s.news[slot]), slot)
  {
    hide Index, Tables, Deleted, Hashes.TriedSlot;
    NewFacts(h, s, slot);
    UnplaceKeeps(h, s, slot);
    var u, id := Unplace(s, slot), s.news[slot];
    DeletedKeeps(h, u, id);
    var t := Deleted(u, id);
    forall q | q in t.infos
      ensures q in s.infos && t.infos[q] == s.infos[q].(randomPos := t.infos[q].randomPos, refCount := t.infos[q].refCount)
      ensures q != id && t.infos[q].refCount == s.infos[q].refCount
    {
      assert q in u.infos - {id} && t.infos[q] == u.infos[q].(randomPos := t.infos[q].randomPos);
    }
  }

  // ---------- what holds between calls ----------

  /** An entry is in exactly one table, at most eight times in the new one; its times make sense. */
  ghost predicate Fine(info: AddrInfo) {
    && (if info.inTried then info.lastSuccess > 0 else 0 < info.refCount <= ADDRMAN_NEW_BUCKETS_PER_ADDRESS)
    && info.lastTry >= 0 && info.lastSuccess >= 0
  }

  ghost predicate AllFine(infos: map<int, AddrInfo>) {
    forall id :: id in infos ==> Fine(infos[id])
  }

  /** Tried entries have no occurrences in the new table. */
  lemma TriedUncounted(h: Hashes, s: State, id: int)
    requires Tables(h, s) && id in s.infos && s.infos[id].inTried
    ensures s.infos[id].refCount == 0
  {
    hide Hashes.TriedSlot, Hashes.NewSlot, TriedOk, NewOk, CountOk;
    CountFacts(h, s, id);
    assert Occurrences(s.news, id) == {} by {
      if slot :| slot in Occurrences(s.news, id) {
        NewFacts(h, s, slot);
      }
    }
  }

  ghost function MemberOf(infos: map<int, AddrInfo>, id: int): Member
    requires id in infos
  {
    (id, infos[id].addr.network)
  }

  /** Records are the same apart from their place in the indexes. */
  ghost predicate Kept(a: map<int, AddrInfo>, b: map<int, AddrInfo>) {
    forall id :: id in b ==> id in a && SameRecord(a[id], b[id])
  }

  ghost predicate SameRecord(a: AddrInfo, b: AddrInfo) {
    b == a.(refCount := b.refCount, randomPos := b.randomPos, inTried := b.inTried)
  }

  lemma KeptTransitive(a: map<int, AddrInfo>, b: map<int, AddrInfo>, c: map<int, AddrInfo>)
    requires Kept(a, b) && Kept(b, c)
    ensures Kept(a, c)
  {
    forall id | id in c
      ensures id in a && SameRecord(a[id], c[id])
    {
      assert SameRecord(b[id], c[id]);
    }
  }

  lemma ClearedKept(s: State, t: State, slot: Slot)
    requires ClearedFrom(s, t, slot)
    ensures Kept(s.infos, t.infos)
  {
  }

  /** The effect of emptying a slot on the members. */
  lemma ClearedMembers(h: Hashes, s: State, t: State, slot: Slot)
    requires Tables(h, s) && ClearedFrom(s, t, slot)
    ensures TriedMembers(t.infos) == TriedMembers(s.infos)
    ensures if ClearDeletes(s, slot)
            then MemberOf(s.infos, s.news[slot]) in NewMembers(s.infos) && NewMembers(t.infos) == NewMembers(s.infos) - {MemberOf(s.infos, s.news[slot])}
            else NewMembers(t.infos) == NewMembers(s.infos)
  {
    hide NewMembers, TriedMembers, Tables, ClearDeletes;
    if ClearDeletes(s, slot) {
      DeletesWhat(s, slot);
      NewFacts(h, s, slot);
      IsMember(s.infos, MemberOf(s.infos, s.news[slot]));
    }
    var dead: set<Member> := if ClearDeletes(s, slot) then {MemberOf(s.infos, s.news[slot])} else {};
    forall m: Member
      ensures m in TriedMembers(t.infos) <==> m in TriedMembers(s.infos)
      ensures m in NewMembers(t.infos) <==> m in NewMembers(s.infos) && m !in dead
    {
      var (id, network) := m;
      IsMember(s.infos, m);
      IsMember(t.infos, m);
      assert id in t.infos.Keys <==> id in s.infos.Keys && !(ClearDeletes(s, slot) && id == s.news[slot]);
      assert id in t.infos ==> t.infos[id] == s.infos[id].(randomPos := t.infos[id].randomPos, refCount := t.infos[id].refCount);
    }
  }

  lemma DeletesWhat(s: State, slot: Slot)
    requires ClearDeletes(s, slot)
    ensures slot in s.news && s.news[slot] in s.infos
  {
  }

  /** Every entry apart from these is fine. */
  ghost predicate FineBut(infos: map<int, AddrInfo>, ids: set<int>) {
    forall q :: q in infos && q !in ids ==> Fine(infos[q])
  }

  lemma ClearedFine(h: Hashes, s: State, t: State, slot: Slot, ids: set<int>)
    requires Tables(h, s) && ClearedFrom(s, t, slot) && FineBut(s.infos, ids)
    ensures FineBut(t.infos, ids)
  {
    hide Tables;
    forall q | q in t.infos && q !in ids
      ensures Fine(t.infos[q])
    {
      assert Fine(s.infos[q]);
      if slot in s.news && s.news[slot] == q {
        NewFacts(h, s, slot);
        assert !ClearDeletes(s, slot);
      }
    }
  }

  /** The effect of emptying a slot on the counters. */
  lemma ClearedTally(s: State, slot: Slot, c: Counters, n: set<Member>, m: set<Member>)
    requires ClearDeletes(s, slot) && Tally(c, n, m)
    requires MemberOf(s.infos, s.news[slot]) in n
    ensures Tally(AddToNew(c, s.infos[s.news[slot]].addr.network, -1), n - {MemberOf(s.infos, s.news[slot])}, m)
  {
    hide Tally;
    var x := MemberOf(s.infos, s.news[slot]);
    assert n == (n - {x}) + {x};
    TallyNew(c, n - {x}, m, x);
  }

  // ---------- moving an entry from the tried table back to the new table ----------

  ghost function EvictSlot(h: Hashes, info: AddrInfo): Slot {
    h.NewSlot(info.addr, h.NewBucket(info.addr, info.source))
  }

  /** An entry without references is not what a new slot holds. */
  lemma NotHeld(h: Hashes, s: State, slot: Slot, id: int)
    requires Tables(h, s) && id in s.infos && s.infos[id].refCount == 0 && slot in s.news
    ensures s.news[slot] != id
  {
    NotPlaced(h, s, id);
    assert slot !in Occurrences(s.news, id);
  }

  lemma EvictTally(h: Hashes, s: State, s2: State, e: int, at: Slot, x: Member, c: Counters)
    requires Index(s) && Tables(h, s) && e in s.infos && s.infos[e].inTried
    requires x in NewMembers(s.infos) && x.0 in s.infos && s.infos[x.0].refCount == 0
    requires Tally(c, NewMembers(s.infos) - {x}, TriedMembers(s.infos))
    requires ClearedFrom(Demote(h, s, e), s2, at)
    ensures var s1, network := Demote(h, s, e), s.infos[e].addr.network;
            var c1 := AddToTried(c, network, -1);
            var c2 := if ClearDeletes(s1, at) then AddToNew(c1, s1.infos[s1.news[at]].addr.network, -1) else c1;
            Tally(AddToNew(c2, network, 1), NewMembers(s2.infos) - {x}, TriedMembers(s2.infos))
  {
    hide *;
    var s1, m := Demote(h, s, e), MemberOf(s.infos, e);
    DemoteKeeps(h, s, e);
    DemoteInfos(h, s, e);
    MembersMoved(s.infos, e, s1.infos[e]);
    MemberIs(s.infos, e);
    var n, t := NewMembers(s.infos) - {x}, TriedMembers(s.infos) - {m};
    assert t + {m} == TriedMembers(s.infos);
    TallyTried(c, n, t, m);
    var c1 := AddToTried(c, m.1, -1);
    ClearedMembers(h, s1, s2, at);
    if ClearDeletes(s1, at) {
      DeletesWhat(s1, at);
      TriedUncounted(h, s, e);
      NotHeld(h, s1, at, e);
      NotHeld(h, s1, at, x.0);
      var d := MemberOf(s1.infos, s1.news[at]);
      MemberIs(s1.infos, s1.news[at]);
      ClearedTally(s1, at, c1, n, t);
      var c2 := AddToNew(c1, d.1, -1);
      TallyNew(c2, n - {d}, t, m);
      assert n - {d} + {m} == NewMembers(s2.infos) - {x};
    } else {
      TallyNew(c1, n, t, m);
      assert n + {m} == NewMembers(s2.infos) - {x};
    }
  }

  lemma MemberIs(infos: map<int, AddrInfo>, id: int)
    requires id in infos
    ensures MemberOf(infos, id) == (id, infos[id].addr.network)
  {
  }

  lemma DemoteInfos(h: Hashes, s: State, id: int)
    requires id in s.infos
    ensures Demote(h, s, id).infos == s.infos[id := s.infos[id].(inTried := false)] && Demote(h, s, id).news == s.news
    ensures Demote(h, s, id).tried == s.tried - {h.TriedSlot(s.infos[id].addr)}
  {
  }

  /** After the eviction, every other entry is as fine as before, and the evicted one is fine as well. */
  lemma EvictFine(h: Hashes, s: State, s2: State, e: int, at: Slot, id: int)
    requires Tables(h, s) && e in s.infos && s.infos[e].inTried && e != id && FineBut(s.infos, {id})
    requires Tables(h, Demote(h, s, e)) && ClearedFrom(Demote(h, s, e), s2, at)
    ensures e in s2.infos && s2.infos[e].refCount == 0 && !s2.infos[e].inTried && s2.infos[e].addr == s.infos[e].addr
    ensures FineBut(Place(s2, at, e).infos, {id})
    ensures Kept(s.infos, Place(s2, at, e).infos)
  {
    hide Tables, Hashes.TriedSlot, TriedOk, NewOk, CountOk, ClearDeletes;
    var s1 := Demote(h, s, e);
    TriedUncounted(h, s, e);
    if at in s1.news {
      NotHeld(h, s1, at, e);
    }
    assert e in s2.infos.Keys by {
      Undeleted(s1, at, e);
    }
    assert FineBut(s1.infos, {id, e});
    ClearedFine(h, s1, s2, at, {id, e});
    assert Fine(s.infos[e]);
    KeptDemoted(h, s, e);
    ClearedKept(s1, s2, at);
    KeptTransitive(s.infos, s1.infos, s2.infos);
    KeptPlaced(s2, at, e);
    KeptTransitive(s.infos, s2.infos, Place(s2, at, e).infos);
  }

  lemma Undeleted(s: State, at: Slot, e: int)
    requires e in s.infos && (at in s.news ==> s.news[at] != e)
    ensures ClearDeletes(s, at) ==> s.news[at] != e
  {
  }

  lemma KeptDemoted(h: Hashes, s: State, e: int)
    requires e in s.infos
    ensures Kept(s.infos, Demote(h, s, e).infos)
  {
  }

  lemma KeptPlaced(s: State, at: Slot, e: int)
    requires e in s.infos
    ensures Kept(s.infos, Place(s, at, e).infos)
  {
  }
}
