/** The address manager (src/addrman.cpp:400-700, 810-1001). */
module AddrManagers {
  import opened Options
  import opened Sets
  import opened AddrTables
  import opened AddrSteps
  import opened AddrEffects

  // ---------- bucket tables ----------

  ghost function TableOf(a: array2<int>): Table
    reads a
  {
    map b, p | 0 <= b < a.Length0 && 0 <= p < a.Length1 && a[b, p] >= 0 :: (b, p) := a[b, p]
  }

  /** A cell holds an id, or -1 if it is empty. */
  ghost predicate Cells(a: array2<int>)
    reads a
  {
    forall b, p :: 0 <= b < a.Length0 && 0 <= p < a.Length1 ==> a[b, p] >= -1
  }

  ghost predicate InTable(a: array2<int>, slot: Slot) {
    0 <= slot.0 < a.Length0 && 0 <= slot.1 < a.Length1
  }

  lemma CellIs(a: array2<int>, slot: Slot)
    ensures slot in TableOf(a) <==> InTable(a, slot) && a[slot.0, slot.1] >= 0
    ensures slot in TableOf(a) ==> TableOf(a)[slot] == a[slot.0, slot.1]
  {
    if InTable(a, slot) && a[slot.0, slot.1] >= 0 {
      assert slot == (slot.0, slot.1);
    }
  }

  method Fill(a: array2<int>, slot: Slot, id: int)
    requires Cells(a) && InTable(a, slot) && id >= 0
    modifies a
    ensures Cells(a) && TableOf(a) == old(TableOf(a))[slot := id]
  {
    ghost var t := TableOf(a);
    a[slot.0, slot.1] := id;
    forall q: Slot
      ensures q in TableOf(a) <==> q in t[slot := id]
      ensures q in TableOf(a) ==> TableOf(a)[q] == t[slot := id][q]
    {
    }
  }

  method Vacate(a: array2<int>, slot: Slot)
    requires Cells(a) && InTable(a, slot)
    modifies a
    ensures Cells(a) && TableOf(a) == old(TableOf(a)) - {slot}
  {
    ghost var t := TableOf(a);
    a[slot.0, slot.1] := -1;
    forall q: Slot
      ensures q in TableOf(a) <==> q in t - {slot}
      ensures q in TableOf(a) ==> TableOf(a)[q] == (t - {slot})[q]
    {
    }
  }

  class AddrMan {
    const h: Hashes
    const nullKey: bool
    var mapInfo: map<int, AddrInfo>
    var mapAddr: map<Service, int>
    var vRandom: seq<int>
    var nIdCount: nat
    var nNew: int
    var nTried: int
    var networkCounts: map<int, NewTriedCount>
    var triedCollisions: set<nat>
    var lastGood: int
    const vvNew: array2<int>
    const vvTried: array2<int>

    ghost function S(): State
      reads this, vvNew, vvTried
    {
      State(mapInfo, mapAddr, vRandom, TableOf(vvNew), TableOf(vvTried))
    }

    ghost function C(): Counters
      reads this
    {
      Counters(nNew, nTried, networkCounts)
    }

    lemma StateParts()
      ensures S() == State(mapInfo, mapAddr, vRandom, TableOf(vvNew), TableOf(vvTried)) && C() == Counters(nNew, nTried, networkCounts)
      ensures Consistent() <==> Shape() && Index(S()) && Tables(h, S())
    {
    }

    lemma ShapeParts()
      ensures Shape() <==> vvNew != vvTried && Cells(vvNew) && Cells(vvTried)
                           && vvNew.Length0 == ADDRMAN_NEW_BUCKET_COUNT && vvNew.Length1 == ADDRMAN_BUCKET_SIZE
                           && vvTried.Length0 == ADDRMAN_TRIED_BUCKET_COUNT && vvTried.Length1 == ADDRMAN_BUCKET_SIZE
      ensures forall slot :: InTable(vvNew, slot) <==> 0 <= slot.0 < vvNew.Length0 && 0 <= slot.1 < vvNew.Length1
      ensures forall slot :: InTable(vvTried, slot) <==> 0 <= slot.0 < vvTried.Length0 && 0 <= slot.1 < vvTried.Length1
    {
    }

    ghost predicate Shape()
      reads vvNew, vvTried
    {
      && vvNew != vvTried && Cells(vvNew) && Cells(vvTried)
      && vvNew.Length0 == ADDRMAN_NEW_BUCKET_COUNT && vvNew.Length1 == ADDRMAN_BUCKET_SIZE
      && vvTried.Length0 == ADDRMAN_TRIED_BUCKET_COUNT && vvTried.Length1 == ADDRMAN_BUCKET_SIZE
    }

    /** The indexes and tables are consistent, even in the middle of an operation. */
    ghost predicate Consistent()
      reads this, vvNew, vvTried
    {
      Shape() && Index(S()) && Tables(h, S())
    }

    // ---------- private operations ----------

    method Find(addr: Service) returns (found: bool, id: int)
      requires Consistent()
      ensures found <==> addr in mapAddr
      ensures found ==> id == mapAddr[addr] && id in mapInfo && mapInfo[id].addr == addr
    {
      if addr !in mapAddr {
        return false, 0;
      }
      id := mapAddr[addr];
      found := id in mapInfo;
    }

    method Create(info: AddrInfo, ghost s: State, ghost c: Counters) returns (id: nat)
      requires s == S() && c == C()
      modifies this
      ensures id == old(nIdCount) && nIdCount == id + 1 && id in mapInfo
      ensures S() == AddrTables.Create(s, id, info) && C() == AddToNew(c, info.addr.network, 1)
      ensures triedCollisions == old(triedCollisions) && lastGood == old(lastGood)
    {
      hide *;
      StateParts();
      id := nIdCount;
      nIdCount := nIdCount + 1;
      mapInfo := mapInfo[id := info];
      mapAddr := mapAddr[info.addr := id];
      mapInfo := mapInfo[id := mapInfo[id].(randomPos := |vRandom|)];
      vRandom := vRandom + [id];
      nNew := nNew + 1;
      CountNetwork(info.addr.network, 1, 0);
      StateParts();
      CreateIs(s, id, info);
      CountedNew(C(), c, info.addr.network, 1);
    }

    method CountNetwork(network: int, dNew: int, dTried: int)
      modifies `networkCounts
      ensures networkCounts == old(networkCounts)[network := NewTriedCount(CountOf(old(networkCounts), network).nNew + dNew,
                                                                           CountOf(old(networkCounts), network).nTried + dTried)]
    {
      var c := CountOf(networkCounts, network);
      networkCounts := networkCounts[network := NewTriedCount(c.nNew + dNew, c.nTried + dTried)];
    }

    /** The assertions that both positions and both ids exist hold. */
    method SwapRandom(i: nat, j: nat, ghost s: State)
      requires s == S() && Index(s) && i < |vRandom| && j < |vRandom|
      modifies `mapInfo, `vRandom
      ensures s.random[i] in s.infos && s.random[j] in s.infos && S() == Swap(s, i, j)
    {
      hide *;
      StateParts();
      SwapIndex(s, i, j);
      SwapIs(s, i, j);
      if i == j {
        return;
      }
      var a, b := vRandom[i], vRandom[j];
      assert a in mapInfo && b in mapInfo;
      mapInfo := mapInfo[a := mapInfo[a].(randomPos := j)];
      mapInfo := mapInfo[b := mapInfo[b].(randomPos := i)];
      vRandom := vRandom[i := b];
      vRandom := vRandom[j := a];
      StateParts();
    }

    /** Deletes an entry that is in no table. */
    method Delete(id: int, ghost s: State, ghost c: Counters)
      requires s == S() && c == C() && Index(s) && id in mapInfo && !mapInfo[id].inTried && mapInfo[id].refCount == 0
      modifies this
      ensures S() == Deleted(s, id) && C() == AddToNew(c, s.infos[id].addr.network, -1)
      ensures nIdCount == old(nIdCount) && triedCollisions == old(triedCollisions) && lastGood == old(lastGood)
    {
      hide *;
      StateParts();
      DeletedIs(s, id);
      var info := mapInfo[id];
      SwapRandom(info.randomPos, |vRandom| - 1, s);
      ghost var t := S();
      StateParts();
      CountNetwork(info.addr.network, -1, 0);
      vRandom := vRandom[..|vRandom| - 1];
      mapAddr := mapAddr - {info.addr};
      mapInfo := mapInfo - {id};
      nNew := nNew - 1;
      StateParts();
      DropLastIs(t, S(), id);
      CountedNew(C(), c, info.addr.network, -1);
    }

    /** Takes one occurrence of id out of the new table. */
    method Detach(id: int, slot: Slot, ghost t: State)
      requires t == S() && Consistent() && InTable(vvNew, slot) && slot in t.news && t.news[slot] == id && id in mapInfo
      modifies `mapInfo, vvNew
      ensures Consistent() && id in mapInfo && S() == Unplace(t, slot)
    {
      hide *;
      StateParts();
      ShapeParts();
      UnplaceKeeps(h, t, slot);
      assert mapInfo[id].refCount > 0;
      Vacate(vvNew, slot);
      mapInfo := mapInfo[id := mapInfo[id].(refCount := mapInfo[id].refCount - 1)];
      StateParts();
      ShapeParts();
      UnplaceIs(t, slot);
    }

    /** Empties a slot of the new table. */
    method ClearNew(slot: Slot, ghost s: State, ghost c: Counters)
      requires s == S() && c == C() && Consistent() && InTable(vvNew, slot)
      modifies this, vvNew
      ensures Consistent() && Index(s) && Tables(h, s) && ClearedFrom(s, S(), slot)
      ensures C() == if ClearDeletes(s, slot) then AddToNew(c, s.infos[s.news[slot]].addr.network, -1) else c
      ensures nIdCount == old(nIdCount) && triedCollisions == old(triedCollisions) && lastGood == old(lastGood)
    {
      hide *;
      StateParts();
      ShapeParts();
      ClearedKeeps(h, s, slot);
      ClearedIs(h, s, slot);
      CellIs(vvNew, slot);
      if vvNew[slot.0, slot.1] >= 0 {
        var id := vvNew[slot.0, slot.1];
        NewFacts(h, s, slot);
        Detach(id, slot, s);
        StateParts();
        UnplaceIs(s, slot);
        if mapInfo[id].refCount == 0 {
          Delete(id, S(), C());
          StateParts();
          ShapeParts();
        }
      }
    }

    /** Removes an entry from all new buckets. */
    method RemoveFromNew(id: int, ghost s: State)
      requires s == S() && Consistent() && id in mapInfo && !mapInfo[id].inTried
      modifies `mapInfo, vvNew
      ensures Consistent() && S() == s.(infos := s.infos[id := s.infos[id].(refCount := 0)], news := Without(s.news, id))
    {
      hide *;
      StateParts();
      ShapeParts();
      var info := mapInfo[id];
      var start := h.NewBucket(info.addr, info.source);
      var n := 0;
      BucketRange(h, info.addr, info.source);
      AbsentNone(h, s.news, id, info.addr, start);
      IdsNonNegative(s, id);
      assert s.infos[id := s.infos[id].(refCount := mapInfo[id].refCount)] == s.infos;
      while n < ADDRMAN_NEW_BUCKET_COUNT
        invariant 0 <= n <= ADDRMAN_NEW_BUCKET_COUNT
        invariant Consistent() && id in mapInfo
        invariant S() == s.(infos := s.infos[id := s.infos[id].(refCount := mapInfo[id].refCount)], news := S().news)
        invariant AbsentFrom(h, S().news, id, info.addr, start, n) && Without(S().news, id) == Without(s.news, id)
      {
        ghost var t := S();
        StateParts();
        ShapeParts();
        var bucket := (start + n) % ADDRMAN_NEW_BUCKET_COUNT;
        var pos := h.BucketPosition(info.addr, true, bucket);
        var slot := (bucket, pos);
        SlotRange(h, info.addr, bucket);
        CellIs(vvNew, slot);
        if vvNew[bucket, pos] == id {
          UnplacedAgain(s, t, slot, id);
          UnplaceIs(t, slot);
          WithoutOne(t.news, slot, id);
          Detach(id, slot, t);
          StateParts();
          if mapInfo[id].refCount == 0 {
            WithoutNone(h, S(), id);
            return;
          }
        }
        AbsentStep(h, t.news, S().news, id, info.addr, start, n);
        n := n + 1;
      }
      StateParts();
      NowhereNew(h, S(), id, start);
      WithoutNone(h, S(), id);
    }

    /** Takes the occupant out of a tried slot. */
    method LeaveTried(e: int, slot: Slot, ghost s: State, ghost c: Counters)
      requires s == S() && c == C() && Consistent() && InTable(vvTried, slot) && e in s.infos && slot == h.TriedSlot(s.infos[e].addr)
      modifies this, vvTried
      ensures Shape() && S() == Demote(h, s, e) && C() == AddToTried(c, s.infos[e].addr.network, -1)
      ensures nIdCount == old(nIdCount) && triedCollisions == old(triedCollisions) && lastGood == old(lastGood)
    {
      hide *;
      StateParts();
      ShapeParts();
      mapInfo := mapInfo[e := mapInfo[e].(inTried := false)];
      Vacate(vvTried, slot);
      nTried := nTried - 1;
      CountNetwork(mapInfo[e].addr.network, 0, -1);
      StateParts();
      ShapeParts();
      DemoteIs(h, s, e);
      CountedTried(C(), c, s.infos[e].addr.network, -1);
    }

    /** Enters an entry without references into an empty slot of the new table, as its only one. */
    method EnterNew(e: int, slot: Slot, ghost s: State, ghost c: Counters)
      requires s == S() && c == C() && Consistent() && InTable(vvNew, slot) && e in s.infos && e >= 0 && s.infos[e].refCount == 0
      modifies this, vvNew
      ensures Shape() && S() == Place(s, slot, e) && C() == AddToNew(c, s.infos[e].addr.network, 1)
      ensures nIdCount == old(nIdCount) && triedCollisions == old(triedCollisions) && lastGood == old(lastGood)
    {
      hide *;
      StateParts();
      ShapeParts();
      mapInfo := mapInfo[e := mapInfo[e].(refCount := 1)];
      Fill(vvNew, slot, e);
      nNew := nNew + 1;
      CountNetwork(mapInfo[e].addr.network, 1, 0);
      StateParts();
      ShapeParts();
      PlaceIs(s, slot, e);
      CountedNew(C(), c, s.infos[e].addr.network, 1);
    }

    /** Moves the occupant of a tried slot back to the new table; id is the entry it makes room for. */
    method Evict(slot: Slot, ghost id: int, ghost s: State, ghost c: Counters)
      requires s == S() && c == C() && Consistent() && InTable(vvTried, slot) && slot in s.tried && Leaving(s, c, id)
      modifies this, vvNew, vvTried
      ensures Consistent() && S().tried == s.tried - {slot} && Leaving(S(), C(), id) && Kept(s.infos, mapInfo)
      ensures Evicted(h, s, S(), slot)
      ensures nIdCount == old(nIdCount) && triedCollisions == old(triedCollisions) && lastGood == old(lastGood)
    {
      hide *;
      StateParts();
      ShapeParts();
      LeavingParts(s, c, id);
      CellIs(vvTried, slot);
      TriedFacts(h, s, slot);
      var e := vvTried[slot.0, slot.1];
      DemoteKeeps(h, s, e);
      DemoteInfos(h, s, e);
      LeaveTried(e, slot, s, c);
      ghost var s1, c1 := S(), C();
      StateParts();
      var info := mapInfo[e];
      var bucket := h.NewBucket(info.addr, info.source);
      var at := (bucket, h.BucketPosition(info.addr, true, bucket));
      BucketRange(h, info.addr, info.source);
      SlotRange(h, info.addr, bucket);
      ShapeParts();
      ClearNew(at, s1, c1);
      ghost var s2, c2 := S(), C();
      StateParts();
      EvictFine(h, s, s2, e, at, id);
      EvictTally(h, s, s2, e, at, MemberOf(s.infos, id), c);
      EvictedLeaving(h, s, s1, s2, e, at, id, AddToNew(c2, info.addr.network, 1));
      IdsNonNegative(s2, e);
      PlaceKeeps(h, s2, at, e);
      EvictSlotIs(h, info, s.infos[e]);
      EvictedIs(h, s, s2, e, at, slot);
      EnterNew(e, at, s2, c2);
      StateParts();
    }

    /** Puts an entry into its empty tried slot. */
    method EnterTried(id: int, slot: Slot, ghost s: State, ghost c: Counters)
      requires s == S() && c == C() && Consistent() && InTable(vvTried, slot) && id in s.infos && id >= 0 && slot == h.TriedSlot(s.infos[id].addr)
      modifies this, vvTried
      ensures Shape() && S() == Promote(h, s, id) && C() == AddToTried(c, s.infos[id].addr.network, 1)
      ensures nIdCount == old(nIdCount) && triedCollisions == old(triedCollisions) && lastGood == old(lastGood)
    {
      hide *;
      StateParts();
      ShapeParts();
      Fill(vvTried, slot, id);
      nTried := nTried + 1;
      mapInfo := mapInfo[id := mapInfo[id].(inTried := true)];
      CountNetwork(mapInfo[id].addr.network, 0, 1);
      StateParts();
      ShapeParts();
      PromoteIs(h, s, id);
      CountedTried(C(), c, s.infos[id].addr.network, 1);
    }

    /** Moves an entry from the new to the tried table, evicting the occupant of its slot. */
    method MakeTried(id: int, ghost s: State, ghost c: Counters)
      requires s == S() && c == C() && Consistent() && Counted(s, c)
      requires id in s.infos && !s.infos[id].inTried && s.infos[id].lastSuccess > 0
      modifies this, vvNew, vvTried
      ensures Consistent() && Counted(S(), C()) && Kept(s.infos, mapInfo)
      ensures id in mapInfo && mapInfo[id].inTried && S().tried == s.tried[h.TriedSlot(s.infos[id].addr) := id]
      ensures MovedToTried(h, s, S(), id)
      ensures nIdCount == old(nIdCount) && triedCollisions == old(triedCollisions) && lastGood == old(lastGood)
    {
      hide *;
      StateParts();
      RemoveFromNew(id, s);
      ghost var s1 := S();
      StateParts();
      nNew := nNew - 1;
      CountNetwork(mapInfo[id].addr.network, -1, 0);
      StateParts();
      CountedNew(C(), c, s.infos[id].addr.network, -1);
      StartLeaving(s, s1, c, id);
      assert mapInfo[id].refCount == 0;
      var slot := h.TriedSlot(mapInfo[id].addr);
      ShapeParts();
      TriedRange(h, mapInfo[id].addr);
      CellIs(vvTried, slot);
      KeptReflexive(s1.infos);
      NoSlot(s1.tried, slot, id);
      NotTried(h, s, slot, id);
      if vvTried[slot.0, slot.1] >= 0 {
        Evict(slot, id, s1, C());
      }
      ghost var s2, c2 := S(), C();
      StateParts();
      LeavingParts(s2, c2, id);
      KeptTransitive(s.infos, s1.infos, s2.infos);
      Promoted(h, s, s2, c, c2, id);
      MovedIs(h, s, s1, s2, id);
      PromoteKeeps(h, s2, id);
      IdsNonNegative(s2, id);
      EnterTried(id, slot, s2, c2);
      StateParts();
    }

    // ---------- public operations ----------

    /** What holds between calls. */
    ghost predicate Valid()
      reads this, vvNew, vvTried
    {
      Consistent() && Counted(S(), C()) && Recorded(h, S(), triedCollisions, nIdCount)
    }

    lemma ValidParts()
      ensures Valid() <==> Consistent() && Counted(S(), C()) && Recorded(h, S(), triedCollisions, nIdCount)
    {
    }

    /** Changes fields of an entry that no index depends on. */
    method Touch(id: int, info: AddrInfo, ghost s: State)
      requires s == S() && Valid() && id in s.infos && SameRole(s.infos[id], info) && Fine(info)
      modifies `mapInfo
      ensures Valid() && S() == s.(infos := s.infos[id := info])
    {
      hide *;
      ValidParts();
      StateParts();
      TouchRole(s.infos[id], info);
      TouchKeeps(h, s, id, info);
      TouchCounted(h, s, C(), id, info, triedCollisions, nIdCount);
      mapInfo := mapInfo[id := info];
      StateParts();
      ValidParts();
    }

    /**
      Marks an address as good at the given time, and moves it to the tried table unless that
      would evict an entry that is to be tested first; the collision is then recorded. A filled
      tried slot stays filled.
    */
    method Good(addr: Service, testBeforeEvict: bool, time: int) returns (moved: bool)
      requires Valid() && time > 0
      modifies this, vvNew, vvTried
      ensures Valid() && lastGood == time && old(S()).tried.Keys <= S().tried.Keys
      ensures moved <==> Moves(h, old(S()), addr, testBeforeEvict)
      ensures !moved ==> S() == Greeted(old(S()), addr, time)
      ensures moved ==> addr in old(mapAddr) && MovedToTried(h, Greeted(old(S()), addr, time), S(), old(mapAddr)[addr])
      ensures triedCollisions == if Blocked(h, old(S()), addr, testBeforeEvict) && |old(triedCollisions)| < ADDRMAN_SET_TRIED_COLLISION_SIZE
                                 then old(triedCollisions) + {IdOf(old(S()), 0, addr)} else old(triedCollisions)
    {
      hide *;
      ghost var s0 := S();
      ValidParts();
      StateParts();
      lastGood := time;
      StateParts();
      ValidParts();
      var found, id := Find(addr);
      GoodCases(h, s0, addr, time, testBeforeEvict);
      if !found {
        return false;
      }
      var info := mapInfo[id].(lastSuccess := time, lastTry := time, attempts := 0);
      NowGood(h, S(), C(), id, time);
      Touch(id, info, S());
      ghost var s, c := S(), C();
      ValidParts();
      StateParts();
      if info.inTried {
        return false;
      }
      StillReferenced(s, c, id);
      assert mapInfo[id].refCount > 0;
      var slot := h.TriedSlot(info.addr);
      TriedRange(h, info.addr);
      ShapeParts();
      CellIs(vvTried, slot);
      if testBeforeEvict && vvTried[slot.0, slot.1] >= 0 {
        IdsNonNegative(s, id);
        RecordCollision(h, s, triedCollisions, nIdCount, id);
        if |triedCollisions| < ADDRMAN_SET_TRIED_COLLISION_SIZE {
          triedCollisions := triedCollisions + {id};
        }
        StateParts();
        ValidParts();
        return false;
      }
      MakeTried(id, s, c);
      StateParts();
      MadeTried(h, s, S(), triedCollisions, nIdCount, id, slot);
      ValidParts();
      return true;
    }

    method Attempt(addr: Service, countFailure: bool, time: int)
      requires Valid() && time >= 0
      modifies `mapInfo
      ensures Valid()
      ensures mapInfo == if addr in mapAddr && mapAddr[addr] in old(mapInfo)
                         then old(mapInfo)[mapAddr[addr] := Attempted(old(mapInfo)[mapAddr[addr]], countFailure, time, lastGood)] else old(mapInfo)
    {
      hide *;
      ValidParts();
      StateParts();
      var found, id := Find(addr);
      if !found {
        return;
      }
      AttemptedIs(mapInfo[id], countFailure, time, lastGood);
      var info := mapInfo[id].(lastTry := time);
      if countFailure && info.lastCountAttempt < lastGood {
        info := info.(lastCountAttempt := time, attempts := info.attempts + 1);
      }
      NowTried(S(), C(), id, info);
      Touch(id, info, S());
      StateParts();
    }

    method Connected(addr: Service, time: int)
      requires Valid()
      modifies `mapInfo
      ensures Valid()
      ensures mapInfo == if addr in mapAddr && mapAddr[addr] in old(mapInfo)
                         then old(mapInfo)[mapAddr[addr] := Met(old(mapInfo)[mapAddr[addr]], time)] else old(mapInfo)
    {
      hide *;
      ValidParts();
      StateParts();
      var found, id := Find(addr);
      if !found {
        return;
      }
      var info := mapInfo[id];
      MetIs(info, time);
      if time - info.time > 20 * 60 {
        info := info.(time := time);
      }
      NowTried(S(), C(), id, info);
      Touch(id, info, S());
      StateParts();
    }

    method SetServices(addr: Service, services: set<nat>)
      requires Valid()
      modifies `mapInfo
      ensures Valid()
      ensures mapInfo == if addr in mapAddr && mapAddr[addr] in old(mapInfo)
                         then old(mapInfo)[mapAddr[addr] := old(mapInfo)[mapAddr[addr]].(services := services)] else old(mapInfo)
    {
      hide *;
      ValidParts();
      StateParts();
      var found, id := Find(addr);
      if !found {
        return;
      }
      var info := mapInfo[id].(services := services);
      NowTried(S(), C(), id, info);
      Touch(id, info, S());
      StateParts();
    }

    /** Enters the entry into a slot of the new table, if the occupant can be displaced; an entry without any slot is deleted. */
    method Settle(id: int, slot: Slot, now: int, ghost s: State, ghost c: Counters) returns (inserted: bool)
      requires s == S() && c == C() && Consistent() && Pending(s, c, id) && Recorded(h, s, triedCollisions, nIdCount)
      requires InTable(vvNew, slot) && slot == h.NewSlot(s.infos[id].addr, slot.0)
      modifies this, vvNew
      ensures Valid() && S().tried == s.tried && triedCollisions == old(triedCollisions) && lastGood == old(lastGood)
      ensures inserted <==> Admits(s, slot, id, now)
      ensures inserted ==> Entered(s, S(), slot, id) && id in mapInfo && mapInfo[id].addr == s.infos[id].addr
      ensures !inserted ==> Index(s) && S() == if s.infos[id].refCount == 0 then Deleted(s, id) else s
    {
      hide *;
      StateParts();
      ShapeParts();
      PendingParts(s, c, id);
      IdsNonNegative(s, id);
      CellIs(vvNew, slot);
      inserted := vvNew[slot.0, slot.1] < 0;
      AdmitsIs(h, s, slot, id, now);
      if vvNew[slot.0, slot.1] == id {
        Occupying(h, s, c, slot, id);
        ValidParts();
        return;
      }
      if !inserted {
        NewFacts(h, s, slot);
        var existing := mapInfo[vvNew[slot.0, slot.1]];
        if IsTerrible(existing, now) || (existing.refCount > 1 && mapInfo[id].refCount == 0) {
          inserted := true;
        }
      }
      if inserted {
        ClearNew(slot, s, c);
        ghost var s1 := S();
        StateParts();
        ClearedPending(h, s, s1, slot, c, id);
        PendingParts(s1, C(), id);
        PlaceKeeps(h, s1, slot, id);
        PlacedPending(h, s1, slot, C(), id, triedCollisions, nIdCount, s);
        IdsNonNegative(s1, id);
        ShapeParts();
        mapInfo := mapInfo[id := mapInfo[id].(refCount := mapInfo[id].refCount + 1)];
        Fill(vvNew, slot, id);
        PlaceIs(s1, slot, id);
        EnteredIs(s, s1, slot, id);
      } else if mapInfo[id].refCount == 0 {
        DeletedPending(h, s, c, id, triedCollisions, nIdCount);
        Delete(id, s, c);
      } else {
        PendingDone(s, c, id);
      }
      StateParts();
      ShapeParts();
      ValidParts();
    }

    /** Updates the time of a known entry; says whether it may be entered into one more slot. */
    method Refresh(id: int, services: set<nat>, time: int, timePenalty: int, now: int, lucky: bool, ghost s: State) returns (proceed: bool)
      requires s == S() && Valid() && id in s.infos
      modifies `mapInfo
      ensures Valid() && id in mapInfo && mapInfo[id].addr == s.infos[id].addr
      ensures S() == s.(infos := s.infos[id := Aged(s.infos[id], services, time, timePenalty, now)])
      ensures proceed <==> Worthwhile(mapInfo[id], time, lucky)
      ensures proceed ==> Pending(S(), C(), id) && mapInfo[id].refCount > 0
    {
      hide *;
      ValidParts();
      StateParts();
      var interval := if now - time < 24 * 3600 then 3600 else 24 * 3600;
      var info := mapInfo[id];
      if info.time < time - interval - timePenalty {
        info := info.(time := if time - timePenalty > 0 then time - timePenalty else 0);
      }
      info := info.(services := info.services + services);
      AgedIs(s.infos[id], services, time, timePenalty, now);
      WorthwhileIs(info, time, lucky);
      NowTried(s, C(), id, info);
      Touch(id, info, s);
      ValidParts();
      StateParts();
      if time <= info.time || info.inTried || info.refCount == ADDRMAN_NEW_BUCKETS_PER_ADDRESS {
        return false;
      }
      if info.refCount > 0 && !lucky {
        return false;
      }
      StillPending(S(), C(), id);
      StillReferenced(S(), C(), id);
      return true;
    }

    /** Creates the entry of an address that was not known. */
    method Introduce(addr: Service, services: set<nat>, source: int, time: int, timePenalty: int, ghost s: State) returns (id: nat)
      requires s == S() && Valid() && addr !in mapAddr
      modifies this
      ensures Consistent() && Pending(S(), C(), id) && Recorded(h, S(), triedCollisions, nIdCount)
      ensures id == old(nIdCount) && id in mapInfo && mapInfo[id].addr == addr && mapInfo[id].refCount == 0
      ensures S() == AddrTables.Create(s, id, FirstHeard(addr, services, source, time, timePenalty)) && S().tried == s.tried
      ensures Index(S()) && id in S().infos && Deleted(S(), id) == s && triedCollisions == old(triedCollisions) && lastGood == old(lastGood)
    {
      hide *;
      ValidParts();
      StateParts();
      ghost var c := C();
      var info := AddrInfo(addr, services, source, if time - timePenalty > 0 then time - timePenalty else 0, 0, 0, 0, 0, 0, false, -1);
      CreatedPending(h, s, c, nIdCount, info, triedCollisions);
      CreateKeeps(h, s, nIdCount, info);
      CreateIs(s, nIdCount, info);
      FirstHeardIs(addr, services, source, time, timePenalty);
      CreateDeleted(s, nIdCount, info);
      id := Create(info, s, c);
      StateParts();
      ShapeParts();
    }

    /** Adds an address heard from a source. */
    method AddSingle(addr: Service, services: set<nat>, time: int, source: int, routable: bool, selfAnnounced: bool, penalty: int, now: int, lucky: bool)
      returns (inserted: bool)
      requires Valid()
      modifies this, vvNew
      ensures Valid() && S().tried == old(S()).tried && triedCollisions == old(triedCollisions) && lastGood == old(lastGood)
      ensures inserted <==> routable && Inserts(h, old(S()), old(nIdCount), addr, services, source, time, if selfAnnounced then 0 else penalty, now, lucky)
      ensures inserted ==>
        var g := Heard(old(S()), old(nIdCount), addr, services, source, time, if selfAnnounced then 0 else penalty, now);
        Entered(g, S(), h.NewSlot(addr, h.NewBucket(addr, source)), IdOf(old(S()), old(nIdCount), addr))
      ensures !inserted ==> S() == if routable && Known(old(S()), addr)
                                   then Heard(old(S()), old(nIdCount), addr, services, source, time, if selfAnnounced then 0 else penalty, now) else old(S())
    {
      hide *;
      ghost var s0, count := S(), nIdCount;
      ValidParts();
      StateParts();
      GoodCases(h, s0, addr, 0, false);
      if !routable {
        return false;
      }
      var timePenalty := if selfAnnounced then 0 else penalty;
      HeardIs(h, s0, count, addr, services, source, time, timePenalty, now, lucky);
      var found, id := Find(addr);
      if found {
        var proceed := Refresh(id, services, time, timePenalty, now, lucky, S());
        StateParts();
        if !proceed {
          return false;
        }
        ValidParts();
      } else {
        id := Introduce(addr, services, source, time, timePenalty, s0);
      }
      StateParts();
      var bucket := h.NewBucket(mapInfo[id].addr, source);
      var slot := (bucket, h.BucketPosition(mapInfo[id].addr, true, bucket));
      BucketRange(h, mapInfo[id].addr, source);
      SlotRange(h, mapInfo[id].addr, bucket);
      ShapeParts();
      inserted := Settle(id, slot, now, S(), C());
      ValidParts();
      StateParts();
    }

    constructor (h: Hashes, nullKey: bool)
      ensures Valid() && mapInfo == map[] && S().tried == map[] && S().news == map[] && this.h == h && this.nullKey == nullKey
      ensures lastGood == 1 && nIdCount == 0 && triedCollisions == {} && fresh(vvNew) && fresh(vvTried)
    {
      this.h, this.nullKey := h, nullKey;
      mapInfo, mapAddr, vRandom, networkCounts := map[], map[], [], map[];
      nIdCount, nNew, nTried, triedCollisions, lastGood := 0, 0, 0, {}, 1;
      hide *;
      var news := NewTable(ADDRMAN_NEW_BUCKET_COUNT);
      var tried := NewTable(ADDRMAN_TRIED_BUCKET_COUNT);
      vvNew, vvTried := news, tried;
      new;
      EmptyState(h);
      StateParts();
      ShapeParts();
      ValidParts();
    }

    /** Treats one recorded collision; says whether to drop the record. */
    method Resolve(id: nat, now: int, isValid: Service -> bool) returns (erase: bool)
      requires Valid() && id in triedCollisions && now > 0
      modifies this, vvNew, vvTried
      ensures Valid() && old(S()).tried.Keys <= S().tried.Keys && triedCollisions == old(triedCollisions)
      ensures Resolved(h, old(S()), S(), id, now, isValid)
      ensures erase <==> Judge(h, old(S()), id, now, isValid) != Wait
      ensures lastGood == if Judge(h, old(S()), id, now, isValid) == Replace then now else old(lastGood)
    {
      hide *;
      ghost var s := S();
      ValidParts();
      StateParts();
      Judgement(h, s, id, now, isValid);
      erase := false;
      if id !in mapInfo {
        return true;
      }
      var info := mapInfo[id];
      var slot := h.TriedSlot(info.addr);
      if !isValid(info.addr) {
        return true;
      }
      // The slot of a recorded collision is never empty.
      CollisionSlot(h, S(), triedCollisions, nIdCount, id);
      TriedFacts(h, S(), slot);
      CellIs(vvTried, slot);
      InTableIs(vvTried, slot);
      assert vvTried[slot.0, slot.1] >= 0;
      var oldInfo := mapInfo[vvTried[slot.0, slot.1]];
      if now - oldInfo.lastSuccess < ADDRMAN_REPLACEMENT {
        erase := true;
      } else if now - oldInfo.lastTry < ADDRMAN_REPLACEMENT {
        if now - oldInfo.lastTry > 60 {
          var moved := Good(info.addr, false, now);
          erase := true;
          Replaced(h, s, S(), id, now, isValid, moved);
        }
      } else if now - info.lastSuccess > ADDRMAN_TEST_WINDOW {
        var moved := Good(info.addr, false, now);
        erase := true;
        Replaced(h, s, S(), id, now, isValid, moved);
      }
    }

    /** Treats every recorded collision once, in increasing order, and keeps those that wait for the occupant to be tested. */
    method ResolveCollisions(now: int, isValid: Service -> bool) returns (ghost states: seq<State>, ghost order: seq<nat>)
      requires Valid() && now > 0
      modifies this, vvNew, vvTried
      ensures Valid() && old(S()).tried.Keys <= S().tried.Keys
      ensures ResolvedAll(h, states, order, now, isValid) && |states| == |order| + 1 && states[0] == old(S()) && states[|order|] == S()
      ensures Treated(order, old(triedCollisions), {}, triedCollisions, Judged(h, states, order, now, isValid, Wait))
      ensures Increasing(order) && AllIndexed(states)
      ensures lastGood == if Judged(h, states, order, now, isValid, Replace) != {} then now else old(lastGood)
    {
      hide *;
      var todo := triedCollisions;
      states, order := [S()], [];
      ValidParts();
      StateParts();
      IndexedFirst(S());
      ResolvedNone(h, S(), now, isValid);
      TreatedNone(triedCollisions);
      IncreasingNone(todo);
      while todo != {}
        invariant Valid() && old(S()).tried.Keys <= S().tried.Keys
        invariant ResolvedAll(h, states, order, now, isValid) && |states| == |order| + 1 && states[0] == old(S()) && states[|order|] == S()
        invariant Treated(order, old(triedCollisions), todo, triedCollisions, Judged(h, states, order, now, isValid, Wait))
        invariant Increasing(order) && Beyond(order, todo) && AllIndexed(states)
        invariant lastGood == if Judged(h, states, order, now, isValid, Replace) != {} then now else old(lastGood)
        decreases |todo|
      {
        var id := First(todo);
        IncreasingNext(order, todo, id);
        ghost var s, collisions, waiting := S(), triedCollisions, Judged(h, states, order, now, isValid, Wait);
        TreatedNext(order, old(triedCollisions), todo, collisions, waiting, id, Judge(h, s, id, now, isValid) == Wait);
        ResolveOne(id, now, isValid);
        ResolvedNext(h, states, order, S(), id, now, isValid);
        ValidParts();
        StateParts();
        IndexedNext(states, S());
        states, order := states + [S()], order + [id];
        todo := todo - {id};
      }
    }

    method ResolveOne(id: nat, now: int, isValid: Service -> bool)
      requires Valid() && id in triedCollisions && now > 0
      modifies this, vvNew, vvTried
      ensures Valid() && old(S()).tried.Keys <= S().tried.Keys
      ensures Resolved(h, old(S()), S(), id, now, isValid)
      ensures triedCollisions == if Judge(h, old(S()), id, now, isValid) == Wait then old(triedCollisions) else old(triedCollisions) - {id}
      ensures lastGood == if Judge(h, old(S()), id, now, isValid) == Replace then now else old(lastGood)
    {
      hide *;
      var erase := Resolve(id, now, isValid);
      if erase {
        ValidParts();
        StateParts();
        DropCollision(h, S(), triedCollisions, nIdCount, id);
        triedCollisions := triedCollisions - {id};
        StateParts();
        ValidParts();
      }
    }

    /** Picks the tried entry that a recorded collision is with; the entry always exists. */
    method SelectTriedCollision() returns (r: Option<(Service, int)>, ghost id: nat)
      requires Valid()
      modifies `triedCollisions
      ensures Valid()
      ensures triedCollisions == if r.None? && old(triedCollisions) != {} then old(triedCollisions) - {id} else old(triedCollisions)
      ensures r.None? <==> old(triedCollisions) == {} || id !in mapInfo
      ensures r.Some? ==> id in triedCollisions && Collides(h, S(), id, r.value)
    {
      hide *;
      ValidParts();
      StateParts();
      if triedCollisions == {} {
        return None, 0;
      }
      SomeMember(triedCollisions);
      var picked :| picked in triedCollisions;
      id := picked;
      if picked !in mapInfo {
        DropCollision(h, S(), triedCollisions, nIdCount, id);
        triedCollisions := triedCollisions - {picked};
        StateParts();
        ValidParts();
        return None, id;
      }
      var slot := h.TriedSlot(mapInfo[picked].addr);
      CollisionSlot(h, S(), triedCollisions, nIdCount, id);
      TriedFacts(h, S(), slot);
      CellIs(vvTried, slot);
      InTableIs(vvTried, slot);
      var oldInfo := mapInfo[vvTried[slot.0, slot.1]];
      CollidesIs(h, S(), id, (oldInfo.addr, oldInfo.lastTry));
      return Some((oldInfo.addr, oldInfo.lastTry)), id;
    }

    /** Returns up to the requested number of suitable addresses, shuffling the list on the way. */
    method GetAddr(maxAddresses: nat, maxPct: nat, network: Option<int>, filtered: bool, now: int, random: nat -> nat)
      returns (addresses: seq<Service>)
      requires Valid()
      modifies `mapInfo, `vRandom
      ensures Valid() && Repositioned(old(mapInfo), mapInfo)
      ensures Drawn(S(), addresses, Filter(network, filtered, now), Limit(|vRandom|, maxAddresses, maxPct))
    {
      hide *;
      var nNodes := |vRandom|;
      if maxPct != 0 {
        var pct := if maxPct > 100 then 100 else maxPct;
        PctBound(pct, nNodes);
        nNodes := pct * nNodes / 100;
      }
      if maxAddresses != 0 && maxAddresses < nNodes {
        nNodes := maxAddresses;
      }
      LimitIs(|vRandom|, maxAddresses, maxPct);
      addresses := [];
      ghost var f, done := Filter(network, filtered, now), 0;
      ValidParts();
      StateParts();
      TakenNone(S(), f);
      SamePlaces(mapInfo);
      for n := 0 to |vRandom|
        invariant Valid() && |vRandom| == |old(vRandom)| && Repositioned(old(mapInfo), mapInfo)
        invariant |addresses| <= nNodes && done == n && TakenFrom(S(), n, addresses, f)
      {
        if |addresses| >= nNodes {
          break;
        }
        var pos := random(n) % (|vRandom| - n) + n;
        ghost var s := S();
        ValidParts();
        StateParts();
        Shuffled(h, s, C(), n, pos, triedCollisions, nIdCount);
        TakenShuffled(s, n, pos, addresses, f);
        SwapRandom(n, pos, s);
        StateParts();
        ShapeParts();
        ValidParts();
        RepositionedAgain(old(mapInfo), s.infos, mapInfo);
        TakenNext(S(), n, addresses, f);
        var info := mapInfo[vRandom[n]];
        SuitsIs(info, f);
        done := n + 1;
        if (network.Some? && info.addr.network != network.value) || (filtered && IsTerrible(info, now)) {
          continue;
        }
        addresses := addresses + [info.addr];
      }
      ValidParts();
      StateParts();
      TakenDone(S(), done, addresses, f, nNodes);
    }
  }

  lemma EvictSlotIs(h: Hashes, info: AddrInfo, was: AddrInfo)
    requires info.addr == was.addr && info.source == was.source
    ensures EvictSlot(h, was) == h.NewSlot(info.addr, h.NewBucket(info.addr, info.source))
  {
  }

  lemma UnplaceIs(s: State, slot: Slot)
    requires slot in s.news && s.news[slot] in s.infos
    ensures var id := s.news[slot];
            Unplace(s, slot) == State(s.infos[id := s.infos[id].(refCount := s.infos[id].refCount - 1)], s.addrs, s.random, s.news - {slot}, s.tried)
  {
  }

  lemma IdsNonNegative(s: State, id: int)
    requires Index(s) && id in s.infos
    ensures id >= 0
  {
  }

  lemma BucketRange(h: Hashes, addr: Service, source: int)
    ensures 0 <= h.NewBucket(addr, source) < ADDRMAN_NEW_BUCKET_COUNT
  {
  }

  lemma SlotRange(h: Hashes, addr: Service, bucket: int)
    ensures 0 <= h.BucketPosition(addr, true, bucket) < ADDRMAN_BUCKET_SIZE
    ensures h.NewSlot(addr, bucket) == (bucket, h.BucketPosition(addr, true, bucket))
    ensures ADDRMAN_NEW_BUCKET_COUNT == 1024
  {
  }

  /** id does not occur in the n buckets from `start` on. */
  ghost predicate AbsentFrom(h: Hashes, news: Table, id: int, addr: Service, start: int, n: int) {
    forall b :: 0 <= b < ADDRMAN_NEW_BUCKET_COUNT && (b - start) % ADDRMAN_NEW_BUCKET_COUNT < n ==> Absent(h, news, id, addr, b)
  }

  ghost predicate Absent(h: Hashes, news: Table, id: int, addr: Service, bucket: int) {
    h.NewSlot(addr, bucket) in news ==> news[h.NewSlot(addr, bucket)] != id
  }

  lemma AbsentNone(h: Hashes, news: Table, id: int, addr: Service, start: int)
    ensures AbsentFrom(h, news, id, addr, start, 0)
  {
  }

  lemma AbsentStep(h: Hashes, news: Table, news': Table, id: int, addr: Service, start: int, n: int)
    requires AbsentFrom(h, news, id, addr, start, n) && 0 <= n < ADDRMAN_NEW_BUCKET_COUNT && 0 <= start < ADDRMAN_NEW_BUCKET_COUNT
    requires var slot := h.NewSlot(addr, (start + n) % ADDRMAN_NEW_BUCKET_COUNT);
             if slot in news && news[slot] == id then news' == news - {slot} else news' == news
    ensures AbsentFrom(h, news', id, addr, start, n + 1)
  {
    hide Hashes.NewSlot;
    forall b | 0 <= b < ADDRMAN_NEW_BUCKET_COUNT && (b - start) % ADDRMAN_NEW_BUCKET_COUNT < n + 1
      ensures Absent(h, news', id, addr, b)
    {
      if (b - start) % ADDRMAN_NEW_BUCKET_COUNT < n {
        assert Absent(h, news, id, addr, b);
      } else {
        assert b == (start + n) % ADDRMAN_NEW_BUCKET_COUNT;
      }
    }
  }

  /** An entry that is in none of the buckets has no reference. */
  lemma NowhereNew(h: Hashes, s: State, id: int, start: int)
    requires Tables(h, s) && id in s.infos && 0 <= start < ADDRMAN_NEW_BUCKET_COUNT
    requires AbsentFrom(h, s.news, id, s.infos[id].addr, start, ADDRMAN_NEW_BUCKET_COUNT)
    ensures s.infos[id].refCount == 0
  {
    hide Tables, Hashes.NewSlot;
    CountFacts(h, s, id);
    forall slot | slot in s.news
      ensures s.news[slot] != id
    {
      NewFacts(h, s, slot);
      assert Absent(h, s.news, id, s.infos[id].addr, slot.0);
    }
    assert Occurrences(s.news, id) == {};
  }

  /** Another occurrence less. */
  lemma UnplacedAgain(s: State, t: State, slot: Slot, id: int)
    requires id in s.infos && id in t.infos && slot in t.news && t.news[slot] == id
    requires t == s.(infos := s.infos[id := s.infos[id].(refCount := t.infos[id].refCount)], news := t.news)
    ensures var u := Unplace(t, slot);
            u == s.(infos := s.infos[id := s.infos[id].(refCount := u.infos[id].refCount)], news := t.news - {slot})
  {
    var u := Unplace(t, slot);
    assert u.infos == s.infos[id := s.infos[id].(refCount := u.infos[id].refCount)];
  }

  lemma DeletedIs(s: State, id: int)
    requires Index(s) && id in s.infos
    ensures var i, n := s.infos[id].randomPos, |s.random| - 1;
            && 0 <= i < |s.random| && s.random[i] in s.infos && s.random[n] in s.infos
            && var t := Swap(s, i, n);
               && |t.random| == n + 1 && t.random[n] == id && id in t.infos && t.infos[id].addr == s.infos[id].addr
               && Deleted(s, id) == DropLast(t)
  {
    hide Index, Swap;
    LastAfterSwap(s, id);
    SwapIndex(s, s.infos[id].randomPos, |s.random| - 1);
  }

  lemma SwapIs(s: State, i: nat, j: nat)
    requires i < |s.random| && j < |s.random| && s.random[i] in s.infos && s.random[j] in s.infos
    ensures i == j ==> Swap(s, i, j) == s
    ensures i != j ==> var a, b := s.random[i], s.random[j];
                       var infos := s.infos[a := s.infos[a].(randomPos := j)];
                       Swap(s, i, j) == State(infos[b := infos[b].(randomPos := i)], s.addrs, s.random[i := b][j := a], s.news, s.tried)
  {
  }

  lemma CreateIs(s: State, id: int, info: AddrInfo)
    ensures AddrTables.Create(s, id, info)
         == State(s.infos[id := info][id := info.(randomPos := |s.random|)], s.addrs[info.addr := id], s.random + [id], s.news, s.tried)
  {
    assert s.infos[id := info][id := info.(randomPos := |s.random|)] == s.infos[id := info.(randomPos := |s.random|)];
  }

  lemma ClearedIs(h: Hashes, s: State, slot: Slot)
    requires Index(s) && Tables(h, s)
    ensures slot !in s.news ==> Cleared(h, s, slot) == s && !ClearDeletes(s, slot)
    ensures slot in s.news && s.news[slot] in s.infos ==>
            if s.infos[s.news[slot]].refCount == 1
            then Index(Unplace(s, slot)) && Cleared(h, s, slot) == Deleted(Unplace(s, slot), s.news[slot]) && ClearDeletes(s, slot)
            else Cleared(h, s, slot) == Unplace(s, slot) && !ClearDeletes(s, slot)
  {
    hide Index, Tables, Deleted;
    if slot in s.news {
      UnplaceKeeps(h, s, slot);
    }
  }

  lemma DemoteIs(h: Hashes, s: State, e: int)
    requires e in s.infos
    ensures Demote(h, s, e) == State(s.infos[e := s.infos[e].(inTried := false)], s.addrs, s.random, s.news, s.tried - {h.TriedSlot(s.infos[e].addr)})
  {
  }

  lemma PlaceIs(s: State, slot: Slot, e: int)
    requires e in s.infos
    ensures Place(s, slot, e) == State(s.infos[e := s.infos[e].(refCount := s.infos[e].refCount + 1)], s.addrs, s.random, s.news[slot := e], s.tried)
  {
  }

  lemma CountedTried(c: Counters, was: Counters, network: int, d: int)
    requires var n := CountOf(was.networkCounts, network);
             c == Counters(was.nNew, was.nTried + d, was.networkCounts[network := NewTriedCount(n.nNew, n.nTried + d)])
    ensures c == AddToTried(was, network, d)
  {
  }

  /** The entry id is about to leave the new table: it has no occurrence there and is counted no more. */
  ghost predicate Leaving(s: State, c: Counters, id: int) {
    && id in s.infos && !s.infos[id].inTried && s.infos[id].refCount == 0 && FineBut(s.infos, {id})
    && Tally(c, NewMembers(s.infos) - {MemberOf(s.infos, id)}, TriedMembers(s.infos))
  }

  lemma LeavingParts(s: State, c: Counters, id: int)
    requires Leaving(s, c, id)
    ensures id in s.infos && !s.infos[id].inTried && s.infos[id].refCount == 0 && FineBut(s.infos, {id})
    ensures MemberOf(s.infos, id) in NewMembers(s.infos) && MemberOf(s.infos, id).0 == id
    ensures Tally(c, NewMembers(s.infos) - {MemberOf(s.infos, id)}, TriedMembers(s.infos))
  {
    IsMember(s.infos, MemberOf(s.infos, id));
  }

  lemma EvictedLeaving(h: Hashes, s: State, s1: State, s2: State, e: int, at: Slot, id: int, c: Counters)
    requires e in s.infos && s.infos[e].inTried && s1 == Demote(h, s, e) && Tables(h, s1) && ClearedFrom(s1, s2, at) && e in s2.infos
    requires id in s.infos && !s.infos[id].inTried && s.infos[id].refCount == 0
    requires FineBut(Place(s2, at, e).infos, {id})
    requires Tally(c, NewMembers(s2.infos) - {MemberOf(s.infos, id)}, TriedMembers(s2.infos))
    ensures Leaving(Place(s2, at, e), c, id)
    ensures at !in s2.news && s2.tried == s1.tried
  {
    hide Tables, ClearDeletes, FineBut, NewMembers, TriedMembers, Tally;
    if at in s1.news {
      NotHeld(h, s1, at, id);
    }
    assert id in s2.infos.Keys by {
      Undeleted(s1, at, id);
    }
    var s3 := Place(s2, at, e);
    SameMembers(s2.infos, s3.infos);
  }

  lemma PromoteIs(h: Hashes, s: State, id: int)
    requires id in s.infos
    ensures Promote(h, s, id) == State(s.infos[id := s.infos[id].(inTried := true)], s.addrs, s.random, s.news, s.tried[h.TriedSlot(s.infos[id].addr) := id])
  {
  }

  /** All entries are fine, and the counters are exact. */
  ghost predicate Counted(s: State, c: Counters) {
    AllFine(s.infos) && Tally(c, NewMembers(s.infos), TriedMembers(s.infos))
  }

  lemma StartLeaving(s: State, s1: State, c: Counters, id: int)
    requires Counted(s, c) && id in s.infos && !s.infos[id].inTried
    requires s1 == s.(infos := s.infos[id := s.infos[id].(refCount := 0)], news := s1.news)
    ensures Leaving(s1, AddToNew(c, s.infos[id].addr.network, -1), id) && Kept(s.infos, s1.infos) && s1.tried == s.tried
  {
    hide Tally, NewMembers, TriedMembers, Fine;
    SameMembers(s.infos, s1.infos);
    var m := MemberOf(s1.infos, id);
    IsMember(s1.infos, m);
    var n := NewMembers(s1.infos);
    assert n == (n - {m}) + {m};
    TallyNew(c, n - {m}, TriedMembers(s1.infos), m);
    forall q | q in s1.infos && q !in {id}
      ensures Fine(s1.infos[q])
    {
      assert s1.infos[q] == s.infos[q];
    }
  }

  lemma KeptReflexive(a: map<int, AddrInfo>)
    ensures Kept(a, a)
  {
  }

  lemma NoSlot(t: Table, slot: Slot, id: int)
    ensures slot !in t ==> t - {slot} == t
    ensures (t - {slot})[slot := id] == t[slot := id]
  {
  }

  lemma NotTried(h: Hashes, s: State, slot: Slot, id: int)
    requires Tables(h, s) && id in s.infos && !s.infos[id].inTried
    ensures slot in s.tried ==> s.tried[slot] != id
  {
    hide Tables;
    if slot in s.tried {
      TriedFacts(h, s, slot);
    }
  }

  lemma TriedRange(h: Hashes, addr: Service)
    ensures 0 <= h.TriedSlot(addr).0 < ADDRMAN_TRIED_BUCKET_COUNT && 0 <= h.TriedSlot(addr).1 < ADDRMAN_BUCKET_SIZE
  {
  }

  lemma Promoted(h: Hashes, s: State, s2: State, c: Counters, c2: Counters, id: int)
    requires Counted(s, c) && Leaving(s2, c2, id) && Kept(s.infos, s2.infos) && id in s.infos && s.infos[id].lastSuccess > 0
    ensures var s3 := Promote(h, s2, id);
            && Counted(s3, AddToTried(c2, s2.infos[id].addr.network, 1)) && Kept(s.infos, s3.infos)
            && s2.infos[id].addr == s.infos[id].addr && id in s3.infos && s3.infos[id].inTried
            && s3.tried == s2.tried[h.TriedSlot(s2.infos[id].addr) := id]
  {
    hide Tally, NewMembers, TriedMembers, Hashes.TriedSlot;
    var s3 := Promote(h, s2, id);
    var m := MemberOf(s2.infos, id);
    assert SameRecord(s.infos[id], s2.infos[id]);
    assert Fine(s.infos[id]);
    MembersMoved(s2.infos, id, s3.infos[id]);
    TallyTried(c2, NewMembers(s2.infos) - {m}, TriedMembers(s2.infos), m);
    forall q | q in s3.infos
      ensures Fine(s3.infos[q])
    {
      assert q != id ==> Fine(s2.infos[q]);
    }
    forall q | q in s3.infos
      ensures q in s.infos && SameRecord(s.infos[q], s3.infos[q])
    {
      assert SameRecord(s.infos[q], s2.infos[q]);
    }
  }

  const ADDRMAN_SET_TRIED_COLLISION_SIZE := 10

  /** Ids are below the id counter, and recorded collisions are with occupied tried slots. */
  ghost predicate Recorded(h: Hashes, s: State, collisions: set<int>, idCount: int) {
    && (forall id :: id in s.infos ==> id < idCount)
    && |collisions| <= ADDRMAN_SET_TRIED_COLLISION_SIZE
    && (forall id :: id in collisions ==> id < idCount && (id in s.infos ==> h.TriedSlot(s.infos[id].addr) in s.tried))
  }

  /** The two entries differ only in their times and attempts. */
  ghost predicate SameRole(a: AddrInfo, b: AddrInfo) {
    b == a.(services := b.services, time := b.time, lastTry := b.lastTry, lastCountAttempt := b.lastCountAttempt, lastSuccess := b.lastSuccess, attempts := b.attempts)
  }

  lemma TouchRole(a: AddrInfo, b: AddrInfo)
    requires SameRole(a, b)
    ensures SameSite(b, a) && b.refCount == a.refCount && b.randomPos == a.randomPos && a.addr == b.addr
  {
  }

  lemma TouchCounted(h: Hashes, s: State, c: Counters, id: int, info: AddrInfo, collisions: set<int>, idCount: int)
    requires Counted(s, c) && Recorded(h, s, collisions, idCount) && id in s.infos && SameSite(info, s.infos[id]) && Fine(info)
    ensures var s' := s.(infos := s.infos[id := info]);
            Counted(s', c) && Recorded(h, s', collisions, idCount)
  {
    hide Tally, NewMembers, TriedMembers, Hashes.TriedSlot, Fine;
    SameMembers(s.infos, s.infos[id := info]);
  }

  lemma NowGood(h: Hashes, s: State, c: Counters, id: int, time: int)
    requires Counted(s, c) && id in s.infos && time > 0
    ensures var info := s.infos[id].(lastSuccess := time, lastTry := time, attempts := 0);
            SameRole(s.infos[id], info) && Fine(info)
  {
    assert Fine(s.infos[id]);
  }

  lemma GoodCases(h: Hashes, s: State, addr: Service, time: int, testBeforeEvict: bool)
    requires Index(s)
    ensures Known(s, addr) <==> addr in s.addrs
    ensures addr !in s.addrs ==> Greeted(s, addr, time) == s && !Moves(h, s, addr, testBeforeEvict) && !Blocked(h, s, addr, testBeforeEvict)
    ensures addr in s.addrs ==>
      && s.addrs[addr] in s.infos && s.infos[s.addrs[addr]].addr == addr && IdOf(s, 0, addr) == s.addrs[addr]
      && Greeted(s, addr, time) == s.(infos := s.infos[s.addrs[addr] := s.infos[s.addrs[addr]].(lastSuccess := time, lastTry := time, attempts := 0)])
      && (Moves(h, s, addr, testBeforeEvict) <==> !s.infos[s.addrs[addr]].inTried && !(testBeforeEvict && h.TriedSlot(addr) in s.tried))
      && (Blocked(h, s, addr, testBeforeEvict) <==> !s.infos[s.addrs[addr]].inTried && testBeforeEvict && h.TriedSlot(addr) in s.tried)
  {
    hide Hashes.TriedSlot;
  }

  lemma MetIs(info: AddrInfo, time: int)
    ensures Met(info, time) == if time - info.time > 20 * 60 then info.(time := time) else info
  {
  }

  lemma AttemptedIs(info: AddrInfo, countFailure: bool, time: int, lastGood: int)
    ensures Attempted(info, countFailure, time, lastGood)
         == if countFailure && info.lastCountAttempt < lastGood
            then info.(lastTry := time).(lastCountAttempt := time, attempts := info.attempts + 1) else info.(lastTry := time)
  {
  }

  /** Of all recorded collisions, those in order have been treated once each; left are the others, and those that wait. */
  ghost predicate Treated(order: seq<nat>, all: set<nat>, todo: set<nat>, left: set<nat>, waiting: set<nat>) {
    && todo <= all && (forall id :: id in order <==> id in all - todo)
    && (forall i, j :: 0 <= i < j < |order| ==> order[i] != order[j])
    && left == todo + waiting && todo !! waiting
  }

  lemma TreatedNone(all: set<nat>)
    ensures Treated([], all, all, all, {})
  {
  }

  lemma TreatedNext(order: seq<nat>, all: set<nat>, todo: set<nat>, left: set<nat>, waiting: set<nat>, id: nat, waits: bool)
    requires Treated(order, all, todo, left, waiting) && id in todo
    ensures id in left
    ensures Treated(order + [id], all, todo - {id}, if waits then left else left - {id}, waiting + if waits then {id} else {})
  {
    assert id !in order;
  }

  /** The verdict, where the occupant is known to exist. */
  lemma Judgement(h: Hashes, s: State, id: int, now: int, isValid: Service -> bool)
    ensures id !in s.infos || !isValid(s.infos[id].addr) ==> Judge(h, s, id, now, isValid) == Drop
    ensures Judge(h, s, id, now, isValid) != Replace ==> Resolved(h, s, s, id, now, isValid)
    ensures id in s.infos ==> !Blocked(h, s, s.infos[id].addr, false)
    ensures id in s.infos && isValid(s.infos[id].addr) && h.TriedSlot(s.infos[id].addr) in s.tried && s.tried[h.TriedSlot(s.infos[id].addr)] in s.infos ==>
      var occupant := s.infos[s.tried[h.TriedSlot(s.infos[id].addr)]];
      Judge(h, s, id, now, isValid) ==
        if now - occupant.lastSuccess < ADDRMAN_REPLACEMENT then Drop
        else if now - occupant.lastTry < ADDRMAN_REPLACEMENT then
          if now - occupant.lastTry > 60 then Replace else Wait
        else if now - s.infos[id].lastSuccess > ADDRMAN_TEST_WINDOW then Replace
        else Wait
  {
    hide Hashes.TriedSlot, MovedToTried, Greeted;
  }

  lemma Replaced(h: Hashes, s: State, t: State, id: int, now: int, isValid: Service -> bool, moved: bool)
    requires Index(s) && id in s.infos && Judge(h, s, id, now, isValid) == Replace
    requires moved <==> Moves(h, s, s.infos[id].addr, false)
    requires !moved ==> t == Greeted(s, s.infos[id].addr, now)
    requires moved ==> s.infos[id].addr in s.addrs && MovedToTried(h, Greeted(s, s.infos[id].addr, now), t, s.addrs[s.infos[id].addr])
    ensures Resolved(h, s, t, id, now, isValid)
  {
    hide Hashes.TriedSlot, MovedToTried, Greeted, Judge, Index;
    AddressOf(s, id);
  }

  lemma StillReferenced(s: State, c: Counters, id: int)
    requires Counted(s, c) && id in s.infos && !s.infos[id].inTried
    ensures s.infos[id].refCount > 0
  {
    assert Fine(s.infos[id]);
  }

  lemma RecordCollision(h: Hashes, s: State, collisions: set<int>, idCount: int, id: int)
    requires Recorded(h, s, collisions, idCount) && id in s.infos
    ensures |collisions| < ADDRMAN_SET_TRIED_COLLISION_SIZE && h.TriedSlot(s.infos[id].addr) in s.tried ==> Recorded(h, s, collisions + {id}, idCount)
  {
    hide Hashes.TriedSlot;
  }

  /** Recorded collisions survive changes that keep the records and fill tried slots. */
  lemma MadeTried(h: Hashes, s: State, s': State, collisions: set<int>, idCount: int, id: int, slot: Slot)
    requires Index(s') && Recorded(h, s, collisions, idCount) && Kept(s.infos, s'.infos) && s'.tried == s.tried[slot := id]
    requires id in s'.infos
    ensures Recorded(h, s', collisions, idCount) && s.tried.Keys <= s'.tried.Keys
    ensures s'.infos[id].addr in s'.addrs && s'.addrs[s'.infos[id].addr] == id && s'.infos[id].addr == s.infos[id].addr
  {
    hide Hashes.TriedSlot;
    assert SameRecord(s.infos[id], s'.infos[id]);
    forall q | q in collisions
      ensures q < idCount && (q in s'.infos ==> h.TriedSlot(s'.infos[q].addr) in s'.tried)
    {
      assert q in s'.infos ==> SameRecord(s.infos[q], s'.infos[q]);
    }
    forall q | q in s'.infos
      ensures q < idCount
    {
      assert SameRecord(s.infos[q], s'.infos[q]);
    }
  }

  lemma NowTried(s: State, c: Counters, id: int, info: AddrInfo)
    requires Counted(s, c) && id in s.infos && (info.lastTry >= 0 || info.lastTry == s.infos[id].lastTry)
    requires info == s.infos[id].(services := info.services, time := info.time, lastTry := info.lastTry, lastCountAttempt := info.lastCountAttempt, attempts := info.attempts)
    ensures SameRole(s.infos[id], info) && Fine(info)
  {
    assert Fine(s.infos[id]);
  }

  /** An entry of the new table, possibly without any slot yet, that may get one more. */
  ghost predicate Pending(s: State, c: Counters, id: int) {
    && id in s.infos && !s.infos[id].inTried && 0 <= s.infos[id].refCount < ADDRMAN_NEW_BUCKETS_PER_ADDRESS
    && s.infos[id].lastTry >= 0 && s.infos[id].lastSuccess >= 0
    && FineBut(s.infos, {id}) && Tally(c, NewMembers(s.infos), TriedMembers(s.infos))
  }

  lemma PendingParts(s: State, c: Counters, id: int)
    requires Pending(s, c, id)
    ensures id in s.infos && !s.infos[id].inTried && 0 <= s.infos[id].refCount
  {
  }

  lemma PendingDone(s: State, c: Counters, id: int)
    requires Pending(s, c, id) && s.infos[id].refCount > 0
    ensures Counted(s, c)
  {
    hide Tally, NewMembers, TriedMembers;
    forall q | q in s.infos
      ensures Fine(s.infos[q])
    {
    }
  }

  lemma StillPending(s: State, c: Counters, id: int)
    requires Counted(s, c) && id in s.infos && !s.infos[id].inTried && s.infos[id].refCount != ADDRMAN_NEW_BUCKETS_PER_ADDRESS
    ensures Pending(s, c, id)
  {
    hide Tally, NewMembers, TriedMembers;
    assert Fine(s.infos[id]);
  }

  lemma Occupying(h: Hashes, s: State, c: Counters, slot: Slot, id: int)
    requires Tables(h, s) && Pending(s, c, id) && slot in s.news && s.news[slot] == id
    ensures Counted(s, c) && s.infos[id].refCount > 0
  {
    hide Tally, Tables, FineBut;
    CountFacts(h, s, id);
    assert slot in Occurrences(s.news, id);
    PendingDone(s, c, id);
  }

  lemma CreatedPending(h: Hashes, s: State, c: Counters, id: int, info: AddrInfo, collisions: set<int>)
    requires Counted(s, c) && Recorded(h, s, collisions, id)
    requires !info.inTried && info.refCount == 0 && info.lastTry == 0 && info.lastSuccess == 0
    ensures id !in s.infos && Pending(AddrTables.Create(s, id, info), AddToNew(c, info.addr.network, 1), id)
    ensures Recorded(h, AddrTables.Create(s, id, info), collisions, id + 1)
  {
    hide Tally, NewMembers, TriedMembers, Hashes.TriedSlot;
    var s' := AddrTables.Create(s, id, info);
    MembersWith(s.infos, id, s'.infos[id]);
    TallyNew(c, NewMembers(s.infos), TriedMembers(s.infos), (id, info.addr.network));
    forall q | q in s'.infos && q !in {id}
      ensures Fine(s'.infos[q])
    {
      assert Fine(s.infos[q]);
    }
  }

  lemma ClearedPending(h: Hashes, s: State, s1: State, slot: Slot, c: Counters, id: int)
    requires Tables(h, s) && ClearedFrom(s, s1, slot) && Pending(s, c, id) && !(slot in s.news && s.news[slot] == id)
    ensures Pending(s1, if ClearDeletes(s, slot) then AddToNew(c, s.infos[s.news[slot]].addr.network, -1) else c, id)
    ensures slot !in s1.news && id in s1.infos && s1.infos[id].addr == s.infos[id].addr
  {
    hide Tally, NewMembers, TriedMembers, Tables, FineBut, ClearDeletes;
    Undeleted(s, slot, id);
    assert id in s1.infos.Keys;
    ClearedFine(h, s, s1, slot, {id});
    ClearedMembers(h, s, s1, slot);
    if ClearDeletes(s, slot) {
      DeletesWhat(s, slot);
      ClearedTally(s, slot, c, NewMembers(s.infos), TriedMembers(s.infos));
    }
  }

  lemma PlacedPending(h: Hashes, s1: State, slot: Slot, c: Counters, id: int, collisions: set<int>, idCount: int, s: State)
    requires Pending(s1, c, id) && ClearedFrom(s, s1, slot) && Recorded(h, s, collisions, idCount)
    ensures Counted(Place(s1, slot, id), c) && Recorded(h, Place(s1, slot, id), collisions, idCount) && Place(s1, slot, id).tried == s.tried
    ensures Kept(s.infos, Place(s1, slot, id).infos)
  {
    hide Tally, NewMembers, TriedMembers, Hashes.TriedSlot, ClearDeletes;
    var s' := Place(s1, slot, id);
    SameMembers(s1.infos, s'.infos);
    forall q | q in s'.infos
      ensures Fine(s'.infos[q])
    {
      assert q != id ==> Fine(s1.infos[q]);
    }
    ClearedKept(s, s1, slot);
    KeptPlaced(s1, slot, id);
    KeptTransitive(s.infos, s1.infos, s'.infos);
    KeptRecorded(h, s, s', collisions, idCount);
  }

  lemma KeptRecorded(h: Hashes, s: State, s': State, collisions: set<int>, idCount: int)
    requires Recorded(h, s, collisions, idCount) && Kept(s.infos, s'.infos) && s.tried.Keys <= s'.tried.Keys
    ensures Recorded(h, s', collisions, idCount)
  {
    hide Hashes.TriedSlot;
    forall q | q in collisions
      ensures q < idCount && (q in s'.infos ==> h.TriedSlot(s'.infos[q].addr) in s'.tried)
    {
      assert q in s'.infos ==> SameRecord(s.infos[q], s'.infos[q]);
      assert q in s'.infos ==> h.TriedSlot(s.infos[q].addr) in s.tried.Keys;
    }
    forall q | q in s'.infos
      ensures q < idCount
    {
      assert SameRecord(s.infos[q], s'.infos[q]);
    }
  }

  lemma DeletedPending(h: Hashes, s: State, c: Counters, id: int, collisions: set<int>, idCount: int)
    requires Index(s) && Tables(h, s) && Pending(s, c, id) && s.infos[id].refCount == 0 && Recorded(h, s, collisions, idCount)
    ensures Index(Deleted(s, id)) && Tables(h, Deleted(s, id)) && Deleted(s, id).tried == s.tried
    ensures Counted(Deleted(s, id), AddToNew(c, s.infos[id].addr.network, -1)) && Recorded(h, Deleted(s, id), collisions, idCount)
  {
    hide Tally, NewMembers, TriedMembers, Tables, Index, Deleted, Hashes.TriedSlot;
    DeletedKeeps(h, s, id);
    var s' := Deleted(s, id);
    var rest := s.infos - {id};
    forall q | q in s'.infos
      ensures q in rest && Fine(s'.infos[q]) && SameRecord(s.infos[q], s'.infos[q])
    {
      assert q in rest && s'.infos[q] == rest[q].(randomPos := s'.infos[q].randomPos);
      assert Fine(s.infos[q]);
    }
    assert rest[id := s.infos[id]] == s.infos;
    SameMembers(rest, s'.infos);
    MembersWith(rest, id, s.infos[id]);
    TallyNew(c, NewMembers(rest), TriedMembers(rest), (id, s.infos[id].addr.network));
    KeptRecorded(h, s, s', collisions, idCount);
  }

  lemma AdmitsIs(h: Hashes, s: State, slot: Slot, id: int, now: int)
    requires Tables(h, s) && id in s.infos
    ensures slot in s.news ==> s.news[slot] in s.infos
    ensures Admits(s, slot, id, now) <==> slot in s.news ==>
      && s.news[slot] != id
      && (IsTerrible(s.infos[s.news[slot]], now) || (s.infos[s.news[slot]].refCount > 1 && s.infos[id].refCount == 0))
  {
    hide IsTerrible, Tables;
    if slot in s.news {
      NewFacts(h, s, slot);
    }
  }

  lemma AgedIs(info: AddrInfo, services: set<nat>, time: int, penalty: int, now: int)
    ensures Aged(info, services, time, penalty, now) ==
      info.(time := if info.time < time - (if now - time < 24 * 3600 then 3600 else 24 * 3600) - penalty
                    then (if time - penalty > 0 then time - penalty else 0) else info.time,
            services := info.services + services)
  {
  }

  lemma WorthwhileIs(info: AddrInfo, time: int, lucky: bool)
    ensures Worthwhile(info, time, lucky) <==>
      !(time <= info.time || info.inTried || info.refCount == ADDRMAN_NEW_BUCKETS_PER_ADDRESS) && !(info.refCount > 0 && !lucky)
  {
  }

  lemma FirstHeardIs(addr: Service, services: set<nat>, source: int, time: int, penalty: int)
    ensures FirstHeard(addr, services, source, time, penalty)
         == AddrInfo(addr, services, source, if time - penalty > 0 then time - penalty else 0, 0, 0, 0, 0, 0, false, -1)
  {
  }

  lemma HeardIs(h: Hashes, s: State, idCount: int, addr: Service, services: set<nat>, source: int, time: int, penalty: int, now: int, lucky: bool)
    requires Index(s)
    ensures var g, id := Heard(s, idCount, addr, services, source, time, penalty, now), IdOf(s, idCount, addr);
            && (addr in s.addrs ==> id == s.addrs[addr] && id in s.infos && s.infos[id].addr == addr
                                    && g == s.(infos := s.infos[id := Aged(s.infos[id], services, time, penalty, now)]))
            && (addr !in s.addrs ==> id == idCount && g == AddrTables.Create(s, idCount, FirstHeard(addr, services, source, time, penalty)))
            && (Inserts(h, s, idCount, addr, services, source, time, penalty, now, lucky) <==>
                  && (addr in s.addrs ==> Worthwhile(g.infos[id], time, lucky))
                  && Admits(g, h.NewSlot(addr, h.NewBucket(addr, source)), id, now))
  {
    hide Hashes.NewSlot, Hashes.NewBucket, Admits, Worthwhile, Aged, AddrTables.Create, FirstHeard;
  }

  /** Deleting the entry that was created last restores the state. */
  lemma CreateDeleted(s: State, id: int, info: AddrInfo)
    requires Index(s) && id !in s.infos && info.addr !in s.addrs && Index(AddrTables.Create(s, id, info))
    ensures id in AddrTables.Create(s, id, info).infos && Deleted(AddrTables.Create(s, id, info), id) == s
  {
    hide Index, Swap, Deleted;
    var t := AddrTables.Create(s, id, info);
    DeletedIs(t, id);
    SwapIs(t, |s.random|, |s.random|);
    assert t.infos - {id} == s.infos && t.addrs - {info.addr} == s.addrs && t.random[..|s.random|] == s.random;
  }

  lemma AddressOf(s: State, id: int)
    requires Index(s) && id in s.infos
    ensures s.infos[id].addr in s.addrs && s.addrs[s.infos[id].addr] == id
  {
  }

  lemma SomeMember(ids: set<nat>)
    requires ids != {}
    ensures exists id :: id in ids
  {
  }

  method NewTable(buckets: nat) returns (a: array2<int>)
    ensures fresh(a) && a.Length0 == buckets && a.Length1 == ADDRMAN_BUCKET_SIZE && TableOf(a) == map[] && Cells(a)
  {
    a := new int[buckets, ADDRMAN_BUCKET_SIZE]((_, _) => -1);
    EmptyTable(a);
  }

  lemma EmptyTable(a: array2<int>)
    requires forall b, p :: 0 <= b < a.Length0 && 0 <= p < a.Length1 ==> a[b, p] == -1
    ensures TableOf(a) == map[] && Cells(a)
  {
    assert forall slot :: slot !in TableOf(a);
  }

  lemma EmptyState(h: Hashes)
    ensures var s := State(map[], map[], [], map[], map[]);
            Index(s) && Tables(h, s) && Counted(s, Counters(0, 0, map[])) && Recorded(h, s, {}, 0)
    ensures ADDRMAN_NEW_BUCKET_COUNT == 1024 && ADDRMAN_TRIED_BUCKET_COUNT == 256 && ADDRMAN_BUCKET_SIZE == 64
  {
    hide Tally, Hashes.TriedSlot;
    EmptyTally();
  }

  lemma EmptyTally()
    ensures Tally(Counters(0, 0, map[]), NewMembers(map[]), TriedMembers(map[]))
  {
    assert NewMembers(map[]) == {} && TriedMembers(map[]) == {};
    assert forall network :: InNetwork({}, network) == {};
  }

  lemma InTableIs(a: array2<int>, slot: Slot)
    ensures InTable(a, slot) <==> 0 <= slot.0 < a.Length0 && 0 <= slot.1 < a.Length1
  {
  }

  lemma CollisionSlot(h: Hashes, s: State, collisions: set<int>, idCount: int, id: int)
    requires Recorded(h, s, collisions, idCount) && id in collisions && id in s.infos
    ensures h.TriedSlot(s.infos[id].addr) in s.tried
  {
  }

  lemma DropCollision(h: Hashes, s: State, collisions: set<int>, idCount: int, id: int)
    requires Recorded(h, s, collisions, idCount) && id in collisions
    ensures Recorded(h, s, collisions - {id}, idCount)
  {
    assert |collisions - {id}| == |collisions| - 1;
  }

  /** r is the address, and the time of the last try, of the entry in the tried slot of id. */
  ghost predicate Collides(h: Hashes, s: State, id: int, r: (Service, int)) {
    && id in s.infos && h.TriedSlot(s.infos[id].addr) in s.tried
    && var e := s.tried[h.TriedSlot(s.infos[id].addr)];
       e in s.infos && s.infos[e].inTried && r == (s.infos[e].addr, s.infos[e].lastTry)
  }

  lemma CollidesIs(h: Hashes, s: State, id: int, r: (Service, int))
    requires id in s.infos && h.TriedSlot(s.infos[id].addr) in s.tried
    requires var e := s.tried[h.TriedSlot(s.infos[id].addr)];
             e in s.infos && s.infos[e].inTried && r == (s.infos[e].addr, s.infos[e].lastTry)
    ensures Collides(h, s, id, r)
  {
  }

  // ---------- drawing addresses ----------

  lemma SuitsIs(info: AddrInfo, f: Filter)
    ensures Suits(info, f) <==> !((f.network.Some? && info.addr.network != f.network.value) || (f.filtered && IsTerrible(info, f.now)))
  {
    hide IsTerrible;
  }

  lemma LimitIs(n: nat, maxAddresses: nat, maxPct: nat)
    ensures var k := if maxPct != 0 then (if maxPct > 100 then 100 else maxPct) * n / 100 else n;
            Limit(n, maxAddresses, maxPct) == if maxAddresses != 0 && maxAddresses < k then maxAddresses else k
  {
  }

  lemma SamePlaces(infos: map<int, AddrInfo>)
    ensures Repositioned(infos, infos)
  {
  }

  lemma RepositionedAgain(a: map<int, AddrInfo>, b: map<int, AddrInfo>, c: map<int, AddrInfo>)
    requires Repositioned(a, b) && Repositioned(b, c)
    ensures Repositioned(a, c)
  {
  }

  lemma PctBound(pct: nat, n: nat)
    requires pct <= 100
    ensures 0 <= pct * n / 100 <= n
  {
  }

  /** Shuffling keeps everything. */
  lemma Shuffled(h: Hashes, s: State, c: Counters, n: nat, pos: nat, collisions: set<int>, idCount: int)
    requires Index(s) && Tables(h, s) && Counted(s, c) && Recorded(h, s, collisions, idCount)
    requires n <= pos < |s.random|
    ensures s.random[n] in s.infos && s.random[pos] in s.infos
    ensures var t := Swap(s, n, pos);
            && Index(t) && Tables(h, t) && Counted(t, c) && Recorded(h, t, collisions, idCount)
            && |t.random| == |s.random| && Repositioned(s.infos, t.infos)
  {
    hide Index, Tables, Tally, NewMembers, TriedMembers, Hashes.TriedSlot, Swap;
    SwapKeeps(h, s, n, pos);
    SwapTables(s, n, pos);
    var t := Swap(s, n, pos);
    assert SameSites(s.infos, t.infos);
    SameMembers(s.infos, t.infos);
    assert Kept(s.infos, t.infos);
    KeptRecorded(h, s, t, collisions, idCount);
  }

  lemma DropLastIs(t: State, s: State, id: int)
    requires t.random != [] && t.random[|t.random| - 1] == id && id in t.infos
    requires s == State(t.infos - {id}, t.addrs - {t.infos[id].addr}, t.random[..|t.random| - 1], t.news, t.tried)
    ensures s == DropLast(t)
  {
  }

  lemma CountedNew(c: Counters, was: Counters, network: int, d: int)
    requires var n := CountOf(was.networkCounts, network);
             c == Counters(was.nNew + d, was.nTried, was.networkCounts[network := NewTriedCount(n.nNew + d, n.nTried)])
    ensures c == AddToNew(was, network, d)
  {
  }
}
