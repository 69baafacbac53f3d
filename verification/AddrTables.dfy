/**
  The indexes of the address manager (src/addrman_impl.h:105-240) as values, and the
  elementary changes made to them (src/addrman.cpp:416-548).

  Ids, addresses, the shuffled list and the two bucket tables must agree. A table maps the
  occupied slots to ids; a slot is a bucket and a position.
*/
module AddrTables {

  datatype Service = Service(network: int, host: int, port: int)

  datatype AddrInfo = AddrInfo(
    addr: Service, services: set<nat>, source: int, time: int,
    lastTry: int, lastCountAttempt: int, lastSuccess: int, attempts: int,
    refCount: int, inTried: bool, randomPos: int)

  type Slot = (int, int)
  type Table = map<Slot, int>

  const ADDRMAN_TRIED_BUCKET_COUNT := 256
  const ADDRMAN_NEW_BUCKET_COUNT := 1024
  const ADDRMAN_BUCKET_SIZE := 64
  const ADDRMAN_NEW_BUCKETS_PER_ADDRESS := 8

  /** The keyed hashes behind the bucket functions. */
  datatype Hashes = Hashes(triedHash: Service -> int, newHash: (Service, int) -> int, positionHash: (Service, bool, int) -> int) {
    function TriedBucket(addr: Service): int {
      triedHash(addr) % ADDRMAN_TRIED_BUCKET_COUNT
    }

    function NewBucket(addr: Service, source: int): int {
      newHash(addr, source) % ADDRMAN_NEW_BUCKET_COUNT
    }

    function BucketPosition(addr: Service, isNew: bool, bucket: int): int {
      positionHash(addr, isNew, bucket) % ADDRMAN_BUCKET_SIZE
    }

    function TriedSlot(addr: Service): Slot {
      (TriedBucket(addr), BucketPosition(addr, false, TriedBucket(addr)))
    }

    /** The slot of an address in a new bucket. */
    function NewSlot(addr: Service, bucket: int): Slot {
      (bucket, BucketPosition(addr, true, bucket))
    }
  }

  datatype State = State(infos: map<int, AddrInfo>, addrs: map<Service, int>, random: seq<int>, news: Table, tried: Table)

  // ---------- consistency ----------

  /** Ids, addresses and the shuffled list agree. */
  ghost predicate Index(s: State) {
    && (forall id :: id in s.infos ==> id >= 0)
    && (forall id :: id in s.infos ==> s.infos[id].addr in s.addrs && s.addrs[s.infos[id].addr] == id)
    && (forall a :: a in s.addrs ==> s.addrs[a] in s.infos && s.infos[s.addrs[a]].addr == a)
    && (forall id :: id in s.infos ==> 0 <= s.infos[id].randomPos < |s.random| && s.random[s.infos[id].randomPos] == id)
    && (forall i :: 0 <= i < |s.random| ==> s.random[i] in s.infos && s.infos[s.random[i]].randomPos == i)
  }

  /** The slots of the new table that hold id. */
  ghost function Occurrences(news: Table, id: int): set<Slot> {
    set slot | slot in news && news[slot] == id
  }

  /** Every id in a table sits at its own position, and the reference counts are exact. */
  ghost predicate Tables(h: Hashes, s: State) {
    && (forall slot :: slot in s.tried ==> TriedOk(h, s, slot))
    && (forall slot :: slot in s.news ==> NewOk(h, s, slot))
    && (forall id :: id in s.infos ==> CountOk(h, s, id))
  }

  ghost predicate TriedOk(h: Hashes, s: State, slot: Slot)
    requires slot in s.tried
  {
    var id := s.tried[slot];
    id in s.infos && s.infos[id].inTried && slot == h.TriedSlot(s.infos[id].addr)
  }

  ghost predicate NewOk(h: Hashes, s: State, slot: Slot)
    requires slot in s.news
  {
    var id := s.news[slot];
    id in s.infos && !s.infos[id].inTried && slot == h.NewSlot(s.infos[id].addr, slot.0) && 0 <= slot.0 < ADDRMAN_NEW_BUCKET_COUNT
  }

  ghost predicate CountOk(h: Hashes, s: State, id: int)
    requires id in s.infos
  {
    var info := s.infos[id];
    && info.refCount == |Occurrences(s.news, id)|
    && (info.inTried ==> h.TriedSlot(info.addr) in s.tried && s.tried[h.TriedSlot(info.addr)] == id)
  }

  /** The parts of an entry that its place in the tables depends on. */
  ghost predicate SameSite(a: AddrInfo, b: AddrInfo) {
    a.addr == b.addr && a.inTried == b.inTried
  }

  lemma TriedStill(h: Hashes, s: State, s': State, slot: Slot)
    requires Tables(h, s) && slot in s.tried && slot in s'.tried && s'.tried[slot] == s.tried[slot]
    requires var id := s.tried[slot]; id in s.infos && s.infos[id].inTried ==> id in s'.infos && SameSite(s.infos[id], s'.infos[id])
    ensures TriedOk(h, s', slot)
  {
    hide Hashes.TriedSlot, Hashes.NewSlot, NewOk, CountOk;
    assert TriedOk(h, s, slot);
  }

  lemma NewStill(h: Hashes, s: State, s': State, slot: Slot)
    requires Tables(h, s) && slot in s.news && slot in s'.news && s'.news[slot] == s.news[slot]
    requires var id := s.news[slot]; id in s.infos && !s.infos[id].inTried ==> id in s'.infos && SameSite(s.infos[id], s'.infos[id])
    ensures NewOk(h, s', slot)
  {
    hide Hashes.TriedSlot, Hashes.NewSlot, TriedOk, CountOk;
    assert NewOk(h, s, slot);
  }

  lemma CountStill(h: Hashes, s: State, s': State, id: int)
    requires Tables(h, s) && id in s.infos && id in s'.infos && SameSite(s.infos[id], s'.infos[id])
    requires |Occurrences(s'.news, id)| - |Occurrences(s.news, id)| == s'.infos[id].refCount - s.infos[id].refCount
    requires var slot := h.TriedSlot(s.infos[id].addr);
             s.infos[id].inTried && slot in s.tried && s.tried[slot] == id ==> slot in s'.tried && s'.tried[slot] == id
    ensures CountOk(h, s', id)
  {
    hide Hashes.TriedSlot, Hashes.NewSlot, TriedOk, NewOk, Occurrences;
    assert CountOk(h, s, id);
  }

  lemma NewFacts(h: Hashes, s: State, slot: Slot)
    requires Tables(h, s) && slot in s.news
    ensures s.news[slot] in s.infos && !s.infos[s.news[slot]].inTried && slot in Occurrences(s.news, s.news[slot])
    ensures slot == h.NewSlot(s.infos[s.news[slot]].addr, slot.0) && 0 <= slot.0 < ADDRMAN_NEW_BUCKET_COUNT
  {
    hide Hashes.TriedSlot, Hashes.NewSlot, TriedOk, CountOk;
    assert NewOk(h, s, slot);
  }

  lemma TriedFacts(h: Hashes, s: State, slot: Slot)
    requires Tables(h, s) && slot in s.tried
    ensures s.tried[slot] in s.infos && s.infos[s.tried[slot]].inTried && slot == h.TriedSlot(s.infos[s.tried[slot]].addr)
  {
    hide Hashes.TriedSlot, Hashes.NewSlot, NewOk, CountOk;
    assert TriedOk(h, s, slot);
  }

  lemma CountFacts(h: Hashes, s: State, id: int)
    requires Tables(h, s) && id in s.infos
    ensures s.infos[id].refCount == |Occurrences(s.news, id)|
    ensures s.infos[id].inTried ==> h.TriedSlot(s.infos[id].addr) in s.tried && s.tried[h.TriedSlot(s.infos[id].addr)] == id
  {
    hide Hashes.TriedSlot, Hashes.NewSlot, NewOk, TriedOk, Occurrences;
    assert CountOk(h, s, id);
  }

  /** The index depends only on addresses and positions. */
  lemma SameIndex(s: State, s': State)
    requires Index(s) && s'.addrs == s.addrs && s'.random == s.random && s'.infos.Keys == s.infos.Keys
    requires forall q :: q in s.infos ==> s'.infos[q].addr == s.infos[q].addr && s'.infos[q].randomPos == s.infos[q].randomPos
    ensures Index(s')
  {
    forall id | id in s'.infos
      ensures s'.infos[id].addr in s'.addrs && s'.addrs[s'.infos[id].addr] == id
      ensures 0 <= s'.infos[id].randomPos < |s'.random| && s'.random[s'.infos[id].randomPos] == id
    {
      assert id in s.infos;
    }
    forall a | a in s'.addrs
      ensures s'.addrs[a] in s'.infos && s'.infos[s'.addrs[a]].addr == a
    {
      assert s.addrs[a] in s.infos;
    }
    forall i | 0 <= i < |s'.random|
      ensures s'.random[i] in s'.infos && s'.infos[s'.random[i]].randomPos == i
    {
      assert s.random[i] in s.infos;
    }
  }

  lemma SetInfoIndex(s: State, s': State, id: int, info: AddrInfo)
    requires Index(s) && id in s.infos && s'.addrs == s.addrs && s'.random == s.random && s'.infos == s.infos[id := info]
    requires info.addr == s.infos[id].addr && info.randomPos == s.infos[id].randomPos
    ensures Index(s')
  {
    hide Index;
    SameIndex(s, s');
  }

  // ---------- elementary changes ----------

  /** Other fields of an entry change. */
  lemma TouchKeeps(h: Hashes, s: State, id: int, info: AddrInfo)
    requires Index(s) && Tables(h, s) && id in s.infos && SameSite(info, s.infos[id])
    requires info.refCount == s.infos[id].refCount && info.randomPos == s.infos[id].randomPos
    ensures var s' := s.(infos := s.infos[id := info]);
            Index(s') && Tables(h, s')
  {
    hide Index, Hashes.TriedSlot, Hashes.NewSlot, TriedOk, NewOk, CountOk, Occurrences;
    var s' := s.(infos := s.infos[id := info]);
    SetInfoIndex(s, s', id, info);
    forall slot | slot in s'.tried
      ensures TriedOk(h, s', slot)
    {
      TriedStill(h, s, s', slot);
    }
    forall slot | slot in s'.news
      ensures NewOk(h, s', slot)
    {
      NewStill(h, s, s', slot);
    }
    forall q | q in s'.infos
      ensures CountOk(h, s', q)
    {
      CountStill(h, s, s', q);
    }
  }

  /** Puts id into an empty slot of the new table. */
  function Place(s: State, slot: Slot, id: int): State
    requires id in s.infos
  {
    s.(news := s.news[slot := id], infos := s.infos[id := s.infos[id].(refCount := s.infos[id].refCount + 1)])
  }

  lemma OccurrencesAdd(news: Table, slot: Slot, id: int, q: int)
    requires slot !in news
    ensures |Occurrences(news[slot := id], q)| == |Occurrences(news, q)| + if q == id then 1 else 0
  {
    var a, b := Occurrences(news, q), Occurrences(news[slot := id], q);
    forall t
      ensures t in b <==> t in a || (q == id && t == slot)
    {
    }
    assert b == if q == id then a + {slot} else a;
  }

  lemma PlaceKeeps(h: Hashes, s: State, slot: Slot, id: int)
    requires Index(s) && Tables(h, s) && id in s.infos && !s.infos[id].inTried && slot !in s.news
    requires slot == h.NewSlot(s.infos[id].addr, slot.0) && 0 <= slot.0 < ADDRMAN_NEW_BUCKET_COUNT
    ensures Index(Place(s, slot, id)) && Tables(h, Place(s, slot, id))
  {
    hide Index, Hashes.TriedSlot, Hashes.NewSlot, TriedOk, CountOk, Occurrences;
    var s' := Place(s, slot, id);
    SetInfoIndex(s, s', id, s'.infos[id]);
    forall t | t in s'.tried
      ensures TriedOk(h, s', t)
    {
      TriedStill(h, s, s', t);
    }
    forall t | t in s'.news
      ensures NewOk(h, s', t)
    {
      if t != slot {
        NewStill(h, s, s', t);
      }
    }
    forall q | q in s'.infos
      ensures CountOk(h, s', q)
    {
      OccurrencesAdd(s.news, slot, id, q);
      CountStill(h, s, s', q);
    }
  }

  /** Empties a slot of the new table. */
  function Unplace(s: State, slot: Slot): State
    requires slot in s.news && s.news[slot] in s.infos
  {
    var id := s.news[slot];
    s.(news := s.news - {slot}, infos := s.infos[id := s.infos[id].(refCount := s.infos[id].refCount - 1)])
  }

  lemma OccurrencesRemove(news: Table, slot: Slot, q: int)
    requires slot in news
    ensures |Occurrences(news - {slot}, q)| == |Occurrences(news, q)| - if q == news[slot] then 1 else 0
    ensures Occurrences(news - {slot}, q) == Occurrences(news, q) - {slot}
  {
    assert Occurrences(news - {slot}, q) == Occurrences(news, q) - {slot};
    assert slot in Occurrences(news, q) <==> q == news[slot];
  }

  lemma UnplaceKeeps(h: Hashes, s: State, slot: Slot)
    requires Index(s) && Tables(h, s) && slot in s.news
    ensures s.news[slot] in s.infos && s.infos[s.news[slot]].refCount > 0
    ensures Index(Unplace(s, slot)) && Tables(h, Unplace(s, slot))
  {
    hide Index, Hashes.TriedSlot, Hashes.NewSlot, TriedOk, NewOk, CountOk, Occurrences;
    var id := s.news[slot];
    NewFacts(h, s, slot);
    CountFacts(h, s, id);
    var s' := Unplace(s, slot);
    SetInfoIndex(s, s', id, s'.infos[id]);
    forall t | t in s'.tried
      ensures TriedOk(h, s', t)
    {
      TriedStill(h, s, s', t);
    }
    forall t | t in s'.news
      ensures NewOk(h, s', t)
    {
      NewStill(h, s, s', t);
    }
    forall q | q in s'.infos
      ensures CountOk(h, s', q)
    {
      OccurrencesRemove(s.news, slot, q);
      CountStill(h, s, s', q);
    }
  }

  /** A new entry without occurrences. */
  function Create(s: State, id: int, info: AddrInfo): State {
    s.(infos := s.infos[id := info.(randomPos := |s.random|)], addrs := s.addrs[info.addr := id], random := s.random + [id])
  }

  lemma CreateIndex(s: State, id: int, info: AddrInfo)
    requires Index(s) && id !in s.infos && id >= 0 && info.addr !in s.addrs
    ensures Index(Create(s, id, info))
  {
    var s' := Create(s, id, info);
    assert s'.random[|s.random|] == id;
    forall q | q in s'.infos
      ensures s'.infos[q].addr in s'.addrs && s'.addrs[s'.infos[q].addr] == q
      ensures 0 <= s'.infos[q].randomPos < |s'.random| && s'.random[s'.infos[q].randomPos] == q
    {
      assert q != id ==> q in s.infos && s'.infos[q] == s.infos[q];
    }
    forall a | a in s'.addrs
      ensures s'.addrs[a] in s'.infos && s'.infos[s'.addrs[a]].addr == a
    {
      assert a != info.addr ==> s.addrs[a] in s.infos;
    }
    forall i | 0 <= i < |s'.random|
      ensures s'.random[i] in s'.infos && s'.infos[s'.random[i]].randomPos == i
    {
      assert i < |s.random| ==> s.random[i] in s.infos;
    }
  }

  lemma NotPlaced(h: Hashes, s: State, id: int)
    requires Tables(h, s) && (id !in s.infos || s.infos[id].refCount == 0)
    ensures Occurrences(s.news, id) == {}
  {
    hide Hashes.TriedSlot, Hashes.NewSlot, TriedOk, NewOk, CountOk;
    if id in s.infos {
      CountFacts(h, s, id);
    } else if slot :| slot in Occurrences(s.news, id) {
      NewFacts(h, s, slot);
    }
  }

  lemma CreateKeeps(h: Hashes, s: State, id: int, info: AddrInfo)
    requires Index(s) && Tables(h, s) && id !in s.infos && id >= 0 && info.addr !in s.addrs && info.refCount == 0 && !info.inTried
    ensures Index(Create(s, id, info)) && Tables(h, Create(s, id, info))
  {
    hide Index, Hashes.TriedSlot, Hashes.NewSlot, TriedOk, NewOk, Occurrences;
    var s' := Create(s, id, info);
    CreateIndex(s, id, info);
    NotPlaced(h, s, id);
    forall t | t in s'.tried
      ensures TriedOk(h, s', t)
    {
      TriedStill(h, s, s', t);
    }
    forall t | t in s'.news
      ensures NewOk(h, s', t)
    {
      NewStill(h, s, s', t);
    }
    forall q | q in s'.infos
      ensures CountOk(h, s', q)
    {
      if q != id {
        CountStill(h, s, s', q);
      }
    }
  }

  /** Exchanges two positions of the shuffled list. */
  function Swap(s: State, i: nat, j: nat): State
    requires i < |s.random| && j < |s.random| && s.random[i] in s.infos && s.random[j] in s.infos
  {
    if i == j then s else
      var a, b := s.random[i], s.random[j];
      var infos := s.infos[a := s.infos[a].(randomPos := j)];
      s.(infos := infos[b := infos[b].(randomPos := i)], random := s.random[i := b][j := a])
  }

  /** Only positions change. */
  ghost predicate Repositioned(a: map<int, AddrInfo>, b: map<int, AddrInfo>) {
    a.Keys == b.Keys && forall id :: id in a ==> b[id] == a[id].(randomPos := b[id].randomPos)
  }

  lemma SwapFacts(s: State, i: nat, j: nat)
    requires i < |s.random| && j < |s.random| && i != j && s.random[i] in s.infos && s.random[j] in s.infos && s.random[i] != s.random[j]
    ensures var s', a, b := Swap(s, i, j), s.random[i], s.random[j];
            && s'.addrs == s.addrs && s'.infos.Keys == s.infos.Keys && s'.random == s.random[i := b][j := a]
            && (forall q :: q in s.infos ==> s'.infos[q] == s.infos[q].(randomPos := if q == a then j else if q == b then i else s.infos[q].randomPos))
  {
  }

  lemma SwapIndex(s: State, i: nat, j: nat)
    requires Index(s) && i < |s.random| && j < |s.random|
    ensures s.random[i] in s.infos && s.random[j] in s.infos
    ensures Index(Swap(s, i, j)) && Repositioned(s.infos, Swap(s, i, j).infos)
    ensures |Swap(s, i, j).random| == |s.random| && (i <= j ==> Swap(s, i, j).random[j] == s.random[i])
  {
    assert s.random[i] in s.infos && s.random[j] in s.infos;
    if i != j {
      var a, b := s.random[i], s.random[j];
      assert s.infos[a].randomPos == i && s.infos[b].randomPos == j;
      SwapFacts(s, i, j);
      SwapStep(s, Swap(s, i, j), i, j);
    }
  }

  lemma SwapStep(s: State, s': State, i: nat, j: nat)
    requires Index(s) && i < |s.random| && j < |s.random| && i != j
    requires var a, b := s.random[i], s.random[j];
             && s'.addrs == s.addrs && s'.infos.Keys == s.infos.Keys && s'.random == s.random[i := b][j := a] && a != b
             && (forall q :: q in s.infos ==> s'.infos[q] == s.infos[q].(randomPos := if q == a then j else if q == b then i else s.infos[q].randomPos))
    ensures Index(s')
  {
    var a, b := s.random[i], s.random[j];
    forall q | q in s'.infos
      ensures s'.infos[q].addr in s'.addrs && s'.addrs[s'.infos[q].addr] == q
      ensures 0 <= s'.infos[q].randomPos < |s'.random| && s'.random[s'.infos[q].randomPos] == q
    {
      assert q in s.infos;
      assert q != a && q != b ==> s.infos[q].randomPos != i && s.infos[q].randomPos != j;
    }
    forall k | 0 <= k < |s'.random|
      ensures s'.random[k] in s'.infos && s'.infos[s'.random[k]].randomPos == k
    {
      assert s.random[k] in s.infos;
      assert k != i && k != j ==> s.random[k] != a && s.random[k] != b;
    }
    forall c | c in s'.addrs
      ensures s'.addrs[c] in s'.infos && s'.infos[s'.addrs[c]].addr == c
    {
      assert s.addrs[c] in s.infos;
    }
  }

  lemma SwapKeeps(h: Hashes, s: State, i: nat, j: nat)
    requires Index(s) && Tables(h, s) && i < |s.random| && j < |s.random|
    ensures s.random[i] in s.infos && s.random[j] in s.infos
    ensures Index(Swap(s, i, j)) && Tables(h, Swap(s, i, j)) && Repositioned(s.infos, Swap(s, i, j).infos)
    ensures |Swap(s, i, j).random| == |s.random| && (i <= j ==> Swap(s, i, j).random[j] == s.random[i])
  {
    hide Index, Hashes.TriedSlot, Hashes.NewSlot, TriedOk, NewOk, CountOk, Occurrences, Swap;
    SwapIndex(s, i, j);
    var s' := Swap(s, i, j);
    SwapTables(s, i, j);
    forall t | t in s'.tried
      ensures TriedOk(h, s', t)
    {
      TriedStill(h, s, s', t);
    }
    forall t | t in s'.news
      ensures NewOk(h, s', t)
    {
      NewStill(h, s, s', t);
    }
    forall q | q in s'.infos
      ensures CountOk(h, s', q)
    {
      CountStill(h, s, s', q);
    }
  }

  lemma SwapTables(s: State, i: nat, j: nat)
    requires i < |s.random| && j < |s.random| && s.random[i] in s.infos && s.random[j] in s.infos
    ensures Swap(s, i, j).news == s.news && Swap(s, i, j).tried == s.tried
  {
  }

  /** Removes the entry at the end of the shuffled list. */
  function DropLast(s: State): State
    requires s.random != [] && s.random[|s.random| - 1] in s.infos
  {
    var id := s.random[|s.random| - 1];
    s.(random := s.random[..|s.random| - 1], addrs := s.addrs - {s.infos[id].addr}, infos := s.infos - {id})
  }

  lemma DropLastIndex(s: State)
    requires Index(s) && s.random != []
    ensures s.random[|s.random| - 1] in s.infos && Index(DropLast(s))
  {
    var n := |s.random| - 1;
    var id := s.random[n];
    var s' := DropLast(s);
    assert s.infos[id].randomPos == n;
    forall q | q in s'.infos
      ensures s'.infos[q].addr in s'.addrs && s'.addrs[s'.infos[q].addr] == q
      ensures 0 <= s'.infos[q].randomPos < |s'.random| && s'.random[s'.infos[q].randomPos] == q
    {
      assert q in s.infos && s.infos[q].addr != s.infos[id].addr && s.infos[q].randomPos != n;
    }
    forall i | 0 <= i < |s'.random|
      ensures s'.random[i] in s'.infos && s'.infos[s'.random[i]].randomPos == i
    {
      assert s.random[i] in s.infos && s.random[i] != id;
    }
    forall a | a in s'.addrs
      ensures s'.addrs[a] in s'.infos && s'.infos[s'.addrs[a]].addr == a
    {
      assert s.addrs[a] in s.infos;
    }
  }

  lemma DropLastKeeps(h: Hashes, s: State)
    requires Index(s) && Tables(h, s) && s.random != []
    requires var id := s.random[|s.random| - 1]; id in s.infos && s.infos[id].refCount == 0 && !s.infos[id].inTried
    ensures Index(DropLast(s)) && Tables(h, DropLast(s))
  {
    hide Index, Hashes.TriedSlot, Hashes.NewSlot, TriedOk, NewOk, CountOk, Occurrences;
    var id := s.random[|s.random| - 1];
    var s' := DropLast(s);
    DropLastIndex(s);
    NotPlaced(h, s, id);
    forall t | t in s'.tried
      ensures TriedOk(h, s', t)
    {
      TriedStill(h, s, s', t);
    }
    forall t | t in s'.news
      ensures NewOk(h, s', t)
    {
      NewFacts(h, s, t);
      assert s.news[t] != id;
      NewStill(h, s, s', t);
    }
    forall q | q in s'.infos
      ensures CountOk(h, s', q)
    {
      CountStill(h, s, s', q);
    }
  }

  /** Moves an entry out of the tried table, without putting it anywhere. */
  function Demote(h: Hashes, s: State, id: int): State
    requires id in s.infos
  {
    s.(tried := s.tried - {h.TriedSlot(s.infos[id].addr)}, infos := s.infos[id := s.infos[id].(inTried := false)])
  }

  lemma DemoteKeeps(h: Hashes, s: State, id: int)
    requires Index(s) && Tables(h, s) && id in s.infos && s.infos[id].inTried
    ensures Index(Demote(h, s, id)) && Tables(h, Demote(h, s, id))
  {
    hide Index, Hashes.TriedSlot, Hashes.NewSlot, TriedOk, NewOk, Occurrences;
    var s' := Demote(h, s, id);
    var slot := h.TriedSlot(s.infos[id].addr);
    SetInfoIndex(s, s', id, s'.infos[id]);
    CountFacts(h, s, id);
    forall t | t in s'.tried
      ensures TriedOk(h, s', t)
    {
      TriedFacts(h, s, t);
      TriedStill(h, s, s', t);
    }
    forall t | t in s'.news
      ensures NewOk(h, s', t)
    {
      NewFacts(h, s, t);
      NewStill(h, s, s', t);
    }
    forall q | q in s'.infos
      ensures CountOk(h, s', q)
    {
      CountFacts(h, s, q);
      if q != id {
        CountStill(h, s, s', q);
      }
    }
  }

  /** Puts an entry without occurrences into its empty tried slot. */
  function Promote(h: Hashes, s: State, id: int): State
    requires id in s.infos
  {
    s.(tried := s.tried[h.TriedSlot(s.infos[id].addr) := id], infos := s.infos[id := s.infos[id].(inTried := true)])
  }

  lemma PromoteKeeps(h: Hashes, s: State, id: int)
    requires Index(s) && Tables(h, s) && id in s.infos && !s.infos[id].inTried && s.infos[id].refCount == 0
    requires h.TriedSlot(s.infos[id].addr) !in s.tried
    ensures Index(Promote(h, s, id)) && Tables(h, Promote(h, s, id))
  {
    hide Index, Hashes.TriedSlot, Hashes.NewSlot, NewOk, Occurrences;
    var s' := Promote(h, s, id);
    var slot := h.TriedSlot(s.infos[id].addr);
    SetInfoIndex(s, s', id, s'.infos[id]);
    CountFacts(h, s, id);
    NotPlaced(h, s, id);
    forall t | t in s'.tried
      ensures TriedOk(h, s', t)
    {
      if t != slot {
        TriedStill(h, s, s', t);
      }
    }
    forall t | t in s'.news
      ensures NewOk(h, s', t)
    {
      NewFacts(h, s, t);
      assert s.news[t] != id;
      NewStill(h, s, s', t);
    }
    forall q | q in s'.infos
      ensures CountOk(h, s', q)
    {
      CountFacts(h, s, q);
      if q != id {
        CountStill(h, s, s', q);
      }
    }
  }
}
