/** Which entries the address manager keeps, displaces and gives out, in plain numbers (src/addrman.cpp:69-92, 550-642, 812-973). */
module AddrLaws {
  import opened Integers
  import opened AddrTables
  import opened AddrSteps
  import opened AddrEffects

  // ---------- terrible entries ----------

  /** Seen within the last 30 days, and at most ten minutes in the future. */
  predicate SeenLately(info: AddrInfo, now: int) {
    now - 2592000 <= info.time <= now + 600
  }

  /**
    An entry seen lately is spared within a minute of a try, with fewer than three failures,
    with fewer than ten if it ever worked, and for a week after it worked. Others are
    terrible, and so are those not seen lately, a minute after the last try.
  */
  lemma TerribleExactly(info: AddrInfo, now: int)
    ensures now - info.lastTry <= 60 ==> !IsTerrible(info, now)
    ensures now - info.lastTry > 60 && !SeenLately(info, now) ==> IsTerrible(info, now)
    ensures SeenLately(info, now) && info.attempts < 3 ==> !IsTerrible(info, now)
    ensures SeenLately(info, now) && info.lastSuccess != 0 && (info.attempts < 10 || now - info.lastSuccess <= 604800) ==> !IsTerrible(info, now)
    ensures now - info.lastTry > 60 && info.attempts >= 3 && info.lastSuccess == 0 ==> IsTerrible(info, now)
    ensures now - info.lastTry > 60 && info.attempts >= 10 && now - info.lastSuccess > 604800 ==> IsTerrible(info, now)
  {
  }

  /** Once terrible, and not because of a time in the future, an entry stays so until it is touched. */
  lemma StaysTerrible(info: AddrInfo, now: int, later: int)
    requires IsTerrible(info, now) && info.time <= now + 600 && now <= later
    ensures IsTerrible(info, later)
  {
  }

  /** A success makes up for all failures: from then on only the time the address was seen counts. */
  lemma TerribleAfterSuccess(info: AddrInfo, time: int, now: int)
    requires time > 0
    ensures IsTerrible(Succeeded(info, time), now) <==> now - time > 60 && !SeenLately(info, now)
  {
  }

  /** A failure that brings the count to three condemns an entry that never worked, and one that brings it to ten an entry that worked over a week ago. */
  lemma TerribleAfterFailure(info: AddrInfo, time: int, lastGood: int, now: int)
    requires now - time > 60 && info.lastCountAttempt < lastGood
    ensures info.lastSuccess == 0 ==> (IsTerrible(Attempted(info, true, time, lastGood), now) <==> info.attempts >= 2 || !SeenLately(info, now))
    ensures info.lastSuccess != 0 ==>
              (IsTerrible(Attempted(info, true, time, lastGood), now) <==> (info.attempts >= 9 && now - info.lastSuccess > 604800) || !SeenLately(info, now))
  {
  }

  /** The occupant of a slot gives way to another entry exactly if it is terrible, or has further slots while the other has none. */
  lemma DisplacedExactly(s: State, slot: Slot, id: int, now: int)
    requires slot in s.news && s.news[slot] in s.infos && id in s.infos && id != s.news[slot]
    ensures var info := s.infos[s.news[slot]];
            Admits(s, slot, id, now) && !(info.refCount > 1 && s.infos[id].refCount == 0) ==>
              now - info.lastTry > 60 && (SeenLately(info, now) ==> info.attempts >= 3)
    ensures var info := s.infos[s.news[slot]];
            now - info.lastTry > 60 && !SeenLately(info, now) ==> Admits(s, slot, id, now)
  {
  }

  // ---------- times ----------

  /** Hearing of an address again never makes it look older; its time changes only by more than an hour, or a day if it was not seen for a day. */
  lemma AgedTime(info: AddrInfo, services: set<nat>, time: int, penalty: int, now: int)
    requires penalty >= 0 && info.time >= 0
    ensures var t := Aged(info, services, time, penalty, now).time;
            && t >= info.time && (t != info.time ==> t == time - penalty)
            && (t != info.time <==> time - penalty - info.time > (if now - time < 86400 then 3600 else 86400))
  {
  }

  /** A connection moves the time forward by more than twenty minutes or not at all; then it is at most twenty minutes old. */
  lemma MetTime(info: AddrInfo, time: int)
    ensures var t := Met(info, time).time; (t == info.time || t == time > info.time + 1200) && time - t <= 1200
  {
  }

  /** A new address starts without any history, and with the time it was announced less the penalty. */
  lemma FirstHeardTime(addr: Service, services: set<nat>, source: int, time: int, penalty: int)
    ensures var info := FirstHeard(addr, services, source, time, penalty);
            && info.time >= 0 && (time > penalty ==> info.time + penalty == time) && (time <= penalty ==> info.time == 0)
            && info.attempts == info.lastTry == info.lastSuccess == info.lastCountAttempt == 0
  {
  }

  // ---------- collisions ----------

  /** The occupant of the tried slot that a recorded collision is about. */
  ghost predicate Occupies(h: Hashes, s: State, id: int, e: int) {
    id in s.infos && h.TriedSlot(s.infos[id].addr) in s.tried && e == s.tried[h.TriedSlot(s.infos[id].addr)] && e in s.infos
  }

  /**
    An occupant that worked within the last four hours always stays. Otherwise it stays at most
    until it was tried in vain over a minute ago, or the newcomer has waited for 40 minutes
    without a try of the occupant in the last four hours.
  */
  lemma JudgeExactly(h: Hashes, s: State, id: int, e: int, now: int, isValid: Service -> bool)
    requires Occupies(h, s, id, e) && isValid(s.infos[id].addr)
    ensures var verdict, tried := Judge(h, s, id, now, isValid), now - s.infos[e].lastTry;
            && (now - s.infos[e].lastSuccess < 14400 <==> verdict == Drop)
            && (now - s.infos[e].lastSuccess >= 14400 && 60 < tried < 14400 ==> verdict == Replace)
            && (now - s.infos[e].lastSuccess >= 14400 && tried <= 60 ==> verdict == Wait)
            && (now - s.infos[e].lastSuccess >= 14400 && tried >= 14400 ==> verdict == if now - s.infos[id].lastSuccess > 2400 then Replace else Wait)
  {
  }

  // ---------- drawing addresses ----------

  /** The limit is the greatest number that respects the number of entries, the percentage and the maximum; zero means none is set. */
  lemma LimitGreatest(n: nat, maxAddresses: nat, maxPct: nat, k: nat)
    ensures var limit := Limit(n, maxAddresses, maxPct);
            k <= limit <==> k <= n && (maxPct != 0 ==> 100 * k <= maxPct * n) && (maxAddresses != 0 ==> k <= maxAddresses)
  {
    var pct := if maxPct > 100 then 100 else maxPct;
    Hundredths(pct * n, k);
    if maxPct > 100 {
      MulMono(100, maxPct, n);
    } else {
      MulMono(maxPct, 100, n);
    }
  }

  lemma Hundredths(x: nat, k: nat)
    ensures k <= x / 100 <==> 100 * k <= x
  {
  }

  // ---------- sizes ----------

  ghost function Grid(rows: nat, columns: nat): set<Slot> {
    set i, j | 0 <= i < rows && 0 <= j < columns :: (i, j)
  }

  ghost function Row(i: int, columns: nat): set<Slot> {
    set j | 0 <= j < columns :: (i, j)
  }

  lemma {:induction false} RowSize(i: int, columns: nat)
    ensures |Row(i, columns)| == columns
  {
    if columns > 0 {
      RowSize(i, columns - 1);
      assert Row(i, columns) == Row(i, columns - 1) + {(i, columns - 1)};
    }
  }

  lemma {:induction false} GridSize(rows: nat, columns: nat)
    ensures |Grid(rows, columns)| == rows * columns
  {
    if rows > 0 {
      GridSize(rows - 1, columns);
      RowSize(rows - 1, columns);
      OneMoreRow(rows - 1, columns);
      hide Grid, Row;
      assert rows * columns == (rows - 1) * columns + columns;
    }
  }

  lemma OneMoreRow(rows: nat, columns: nat)
    ensures Grid(rows + 1, columns) == Grid(rows, columns) + Row(rows, columns) && Grid(rows, columns) !! Row(rows, columns)
  {
  }

  /** The ids in a table. */
  ghost function Held(table: Table): set<int> {
    set slot | slot in table :: table[slot]
  }

  lemma HeldRest(table: Table, slot: Slot)
    requires slot in table
    ensures Held(table) == Held(table - {slot}) + {table[slot]}
  {
    var rest := table - {slot};
    forall id | id in Held(table)
      ensures id in Held(rest) + {table[slot]}
    {
      var s :| s in table && table[s] == id;
      assert s != slot ==> s in rest && rest[s] == id;
    }
    forall id | id in Held(rest)
      ensures id in Held(table)
    {
      var s :| s in rest && rest[s] == id;
      assert s in table && table[s] == id;
    }
  }

  lemma {:induction false} HeldSize(table: Table)
    ensures |Held(table)| <= |table.Keys|
    decreases |table.Keys|
  {
    if table.Keys != {} {
      var slot :| slot in table.Keys;
      var rest := table - {slot};
      assert rest.Keys == table.Keys - {slot};
      HeldSize(rest);
      HeldRest(table, slot);
    }
  }

  lemma {:induction false} SubsetSize<T>(a: set<T>, b: set<T>)
    requires a <= b
    ensures |a| <= |b|
  {
    if a != {} {
      var x :| x in a;
      SubsetSize(a - {x}, b - {x});
    }
  }

  lemma TableSize(table: Table, rows: nat)
    requires forall slot :: slot in table ==> 0 <= slot.0 < rows && 0 <= slot.1 < 64
    ensures |Held(table)| <= rows * 64
  {
    HeldSize(table);
    GridSize(rows, 64);
    SubsetSize(table.Keys, Grid(rows, 64));
  }

  /** Slots are within 1024 new and 256 tried buckets of 64 positions, and every entry is in one of them; so there are at most 81920 entries. */
  lemma SizeBound(h: Hashes, s: State)
    requires Tables(h, s) && AllFine(s.infos)
    ensures forall slot :: slot in s.news ==> 0 <= slot.0 < 1024 && 0 <= slot.1 < 64
    ensures forall slot :: slot in s.tried ==> 0 <= slot.0 < 256 && 0 <= slot.1 < 64
    ensures forall id :: id in s.infos ==> if s.infos[id].inTried then s.infos[id].refCount == 0 else 1 <= s.infos[id].refCount <= 8
    ensures |s.infos| <= 81920
  {
    hide Tables, Held, Occurrences;
    forall slot | slot in s.news
      ensures 0 <= slot.0 < 1024 && 0 <= slot.1 < 64
    {
      NewFacts(h, s, slot);
    }
    forall slot | slot in s.tried
      ensures 0 <= slot.0 < 256 && 0 <= slot.1 < 64
    {
      TriedFacts(h, s, slot);
    }
    forall id | id in s.infos
      ensures if s.infos[id].inTried then s.infos[id].refCount == 0 else 1 <= s.infos[id].refCount <= 8
      ensures id in Held(s.news) + Held(s.tried)
    {
      HeldSomewhere(h, s, id);
    }
    TableSize(s.news, 1024);
    TableSize(s.tried, 256);
    SubsetSize(s.infos.Keys, Held(s.news) + Held(s.tried));
  }

  lemma HeldSomewhere(h: Hashes, s: State, id: int)
    requires Tables(h, s) && AllFine(s.infos) && id in s.infos
    ensures if s.infos[id].inTried then s.infos[id].refCount == 0 else 1 <= s.infos[id].refCount <= 8
    ensures id in Held(s.news) || id in Held(s.tried)
  {
    hide Tables, Hashes.TriedSlot;
    assert Fine(s.infos[id]);
    CountFacts(h, s, id);
    if s.infos[id].inTried {
      TriedUncounted(h, s, id);
    } else {
      var slot :| slot in Occurrences(s.news, id);
    }
  }
}
