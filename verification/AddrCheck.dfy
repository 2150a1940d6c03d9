/** The consistency check of the address manager (CAddrMan::Check_,
    src/addrman.cpp) and what its verdict means. */
module AddrCheck {
  import opened Common
  import opened AddrTables
  import opened AddrMan

  /** std::map's operator[] on a missing key gives 0. */
  function Lookup(addr: map<NetAddr, int>, ip: NetAddr): int {
    if ip in addr then addr[ip] else 0
  }

  ghost predicate EntryOk(x: Info, id: int, addr: map<NetAddr, int>, random: seq<int>) {
    && (if x.inTried then x.lastSuccess != 0 && x.refCount == 0 else 1 <= x.refCount <= BUCKETS_PER_ADDRESS)
    && Lookup(addr, x.service.ip) == id
    && 0 <= x.randomPos < |random| && random[x.randomPos] == id
    && x.lastTry >= 0 && x.lastSuccess >= 0
  }

  ghost predicate EntriesOk(s: State) {
    forall id :: id in s.info ==> EntryOk(s.info[id], id, s.addr, s.random)
  }

  /** Each entry that is not tried has as many references as it claims. */
  ghost predicate RefsMatch(info: map<int, Info>, table: map<Slot, int>) {
    forall id :: id in info && !info[id].inTried ==> info[id].refCount == |Refs(table, id)|
  }

  /** What Check_ looks at. */
  ghost predicate Checked(h: Hashing, s: State) {
    && |s.random| == s.nTried + s.nNew
    && EntriesOk(s)
    && Counters(s, 0)
    && TriedPlaced(h, s.info, s.triedTable)
    && NewPlaced(h, s.info, s.newTable)
    && RefsMatch(s.info, s.newTable)
  }

  // ---- the loop over the entries ----

  ghost function NewCounts(info: map<int, Info>): map<int, int> {
    map id | id in info && !info[id].inTried :: info[id].refCount
  }

  /** The codes -1 to -8 and -14 for one entry. */
  method CheckEntry(m: Manager, id: int) returns (code: int)
    requires id in m.mapInfo
    modifies m`mapAddr
    ensures forall ip :: Lookup(m.mapAddr, ip) == Lookup(old(m.mapAddr), ip)
    ensures code == 0 <==> EntryOk(m.mapInfo[id], id, old(m.mapAddr), m.vRandom)
  {
    var info := m.mapInfo[id];
    if info.inTried {
      if info.lastSuccess == 0 { return -1; }
      if info.refCount != 0 { return -2; }
    } else {
      if info.refCount < 0 || info.refCount > BUCKETS_PER_ADDRESS { return -3; }
      if info.refCount == 0 { return -4; }
    }
    var ip := info.service.ip;
    if ip !in m.mapAddr { m.mapAddr := m.mapAddr[ip := 0]; }
    if m.mapAddr[ip] != id { return -5; }
    if info.randomPos < 0 || info.randomPos >= |m.vRandom| || m.vRandom[info.randomPos] != id { return -14; }
    if info.lastTry < 0 { return -6; }
    if info.lastSuccess < 0 { return -8; }
    return 0;
  }

  method CheckEntries(m: Manager) returns (code: int, setTried: set<int>, mapNew: map<int, int>)
    modifies m`mapAddr
    ensures forall ip :: Lookup(m.mapAddr, ip) == Lookup(old(m.mapAddr), ip)
    ensures code == 0 <==> old(EntriesOk(m.Abs()))
    ensures code == 0 ==> setTried == TriedIds(m.mapInfo) && mapNew == NewCounts(m.mapInfo)
  {
    hide EntryOk, Lookup, TableOf, TriedIds, NewCounts;
    code, setTried, mapNew := 0, {}, map[];
    NoneCounted(m.mapInfo);
    var rest := m.mapInfo.Keys;
    while rest != {}
      invariant rest <= m.mapInfo.Keys
      invariant forall ip :: Lookup(m.mapAddr, ip) == Lookup(old(m.mapAddr), ip)
      invariant forall id :: id in m.mapInfo && id !in rest ==> EntryOk(m.mapInfo[id], id, old(m.mapAddr), m.vRandom)
      invariant setTried == TriedIds(m.mapInfo - rest) && mapNew == NewCounts(m.mapInfo - rest)
      decreases |rest|
    {
      var id := AnyOf(rest);
      ghost var before := m.mapAddr;
      code := CheckEntry(m, id);
      SameLookups(m.mapInfo[id], id, before, old(m.mapAddr), m.vRandom);
      if code != 0 {
        assert !EntryOk(old(m.Abs()).info[id], id, old(m.Abs()).addr, old(m.Abs()).random);
        return;
      }
      OneCounted(m.mapInfo, rest, id);
      if m.mapInfo[id].inTried { setTried := setTried + {id}; } else { mapNew := mapNew[id := m.mapInfo[id].refCount]; }
      rest := rest - {id};
    }
    assert m.mapInfo - rest == m.mapInfo;
  }

  lemma NoneCounted(info: map<int, Info>)
    ensures TriedIds(info - info.Keys) == {} && NewCounts(info - info.Keys) == map[]
  {
  }

  lemma OneCounted(info: map<int, Info>, rest: set<int>, id: int)
    requires id in rest && id in info
    ensures TriedIds(info - (rest - {id})) ==
      if info[id].inTried then TriedIds(info - rest) + {id} else TriedIds(info - rest)
    ensures NewCounts(info - (rest - {id})) ==
      if info[id].inTried then NewCounts(info - rest) else NewCounts(info - rest)[id := info[id].refCount]
  {
  }

  lemma SameLookups(x: Info, id: int, addr: map<NetAddr, int>, addr': map<NetAddr, int>, random: seq<int>)
    requires forall ip :: Lookup(addr, ip) == Lookup(addr', ip)
    ensures EntryOk(x, id, addr, random) <==> EntryOk(x, id, addr', random)
  {
  }

  // ---- the loops over the tables ----

  /** Slots visited before (bucket, pos), in row order. */
  ghost function Visited(table: map<Slot, int>, bucket: nat, pos: nat): map<Slot, int> {
    map s: Slot | s in table && (s.0 < bucket || (s.0 == bucket && s.1 < pos)) :: table[s]
  }

  lemma VisitedNext(table: map<Slot, int>, bucket: nat, pos: nat)
    ensures var m, m' := Visited(table, bucket, pos), Visited(table, bucket, pos + 1);
            && (bucket, pos) !in m
            && m' == if (bucket, pos) in table then m[(bucket, pos) := table[(bucket, pos)]] else m
  {
  }

  lemma VisitedRow(table: map<Slot, int>, bucket: nat, size: nat)
    requires forall s: Slot :: s in table ==> s.1 < size
    ensures Visited(table, bucket, size) == Visited(table, bucket + 1, 0)
  {
  }

  lemma VisitedAll(table: map<Slot, int>, buckets: nat)
    requires forall s: Slot :: s in table ==> s.0 < buckets
    ensures Visited(table, buckets, 0) == table && Visited(table, 0, 0) == map[]
  {
  }

  ghost function Holders(table: map<Slot, int>): set<int> {
    set s | s in table :: table[s]
  }

  ghost predicate TriedSlotsOk(h: Hashing, info: map<int, Info>, table: map<Slot, int>) {
    forall s :: s in table ==>
      var id := table[s];
      id in info && info[id].inTried && s == h.TriedSlot(info[id].service)
  }

  lemma TriedStep(h: Hashing, info: map<int, Info>, table: map<Slot, int>, done: map<Slot, int>, slot: Slot,
          rest: set<int>)
    requires TriedSlotsOk(h, info, done) && rest == TriedIds(info) - Holders(done)
    requires slot in table && slot !in done && forall s :: s in done ==> s in table && table[s] == done[s]
    ensures var id := table[slot];
            if id in rest && slot == h.TriedSlot(info[id].service)
            then TriedSlotsOk(h, info, done[slot := id]) && rest - {id} == TriedIds(info) - Holders(done[slot := id])
            else !TriedSlotsOk(h, info, table)
  {
    var id := table[slot];
    if id in rest && slot == h.TriedSlot(info[id].service) {
      assert Holders(done[slot := id]) == Holders(done) + {id} by {
        assert forall s :: s in done ==> done[slot := id][s] == done[s];
        assert done[slot := id][slot] == id;
      }
    }
  }

  /** The tried loop crosses every id it meets off the set; nothing is left
      exactly when the table and the entries agree. */
  method CheckTried(m: Manager, setTried: set<int>) returns (code: int, rest: set<int>)
    requires m.Shaped() && setTried == TriedIds(m.mapInfo)
    ensures code == 0 && rest == {} <==> TriedPlaced(m.hashing, m.mapInfo, TableOf(m.vvTried))
  {
    hide TableOf, TriedIds, TriedPlaced, TriedSlotsOk, Visited, Holders;
    ghost var table := TableOf(m.vvTried);
    code, rest := 0, setTried;
    VisitedAll(table, m.vvTried.Length0);
    TriedStart(m.hashing, m.mapInfo, setTried);
    for n := 0 to m.vvTried.Length0
      invariant code == 0
      invariant TriedSlotsOk(m.hashing, m.mapInfo, Visited(table, n, 0))
                && rest == TriedIds(m.mapInfo) - Holders(Visited(table, n, 0))
    {
      for i := 0 to m.vvTried.Length1
        invariant code == 0
        invariant TriedSlotsOk(m.hashing, m.mapInfo, Visited(table, n, i))
                  && rest == TriedIds(m.mapInfo) - Holders(Visited(table, n, i))
      {
        VisitedNext(table, n, i);
        if m.vvTried[n, i] != -1 {
          var id := m.vvTried[n, i];
          VisitedInside(table, n, i);
          TriedStep(m.hashing, m.mapInfo, table, Visited(table, n, i), (n, i), rest);
          TriedOnly(m.hashing, m.mapInfo, table, rest);
          if id !in rest { code := -11; return; }
          var slot := m.hashing.TriedSlot(m.mapInfo[id].service);
          if slot.0 != n { code := -17; return; }
          if slot.1 != i { code := -18; return; }
          rest := rest - {id};
        }
      }
      VisitedRow(table, n, m.vvTried.Length1);
    }
    TriedEnd(m.hashing, m.mapInfo, table, rest);
  }

  lemma VisitedInside(table: map<Slot, int>, bucket: nat, pos: nat)
    ensures forall s :: s in Visited(table, bucket, pos) ==> s in table && table[s] == Visited(table, bucket, pos)[s]
  {
  }

  lemma TriedStart(h: Hashing, info: map<int, Info>, setTried: set<int>)
    ensures TriedSlotsOk(h, info, map[]) && setTried == setTried - Holders(map[])
  {
  }

  lemma TriedOnly(h: Hashing, info: map<int, Info>, table: map<Slot, int>, rest: set<int>)
    ensures TriedPlaced(h, info, table) ==> TriedSlotsOk(h, info, table)
    ensures rest <= TriedIds(info) ==> forall id :: id in rest ==> id in info
  {
  }

  lemma TriedEnd(h: Hashing, info: map<int, Info>, table: map<Slot, int>, rest: set<int>)
    requires TriedSlotsOk(h, info, table) && rest == TriedIds(info) - Holders(table)
    ensures rest == {} <==> TriedPlaced(h, info, table)
  {
    if rest == {} {
      forall id | id in info && info[id].inTried
        ensures var s := h.TriedSlot(info[id].service); s in table && table[s] == id
      {
        assert id in TriedIds(info) && id !in rest;
      }
    } else {
      var id := Witness(rest);
    }
  }

  // ---- counting down the references ----

  /** No entry met more often than it has references, and `rest` is what each
      has left. */
  ghost predicate Countdown(info: map<int, Info>, done: map<Slot, int>, rest: map<int, int>) {
    && (forall id :: id in info && !info[id].inTried ==> |Refs(done, id)| <= info[id].refCount)
    && (forall id :: id in rest <==> id in info && !info[id].inTried && |Refs(done, id)| < info[id].refCount)
    && (forall id :: id in rest ==> rest[id] == info[id].refCount - |Refs(done, id)|)
  }

  lemma NewStep(h: Hashing, info: map<int, Info>, table: map<Slot, int>, done: map<Slot, int>, slot: Slot,
          rest: map<int, int>)
    requires NewPlaced(h, info, done) && Countdown(info, done, rest)
    requires slot in table && slot !in done && forall s :: s in done ==> s in table && table[s] == done[s]
    ensures var id := table[slot];
            if id in rest && slot == h.SlotIn(info[id].service, slot.0)
            then NewPlaced(h, info, done[slot := id])
                 && Countdown(info, done[slot := id], if rest[id] == 1 then rest - {id} else rest[id := rest[id] - 1])
            else !(NewPlaced(h, info, table) && RefsMatch(info, table))
  {
    hide Countdown, RefsMatch;
    var id := table[slot];
    CountdownIds(info, done, rest);
    if id in rest {
      CountStep(info, done, slot, id, rest);
    } else if NewPlaced(h, info, table) {
      CountedOut(info, table, done, slot, rest);
    }
  }

  /** One more reference is met and one less is left. */
  lemma CountStep(info: map<int, Info>, done: map<Slot, int>, slot: Slot, id: int, rest: map<int, int>)
    requires Countdown(info, done, rest) && slot !in done && id in rest
    ensures Countdown(info, done[slot := id], if rest[id] == 1 then rest - {id} else rest[id := rest[id] - 1])
  {
    hide Refs;
    forall k ensures |Refs(done[slot := id], k)| == |Refs(done, k)| + (if k == id then 1 else 0) {
      RefsInsert(done, slot, id, k);
    }
  }

  /** A reference met after the last one counted is one too many. */
  lemma CountedOut(info: map<int, Info>, table: map<Slot, int>, done: map<Slot, int>, slot: Slot, rest: map<int, int>)
    requires Countdown(info, done, rest) && slot in table && slot !in done
    requires forall s :: s in done ==> s in table && table[s] == done[s]
    requires table[slot] in info && !info[table[slot]].inTried && table[slot] !in rest
    ensures !RefsMatch(info, table)
  {
    var id := table[slot];
    SubsetSize(Refs(done, id) + {slot}, Refs(table, id));
  }

  method CheckNew(m: Manager, mapNew: map<int, int>) returns (code: int, rest: map<int, int>)
    requires m.Shaped() && mapNew == NewCounts(m.mapInfo)
    requires forall id :: id in m.mapInfo && !m.mapInfo[id].inTried ==> m.mapInfo[id].refCount >= 1
    ensures code == 0 && rest == map[]
            <==> NewPlaced(m.hashing, m.mapInfo, TableOf(m.vvNew)) && RefsMatch(m.mapInfo, TableOf(m.vvNew))
  {
    hide TableOf, NewPlaced, RefsMatch, Countdown, Visited, NewCounts;
    ghost var table := TableOf(m.vvNew);
    code, rest := 0, mapNew;
    VisitedAll(table, m.vvNew.Length0);
    NewStart(m.hashing, m.mapInfo);
    for n := 0 to m.vvNew.Length0
      invariant code == 0
      invariant NewPlaced(m.hashing, m.mapInfo, Visited(table, n, 0))
                && Countdown(m.mapInfo, Visited(table, n, 0), rest)
    {
      for i := 0 to m.vvNew.Length1
        invariant code == 0
        invariant NewPlaced(m.hashing, m.mapInfo, Visited(table, n, i))
                  && Countdown(m.mapInfo, Visited(table, n, i), rest)
      {
        VisitedNext(table, n, i);
        if m.vvNew[n, i] != -1 {
          var id := m.vvNew[n, i];
          VisitedInside(table, n, i);
          NewStep(m.hashing, m.mapInfo, table, Visited(table, n, i), (n, i), rest);
          CountdownIds(m.mapInfo, Visited(table, n, i), rest);
          if id !in rest { code := -12; return; }
          if m.hashing.position(m.mapInfo[id].service, true, n) != i { code := -19; return; }
          rest := if rest[id] == 1 then rest - {id} else rest[id := rest[id] - 1];
        }
      }
      VisitedRow(table, n, m.vvNew.Length1);
    }
    NewEnd(m.hashing, m.mapInfo, table, rest);
  }

  lemma NewStart(h: Hashing, info: map<int, Info>)
    requires forall id :: id in info && !info[id].inTried ==> info[id].refCount >= 1
    ensures NewPlaced(h, info, map[]) && Countdown(info, map[], NewCounts(info))
  {
    assert forall id :: Refs(map[], id) == {};
  }

  lemma CountdownIds(info: map<int, Info>, done: map<Slot, int>, rest: map<int, int>)
    requires Countdown(info, done, rest)
    ensures forall id :: id in rest ==> id in info && !info[id].inTried
  {
  }

  lemma NewEnd(h: Hashing, info: map<int, Info>, table: map<Slot, int>, rest: map<int, int>)
    requires NewPlaced(h, info, table) && Countdown(info, table, rest)
    ensures rest == map[] <==> NewPlaced(h, info, table) && RefsMatch(info, table)
  {
    if rest != map[] {
      var id := Witness(rest.Keys);
      assert |Refs(table, id)| < info[id].refCount;
    }
  }

  lemma {:induction false} SubsetSize<T>(a: set<T>, b: set<T>)
    requires a <= b
    ensures |a| <= |b|
  {
    if a != {} {
      var x := Witness(a);
      SubsetSize(a - {x}, b - {x});
    }
  }

  // ---- the verdict ----

  method Check(m: Manager) returns (code: int)
    requires m.Shaped()
    modifies m`mapAddr
    ensures code == 0 <==> Checked(m.hashing, old(m.Abs())) && m.nKey != 0
    ensures forall ip :: Lookup(m.mapAddr, ip) == Lookup(old(m.mapAddr), ip)
  {
    hide TableOf, EntriesOk, TriedPlaced, NewPlaced, RefsMatch, NewIds, TriedIds, Lookup;
    if |m.vRandom| != m.nTried + m.nNew { return -7; }
    var setTried, mapNew;
    code, setTried, mapNew := CheckEntries(m);
    if code != 0 { return; }
    NewCountsSize(old(m.Abs()));
    if |setTried| != m.nTried { return -9; }
    if |mapNew| != m.nNew { return -10; }
    var restTried, restNew;
    code, restTried := CheckTried(m, setTried);
    if code != 0 { return; }
    code, restNew := CheckNew(m, mapNew);
    if code != 0 { return; }
    if restTried != {} { return -13; }
    if restNew != map[] { return -15; }
    if m.nKey == 0 { return -16; }
  }

  lemma NewCountsSize(s: State)
    requires EntriesOk(s)
    ensures |NewCounts(s.info)| == |NewIds(s.info)|
    ensures forall id :: id in s.info && !s.info[id].inTried ==> s.info[id].refCount >= 1
  {
    assert NewCounts(s.info).Keys == NewIds(s.info);
  }

  /** Check_ passes exactly on the consistent states, apart from the two facts
      it does not look at: that ids lie below the id counter and that mapAddr
      lists the addresses and nothing else. */
  lemma CheckedIffConsistent(h: Hashing, s: State)
    ensures Consistent(h, s) <==> Checked(h, s) && IdsBelow(s.info, s.nextId) && AddrIndex(s.info, s.addr)
  {
    hide IdsBelow, NewPlaced, TriedPlaced, NewIds, TriedIds;
    if Consistent(h, s) {
      RandomSize(s.info, s.random);
      IdsSplit(s.info);
      hide Refs;
      assert EntriesOk(s);
      assert RefsMatch(s.info, s.newTable);
    } else if Checked(h, s) && AddrIndex(s.info, s.addr) {
      assert Dated(s.info);
      IdsSplit(s.info);
      RandomFull(s.info, s.random);
      TriedUnreferenced(h, s.info, s.newTable);
      assert Counted(s.info, s.newTable, {});
    }
  }

  /** Two states that pass and are not consistent: an address that leads to no
      entry, and an id counter below zero. */
  lemma CheckMisses(h: Hashing)
    ensures Checked(h, FRESH.(addr := map[7 := 3])) && !Consistent(h, FRESH.(addr := map[7 := 3]))
    ensures Checked(h, FRESH.(nextId := -1)) && !Consistent(h, FRESH.(nextId := -1))
  {
    FreshConsistent(h);
    CheckedIffConsistent(h, FRESH);
    var s := FRESH.(addr := map[7 := 3]);
    assert s.addr[7] !in s.info;
  }

  lemma TriedUnreferenced(h: Hashing, info: map<int, Info>, table: map<Slot, int>)
    requires NewPlaced(h, info, table)
    ensures forall id :: id in info && info[id].inTried ==> |Refs(table, id)| == 0
  {
    forall id | id in info && info[id].inTried ensures Refs(table, id) == {} {
    }
  }

  lemma IdsSplit(info: map<int, Info>)
    ensures |info| == |NewIds(info)| + |TriedIds(info)|
  {
    assert info.Keys == NewIds(info) + TriedIds(info) && NewIds(info) !! TriedIds(info);
  }

  ghost function Positions(info: map<int, Info>): set<int> {
    set id | id in info :: info[id].randomPos
  }

  ghost predicate Positioned(info: map<int, Info>, random: seq<int>) {
    forall id :: id in info ==> var i := info[id].randomPos; 0 <= i < |random| && random[i] == id
  }

  /** Distinct entries have distinct positions. */
  lemma {:induction false} PositionsSize(info: map<int, Info>, random: seq<int>)
    requires Positioned(info, random)
    ensures |Positions(info)| == |info|
    decreases |info|
  {
    if info != map[] {
      var id := Witness(info.Keys);
      var rest := info - {id};
      PositionsSize(rest, random);
      assert info[id].randomPos !in Positions(rest);
      assert Positions(info) == Positions(rest) + {info[id].randomPos} by {
        assert forall k :: k in rest ==> rest[k] == info[k];
        assert id in info;
      }
    } else {
      assert Positions(info) == {};
    }
  }

  ghost function Upto(n: nat): (r: set<int>)
    ensures forall i :: i in r <==> 0 <= i < n
    ensures |r| == n
  {
    if n == 0 then {} else Upto(n - 1) + {n - 1}
  }

  lemma RandomSize(info: map<int, Info>, random: seq<int>)
    requires RandomIndex(info, random)
    ensures |random| == |info|
  {
    PositionsSize(info, random);
    forall i | 0 <= i < |random| ensures i in Positions(info) {
      var id := random[i];
      assert id in info && info[id].randomPos == i;
    }
    assert Positions(info) == Upto(|random|);
  }

  /** As many entries as places, each at its own place: every place is taken. */
  lemma RandomFull(info: map<int, Info>, random: seq<int>)
    requires Positioned(info, random) && |random| == |info|
    ensures RandomIndex(info, random)
  {
    PositionsSize(info, random);
    forall i | 0 <= i < |random| ensures var id := random[i]; id in info && info[id].randomPos == i {
      assert Positions(info) <= Upto(|random|);
      SameSize(Positions(info), Upto(|random|));
      assert i in Positions(info);
    }
  }

  lemma SameSize<T>(a: set<T>, b: set<T>)
    requires a <= b && |a| == |b|
    ensures a == b
  {
    if x :| x in b && x !in a {
      SubsetSize(a + {x}, b);
    }
  }
}
