/** The redundant tables of the address manager as a value, what each of its
    internal operations does to them, and the consistency invariant that
    CAddrMan::Check_ writes out (src/addrman.cpp, src/addrman.h). */
module AddrTables {
  import opened Common

  type NetAddr = nat
  datatype Service = Service(ip: NetAddr, port: nat)
  datatype Address = Address(service: Service, services: set<nat>, time: int)

  /** An entry: the address, where it was heard of, and its statistics. */
  datatype Info = Info(
    service: Service,
    services: set<nat>,
    time: int,
    source: NetAddr,
    lastTry: int,
    lastCountAttempt: int,
    lastSuccess: int,
    attempts: int,
    refCount: int,
    inTried: bool,
    randomPos: int)
  {
    predicate IsTerrible(now: int) {
      if lastTry != 0 && lastTry >= now - 60 then false
      else
        || time > now + 10 * 60
        || time == 0 || now - time > 30 * 24 * 60 * 60
        || (lastSuccess == 0 && attempts >= 3)
        || (now - lastSuccess > 7 * 24 * 60 * 60 && attempts >= 10)
    }
  }

  function NewInfo(a: Address, source: NetAddr): Info {
    Info(a.service, a.services, a.time, source, 0, 0, 0, 0, 0, false, -1)
  }

  /** In how many "new" buckets one address may occur. */
  const BUCKETS_PER_ADDRESS := 8

  /** Bucket and position within the bucket. */
  type Slot = (nat, nat)

  /** The bucket selection of one secret key; nothing is assumed of the hashes
      but their range. */
  datatype Hashing = Hashing(
    triedBucket: Service -> nat,
    newBucket: (Service, NetAddr) -> nat,
    position: (Service, bool, nat) -> nat)
  {
    function TriedSlot(s: Service): Slot {
      (triedBucket(s), position(s, false, triedBucket(s)))
    }

    function SlotIn(s: Service, bucket: nat): Slot {
      (bucket, position(s, true, bucket))
    }

    function NewSlot(s: Service, source: NetAddr): Slot {
      SlotIn(s, newBucket(s, source))
    }
  }

  /** Tables map occupied slots only; a slot holding -1 is absent. */
  datatype State = State(
    nextId: int,
    info: map<int, Info>,
    addr: map<NetAddr, int>,
    random: seq<int>,
    nTried: int,
    triedTable: map<Slot, int>,
    nNew: int,
    newTable: map<Slot, int>,
    lastGood: int)

  const FRESH := State(0, map[], map[], [], 0, map[], 0, map[], 1)

  // ---- the invariant ----

  ghost predicate IdsBelow(info: map<int, Info>, nextId: int) {
    0 <= nextId && forall id :: id in info ==> 0 <= id < nextId
  }

  /** mapAddr finds exactly the entries, by network address. */
  ghost predicate AddrIndex(info: map<int, Info>, addr: map<NetAddr, int>) {
    && (forall id :: id in info ==> info[id].service.ip in addr && addr[info[id].service.ip] == id)
    && (forall a :: a in addr ==> var id := addr[a]; id in info && info[id].service.ip == a)
  }

  /** vRandom is a permutation of the ids and the back-pointers agree with it. */
  ghost predicate RandomIndex(info: map<int, Info>, random: seq<int>) {
    && (forall i :: 0 <= i < |random| ==> var id := random[i]; id in info && info[id].randomPos == i)
    && (forall id :: id in info ==> var i := info[id].randomPos; 0 <= i < |random| && random[i] == id)
  }

  /** "New" slots hold entries that are not tried, at their hashed position. */
  ghost predicate NewPlaced(h: Hashing, info: map<int, Info>, table: map<Slot, int>) {
    forall s :: s in table ==>
      var id := table[s];
      id in info && !info[id].inTried && s == h.SlotIn(info[id].service, s.0)
  }

  /** "Tried" slots hold exactly the tried entries, each at its one place. */
  ghost predicate TriedPlaced(h: Hashing, info: map<int, Info>, table: map<Slot, int>) {
    && (forall s :: s in table ==>
         var id := table[s];
         id in info && info[id].inTried && s == h.TriedSlot(info[id].service))
    && (forall id :: id in info && info[id].inTried ==>
         var s := h.TriedSlot(info[id].service); s in table && table[s] == id)
  }

  ghost function Refs(table: map<Slot, int>, id: int): set<Slot> {
    set s | s in table && table[s] == id
  }

  /** Each reference count is the number of "new" slots holding the id; only
      pending entries may be in no table at all. */
  ghost predicate Counted(info: map<int, Info>, table: map<Slot, int>, pending: set<int>) {
    forall id :: id in info ==>
      && info[id].refCount == |Refs(table, id)|
      && (info[id].inTried || id in pending ==> info[id].refCount == 0)
      && (id in pending ==> !info[id].inTried)
      && (!info[id].inTried && id !in pending ==> 1 <= info[id].refCount <= BUCKETS_PER_ADDRESS)
  }

  ghost predicate Dated(info: map<int, Info>) {
    forall id :: id in info ==>
      info[id].lastTry >= 0 && info[id].lastSuccess >= 0 && (info[id].inTried ==> info[id].lastSuccess != 0)
  }

  ghost function NewIds(info: map<int, Info>): set<int> {
    set id | id in info && !info[id].inTried
  }

  ghost function TriedIds(info: map<int, Info>): set<int> {
    set id | id in info && info[id].inTried
  }

  /** Everything but the two counters; `pending` are entries an operation has
      taken out of the tables or not yet put in. */
  ghost predicate Linked(h: Hashing, s: State, pending: set<int>) {
    && IdsBelow(s.info, s.nextId)
    && AddrIndex(s.info, s.addr)
    && RandomIndex(s.info, s.random)
    && NewPlaced(h, s.info, s.newTable)
    && TriedPlaced(h, s.info, s.triedTable)
    && Counted(s.info, s.newTable, pending)
    && Dated(s.info)
  }

  /** The "new" counter lags behind by `lag` while an operation is under way. */
  ghost predicate Counters(s: State, lag: int) {
    && s.nNew == |NewIds(s.info)| - lag
    && s.nTried == |TriedIds(s.info)|
  }

  ghost predicate Consistent(h: Hashing, s: State) {
    Linked(h, s, {}) && Counters(s, 0)
  }

  // ---- internal operations ----

  ghost function Create(s: State, a: Address, source: NetAddr): State {
    s.(nextId := s.nextId + 1,
       info := s.info[s.nextId := NewInfo(a, source).(randomPos := |s.random|)],
       addr := s.addr[a.service.ip := s.nextId],
       random := s.random + [s.nextId])
  }

  lemma CreateIndexes(info: map<int, Info>, addr: map<NetAddr, int>, random: seq<int>, id: int, x: Info)
    requires AddrIndex(info, addr) && RandomIndex(info, random)
    requires id !in info && x.service.ip !in addr && x.randomPos == |random|
    ensures AddrIndex(info[id := x], addr[x.service.ip := id])
    ensures RandomIndex(info[id := x], random + [id])
  {
  }

  lemma CreatePlaced(h: Hashing, info: map<int, Info>, newTable: map<Slot, int>, triedTable: map<Slot, int>, id: int,
          x: Info)
    requires NewPlaced(h, info, newTable) && TriedPlaced(h, info, triedTable)
    requires id !in info && !x.inTried
    ensures NewPlaced(h, info[id := x], newTable) && TriedPlaced(h, info[id := x], triedTable)
    ensures Refs(newTable, id) == {} && id !in NewIds(info)
    ensures NewIds(info[id := x]) == NewIds(info) + {id} && TriedIds(info[id := x]) == TriedIds(info)
  {
  }

  lemma CreateLinked(h: Hashing, s: State, a: Address, source: NetAddr)
    requires Linked(h, s, {}) && a.service.ip !in s.addr
    ensures var t := Create(s, a, source);
            && Linked(h, t, {s.nextId}) && s.nextId in t.info && s.nextId !in NewIds(s.info)
            && NewIds(t.info) == NewIds(s.info) + {s.nextId} && TriedIds(t.info) == TriedIds(s.info)
  {
    hide AddrIndex, RandomIndex, NewPlaced, TriedPlaced, NewIds, TriedIds, Refs;
    var x := NewInfo(a, source).(randomPos := |s.random|);
    CreateIndexes(s.info, s.addr, s.random, s.nextId, x);
    CreatePlaced(h, s.info, s.newTable, s.triedTable, s.nextId, x);
  }

  function SwapRandom(s: State, i: nat, j: nat): State
    requires i < |s.random| && j < |s.random| && s.random[i] in s.info && s.random[j] in s.info
  {
    if i == j then s
    else
      var a, b := s.random[i], s.random[j];
      s.(info := s.info[a := s.info[a].(randomPos := j)][b := s.info[b].(randomPos := i)],
         random := s.random[i := b][j := a])
  }

  /** The two maps hold the same addresses in the same roles; statistics and
      positions in vRandom may differ. */
  ghost predicate SameRoles(info: map<int, Info>, info': map<int, Info>) {
    && (forall id :: id in info <==> id in info')
    && (forall id :: id in info ==>
         && info'[id].service == info[id].service
         && info'[id].inTried == info[id].inTried
         && info'[id].refCount == info[id].refCount)
  }

  lemma RolesFrame(h: Hashing, s: State, t: State, pending: set<int>)
    requires Linked(h, s, pending) && SameRoles(s.info, t.info)
    requires t == s.(info := t.info, random := t.random) && RandomIndex(t.info, t.random) && Dated(t.info)
    ensures Linked(h, t, pending)
    ensures NewIds(t.info) == NewIds(s.info) && TriedIds(t.info) == TriedIds(s.info)
  {
    assert AddrIndex(t.info, t.addr);
    assert NewPlaced(h, t.info, t.newTable);
    assert TriedPlaced(h, t.info, t.triedTable);
    assert Counted(t.info, t.newTable, pending);
    assert forall id :: id in NewIds(t.info) <==> id in NewIds(s.info);
    assert forall id :: id in TriedIds(t.info) <==> id in TriedIds(s.info);
  }

  lemma SwapIndex(s: State, i: nat, j: nat)
    requires RandomIndex(s.info, s.random) && i < |s.random| && j < |s.random|
    ensures var t := SwapRandom(s, i, j);
            && RandomIndex(t.info, t.random) && SameRoles(s.info, t.info) && |t.random| == |s.random|
  {
    if i != j {
      var t := SwapRandom(s, i, j);
      var a, b := s.random[i], s.random[j];
      assert a != b by {
        assert s.info[a].randomPos == i && s.info[b].randomPos == j;
      }
      forall id | id in t.info
        ensures var k := t.info[id].randomPos; 0 <= k < |t.random| && t.random[k] == id
      {
        assert id in s.info;
      }
    }
  }

  lemma SwapLinked(h: Hashing, s: State, i: nat, j: nat, pending: set<int>)
    requires Linked(h, s, pending) && i < |s.random| && j < |s.random|
    ensures var t := SwapRandom(s, i, j);
            && Linked(h, t, pending) && SameRoles(s.info, t.info)
            && t == s.(info := t.info, random := t.random)
            && |t.random| == |s.random| && s.random[i] in t.info && t.info[s.random[i]].randomPos == j
            && NewIds(t.info) == NewIds(s.info) && TriedIds(t.info) == TriedIds(s.info)
  {
    hide AddrIndex, NewPlaced, TriedPlaced, Counted, NewIds, TriedIds;
    SwapIndex(s, i, j);
    RolesFrame(h, s, SwapRandom(s, i, j), pending);
  }

  /** Removes an entry that is in no table. */
  function Delete(s: State, id: int): State
    requires RandomIndex(s.info, s.random) && id in s.info
  {
    var t := SwapRandom(s, s.info[id].randomPos, |s.random| - 1);
    t.(random := t.random[..|t.random| - 1], addr := t.addr - {s.info[id].service.ip}, info := t.info - {id},
        nNew := t.nNew - 1)
  }

  lemma DropIndexes(info: map<int, Info>, addr: map<NetAddr, int>, random: seq<int>, id: int)
    requires AddrIndex(info, addr) && RandomIndex(info, random) && id in info && info[id].randomPos == |random| - 1
    ensures AddrIndex(info - {id}, addr - {info[id].service.ip})
    ensures RandomIndex(info - {id}, random[..|random| - 1])
  {
    assert random[|random| - 1] == id;
  }

  lemma DropPlaced(h: Hashing, info: map<int, Info>, newTable: map<Slot, int>, triedTable: map<Slot, int>, id: int)
    requires NewPlaced(h, info, newTable) && TriedPlaced(h, info, triedTable)
    requires id in info && !info[id].inTried && Refs(newTable, id) == {}
    ensures NewPlaced(h, info - {id}, newTable) && TriedPlaced(h, info - {id}, triedTable)
    ensures NewIds(info - {id}) == NewIds(info) - {id} && TriedIds(info - {id}) == TriedIds(info)
  {
    forall s | s in newTable ensures var k := newTable[s]; k in info - {id} {
      assert s in Refs(newTable, newTable[s]);
    }
  }

  lemma PendingUnreferenced(info: map<int, Info>, table: map<Slot, int>, id: int, pending: set<int>)
    requires Counted(info, table, pending) && id in info && id in pending
    ensures Refs(table, id) == {} && !info[id].inTried && id in NewIds(info)
  {
  }

  lemma DropCounted(info: map<int, Info>, table: map<Slot, int>, id: int, pending: set<int>)
    requires Counted(info, table, pending) && Dated(info)
    ensures Counted(info - {id}, table, pending - {id}) && Dated(info - {id})
  {
  }

  lemma PositionOf(info: map<int, Info>, random: seq<int>, id: int)
    requires RandomIndex(info, random) && id in info
    ensures var i := info[id].randomPos; 0 <= i < |random| && random[i] == id
    ensures random[|random| - 1] in info
  {
  }

  lemma DeleteLinked(h: Hashing, s: State, id: int, pending: set<int>)
    requires Linked(h, s, pending) && id in s.info && id in pending
    ensures var t := Delete(s, id);
            && Linked(h, t, pending - {id}) && SameRoles(s.info - {id}, t.info)
            && NewIds(t.info) == NewIds(s.info) - {id} && id in NewIds(s.info) && TriedIds(t.info) == TriedIds(s.info)
  {
    hide AddrIndex, RandomIndex, NewPlaced, TriedPlaced, Counted, Dated, NewIds, TriedIds, Refs, SwapRandom;
    PositionOf(s.info, s.random, id);
    var i, j := s.info[id].randomPos, |s.random| - 1;
    var t := SwapRandom(s, i, j);
    SwapLinked(h, s, i, j, pending);
    PendingUnreferenced(t.info, t.newTable, id, pending);
    DropIndexes(t.info, t.addr, t.random, id);
    DropPlaced(h, t.info, t.newTable, t.triedTable, id);
    DropCounted(t.info, t.newTable, id, pending);
  }

  ghost function Release(s: State, slot: Slot): State
    requires slot in s.newTable && s.newTable[slot] in s.info
  {
    var id := s.newTable[slot];
    s.(info := s.info[id := s.info[id].(refCount := s.info[id].refCount - 1)], newTable := s.newTable - {slot})
  }

  /** Empties a slot of the "new" table, deleting an entry that loses its last reference. */
  ghost function ClearNew(s: State, slot: Slot): State
    requires RandomIndex(s.info, s.random)
    requires slot in s.newTable ==> s.newTable[slot] in s.info
  {
    if slot !in s.newTable then s
    else
      var id, t := s.newTable[slot], Release(s, slot);
      if t.info[id].refCount == 0 then Delete(t, id) else t
  }

  lemma RefsRemove(table: map<Slot, int>, slot: Slot, k: int)
    requires slot in table
    ensures Refs(table - {slot}, k) == if k == table[slot] then Refs(table, k) - {slot} else Refs(table, k)
    ensures k == table[slot] ==> slot in Refs(table, k) && |Refs(table - {slot}, k)| == |Refs(table, k)| - 1
  {
  }

  lemma RefsInsert(table: map<Slot, int>, slot: Slot, id: int, k: int)
    requires slot !in table
    ensures Refs(table[slot := id], k) == if k == id then Refs(table, k) + {slot} else Refs(table, k)
    ensures k == id ==> |Refs(table[slot := id], k)| == |Refs(table, k)| + 1
  {
  }

  /** Changing an entry's statistics or roles moves no index. */
  lemma UpdateIndexes(s: State, id: int, x: Info)
    requires IdsBelow(s.info, s.nextId) && AddrIndex(s.info, s.addr) && RandomIndex(s.info, s.random)
    requires id in s.info && x.service == s.info[id].service && x.randomPos == s.info[id].randomPos
    ensures IdsBelow(s.info[id := x], s.nextId) && AddrIndex(s.info[id := x], s.addr)
            && RandomIndex(s.info[id := x], s.random)
  {
  }

  lemma ReleasePlaced(h: Hashing, info: map<int, Info>, newTable: map<Slot, int>, rest: map<Slot, int>,
          triedTable: map<Slot, int>, id: int, x: Info)
    requires NewPlaced(h, info, newTable) && TriedPlaced(h, info, triedTable)
    requires forall s :: s in rest ==> s in newTable && rest[s] == newTable[s]
    requires id in info && x.service == info[id].service && x.inTried == info[id].inTried
    ensures NewPlaced(h, info[id := x], rest) && TriedPlaced(h, info[id := x], triedTable)
    ensures NewIds(info[id := x]) == NewIds(info) && TriedIds(info[id := x]) == TriedIds(info)
  {
    assert forall k :: k in NewIds(info[id := x]) <==> k in NewIds(info);
    assert forall k :: k in TriedIds(info[id := x]) <==> k in TriedIds(info);
  }

  lemma ReleaseCounted(info: map<int, Info>, table: map<Slot, int>, slot: Slot, pending: set<int>)
    requires Counted(info, table, pending) && Dated(info) && slot in table && table[slot] in info
    ensures var id := table[slot];
            var x := info[id].(refCount := info[id].refCount - 1);
            && Dated(info[id := x]) && x.refCount >= 0 && id !in pending
            && Counted(info[id := x], table - {slot}, if x.refCount == 0 then pending + {id} else pending)
  {
    var id := table[slot];
    assert slot in Refs(table, id);
    forall k ensures Refs(table - {slot}, k) == if k == id then Refs(table, k) - {slot} else Refs(table, k) {
      RefsRemove(table, slot, k);
    }
  }

  /** Entries other than `but` survive with at most their vRandom position changed. */
  ghost predicate OthersKept(info: map<int, Info>, info': map<int, Info>, but: set<int>) {
    && (forall k :: k in info && k !in but ==> k in info')
    && (forall k :: k in info && k !in but ==> info'[k] == info[k].(randomPos := info'[k].randomPos))
    && (forall k :: k in info' ==> k in info)
  }

  lemma KeptTransitive(info0: map<int, Info>, info1: map<int, Info>, info2: map<int, Info>, but: set<int>,
          but': set<int>)
    requires OthersKept(info0, info1, but) && OthersKept(info1, info2, but')
    ensures OthersKept(info0, info2, but + but')
  {
  }

  lemma DeleteKeeps(s: State, id: int)
    requires RandomIndex(s.info, s.random) && id in s.info
    ensures var t := Delete(s, id);
            && t == s.(info := t.info, addr := t.addr, random := t.random, nNew := s.nNew - 1)
            && OthersKept(s.info, t.info, {id})
  {
  }

  lemma ReleaseLinked(h: Hashing, s: State, slot: Slot, pending: set<int>)
    requires Linked(h, s, pending) && slot in s.newTable
    ensures s.newTable[slot] in s.info && s.newTable[slot] !in pending
    ensures var t, id := Release(s, slot), s.newTable[slot];
            && Linked(h, t, if t.info[id].refCount == 0 then pending + {id} else pending)
            && OthersKept(s.info, t.info, {id})
            && NewIds(t.info) == NewIds(s.info) && TriedIds(t.info) == TriedIds(s.info)
  {
    hide AddrIndex, TriedPlaced, Counted, Dated, NewIds, TriedIds, Refs, RandomIndex, IdsBelow;
    var id := s.newTable[slot];
    assert id in s.info;
    var x := s.info[id].(refCount := s.info[id].refCount - 1);
    UpdateIndexes(s, id, x);
    ReleasePlaced(h, s.info, s.newTable, s.newTable - {slot}, s.triedTable, id, x);
    ReleaseCounted(s.info, s.newTable, slot, pending);
  }

  lemma ClearNewLinked(h: Hashing, s: State, slot: Slot, pending: set<int>)
    requires Linked(h, s, pending)
    ensures slot in s.newTable ==> s.newTable[slot] in s.info && s.newTable[slot] !in pending
    ensures var t := ClearNew(s, slot);
            && Linked(h, t, pending)
            && t == s.(info := t.info, addr := t.addr, random := t.random, newTable := s.newTable - {slot},
               nNew := t.nNew)
            && OthersKept(s.info, t.info, if slot in s.newTable then {s.newTable[slot]} else {})
            && TriedIds(t.info) == TriedIds(s.info)
            && t.nNew - |NewIds(t.info)| == s.nNew - |NewIds(s.info)|
  {
    hide AddrIndex, TriedPlaced, Counted, Dated, NewIds, TriedIds, Refs, NewPlaced, Delete, IdsBelow;
    if slot in s.newTable {
      ReleaseLinked(h, s, slot, pending);
      var t, id := Release(s, slot), s.newTable[slot];
      if t.info[id].refCount == 0 {
        DeleteLinked(h, t, id, pending + {id});
        DeleteKeeps(t, id);
        assert pending + {id} - {id} == pending;
      }
    } else {
      assert s.newTable - {slot} == s.newTable;
    }
  }

  /** Takes an entry out of every "new" slot. */
  ghost function Unlist(s: State, id: int): State
    requires id in s.info
  {
    s.(info := s.info[id := s.info[id].(refCount := s.info[id].refCount - |Refs(s.newTable, id)|)],
       newTable := map k | k in s.newTable && s.newTable[k] != id :: s.newTable[k],
       nNew := s.nNew - 1)
  }

  lemma UnlistLinked(h: Hashing, s: State, id: int)
    requires Linked(h, s, {}) && id in s.info && !s.info[id].inTried
    ensures var t := Unlist(s, id);
            && Linked(h, t, {id}) && OthersKept(s.info, t.info, {id}) && id in t.info
            && NewIds(t.info) == NewIds(s.info) && TriedIds(t.info) == TriedIds(s.info)
  {
    hide AddrIndex, RandomIndex, IdsBelow, NewPlaced, TriedPlaced, Counted, Dated, NewIds, TriedIds, Refs;
    var t := Unlist(s, id);
    UpdateIndexes(s, id, t.info[id]);
    ReleasePlaced(h, s.info, s.newTable, t.newTable, s.triedTable, id, t.info[id]);
    UnlistCounted(s.info, s.newTable, t.newTable, id);
  }

  lemma UnlistCounted(info: map<int, Info>, table: map<Slot, int>, rest: map<Slot, int>, id: int)
    requires Counted(info, table, {}) && Dated(info) && id in info && !info[id].inTried
    requires rest == map k | k in table && table[k] != id :: table[k]
    ensures var x := info[id].(refCount := info[id].refCount - |Refs(table, id)|);
            Counted(info[id := x], rest, {id}) && Dated(info[id := x])
  {
    forall k ensures Refs(rest, k) == if k == id then {} else Refs(table, k) {}
  }

  /** Takes the entry at a "tried" slot out of the tried set. */
  ghost function Untry(s: State, slot: Slot): State
    requires slot in s.triedTable && s.triedTable[slot] in s.info
  {
    var id := s.triedTable[slot];
    s.(info := s.info[id := s.info[id].(inTried := false)], triedTable := s.triedTable - {slot}, nTried := s.nTried - 1)
  }

  lemma UntryLinked(h: Hashing, s: State, slot: Slot, pending: set<int>)
    requires Linked(h, s, pending) && slot in s.triedTable
    ensures s.triedTable[slot] in s.info && s.triedTable[slot] !in pending
    ensures var t, id := Untry(s, slot), s.triedTable[slot];
            && Linked(h, t, pending + {id})
            && NewIds(t.info) == NewIds(s.info) + {id} && id !in NewIds(s.info)
            && TriedIds(t.info) == TriedIds(s.info) - {id} && id in TriedIds(s.info)
  {
    var id := s.triedTable[slot];
    assert id in s.info && s.info[id].inTried;
    hide AddrIndex, RandomIndex, IdsBelow, NewPlaced, TriedPlaced, NewIds, TriedIds, Refs, Dated;
    UpdateIndexes(s, id, Untry(s, slot).info[id]);
    UntryPlaced(h, s.info, s.newTable, s.triedTable, slot);
    UntryCounted(s.info, s.newTable, id, pending);
  }

  lemma UntryPlaced(h: Hashing, info: map<int, Info>, newTable: map<Slot, int>, triedTable: map<Slot, int>, slot: Slot)
    requires NewPlaced(h, info, newTable) && TriedPlaced(h, info, triedTable)
    requires slot in triedTable && triedTable[slot] in info
    ensures var id := triedTable[slot];
            var next := info[id := info[id].(inTried := false)];
            && NewPlaced(h, next, newTable) && TriedPlaced(h, next, triedTable - {slot})
            && NewIds(next) == NewIds(info) + {id} && id !in NewIds(info)
            && TriedIds(next) == TriedIds(info) - {id} && id in TriedIds(info)
  {
    var id := triedTable[slot];
    assert info[id].inTried;
  }

  lemma UntryCounted(info: map<int, Info>, table: map<Slot, int>, id: int, pending: set<int>)
    requires Counted(info, table, pending) && Dated(info) && id in info && info[id].inTried
    ensures var next := info[id := info[id].(inTried := false)];
            Counted(next, table, pending + {id}) && Dated(next)
  {
  }

  /** Puts an entry into one more "new" slot. */
  ghost function Enlist(s: State, slot: Slot, id: int): State
    requires id in s.info
  {
    s.(info := s.info[id := s.info[id].(refCount := s.info[id].refCount + 1)], newTable := s.newTable[slot := id])
  }

  lemma EnlistLinked(h: Hashing, s: State, slot: Slot, id: int, pending: set<int>)
    requires Linked(h, s, pending) && id in s.info && !s.info[id].inTried && slot !in s.newTable
    requires slot == h.SlotIn(s.info[id].service, slot.0) && s.info[id].refCount < BUCKETS_PER_ADDRESS
    ensures var t := Enlist(s, slot, id);
            && Linked(h, t, pending - {id}) && OthersKept(s.info, t.info, {id})
            && NewIds(t.info) == NewIds(s.info) && TriedIds(t.info) == TriedIds(s.info)
  {
    hide AddrIndex, RandomIndex, IdsBelow, NewPlaced, TriedPlaced, Counted, NewIds, TriedIds, Refs, Dated;
    var x := s.info[id].(refCount := s.info[id].refCount + 1);
    UpdateIndexes(s, id, x);
    ReleasePlaced(h, s.info, s.newTable, s.newTable, s.triedTable, id, x);
    EnlistPlaced(h, s.info[id := x], s.newTable, slot, id);
    EnlistCounted(s.info, s.newTable, slot, id, pending);
  }

  lemma EnlistPlaced(h: Hashing, info: map<int, Info>, table: map<Slot, int>, slot: Slot, id: int)
    requires NewPlaced(h, info, table) && id in info && !info[id].inTried && slot == h.SlotIn(info[id].service, slot.0)
    ensures NewPlaced(h, info, table[slot := id])
  {
  }

  lemma EnlistCounted(info: map<int, Info>, table: map<Slot, int>, slot: Slot, id: int, pending: set<int>)
    requires Counted(info, table, pending) && Dated(info) && id in info && !info[id].inTried && slot !in table
    requires info[id].refCount < BUCKETS_PER_ADDRESS
    ensures var next := info[id := info[id].(refCount := info[id].refCount + 1)];
            Counted(next, table[slot := id], pending - {id}) && Dated(next)
  {
    forall k ensures Refs(table[slot := id], k) == if k == id then Refs(table, k) + {slot} else Refs(table, k) {
      RefsInsert(table, slot, id, k);
    }
    assert slot !in Refs(table, id);
  }

  /** Puts an entry into its "tried" slot. */
  ghost function Place(h: Hashing, s: State, id: int): State
    requires id in s.info
  {
    s.(info := s.info[id := s.info[id].(inTried := true)],
       triedTable := s.triedTable[h.TriedSlot(s.info[id].service) := id], nTried := s.nTried + 1)
  }

  lemma PlaceLinked(h: Hashing, s: State, id: int)
    requires Linked(h, s, {id}) && id in s.info && s.info[id].lastSuccess > 0
    requires h.TriedSlot(s.info[id].service) !in s.triedTable
    ensures var t := Place(h, s, id);
            && Linked(h, t, {}) && OthersKept(s.info, t.info, {id})
            && NewIds(t.info) == NewIds(s.info) - {id} && id in NewIds(s.info)
            && TriedIds(t.info) == TriedIds(s.info) + {id} && id !in TriedIds(s.info)
  {
    hide AddrIndex, RandomIndex, IdsBelow, NewPlaced, TriedPlaced, NewIds, TriedIds, Refs, Counted, Dated;
    PendingUnreferenced(s.info, s.newTable, id, {id});
    UpdateIndexes(s, id, Place(h, s, id).info[id]);
    PlacePlaced(h, s.info, s.newTable, s.triedTable, id);
    PlaceCounted(s.info, s.newTable, id);
  }

  lemma PlaceCounted(info: map<int, Info>, table: map<Slot, int>, id: int)
    requires Counted(info, table, {id}) && Dated(info) && id in info && info[id].lastSuccess > 0
    ensures var next := info[id := info[id].(inTried := true)];
            Counted(next, table, {}) && Dated(next)
  {
  }

  lemma PlacePlaced(h: Hashing, info: map<int, Info>, newTable: map<Slot, int>, triedTable: map<Slot, int>, id: int)
    requires NewPlaced(h, info, newTable) && TriedPlaced(h, info, triedTable)
    requires id in info && !info[id].inTried && Refs(newTable, id) == {}
    requires h.TriedSlot(info[id].service) !in triedTable
    ensures var next := info[id := info[id].(inTried := true)];
            && NewPlaced(h, next, newTable) && TriedPlaced(h, next, triedTable[h.TriedSlot(info[id].service) := id])
            && NewIds(next) == NewIds(info) - {id} && TriedIds(next) == TriedIds(info) + {id} && id !in TriedIds(info)
  {
    forall k | k in newTable ensures newTable[k] != id {
      assert k in Refs(newTable, newTable[k]);
    }
  }

  /** Sends the occupant of a "tried" slot back to its "new" slot, whose own
      occupant loses a reference. */
  ghost function Evict(h: Hashing, s: State, slot: Slot, pending: set<int>): State
    requires Linked(h, s, pending) && slot in s.triedTable
  {
    UntryLinked(h, s, slot, pending);
    var prior := s.triedTable[slot];
    var t := Untry(s, slot);
    var u := h.NewSlot(s.info[prior].service, s.info[prior].source);
    ClearNewLinked(h, t, u, pending + {prior});
    var v := Enlist(ClearNew(t, u), u, prior);
    v.(nNew := v.nNew + 1)
  }

  lemma EvictLinked(h: Hashing, s: State, slot: Slot, pending: set<int>)
    requires Linked(h, s, pending) && slot in s.triedTable
    ensures var t, prior := Evict(h, s, slot, pending), s.triedTable[slot];
            var u := h.NewSlot(s.info[prior].service, s.info[prior].source);
            && Linked(h, t, pending)
            && t.triedTable == s.triedTable - {slot} && t.newTable == s.newTable[u := prior]
            && t.nNew - |NewIds(t.info)| == s.nNew - |NewIds(s.info)|
            && t.nTried - |TriedIds(t.info)| == s.nTried - |TriedIds(s.info)|
            && OthersKept(s.info, t.info, if u in s.newTable then {prior, s.newTable[u]} else {prior})
            && prior in t.info && !t.info[prior].inTried && t.info[prior].refCount == 1
  {
    hide AddrIndex, RandomIndex, IdsBelow, NewPlaced, TriedPlaced, NewIds, TriedIds, Counted, Dated, ClearNew;
    UntryLinked(h, s, slot, pending);
    var prior := s.triedTable[slot];
    var t := Untry(s, slot);
    var u := h.NewSlot(s.info[prior].service, s.info[prior].source);
    ClearNewLinked(h, t, u, pending + {prior});
    var v := ClearNew(t, u);
    PendingZero(h, v, prior, pending + {prior});
    EnlistLinked(h, v, u, prior, pending + {prior});
    assert pending + {prior} - {prior} == pending;
  }

  lemma PendingZero(h: Hashing, s: State, id: int, pending: set<int>)
    requires Linked(h, s, pending) && id in s.info && id in pending
    ensures s.info[id].refCount == 0 && !s.info[id].inTried
  {
  }

  /** Moves an entry from the "new" tables to the "tried" table. */
  ghost function MakeTried(h: Hashing, s: State, id: int): State
    requires Linked(h, s, {}) && id in s.info && !s.info[id].inTried
  {
    UnlistLinked(h, s, id);
    var t := Unlist(s, id);
    var slot := h.TriedSlot(s.info[id].service);
    if slot in t.triedTable then
      EvictLinked(h, t, slot, {id});
      KeptPending(h, t, slot, id);
      Place(h, Evict(h, t, slot, {id}), id)
    else Place(h, t, id)
  }

  /** Making room in the "tried" table does not touch the entry being moved. */
  lemma KeptPending(h: Hashing, s: State, slot: Slot, id: int)
    requires Linked(h, s, {id}) && id in s.info && slot in s.triedTable
    ensures s.triedTable[slot] != id
    ensures var t := Evict(h, s, slot, {id});
            id in t.info && t.info[id] == s.info[id].(randomPos := t.info[id].randomPos)
  {
    hide AddrIndex, RandomIndex, IdsBelow, NewIds, TriedIds, Dated, Evict;
    EvictLinked(h, s, slot, {id});
    PendingUnreferenced(s.info, s.newTable, id, {id});
    var prior := s.triedTable[slot];
    assert prior in s.info && s.info[prior].inTried;
    var u := h.NewSlot(s.info[prior].service, s.info[prior].source);
    assert u in s.newTable ==> u in Refs(s.newTable, s.newTable[u]);
  }

  /** MakeTried keeps the invariant and leaves the entry tried at its slot; an
      evicted entry is back in "new" at its own slot. */
  lemma MakeTriedConsistent(h: Hashing, s: State, id: int)
    requires Consistent(h, s) && id in s.info && !s.info[id].inTried && s.info[id].lastSuccess > 0
    ensures var t, slot := MakeTried(h, s, id), h.TriedSlot(s.info[id].service);
            && Consistent(h, t) && id in t.info && t.info[id].inTried
            && t.triedTable == s.triedTable[slot := id]
            && (slot in s.triedTable ==>
                  var prior := s.triedTable[slot];
                  var u := h.NewSlot(s.info[prior].service, s.info[prior].source);
                  && prior in t.info && !t.info[prior].inTried && t.info[prior].refCount == 1
                  && u in t.newTable && t.newTable[u] == prior)
  {
    hide AddrIndex, RandomIndex, IdsBelow, NewPlaced, TriedPlaced, NewIds, TriedIds, Counted, Dated, Evict, Refs, Place,
         Unlist, OthersKept;
    UnlistLinked(h, s, id);
    UnlistKeeps(s, id);
    var t := Unlist(s, id);
    var slot := h.TriedSlot(s.info[id].service);
    if slot in t.triedTable {
      EvictLinked(h, t, slot, {id});
      KeptPending(h, t, slot, id);
      var v := Evict(h, t, slot, {id});
      PlaceLinked(h, v, id);
      PlaceKeeps(h, v, id);
    } else {
      PlaceLinked(h, t, id);
      PlaceKeeps(h, t, id);
    }
  }

  /** The entries MakeTried may change: the one moved, the one it evicts, and
      the one whose "new" slot the evicted entry takes. */
  ghost function Disturbed(h: Hashing, s: State, id: int): set<int>
    requires Linked(h, s, {}) && id in s.info
  {
    var slot := h.TriedSlot(s.info[id].service);
    if slot !in s.triedTable then {id}
    else
      var prior := s.triedTable[slot];
      var u := h.NewSlot(s.info[prior].service, s.info[prior].source);
      {id, prior} + (if u in s.newTable then {s.newTable[u]} else {})
  }

  lemma MakeTriedKeeps(h: Hashing, s: State, id: int)
    requires Linked(h, s, {}) && id in s.info && !s.info[id].inTried && s.info[id].lastSuccess > 0
    ensures OthersKept(s.info, MakeTried(h, s, id).info, Disturbed(h, s, id))
  {
    hide AddrIndex, RandomIndex, IdsBelow, NewPlaced, NewIds, TriedIds, Counted, Dated, Evict, Refs, Place, Unlist,
         OthersKept;
    UnlistLinked(h, s, id);
    UnlistKeeps(s, id);
    var t := Unlist(s, id);
    var slot := h.TriedSlot(s.info[id].service);
    if slot in t.triedTable {
      EvictLinked(h, t, slot, {id});
      KeptPending(h, t, slot, id);
      var v := Evict(h, t, slot, {id});
      PlaceLinked(h, v, id);
      var prior := t.triedTable[slot];
      var u := h.NewSlot(t.info[prior].service, t.info[prior].source);
      var but := if u in t.newTable then {prior, t.newTable[u]} else {prior};
      KeptTransitive(s.info, t.info, v.info, {id}, but);
      KeptTransitive(s.info, v.info, Place(h, v, id).info, {id} + but, {id});
      KeptWider(s.info, Place(h, v, id).info, {id} + but + {id}, Disturbed(h, s, id));
    } else {
      PlaceLinked(h, t, id);
      KeptTransitive(s.info, t.info, Place(h, t, id).info, {id}, {id});
      assert {id} + {id} == {id};
    }
  }

  lemma KeptWider(info: map<int, Info>, info': map<int, Info>, but: set<int>, but': set<int>)
    requires OthersKept(info, info', but) && but <= but'
    ensures OthersKept(info, info', but')
  {
  }

  lemma UnlistKeeps(s: State, id: int)
    requires id in s.info
    ensures var t := Unlist(s, id);
            && t == s.(info := t.info, newTable := t.newTable, nNew := s.nNew - 1)
            && t.info == s.info[id := s.info[id].(refCount := t.info[id].refCount)]
            && forall k :: k in t.newTable ==> k in s.newTable && t.newTable[k] == s.newTable[k]
  {
  }

  lemma PlaceKeeps(h: Hashing, s: State, id: int)
    requires id in s.info
    ensures var t := Place(h, s, id);
            && t == s.(info := s.info[id := s.info[id].(inTried := true)], triedTable := t.triedTable,
               nTried := s.nTried + 1)
            && t.triedTable == s.triedTable[h.TriedSlot(s.info[id].service) := id]
  {
  }

  // ---- public operations ----

  /** The entry of exactly this address and port. */
  ghost predicate Knows(s: State, service: Service) {
    service.ip in s.addr && s.addr[service.ip] in s.info && s.info[s.addr[service.ip]].service == service
  }

  ghost function Touch(s: State, id: int, x: Info): State {
    s.(info := s.info[id := x])
  }

  lemma TouchConsistent(h: Hashing, s: State, id: int, x: Info)
    requires Consistent(h, s) && id in s.info
    requires x.service == s.info[id].service && x.inTried == s.info[id].inTried
    requires x.refCount == s.info[id].refCount && x.randomPos == s.info[id].randomPos
    requires x.lastTry >= 0 && x.lastSuccess >= 0 && (x.inTried ==> x.lastSuccess != 0)
    ensures Consistent(h, Touch(s, id, x))
  {
    hide AddrIndex, NewPlaced, TriedPlaced, NewIds, TriedIds, Counted;
    UpdateIndexes(s, id, x);
    RolesFrame(h, s, Touch(s, id, x), {});
  }

  ghost function Good(h: Hashing, s: State, service: Service, time: int): State
    requires Consistent(h, s) && time > 0
  {
    var t := s.(lastGood := time);
    if !Knows(s, service) then t
    else
      var id := s.addr[service.ip];
      var x := s.info[id].(lastSuccess := time, lastTry := time, attempts := 0);
      TouchConsistent(h, t, id, x);
      if x.inTried then Touch(t, id, x) else MakeTried(h, Touch(t, id, x), id)
  }

  ghost function Attempt(s: State, service: Service, countFailure: bool, time: int): State {
    if !Knows(s, service) then s
    else
      var id := s.addr[service.ip];
      var x := s.info[id].(lastTry := time);
      Touch(s, id, if countFailure && x.lastCountAttempt < s.lastGood
                   then x.(lastCountAttempt := time, attempts := x.attempts + 1) else x)
  }

  ghost function Connected(s: State, service: Service, time: int): State {
    if !Knows(s, service) then s
    else
      var id := s.addr[service.ip];
      if time - s.info[id].time > 20 * 60 then Touch(s, id, s.info[id].(time := time)) else s
  }

  ghost function SetServices(s: State, service: Service, services: set<nat>): State {
    if !Knows(s, service) then s
    else Touch(s, s.addr[service.ip], s.info[s.addr[service.ip]].(services := services))
  }

  /** Whether the occupant of a "new" slot gives way to an entry. */
  ghost predicate Yields(s: State, occupant: int, id: int, now: int)
    requires occupant in s.info && id in s.info
  {
    s.info[occupant].IsTerrible(now) || (s.info[occupant].refCount > 1 && s.info[id].refCount == 0)
  }

  /** Tries to reference an entry from the "new" bucket its source selects. */
  ghost function Insert(h: Hashing, s: State, id: int, source: NetAddr, now: int): State
    requires Linked(h, s, {id}) || Linked(h, s, {})
    requires id in s.info
  {
    var slot := h.NewSlot(s.info[id].service, source);
    if slot in s.newTable && s.newTable[slot] == id then s
    else if slot !in s.newTable || Yields(s, s.newTable[slot], id, now) then
      ClearKeeps(h, s, slot, id);
      Enlist(ClearNew(s, slot), slot, id)
    else if s.info[id].refCount == 0 then Delete(s, id)
    else s
  }

  lemma ClearKeeps(h: Hashing, s: State, slot: Slot, id: int)
    requires Linked(h, s, {id}) || Linked(h, s, {})
    requires id in s.info && (slot in s.newTable ==> s.newTable[slot] != id)
    ensures slot in s.newTable ==> s.newTable[slot] in s.info
    ensures var t := ClearNew(s, slot);
            id in t.info && t.info[id] == s.info[id].(randomPos := t.info[id].randomPos)
  {
    ClearNewLinked(h, s, slot, if Linked(h, s, {}) then {} else {id});
  }

  ghost predicate Insertable(h: Hashing, s: State, id: int) {
    && id in s.info && !s.info[id].inTried && s.info[id].refCount < BUCKETS_PER_ADDRESS
    && (Linked(h, s, {id}) || (Linked(h, s, {}) && s.info[id].refCount > 0))
  }

  /** Whatever the bucket decides, the entry ends referenced or gone. */
  lemma InsertConsistent(h: Hashing, s: State, id: int, source: NetAddr, now: int)
    requires Insertable(h, s, id) && Counters(s, 0)
    ensures var t, slot := Insert(h, s, id, source, now), h.NewSlot(s.info[id].service, source);
            && Consistent(h, t) && t.triedTable == s.triedTable
            && OthersKept(s.info, t.info, if slot in s.newTable then {id, s.newTable[slot]} else {id})
            && (id in t.info ==> t.info[id].refCount > 0 && !t.info[id].inTried)
            && (id !in t.info ==> s.info[id].refCount == 0 && slot in s.newTable && t.newTable == s.newTable)
            && (slot !in s.newTable ==> slot in t.newTable && t.newTable[slot] == id)
  {
    hide AddrIndex, RandomIndex, IdsBelow, NewPlaced, TriedPlaced, NewIds, TriedIds, Counted, Dated, Delete, Refs,
         ClearNew, Enlist;
    var slot := h.NewSlot(s.info[id].service, source);
    var pending := if Linked(h, s, {id}) then {id} else {};
    if id in pending { PendingZero(h, s, id, pending); }
    ClearNewLinked(h, s, slot, pending);
    if slot in s.newTable && s.newTable[slot] == id {
    } else if slot !in s.newTable || Yields(s, s.newTable[slot], id, now) {
      EnlistCleared(h, s, slot, id, pending);
    } else if s.info[id].refCount == 0 {
      DeleteLinked(h, s, id, {id});
      DeleteKeeps(s, id);
      assert {id} - {id} == {};
    }
  }

  lemma EnlistCleared(h: Hashing, s: State, slot: Slot, id: int, pending: set<int>)
    requires Linked(h, s, pending) && Counters(s, 0) && id in s.info && !s.info[id].inTried
    requires slot in s.newTable ==> s.newTable[slot] != id
    requires slot == h.SlotIn(s.info[id].service, slot.0) && s.info[id].refCount < BUCKETS_PER_ADDRESS
    requires pending == {} || pending == {id}
    ensures slot in s.newTable ==> s.newTable[slot] in s.info
    ensures id in ClearNew(s, slot).info
    ensures var t := Enlist(ClearNew(s, slot), slot, id);
            && Consistent(h, t) && t.triedTable == s.triedTable && id in t.info
               && t.info[id].refCount == s.info[id].refCount + 1
            && !t.info[id].inTried && t.newTable == s.newTable[slot := id]
            && OthersKept(s.info, t.info, if slot in s.newTable then {id, s.newTable[slot]} else {id})
  {
    hide AddrIndex, RandomIndex, IdsBelow, NewPlaced, TriedPlaced, NewIds, TriedIds, Counted, Dated, Refs, ClearNew,
         OthersKept;
    ClearKeeps(h, s, slot, id);
    ClearNewLinked(h, s, slot, pending);
    var t := ClearNew(s, slot);
    EnlistLinked(h, t, slot, id, pending);
    var lost := if slot in s.newTable then {s.newTable[slot]} else {};
    KeptTransitive(s.info, t.info, Enlist(t, slot, id).info, lost, {id});
    assert lost + {id} == if slot in s.newTable then {id, s.newTable[slot]} else {id};
    assert pending - {id} == {};
  }

  /** An hour for an address that is online now, a day for any other. */
  function UpdateInterval(a: Address, now: int): int {
    if now - a.time < 24 * 60 * 60 then 60 * 60 else 24 * 60 * 60
  }

  /** The timestamp and services of a known entry after hearing of it again. A
      timestamp never goes back, it only ever becomes the penalised one heard,
      and it does so exactly when none was known or the gain exceeds the interval. */
  function Refreshed(x: Info, a: Address, penalty: int, now: int): (r: Info)
    ensures r == x.(time := r.time, services := r.services)
    ensures r.services == x.services + a.services
    ensures r.time == x.time || r.time == Max0(a.time - penalty)
    ensures x.time >= 0 ==> r.time >= x.time
    ensures x.time > 0 && a.time != 0 ==>
              (r.time > x.time <==> a.time - penalty > x.time + UpdateInterval(a, now))
    ensures x.time == 0 && a.time != 0 ==> r.time == Max0(a.time - penalty)
    ensures a.time == 0 ==> r.time == x.time
  {
    var interval := UpdateInterval(a, now);
    var time := if a.time != 0 && (x.time == 0 || x.time < a.time - interval - penalty)
                then Max0(a.time - penalty) else x.time;
    x.(time := time, services := x.services + a.services)
  }

  /** Whether hearing of a known entry may earn it one more reference. */
  predicate Promotable(x: Info, a: Address) {
    a.time != 0 && !(x.time != 0 && a.time <= x.time) && !x.inTried && x.refCount != BUCKETS_PER_ADDRESS
  }

  /** `lucky` is the outcome of the stochastic test. */
  ghost function Add(h: Hashing, s: State, a: Address, source: NetAddr, penalty: int, now: int, routable: bool,
          lucky: bool): State
    requires Consistent(h, s)
  {
    if !routable then s
    else if a.service.ip in s.addr then
      var id := s.addr[a.service.ip];
      var x := Refreshed(s.info[id], a, penalty, now);
      TouchConsistent(h, s, id, x);
      var t := Touch(s, id, x);
      if Promotable(x, a) && lucky then Insert(h, t, id, source, now) else t
    else
      CreateLinked(h, s, a, source);
      var t := Created(s, a, source, penalty);
      CreatedLinked(h, s, a, source, penalty);
      Insert(h, t, s.nextId, source, now)
  }

  /** A new entry with its penalised timestamp, counted as new. */
  ghost function Created(s: State, a: Address, source: NetAddr, penalty: int): State {
    var t := Create(s, a, source);
    t.(info := t.info[s.nextId := t.info[s.nextId].(time := Max0(a.time - penalty))], nNew := t.nNew + 1)
  }

  lemma CreatedLinked(h: Hashing, s: State, a: Address, source: NetAddr, penalty: int)
    requires Consistent(h, s) && a.service.ip !in s.addr
    ensures Insertable(h, Created(s, a, source, penalty), s.nextId) && Counters(Created(s, a, source, penalty), 0)
  {
    hide AddrIndex, RandomIndex, IdsBelow, NewPlaced, TriedPlaced, NewIds, TriedIds, Counted, Refs, Dated;
    CreateLinked(h, s, a, source);
    var t, id := Create(s, a, source), s.nextId;
    var x := t.info[id].(time := Max0(a.time - penalty));
    UpdateIndexes(t, id, x);
    Redated(t.info, id, x);
    RolesFrame(h, t, Touch(t, id, x), {id});
  }

  lemma Redated(info: map<int, Info>, id: int, x: Info)
    requires Dated(info) && id in info && x == info[id].(time := x.time)
    ensures Dated(info[id := x]) && SameRoles(info, info[id := x])
  {
  }

  /** Add keeps the invariant and never disturbs the tried table. */
  lemma AddConsistent(h: Hashing, s: State, a: Address, source: NetAddr, penalty: int, now: int, routable: bool,
          lucky: bool)
    requires Consistent(h, s)
    ensures var t := Add(h, s, a, source, penalty, now, routable, lucky);
            && Consistent(h, t) && t.triedTable == s.triedTable
            && (a.service.ip in s.addr ==> s.addr[a.service.ip] in t.info)
  {
    hide RandomIndex, IdsBelow, NewPlaced, TriedPlaced, NewIds, TriedIds, Refs, Insert;
    if routable {
      if a.service.ip in s.addr {
        var id := s.addr[a.service.ip];
        assert id in s.info;
        var x := Refreshed(s.info[id], a, penalty, now);
        TouchConsistent(h, s, id, x);
        if Promotable(x, a) && lucky {
          InsertConsistent(h, Touch(s, id, x), id, source, now);
        }
      } else {
        CreatedLinked(h, s, a, source, penalty);
        InsertConsistent(h, Created(s, a, source, penalty), s.nextId, source, now);
      }
    }
  }

  /** Good keeps the invariant, and an entry of exactly this service ends tried. */
  lemma GoodConsistent(h: Hashing, s: State, service: Service, time: int)
    requires Consistent(h, s) && time > 0
    ensures var t := Good(h, s, service, time);
            && Consistent(h, t)
            && (Knows(s, service) ==>
                  var id := s.addr[service.ip];
                  id in t.info && t.info[id].inTried && t.info[id].lastSuccess > 0)
            && (!Knows(s, service) ==> t == s.(lastGood := time))
  {
    hide RandomIndex, IdsBelow, NewPlaced, TriedPlaced, NewIds, TriedIds, Counted, Refs, MakeTried;
    var t := s.(lastGood := time);
    if Knows(s, service) {
      var id := s.addr[service.ip];
      var x := s.info[id].(lastSuccess := time, lastTry := time, attempts := 0);
      TouchConsistent(h, t, id, x);
      if !x.inTried {
        MakeTriedConsistent(h, Touch(t, id, x), id);
        assert Consistent(h, MakeTried(h, Touch(t, id, x), id));
      }
    }
  }

  // ---- whole histories ----

  datatype Event =
    | EAdd(address: Address, source: NetAddr, penalty: int, now: int, routable: bool, lucky: bool)
    | EGood(service: Service, time: int)
    | EAttempt(service: Service, countFailure: bool, time: int)
    | EConnected(service: Service, time: int)
    | ESetServices(service: Service, services: set<nat>)
    | EGetAddr(picks: seq<nat>)

  ghost predicate Picks(picks: seq<nat>, size: nat) {
    |picks| <= size && forall n :: 0 <= n < |picks| ==> n <= picks[n] < size
  }

  /** GetAddr swaps position n with picks[n], for each n in turn. */
  ghost function Shuffle(s: State, picks: seq<nat>, n: nat): State
    requires RandomIndex(s.info, s.random) && Picks(picks, |s.random|) && n <= |picks|
    decreases |picks| - n
  {
    if n == |picks| then s
    else
      SwapIndex(s, n, picks[n]);
      Shuffle(SwapRandom(s, n, picks[n]), picks, n + 1)
  }

  lemma {:induction false} ShuffleConsistent(h: Hashing, s: State, picks: seq<nat>, n: nat)
    requires Consistent(h, s) && Picks(picks, |s.random|) && n <= |picks|
    ensures Consistent(h, Shuffle(s, picks, n))
    decreases |picks| - n
  {
    if n < |picks| {
      SwapLinked(h, s, n, picks[n], {});
      ShuffleConsistent(h, SwapRandom(s, n, picks[n]), picks, n + 1);
    }
  }

  /** Times handed to the manager are positive, as the clock's are. */
  ghost predicate Possible(s: State, e: Event) {
    match e
    case EGood(_, time) => time > 0
    case EAttempt(_, _, time) => time > 0
    case EConnected(_, time) => time > 0
    case EGetAddr(picks) => Picks(picks, |s.random|)
    case _ => true
  }

  ghost function Happen(h: Hashing, s: State, e: Event): State
    requires Consistent(h, s) && Possible(s, e)
  {
    match e
    case EAdd(a, source, penalty, now, routable, lucky) => Add(h, s, a, source, penalty, now, routable, lucky)
    case EGood(service, time) => Good(h, s, service, time)
    case EAttempt(service, countFailure, time) => Attempt(s, service, countFailure, time)
    case EConnected(service, time) => Connected(s, service, time)
    case ESetServices(service, services) => SetServices(s, service, services)
    case EGetAddr(picks) => Shuffle(s, picks, 0)
  }

  lemma HappenConsistent(h: Hashing, s: State, e: Event)
    requires Consistent(h, s) && Possible(s, e)
    ensures Consistent(h, Happen(h, s, e))
  {
    hide AddrIndex, RandomIndex, IdsBelow, NewPlaced, TriedPlaced, NewIds, TriedIds, Counted, Refs, Add, Good, Shuffle;
    match e
    case EAdd(a, source, penalty, now, routable, lucky) =>
      AddConsistent(h, s, a, source, penalty, now, routable, lucky);
    case EGood(service, time) =>
      GoodConsistent(h, s, service, time);
    case EAttempt(service, countFailure, time) =>
      if Knows(s, service) {
        var id := s.addr[service.ip];
        TouchConsistent(h, s, id, Attempt(s, service, countFailure, time).info[id]);
      }
    case EConnected(service, time) =>
      if Knows(s, service) {
        var id := s.addr[service.ip];
        TouchConsistent(h, s, id, s.info[id].(time := time));
      }
    case ESetServices(service, services) =>
      if Knows(s, service) {
        var id := s.addr[service.ip];
        TouchConsistent(h, s, id, s.info[id].(services := services));
      }
    case EGetAddr(picks) =>
      ShuffleConsistent(h, s, picks, 0);
  }

  /** What an event makes of a state. Outside the invariant an assertion may fail
      or a missing entry be used, and then anything may follow. */
  ghost predicate Follows(h: Hashing, s: State, e: Event, s': State) {
    Possible(s, e) && (Consistent(h, s) ==> s' == Happen(h, s, e))
  }

  ghost predicate History(h: Hashing, states: seq<State>, events: seq<Event>) {
    && |states| == |events| + 1
    && forall i :: 0 <= i < |events| ==> Follows(h, states[i], events[i], states[i + 1])
  }

  /** What CAddrMan::Clear leaves: the order, the tables and the counters are
      reset, but the two maps are not. */
  ghost function Cleared(s: State): State { FRESH.(info := s.info, addr := s.addr) }

  /** Clearing gives a consistent manager exactly when both maps were empty. */
  lemma ClearedConsistent(h: Hashing, s: State)
    ensures Consistent(h, Cleared(s)) <==> s.info == map[] && s.addr == map[]
  {
    if Consistent(h, Cleared(s)) {
      assert IdsBelow(s.info, 0) && AddrIndex(s.info, s.addr);
      assert s.info.Keys == {};
      assert s.addr.Keys == {};
    } else if s.info == map[] && s.addr == map[] {
      FreshConsistent(h);
    }
  }

  lemma FreshConsistent(h: Hashing)
    ensures Consistent(h, FRESH)
  {
  }

  /** Every state of every history of a fresh manager is consistent. */
  lemma {:induction false} HistoriesConsistent(h: Hashing, states: seq<State>, events: seq<Event>, i: nat)
    requires History(h, states, events) && states[0] == FRESH && i <= |events|
    ensures Consistent(h, states[i])
  {
    hide Consistent, Happen, Possible;
    if i == 0 {
      FreshConsistent(h);
    } else {
      HistoriesConsistent(h, states, events, i - 1);
      assert Follows(h, states[i - 1], events[i - 1], states[i]);
      HappenConsistent(h, states[i - 1], events[i - 1]);
    }
  }

  /** Any possible event carries a history on, and in one way only. */
  lemma HistoriesExtend(h: Hashing, states: seq<State>, events: seq<Event>, e: Event, s': State)
    requires History(h, states, events) && states[0] == FRESH && Possible(states[|events|], e)
    ensures Consistent(h, states[|events|])
    ensures History(h, states + [s'], events + [e]) <==> s' == Happen(h, states[|events|], e)
  {
    hide Consistent, Happen, Possible;
    HistoriesConsistent(h, states, events, |events|);
    var ss, es := states + [s'], events + [e];
    if s' == Happen(h, states[|events|], e) {
      forall i | 0 <= i <= |events| ensures Follows(h, ss[i], es[i], ss[i + 1]) {
        if i < |events| { assert Follows(h, states[i], events[i], states[i + 1]); }
      }
    }
    assert History(h, ss, es) ==> Follows(h, ss[|events|], es[|events|], ss[|events| + 1]);
  }
}
