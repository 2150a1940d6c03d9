/** The stochastic address manager as the program runs it: counters, indexes and
    bucket tables updated in place (src/addrman.cpp, src/addrman.h). */
module AddrMan {
  import opened Common
  import opened AddrTables

  /** Entries in a bucket array; -1 marks an empty slot. */
  ghost function TableOf(a: array2<int>): (m: map<Slot, int>)
    reads a
    ensures forall s: Slot :: s in m <==> s.0 < a.Length0 && s.1 < a.Length1 && a[s.0, s.1] != -1
    ensures forall s: Slot :: s in m ==> m[s] == a[s.0, s.1]
  {
    map b, p | 0 <= b < a.Length0 && 0 <= p < a.Length1 && a[b, p] != -1 :: (b, p) := a[b, p]
  }

  method SetSlot(a: array2<int>, slot: Slot, v: int)
    requires slot.0 < a.Length0 && slot.1 < a.Length1
    modifies a
    ensures TableOf(a) == if v == -1 then old(TableOf(a)) - {slot} else old(TableOf(a))[slot := v]
  {
    a[slot.0, slot.1] := v;
  }

  method EmptyTable(a: array2<int>)
    modifies a
    ensures TableOf(a) == map[]
  {
    for bucket := 0 to a.Length0
      invariant forall b, p :: 0 <= b < bucket && 0 <= p < a.Length1 ==> a[b, p] == -1
    {
      for entry := 0 to a.Length1
        invariant forall b, p :: 0 <= b < bucket && 0 <= p < a.Length1 ==> a[b, p] == -1
        invariant forall p :: 0 <= p < entry ==> a[bucket, p] == -1
      {
        a[bucket, entry] := -1;
      }
    }
  }

  ghost predicate InRange(h: Hashing, newBuckets: nat, triedBuckets: nat, size: nat) {
    && (forall s :: h.triedBucket(s) < triedBuckets)
    && (forall s, src :: h.newBucket(s, src) < newBuckets)
    && (forall s, f, b :: h.position(s, f, b) < size)
  }

  class Manager {
    const nKey: nat
    /** The bucket functions under the key. */
    const hashing: Hashing
    var nIdCount: int
    var mapInfo: map<int, Info>
    var mapAddr: map<NetAddr, int>
    var vRandom: seq<int>
    var nTried: int
    const vvTried: array2<int>
    var nNew: int
    const vvNew: array2<int>
    var nLastGood: int

    ghost function Abs(): State
      reads this, vvTried, vvNew
    {
      State(nIdCount, mapInfo, mapAddr, vRandom, nTried, TableOf(vvTried), nNew, TableOf(vvNew), nLastGood)
    }

    ghost predicate Shaped()
    {
      && vvTried != vvNew && vvTried.Length1 == vvNew.Length1
      && InRange(hashing, vvNew.Length0, vvTried.Length0, vvNew.Length1)
    }

    ghost predicate Valid()
      reads this, vvTried, vvNew
    {
      Shaped() && Consistent(hashing, Abs())
    }

    constructor (nKey: nat, hashing: Hashing, newBuckets: nat, triedBuckets: nat, size: nat)
      requires InRange(hashing, newBuckets, triedBuckets, size)
      ensures Valid() && Abs() == FRESH && this.nKey == nKey && this.hashing == hashing
      ensures fresh(vvTried) && fresh(vvNew)
      ensures vvNew.Length0 == newBuckets && vvTried.Length0 == triedBuckets && vvNew.Length1 == size
    {
      hide Consistent;
      this.nKey, this.hashing := nKey, hashing;
      vvTried := new int[triedBuckets, size]((i, j) => -1);
      vvNew := new int[newBuckets, size]((i, j) => -1);
      nIdCount, mapInfo, mapAddr, vRandom, nTried, nNew, nLastGood := 0, map[], map[], [], 0, 0, 1;
      new;
      assert TableOf(vvTried) == map[] && TableOf(vvNew) == map[];
      FreshConsistent(hashing);
    }

    /** Empties the order, both tables and the counters. The maps keep what they
        held. */
    method Clear()
      requires vvTried != vvNew
      modifies this, vvTried, vvNew
      ensures Abs() == Cleared(old(Abs()))
    {
      vRandom := [];
      EmptyTable(vvNew);
      EmptyTable(vvTried);
      nIdCount, nTried, nNew, nLastGood := 0, 0, 0, 1;
    }

    /** GetRandInt: any value below nMax. */
    method RandomInt(nMax: nat) returns (r: nat)
      requires nMax > 0
      ensures r < nMax
    {
      r :| r < nMax;
    }

    method CreateEntry(addr: Address, source: NetAddr) returns (id: int)
      modifies this
      ensures id == old(nIdCount)
      ensures Abs() == Create(old(Abs()), addr, source)
    {
      id := nIdCount;
      nIdCount := nIdCount + 1;
      mapInfo := mapInfo[id := NewInfo(addr, source)];
      mapAddr := mapAddr[addr.service.ip := id];
      mapInfo := mapInfo[id := mapInfo[id].(randomPos := |vRandom|)];
      vRandom := vRandom + [id];
    }

    method Swap(i: nat, j: nat)
      requires RandomIndex(mapInfo, vRandom) && i < |vRandom| && j < |vRandom|
      modifies this`mapInfo, this`vRandom
      ensures Abs() == SwapRandom(old(Abs()), i, j)
    {
      if i == j { return; }
      var id1, id2 := vRandom[i], vRandom[j];
      assert mapInfo[id1].randomPos == i && mapInfo[id2].randomPos == j;
      mapInfo := mapInfo[id1 := mapInfo[id1].(randomPos := j)];
      mapInfo := mapInfo[id2 := mapInfo[id2].(randomPos := i)];
      vRandom := vRandom[i := id2];
      vRandom := vRandom[j := id1];
    }

    method DeleteEntry(id: int)
      requires RandomIndex(mapInfo, vRandom) && id in mapInfo && !mapInfo[id].inTried && mapInfo[id].refCount == 0
      modifies this
      ensures Abs() == Delete(old(Abs()), id)
    {
      hide RandomIndex, SwapRandom, TableOf;
      ghost var s := Abs();
      PositionOf(mapInfo, vRandom, id);
      SwapIndex(s, mapInfo[id].randomPos, |vRandom| - 1);
      Swap(mapInfo[id].randomPos, |vRandom| - 1);
      vRandom := vRandom[..|vRandom| - 1];
      mapAddr := mapAddr - {mapInfo[id].service.ip};
      mapInfo := mapInfo - {id};
      nNew := nNew - 1;
    }

    method ClearSlot(slot: Slot, ghost pending: set<int>)
      requires Shaped() && Linked(hashing, Abs(), pending)
      requires slot.0 < vvNew.Length0 && slot.1 < vvNew.Length1
      modifies this, vvNew
      ensures slot in old(TableOf(vvNew)) ==> old(TableOf(vvNew))[slot] in old(mapInfo)
      ensures Abs() == ClearNew(old(Abs()), slot)
    {
      hide Linked, TableOf, Release, Delete;
      if vvNew[slot.0, slot.1] != -1 {
        var id := vvNew[slot.0, slot.1];
        ReleaseSteps(hashing, Abs(), slot, pending);
        assert mapInfo[id].refCount > 0;
        ReleaseSlot(slot);
        if mapInfo[id].refCount == 0 {
          DeleteEntry(id);
        }
      }
    }

    method ReleaseSlot(slot: Slot)
      requires vvNew != vvTried && slot in TableOf(vvNew) && TableOf(vvNew)[slot] in mapInfo
      modifies this`mapInfo, vvNew
      ensures Abs() == Release(old(Abs()), slot)
    {
      hide TableOf;
      var id := vvNew[slot.0, slot.1];
      mapInfo := mapInfo[id := mapInfo[id].(refCount := mapInfo[id].refCount - 1)];
      SetSlot(vvNew, slot, -1);
    }

    /** The loop at the head of MakeTried: one look into every "new" bucket. */
    method UnlistEntry(id: int)
      requires Shaped() && Linked(hashing, Abs(), {}) && id in mapInfo && !mapInfo[id].inTried
      modifies this, vvNew
      ensures Abs() == Unlist(old(Abs()), id)
    {
      hide Linked, Unlist, UnlistBelow, TableOf;
      ghost var s := Abs();
      var service := mapInfo[id].service;
      IdNotEmpty(hashing, s, id, {});
      UnlistNothing(s, id);
      for bucket := 0 to vvNew.Length0
        invariant Abs() == UnlistBelow(s, id, bucket)
      {
        var slot := hashing.SlotIn(service, bucket);
        UnlistBucket(hashing, s, id, bucket);
        if vvNew[slot.0, slot.1] == id {
          ReleaseSlot(slot);
        }
      }
      UnlistEverything(s, id, vvNew.Length0);
      nNew := nNew - 1;
    }

    /** Makes room at a "tried" slot by sending its occupant back to "new". */
    method EvictEntry(slot: Slot, ghost pending: set<int>)
      requires Shaped() && Linked(hashing, Abs(), pending) && slot in TableOf(vvTried)
      modifies this, vvNew, vvTried
      ensures Abs() == Evict(hashing, old(Abs()), slot, pending)
    {
      hide Linked, TableOf, ClearNew, Untry, Enlist, Evict;
      EvictSteps(hashing, Abs(), slot, pending);
      var id := UntryEntry(slot);
      var u := hashing.NewSlot(mapInfo[id].service, mapInfo[id].source);
      ClearSlot(u, pending + {id});
      ReturnEntry(id, u);
    }

    method UntryEntry(slot: Slot) returns (id: int)
      requires vvTried != vvNew && slot in TableOf(vvTried) && TableOf(vvTried)[slot] in mapInfo
      modifies this, vvTried
      ensures id == old(TableOf(vvTried)[slot])
      ensures Abs() == Untry(old(Abs()), slot)
    {
      id := vvTried[slot.0, slot.1];
      mapInfo := mapInfo[id := mapInfo[id].(inTried := false)];
      SetSlot(vvTried, slot, -1);
      nTried := nTried - 1;
    }

    /** Gives an entry without references its one slot in "new". */
    method ReturnEntry(id: int, slot: Slot)
      requires slot.0 < vvNew.Length0 && slot.1 < vvNew.Length1 && vvNew != vvTried
      requires id in mapInfo && id != -1 && mapInfo[id].refCount == 0
      modifies this`mapInfo, this`nNew, vvNew
      ensures Abs() == var v := Enlist(old(Abs()), slot, id); v.(nNew := v.nNew + 1)
    {
      hide TableOf;
      mapInfo := mapInfo[id := mapInfo[id].(refCount := 1)];
      SetSlot(vvNew, slot, id);
      nNew := nNew + 1;
    }

    method MoveToTried(id: int)
      requires Shaped() && Linked(hashing, Abs(), {}) && id in mapInfo && !mapInfo[id].inTried
      modifies this, vvNew, vvTried
      ensures Abs() == MakeTried(hashing, old(Abs()), id)
    {
      hide Linked, TableOf, Evict, Unlist, Place, MakeTried;
      MakeTriedSteps(hashing, Abs(), id);
      UnlistEntry(id);
      assert mapInfo[id].refCount == 0;
      var slot := hashing.TriedSlot(mapInfo[id].service);
      if vvTried[slot.0, slot.1] != -1 {
        EvictEntry(slot, {id});
      }
      assert vvTried[slot.0, slot.1] == -1;
      PlaceEntry(id, slot);
    }

    method PlaceEntry(id: int, slot: Slot)
      requires slot.0 < vvTried.Length0 && slot.1 < vvTried.Length1 && vvNew != vvTried
      requires id in mapInfo && id != -1 && slot == hashing.TriedSlot(mapInfo[id].service)
      modifies this`mapInfo, this`nTried, vvTried
      ensures Abs() == Place(hashing, old(Abs()), id)
    {
      hide TableOf;
      SetSlot(vvTried, slot, id);
      nTried := nTried + 1;
      mapInfo := mapInfo[id := mapInfo[id].(inTried := true)];
    }

    method FindEntry(ip: NetAddr) returns (id: Option<int>)
      requires Valid()
      ensures id == if ip in mapAddr then Some(mapAddr[ip]) else None
      ensures id.Some? ==> id.value in mapInfo && id.value >= 0 && mapInfo[id.value].service.ip == ip
    {
      hide RandomIndex, NewPlaced, TriedPlaced, Counted, Dated;
      id := None;
      if ip in mapAddr {
        var n := mapAddr[ip];
        if n in mapInfo { id := Some(n); }
      }
    }

    /** Whether the entry occupies its position in a "new" bucket. */
    ghost predicate ListedIn(id: int, bucket: nat)
      requires Shaped() && id in mapInfo && bucket < vvNew.Length0
      reads this, vvNew
    {
      vvNew[bucket, hashing.position(mapInfo[id].service, true, bucket)] == id
    }

    /** The search in Good_: starts at a random bucket and wraps around. It
        always succeeds, so the bail-out after it is never taken. */
    method FindBucket(id: int) returns (bucket: int)
      requires Valid() && id in mapInfo && !mapInfo[id].inTried
      ensures 0 <= bucket < vvNew.Length0 && ListedIn(id, bucket)
    {
      hide Consistent, TableOf, Wrap;
      ghost var home := SomeBucket(hashing, Abs(), id);
      var count := vvNew.Length0;
      var start := RandomInt(count);
      bucket := -1;
      var n := 0;
      while n < count && bucket == -1
        invariant 0 <= n <= count
        invariant bucket == -1 || (0 <= bucket < count && ListedIn(id, bucket))
        invariant bucket == -1 ==> forall m :: 0 <= m < n ==> !ListedIn(id, Wrap(m, start, count))
        decreases count - n, bucket == -1
      {
        var b := Wrap(n, start, count);
        if vvNew[b, hashing.position(mapInfo[id].service, true, b)] == id {
          bucket := b;
        } else {
          n := n + 1;
        }
      }
      assert bucket != -1 by {
        var m := if start <= home then home - start else home - start + count;
        assert Wrap(m, start, count) == home;
      }
    }

    method MarkGood(service: Service, time: int)
      requires Valid() && time > 0
      modifies this, vvNew, vvTried
      ensures Valid() && Abs() == Good(hashing, old(Abs()), service, time)
    {
      hide AddrIndex, RandomIndex, IdsBelow, NewPlaced, TriedPlaced, NewIds, TriedIds, Counted, Dated, MakeTried,
           TableOf;
      ghost var s := Abs();
      GoodConsistent(hashing, s, service, time);
      var found := FindEntry(service.ip);
      nLastGood := time;
      if found.None? { return; }
      var id := found.value;
      if mapInfo[id].service != service { return; }
      TouchConsistent(hashing, s.(lastGood := time), id,
          mapInfo[id].(lastSuccess := time, lastTry := time, attempts := 0));
      mapInfo := mapInfo[id := mapInfo[id].(lastSuccess := time, lastTry := time, attempts := 0)];
      if mapInfo[id].inTried { return; }
      var _ := FindBucket(id);
      MoveToTried(id);
    }

    /** The tail of Add_: gives an entry a reference, or drops a new one that
        its bucket has no room for. */
    method InsertEntry(id: int, source: NetAddr, now: int)
      requires Shaped() && Insertable(hashing, Abs(), id)
      modifies this, vvNew
      ensures Abs() == Insert(hashing, old(Abs()), id, source, now)
    {
      hide Linked, TableOf, ClearNew, Delete, Enlist, OthersKept, NewIds, TriedIds, Yields;
      ghost var s := Abs();
      ghost var pending := if Linked(hashing, s, {id}) then {id} else {};
      IdNotEmpty(hashing, s, id, pending);
      var slot := hashing.NewSlot(mapInfo[id].service, source);
      ClearNewLinked(hashing, s, slot, pending);
      if vvNew[slot.0, slot.1] != id {
        var insert := HasRoom(slot, id, now);
        if insert {
          ClearKeeps(hashing, s, slot, id);
          ClearSlot(slot, pending);
          EnlistEntry(slot, id);
        } else if mapInfo[id].refCount == 0 {
          DeleteEntry(id);
        }
      }
    }

    method EnlistEntry(slot: Slot, id: int)
      requires slot.0 < vvNew.Length0 && slot.1 < vvNew.Length1 && id in mapInfo && id != -1 && vvNew != vvTried
      modifies this`mapInfo, vvNew
      ensures Abs() == Enlist(old(Abs()), slot, id)
    {
      hide TableOf;
      mapInfo := mapInfo[id := mapInfo[id].(refCount := mapInfo[id].refCount + 1)];
      SetSlot(vvNew, slot, id);
    }

    /** Whether a slot is free or its occupant gives way to the entry. */
    method HasRoom(slot: Slot, id: int, now: int) returns (insert: bool)
      requires slot.0 < vvNew.Length0 && slot.1 < vvNew.Length1 && id in mapInfo
      requires slot in TableOf(vvNew) ==> TableOf(vvNew)[slot] in mapInfo
      ensures insert <==> slot !in TableOf(vvNew) || Yields(Abs(), TableOf(vvNew)[slot], id, now)
    {
      hide TableOf;
      insert := vvNew[slot.0, slot.1] == -1;
      if !insert {
        var existing := vvNew[slot.0, slot.1];
        assert existing == TableOf(vvNew)[slot];
        if mapInfo[existing].IsTerrible(now) || (mapInfo[existing].refCount > 1 && mapInfo[id].refCount == 0) {
          insert := true;
        }
      }
    }

    /** `lucky` tells how the stochastic test came out. */
    method AddAddress(addr: Address, source: NetAddr, penalty: int, now: int, routable: bool)
      returns (added: bool, ghost lucky: bool)
      requires Valid()
      modifies this, vvNew
      ensures Valid() && Abs() == Add(hashing, old(Abs()), addr, source, penalty, now, routable, lucky)
      ensures added <==> routable && addr.service.ip !in old(mapAddr)
    {
      hide AddrIndex, RandomIndex, IdsBelow, NewPlaced, TriedPlaced, NewIds, TriedIds, Counted, Dated, TableOf, Insert,
           Created, Refs, Refreshed, Linked;
      ghost var s := Abs();
      added, lucky := false, false;
      AddConsistent(hashing, s, addr, source, penalty, now, routable, true);
      AddConsistent(hashing, s, addr, source, penalty, now, routable, false);
      if !routable { return; }
      var found := FindEntry(addr.service.ip);
      var id: int;
      if found.Some? {
        id := found.value;
        KnownEntry(hashing, s, id, Refreshed(mapInfo[id], addr, penalty, now));
        RefreshEntry(id, addr, penalty, now);
        if addr.time == 0 || (mapInfo[id].time != 0 && addr.time <= mapInfo[id].time) { return; }
        if mapInfo[id].inTried { return; }
        if mapInfo[id].refCount == BUCKETS_PER_ADDRESS { return; }
        var accepted := StochasticTest(mapInfo[id].refCount);
        if !accepted { return; }
        lucky := true;
      } else {
        CreatedLinked(hashing, s, addr, source, penalty);
        id := CreateCounted(addr, source, penalty);
        added := true;
      }
      InsertEntry(id, source, now);
    }

    method RefreshEntry(id: int, addr: Address, penalty: int, now: int)
      requires id in mapInfo
      modifies this`mapInfo
      ensures Abs() == Touch(old(Abs()), id, Refreshed(old(mapInfo[id]), addr, penalty, now))
    {
      hide TableOf;
      var online := now - addr.time < 24 * 60 * 60;
      var interval := if online then 60 * 60 else 24 * 60 * 60;
      var info := mapInfo[id];
      if addr.time != 0 && (info.time == 0 || info.time < addr.time - interval - penalty) {
        info := info.(time := Max0(addr.time - penalty));
      }
      info := info.(services := info.services + addr.services);
      mapInfo := mapInfo[id := info];
    }

    /** Succeeds with probability one in 2 to the refCount. */
    method StochasticTest(refCount: int) returns (accepted: bool)
    {
      var factor := 1;
      var n := 0;
      while n < refCount
        invariant factor > 0
      {
        factor := factor * 2;
        n := n + 1;
      }
      if factor > 1 {
        var r := RandomInt(factor);
        return r == 0;
      }
      return true;
    }

    method CreateCounted(addr: Address, source: NetAddr, penalty: int) returns (id: int)
      modifies this
      ensures id == old(nIdCount)
      ensures Abs() == Created(old(Abs()), addr, source, penalty)
    {
      id := CreateEntry(addr, source);
      mapInfo := mapInfo[id := mapInfo[id].(time := Max0(mapInfo[id].time - penalty))];
      nNew := nNew + 1;
    }

    method MarkAttempt(service: Service, countFailure: bool, time: int)
      requires Valid() && time > 0
      modifies this
      ensures Valid() && Abs() == Attempt(old(Abs()), service, countFailure, time)
    {
      hide AddrIndex, RandomIndex, IdsBelow, NewPlaced, TriedPlaced, NewIds, TriedIds, Counted, Dated, TableOf;
      HappenConsistent(hashing, Abs(), EAttempt(service, countFailure, time));
      var found := FindEntry(service.ip);
      if found.None? { return; }
      var id := found.value;
      if mapInfo[id].service != service { return; }
      mapInfo := mapInfo[id := mapInfo[id].(lastTry := time)];
      if countFailure && mapInfo[id].lastCountAttempt < nLastGood {
        mapInfo := mapInfo[id := mapInfo[id].(lastCountAttempt := time, attempts := mapInfo[id].attempts + 1)];
      }
      assert mapInfo == Attempt(old(Abs()), service, countFailure, time).info;
    }

    method MarkConnected(service: Service, time: int)
      requires Valid() && time > 0
      modifies this
      ensures Valid() && Abs() == Connected(old(Abs()), service, time)
    {
      hide AddrIndex, RandomIndex, IdsBelow, NewPlaced, TriedPlaced, NewIds, TriedIds, Counted, Dated, TableOf;
      HappenConsistent(hashing, Abs(), EConnected(service, time));
      var found := FindEntry(service.ip);
      if found.None? { return; }
      var id := found.value;
      if mapInfo[id].service != service { return; }
      if time - mapInfo[id].time > 20 * 60 {
        mapInfo := mapInfo[id := mapInfo[id].(time := time)];
      }
    }

    method AssignServices(service: Service, services: set<nat>)
      requires Valid()
      modifies this
      ensures Valid() && Abs() == SetServices(old(Abs()), service, services)
    {
      hide AddrIndex, RandomIndex, IdsBelow, NewPlaced, TriedPlaced, NewIds, TriedIds, Counted, Dated, TableOf;
      HappenConsistent(hashing, Abs(), ESetServices(service, services));
      var found := FindEntry(service.ip);
      if found.None? { return; }
      var id := found.value;
      if mapInfo[id].service != service { return; }
      mapInfo := mapInfo[id := mapInfo[id].(services := services)];
    }

    /** A random selection of at most 23 percent of the entries and at most
        2500, none of them terrible and none of them twice. */
    method GetAddr(now: int) returns (addrs: seq<Address>, ghost ids: seq<int>, ghost picks: seq<nat>)
      requires Valid()
      modifies this`mapInfo, this`vRandom
      ensures Valid() && Picks(picks, |old(vRandom)|) && Abs() == Shuffle(old(Abs()), picks, 0)
      ensures |addrs| <= 2500 && |addrs| <= 23 * |old(vRandom)| / 100
      ensures Selected(old(mapInfo), now, addrs, ids)
    {
      hide Consistent, TableOf, Shuffle, Selected, SameButPosition, Picks, Info.IsTerrible, AddressOf;
      ghost var s := Abs();
      var nodes := 23 * |vRandom| / 100;
      if nodes > 2500 { nodes := 2500; }
      addrs, ids, picks := [], [], [];
      ShuffleNothing(hashing, s);
      NothingSelected(s.info, now);
      var n := 0;
      while n < |vRandom| && |addrs| < nodes
        invariant n <= |vRandom| == |s.random| && |picks| == n && Picks(picks, |s.random|)
        invariant Abs() == Shuffle(s, picks, 0) && Consistent(hashing, Abs())
        invariant SameButPosition(s.info, mapInfo)
        invariant |addrs| <= nodes && Selected(s.info, now, addrs, ids)
        invariant forall k :: 0 <= k < |ids| ==> ids[k] in vRandom[..n]
      {
        var r := RandomInt(|vRandom| - n);
        DrawOne(n, r + n, s, picks);
        picks := picks + [r + n];
        var id := vRandom[n];
        assert vRandom[..n + 1] == vRandom[..n] + [id];
        if !mapInfo[id].IsTerrible(now) {
          SelectMore(s.info, mapInfo, now, addrs, ids, id);
          addrs := addrs + [AddressOf(mapInfo[id])];
          ids := ids + [id];
        }
        n := n + 1;
      }
    }

    /** One draw of GetAddr: position n receives a random later entry. */
    method DrawOne(n: nat, pos: nat, ghost s: State, ghost picks: seq<nat>)
      requires Consistent(hashing, s) && n <= pos < |s.random| && |picks| == n && Picks(picks, |s.random|)
      requires Abs() == Shuffle(s, picks, 0) && Consistent(hashing, Abs()) && |vRandom| == |s.random|
      requires SameButPosition(s.info, mapInfo)
      modifies this`mapInfo, this`vRandom
      ensures Picks(picks + [pos], |s.random|)
      ensures Abs() == Shuffle(s, picks + [pos], 0) && Consistent(hashing, Abs()) && |vRandom| == |s.random|
      ensures SameButPosition(s.info, mapInfo)
      ensures vRandom[..n] == old(vRandom)[..n] && vRandom[n] in mapInfo && vRandom[n] !in vRandom[..n]
    {
      hide AddrIndex, IdsBelow, NewPlaced, TriedPlaced, NewIds, TriedIds, Counted, Dated, TableOf, Shuffle, SwapRandom;
      ShuffleAppend(s, picks, pos, 0);
      ShuffleConsistent(hashing, s, picks + [pos], 0);
      SwapEffect(Abs(), n, pos);
      Swap(n, pos);
      forall k | 0 <= k < n ensures vRandom[k] != vRandom[n] {
        var a, b := vRandom[k], vRandom[n];
        assert mapInfo[a].randomPos == k && mapInfo[b].randomPos == n;
      }
    }
  }

  /** What holds between the steps of ClearSlot. */
  lemma ReleaseSteps(h: Hashing, s: State, slot: Slot, pending: set<int>)
    requires Linked(h, s, pending) && slot in s.newTable
    ensures var id := s.newTable[slot];
      && RandomIndex(s.info, s.random) && id in s.info && s.info[id].refCount > 0
      && var t := Release(s, slot);
      && RandomIndex(t.info, t.random) && id in t.info && !t.info[id].inTried
      && ClearNew(s, slot) == if t.info[id].refCount == 0 then Delete(t, id) else t
  {
    hide TriedPlaced, Counted, Dated, IdsBelow, AddrIndex, Delete;
    assert s.newTable[slot] in s.info;
    ReleaseLinked(h, s, slot, pending);
    Referenced(s, slot, pending);
  }

  /** What holds between the steps of EvictEntry. */
  lemma EvictSteps(h: Hashing, s: State, slot: Slot, pending: set<int>)
    requires Linked(h, s, pending) && slot in s.triedTable
    ensures var id := s.triedTable[slot];
      && id in s.info && id >= 0
      && var t := Untry(s, slot);
      && Linked(h, t, pending + {id}) && id in t.info && RandomIndex(t.info, t.random)
      && var u := h.NewSlot(t.info[id].service, t.info[id].source);
      && (u in t.newTable ==> t.newTable[u] in t.info)
      && var v := ClearNew(t, u);
      && id in v.info && v.info[id].refCount == 0
      && var w := Enlist(v, u, id);
      && Evict(h, s, slot, pending) == w.(nNew := w.nNew + 1)
  {
    hide Linked, ClearNew, Enlist;
    UntryLinked(h, s, slot, pending);
    var id := s.triedTable[slot];
    IdNotEmpty(h, s, id, pending);
    var t := Untry(s, slot);
    IdNotEmpty(h, t, id, pending + {id});
    var u := h.NewSlot(t.info[id].service, t.info[id].source);
    ClearNewLinked(h, t, u, pending + {id});
    PendingZero(h, ClearNew(t, u), id, pending + {id});
  }

  /** What holds between the steps of MoveToTried. */
  lemma MakeTriedSteps(h: Hashing, s: State, id: int)
    requires Linked(h, s, {}) && id in s.info && !s.info[id].inTried
    ensures id >= 0
    ensures var t := Unlist(s, id);
      && Linked(h, t, {id}) && id in t.info && t.info[id].refCount == 0 && t.info[id].service == s.info[id].service
      && var slot := h.TriedSlot(s.info[id].service);
      && (slot in t.triedTable ==>
            var v := Evict(h, t, slot, {id});
            slot !in v.triedTable && id in v.info && v.info[id].service == s.info[id].service)
      && MakeTried(h, s, id) == Place(h, if slot in t.triedTable then Evict(h, t, slot, {id}) else t, id)
  {
    hide Linked, Evict, Unlist, Place;
    IdNotEmpty(h, s, id, {});
    UnlistLinked(h, s, id);
    UnlistKeeps(s, id);
    var t := Unlist(s, id);
    PendingZero(h, t, id, {id});
    var slot := h.TriedSlot(s.info[id].service);
    if slot in t.triedTable {
      EvictLinked(h, t, slot, {id});
      KeptPending(h, t, slot, id);
    }
  }

  ghost function UnlistBelow(s: State, id: int, bucket: nat): (t: State)
    requires id in s.info
    ensures id in t.info
  {
    s.(info := s.info[id := s.info[id].(refCount := s.info[id].refCount - |RefsBelow(s.newTable, id, bucket)|)],
       newTable := Without(s.newTable, id, bucket))
  }

  ghost function Without(table: map<Slot, int>, id: int, bucket: nat): map<Slot, int> {
    map k: Slot | k in table && !(table[k] == id && k.0 < bucket) :: table[k]
  }

  ghost function RefsBelow(table: map<Slot, int>, id: int, bucket: nat): set<Slot> {
    set k: Slot | k in table && table[k] == id && k.0 < bucket
  }

  /** The n-th bucket visited from `start`. */
  function Wrap(n: nat, start: nat, count: nat): (b: nat)
    requires n < count && start < count
    ensures b == if n + start < count then n + start else n + start - count
  {
    ModOnce(n + start, count);
    (n + start) % count
  }

  /** An entry that is not tried is listed in at least one bucket. */
  ghost function SomeBucket(h: Hashing, s: State, id: int): (bucket: nat)
    requires Consistent(h, s) && id in s.info && !s.info[id].inTried
    ensures h.SlotIn(s.info[id].service, bucket) in s.newTable
    ensures s.newTable[h.SlotIn(s.info[id].service, bucket)] == id
  {
    assert |Refs(s.newTable, id)| > 0;
    var slot :| slot in Refs(s.newTable, id);
    slot.0
  }

  lemma IdNotEmpty(h: Hashing, s: State, id: int, pending: set<int>)
    requires Linked(h, s, pending) && id in s.info
    ensures id >= 0 && RandomIndex(s.info, s.random)
  {
  }

  function AddressOf(x: Info): Address {
    Address(x.service, x.services, x.time)
  }

  ghost predicate SameButPosition(info: map<int, Info>, info': map<int, Info>) {
    && (forall id :: id in info <==> id in info')
    && (forall id :: id in info ==> info'[id] == info[id].(randomPos := info'[id].randomPos))
  }

  /** The addresses of different entries, none of them terrible. */
  ghost predicate Selected(info: map<int, Info>, now: int, addrs: seq<Address>, ids: seq<int>) {
    && |addrs| == |ids|
    && (forall k :: 0 <= k < |ids| ==>
          ids[k] in info && addrs[k] == AddressOf(info[ids[k]]) && !info[ids[k]].IsTerrible(now))
    && (forall j, k :: 0 <= j < k < |ids| ==> ids[j] != ids[k])
  }

  lemma NothingSelected(info: map<int, Info>, now: int)
    ensures Selected(info, now, [], []) && SameButPosition(info, info)
    ensures forall n: nat :: Picks([], n)
  {
  }

  lemma SelectMore(info: map<int, Info>, info': map<int, Info>, now: int, addrs: seq<Address>, ids: seq<int>, id: int)
    requires Selected(info, now, addrs, ids) && SameButPosition(info, info')
    requires id in info' && id !in ids && !info'[id].IsTerrible(now)
    ensures Selected(info, now, addrs + [AddressOf(info'[id])], ids + [id])
  {
    assert info'[id] == info[id].(randomPos := info'[id].randomPos);
  }

  lemma SwapEffect(s: State, i: nat, j: nat)
    requires RandomIndex(s.info, s.random) && i <= j < |s.random|
    ensures var t := SwapRandom(s, i, j);
            SameButPosition(s.info, t.info) && |t.random| == |s.random| && t.random[..i] == s.random[..i]
  {
    if i != j {
      var a, b := s.random[i], s.random[j];
      assert a in s.info && b in s.info;
      SwapPositions(s.info, a, b, i, j);
    }
  }

  lemma SwapPositions(info: map<int, Info>, a: int, b: int, i: int, j: int)
    requires a in info && b in info
    ensures SameButPosition(info, info[a := info[a].(randomPos := j)][b := info[b].(randomPos := i)])
  {
  }

  lemma ShuffleNothing(h: Hashing, s: State)
    requires Consistent(h, s)
    ensures RandomIndex(s.info, s.random) && Shuffle(s, [], 0) == s
  {
  }

  lemma {:induction false} ShuffleAppend(s: State, picks: seq<nat>, pos: nat, n: nat)
    requires RandomIndex(s.info, s.random) && Picks(picks + [pos], |s.random|) && n <= |picks|
    ensures Picks(picks, |s.random|) && pos < |s.random|
    ensures var t := Shuffle(s, picks, n);
            && RandomIndex(t.info, t.random) && |t.random| == |s.random|
            && Shuffle(s, picks + [pos], n) == SwapRandom(t, |picks|, pos)
    decreases |picks| - n
  {
    hide RandomIndex, SwapRandom;
    assert forall k :: 0 <= k < |picks| ==> picks[k] == (picks + [pos])[k];
    assert (picks + [pos])[|picks|] == pos;
    if n < |picks| {
      SwapIndex'(s, n, picks[n]);
      ShuffleAppend(SwapRandom(s, n, picks[n]), picks, pos, n + 1);
    } else {
      SwapIndex'(s, n, pos);
    }
  }

  lemma SwapIndex'(s: State, i: nat, j: nat)
    requires RandomIndex(s.info, s.random) && i < |s.random| && j < |s.random|
    ensures s.random[i] in s.info && s.random[j] in s.info
    ensures var t := SwapRandom(s, i, j); RandomIndex(t.info, t.random) && |t.random| == |s.random|
  {
    SwapIndex(s, i, j);
  }

  lemma KnownEntry(h: Hashing, s: State, id: int, x: Info)
    requires Consistent(h, s) && id in s.info
    requires x == s.info[id].(time := x.time, services := x.services)
    ensures Consistent(h, Touch(s, id, x))
    ensures !x.inTried && x.refCount != BUCKETS_PER_ADDRESS ==> Insertable(h, Touch(s, id, x), id)
  {
    TouchConsistent(h, s, id, x);
  }

  lemma UnlistNothing(s: State, id: int)
    requires id in s.info
    ensures UnlistBelow(s, id, 0) == s
  {
    assert RefsBelow(s.newTable, id, 0) == {};
    assert UnlistBelow(s, id, 0).newTable == s.newTable;
    assert UnlistBelow(s, id, 0).info == s.info;
  }

  lemma UnlistEverything(s: State, id: int, buckets: nat)
    requires id in s.info && forall k: Slot :: k in s.newTable ==> k.0 < buckets
    ensures var t := UnlistBelow(s, id, buckets); Unlist(s, id) == t.(nNew := t.nNew - 1)
  {
    assert RefsBelow(s.newTable, id, buckets) == Refs(s.newTable, id);
    assert UnlistBelow(s, id, buckets).newTable == Unlist(s, id).newTable;
  }

  lemma WithoutStep(table: map<Slot, int>, id: int, slot: Slot)
    requires forall k: Slot :: k in table && table[k] == id && k.0 == slot.0 ==> k == slot
    ensures var m, m' := Without(table, id, slot.0), Without(table, id, slot.0 + 1);
            if slot in m && m[slot] == id
            then m' == m - {slot} && |RefsBelow(table, id, slot.0 + 1)| == |RefsBelow(table, id, slot.0)| + 1
            else m' == m && |RefsBelow(table, id, slot.0 + 1)| == |RefsBelow(table, id, slot.0)|
  {
    hide Without, RefsBelow;
    WithoutNext(table, id, slot);
    RefsBelowNext(table, id, slot);
  }

  lemma WithoutNext(table: map<Slot, int>, id: int, slot: Slot)
    requires forall k: Slot :: k in table && table[k] == id && k.0 == slot.0 ==> k == slot
    ensures var m, m' := Without(table, id, slot.0), Without(table, id, slot.0 + 1);
            && (slot in m && m[slot] == id <==> slot in table && table[slot] == id)
            && m' == if slot in table && table[slot] == id then m - {slot} else m
  {
  }

  lemma RefsBelowNext(table: map<Slot, int>, id: int, slot: Slot)
    requires forall k: Slot :: k in table && table[k] == id && k.0 == slot.0 ==> k == slot
    ensures var r, r' := RefsBelow(table, id, slot.0), RefsBelow(table, id, slot.0 + 1);
            slot !in r && r' == if slot in table && table[slot] == id then r + {slot} else r
  {
  }

  /** In each bucket only the hashed position needs to be looked at. */
  lemma UnlistBucket(h: Hashing, s: State, id: int, bucket: nat)
    requires Linked(h, s, {}) && id in s.info
    ensures var slot := h.SlotIn(s.info[id].service, bucket);
            var t, t' := UnlistBelow(s, id, bucket), UnlistBelow(s, id, bucket + 1);
            if slot in t.newTable && t.newTable[slot] == id
            then t' == t.(newTable := t.newTable - {slot},
                info := t.info[id := t.info[id].(refCount := t.info[id].refCount - 1)])
            else t' == t
  {
    hide TriedPlaced, Counted, Dated, IdsBelow, AddrIndex, RandomIndex, Without, RefsBelow;
    WithoutStep(s.newTable, id, h.SlotIn(s.info[id].service, bucket));
  }

  /** An entry found in a "new" slot has a positive reference count. */
  lemma Referenced(s: State, slot: Slot, pending: set<int>)
    requires Counted(s.info, s.newTable, pending) && slot in s.newTable && s.newTable[slot] in s.info
    ensures s.info[s.newTable[slot]].refCount > 0
  {
    assert slot in Refs(s.newTable, s.newTable[slot]);
  }
}
