/** The address manager on disk (src/addrman.h): entries in the order of their ids,
    the "new" table as ranks of entries, and everything else rebuilt on reading. */
module AddrDisk {
  import opened Common
  import opened AddrTables
  import opened AddrCheck

  // ---- entries in order of their ids ----

  /** The writer's test for the two kinds of entries. */
  predicate Chosen(x: Info, tried: bool) { if tried then x.inTried else x.refCount != 0 }

  /** The chosen ids below k, ascending. */
  function Ids(info: map<int, Info>, k: nat, tried: bool): (r: seq<int>)
    ensures |r| <= k
    ensures forall j :: 0 <= j < |r| ==> r[j] in info && 0 <= r[j] < k && Chosen(info[r[j]], tried)
  {
    if k == 0 then []
    else if k - 1 in info && Chosen(info[k - 1], tried) then Ids(info, k - 1, tried) + [k - 1]
    else Ids(info, k - 1, tried)
  }

  lemma {:induction false} IdsPrefix(info: map<int, Info>, j: nat, k: nat, tried: bool)
    requires j <= k
    ensures Ids(info, j, tried) <= Ids(info, k, tried)
    decreases k
  {
    if j < k { IdsPrefix(info, j, k - 1, tried); }
  }

  /** An id stands at the place that its rank among the chosen says. */
  lemma IdAtRank(info: map<int, Info>, id: nat, k: nat, tried: bool)
    requires id < k && id in info && Chosen(info[id], tried)
    ensures var r := |Ids(info, id, tried)|; r < |Ids(info, k, tried)| && Ids(info, k, tried)[r] == id
  {
    IdsPrefix(info, id + 1, k, tried);
  }

  lemma {:induction false} RankOfId(info: map<int, Info>, j: nat, k: nat, tried: bool)
    requires j < |Ids(info, k, tried)|
    ensures |Ids(info, Ids(info, k, tried)[j], tried)| == j
  {
    if k > 0 && j < |Ids(info, k - 1, tried)| { RankOfId(info, j, k - 1, tried); }
  }

  ghost function ChosenBelow(info: map<int, Info>, k: nat, tried: bool): set<int> {
    set id | id in info && 0 <= id < k && Chosen(info[id], tried)
  }

  lemma {:induction false} IdsCount(info: map<int, Info>, k: nat, tried: bool)
    ensures |Ids(info, k, tried)| == |ChosenBelow(info, k, tried)|
  {
    hide Chosen, Ids, ChosenBelow;
    if k == 0 {
      NoneBelow(info, tried);
    } else {
      IdsCount(info, k - 1, tried);
      IdsNext(info, k - 1, tried);
      ChosenNext(info, k - 1, tried);
    }
  }

  lemma IdsNext(info: map<int, Info>, k: nat, tried: bool)
    ensures Ids(info, k + 1, tried) ==
      if k in info && Chosen(info[k], tried) then Ids(info, k, tried) + [k] else Ids(info, k, tried)
  {
  }

  lemma ChosenNext(info: map<int, Info>, k: nat, tried: bool)
    ensures k !in ChosenBelow(info, k, tried)
    ensures ChosenBelow(info, k + 1, tried) ==
      if k in info && Chosen(info[k], tried) then ChosenBelow(info, k, tried) + {k} else ChosenBelow(info, k, tried)
  {
    hide Chosen;
  }

  lemma NoneBelow(info: map<int, Info>, tried: bool)
    ensures Ids(info, 0, tried) == [] && ChosenBelow(info, 0, tried) == {}
  {
  }

  /** All entries, the new ones first. */
  function All(s: State): (r: seq<int>)
    requires s.nextId >= 0
    ensures forall k :: 0 <= k < |r| ==> r[k] in s.info
  {
    Ids(s.info, s.nextId, false) + Ids(s.info, s.nextId, true)
  }

  /** The number under which an entry is found again. */
  function Place(s: State, id: int): nat
    requires s.nextId >= 0 && 0 <= id && id in s.info
  {
    if s.info[id].inTried then |Ids(s.info, s.nextId, false)| + |Ids(s.info, id, true)|
    else |Ids(s.info, id, false)|
  }

  /** Renaming ids by rank is one to one. */
  ghost predicate Renames(s: State) {
    && s.nextId >= 0
    && |Ids(s.info, s.nextId, false)| == s.nNew && |All(s)| == s.nNew + s.nTried
    && (forall id :: id in s.info ==> 0 <= id)
    && (forall id :: id in s.info ==> Place(s, id) < |All(s)| && All(s)[Place(s, id)] == id)
    && (forall k :: 0 <= k < |All(s)| ==> Place(s, All(s)[k]) == k && (k < s.nNew <==> !s.info[All(s)[k]].inTried))
  }

  lemma ConsistentChosen(h: Hashing, s: State)
    requires Consistent(h, s)
    ensures forall id :: id in s.info ==> 0 <= id < s.nextId && (Chosen(s.info[id], false) <==> !s.info[id].inTried)
    ensures ChosenBelow(s.info, s.nextId, false) == NewIds(s.info)
    ensures ChosenBelow(s.info, s.nextId, true) == TriedIds(s.info)
  {
  }

  lemma RenamesById(h: Hashing, s: State)
    requires Consistent(h, s)
    ensures Renames(s)
  {
    hide Consistent, Linked, Counters, Ids;
    ConsistentParts(h, s);
    ConsistentChosen(h, s);
    IdsCount(s.info, s.nextId, false);
    IdsCount(s.info, s.nextId, true);
    forall id | id in s.info ensures Place(s, id) < |All(s)| && All(s)[Place(s, id)] == id {
      IdAtRank(s.info, id, s.nextId, s.info[id].inTried);
    }
    forall k | 0 <= k < |All(s)|
      ensures Place(s, All(s)[k]) == k && (k < s.nNew <==> !s.info[All(s)[k]].inTried)
    {
      if k < s.nNew {
        RankOfId(s.info, k, s.nextId, false);
      } else {
        RankOfId(s.info, k - s.nNew, s.nextId, true);
      }
    }
  }

  lemma ConsistentParts(h: Hashing, s: State)
    requires Consistent(h, s)
    ensures s.nextId >= 0 && s.nNew == |NewIds(s.info)| && s.nTried == |TriedIds(s.info)|
  {
  }

  // ---- what comes back ----

  /** What is stored of an entry. */
  datatype Entry = Entry(
    service: Service, services: set<nat>, time: int, source: NetAddr, lastSuccess: int, attempts: int)

  function Stored(x: Info): Entry { Entry(x.service, x.services, x.time, x.source, x.lastSuccess, x.attempts) }

  function Loaded(e: Entry): Info {
    Info(e.service, e.services, e.time, e.source, 0, 0, e.lastSuccess, e.attempts, 0, false, -1)
  }

  /** The entry under its new number: the memory-only times are gone. */
  function Kept(x: Info, k: int, refs: int): Info {
    x.(lastTry := 0, lastCountAttempt := 0, randomPos := k, refCount := refs)
  }

  ghost function InfoUpTo(s: State, n: nat, placed: map<Slot, int>): map<int, Info>
    requires s.nextId >= 0 && n <= |All(s)|
  {
    map k | 0 <= k < n :: Kept(s.info[All(s)[k]], k, |Refs(placed, All(s)[k])|)
  }

  ghost function AddrUpTo(s: State, n: nat): map<NetAddr, int>
    requires Renames(s)
  {
    map a | a in s.addr && s.addr[a] in s.info && Place(s, s.addr[a]) < n :: Place(s, s.addr[a])
  }

  /** A table with its ids renamed, as far as the first n entries go. */
  ghost function TableUpTo(s: State, table: map<Slot, int>, n: nat): map<Slot, int>
    requires Renames(s)
  {
    map t | t in table && table[t] in s.info && Place(s, table[t]) < n :: Place(s, table[t])
  }

  ghost function Numbers(n: nat): (r: seq<int>)
    ensures |r| == n && forall i :: 0 <= i < n ==> r[i] == i
  {
    seq(n, i => i)
  }

  /** After n entries were read, and those slots of the "new" table. */
  ghost function Stage(s: State, n: nat, placed: map<Slot, int>, nextId: int): State
    requires Renames(s) && n <= |All(s)|
  {
    State(nextId, InfoUpTo(s, n, placed), AddrUpTo(s, n), Numbers(n), s.nTried, TableUpTo(s, s.triedTable, n),
          s.nNew, TableUpTo(s, placed, |All(s)|), 1)
  }

  /** The manager after writing and reading: the same tables up to the renaming. */
  ghost function Reloaded(s: State): State
    requires Renames(s)
  {
    Stage(s, |All(s)|, s.newTable, |All(s)|)
  }

  lemma ReloadedRefs(h: Hashing, s: State, k: nat)
    requires Consistent(h, s) && Renames(s) && k < |All(s)|
    ensures Refs(Reloaded(s).newTable, k) == Refs(s.newTable, All(s)[k])
  {
    hide Place, All, Renames;
    RenamesFacts(s);
    var r := Reloaded(s).newTable;
    assert NewPlaced(h, s.info, s.newTable);
    forall t ensures t in Refs(r, k) <==> t in Refs(s.newTable, All(s)[k]) {
      if t in s.newTable { assert s.newTable[t] in s.info; }
    }
  }

  lemma RenamesFacts(s: State)
    requires Renames(s)
    ensures s.nextId >= 0 && |All(s)| == s.nNew + s.nTried
    ensures forall id :: id in s.info ==> 0 <= id
    ensures forall id :: id in s.info ==> Place(s, id) < |All(s)| && All(s)[Place(s, id)] == id
    ensures forall k :: 0 <= k < |All(s)| ==> Place(s, All(s)[k]) == k && (k < s.nNew <==> !s.info[All(s)[k]].inTried)
  {
  }

  /** Entry k of what comes back. */
  lemma InfoShape(s: State, placed: map<Slot, int>)
    requires Renames(s)
    ensures var r := InfoUpTo(s, |All(s)|, placed);
      && (forall k :: k in r <==> 0 <= k < |All(s)|)
      && (forall k :: k in r ==> r[k].randomPos == k && r[k].service == s.info[All(s)[k]].service)
      && (forall k :: k in r ==> (r[k].inTried <==> k >= s.nNew))
  {
    hide Place, All, Renames, Refs;
    RenamesFacts(s);
  }

  lemma ReloadedIndexes(h: Hashing, s: State)
    requires Consistent(h, s) && Renames(s)
    ensures var r := Reloaded(s);
            IdsBelow(r.info, r.nextId) && AddrIndex(r.info, r.addr) && RandomIndex(r.info, r.random)
  {
    hide Place, All, Renames, InfoUpTo, TableUpTo, Consistent, AddrUpTo;
    InfoShape(s, s.newTable);
    ReloadedAddr(h, s);
  }

  lemma ReloadedAddr(h: Hashing, s: State)
    requires Consistent(h, s) && Renames(s)
    ensures AddrIndex(InfoUpTo(s, |All(s)|, s.newTable), AddrUpTo(s, |All(s)|))
  {
    hide Place, All, Renames, InfoUpTo, RandomIndex, NewPlaced, TriedPlaced, Counted, Counters;
    InfoShape(s, s.newTable);
    RenamesFacts(s);
    assert AddrIndex(s.info, s.addr);
    var info, addr := InfoUpTo(s, |All(s)|, s.newTable), AddrUpTo(s, |All(s)|);
    forall k | k in info ensures info[k].service.ip in addr && addr[info[k].service.ip] == k {
      assert All(s)[k] in s.info;
    }
  }

  lemma ReloadedPlaced(h: Hashing, s: State)
    requires Consistent(h, s) && Renames(s)
    ensures var r := Reloaded(s); NewPlaced(h, r.info, r.newTable) && TriedPlaced(h, r.info, r.triedTable)
  {
    hide Consistent, Place, All, Renames, InfoUpTo, TableUpTo, AddrUpTo;
    RenamesSizes(s);
    ReloadedNewPlaced(h, s);
    ReloadedTriedPlaced(h, s);
  }

  lemma ReloadedNewPlaced(h: Hashing, s: State)
    requires Consistent(h, s) && Renames(s)
    ensures NewPlaced(h, InfoUpTo(s, |All(s)|, s.newTable), TableUpTo(s, s.newTable, |All(s)|))
  {
    hide Place, All, Renames, InfoUpTo, AddrIndex, RandomIndex, TriedPlaced, Counted, Counters;
    InfoShape(s, s.newTable);
    RenamesFacts(s);
    assert NewPlaced(h, s.info, s.newTable);
  }

  lemma ReloadedTriedPlaced(h: Hashing, s: State)
    requires Consistent(h, s) && Renames(s)
    ensures TriedPlaced(h, InfoUpTo(s, |All(s)|, s.newTable), TableUpTo(s, s.triedTable, |All(s)|))
  {
    hide Place, All, Renames, InfoUpTo, AddrIndex, RandomIndex, NewPlaced, Counted, Counters;
    InfoShape(s, s.newTable);
    RenamesFacts(s);
    assert TriedPlaced(h, s.info, s.triedTable);
    var info, table := InfoUpTo(s, |All(s)|, s.newTable), TableUpTo(s, s.triedTable, |All(s)|);
    forall k | k in info && info[k].inTried ensures var t := h.TriedSlot(info[k].service); t in table && table[t] == k {
      assert All(s)[k] in s.info;
    }
  }

  lemma ReloadedCounted(h: Hashing, s: State)
    requires Consistent(h, s) && Renames(s)
    ensures var r := Reloaded(s); Counted(r.info, r.newTable, {}) && Dated(r.info)
  {
    hide Place, All, Renames, Refs, AddrUpTo, TableUpTo;
    RenamesFacts(s);
    var r := Reloaded(s);
    assert Counted(s.info, s.newTable, {}) && Dated(s.info);
    forall k | k in r.info
      ensures r.info[k].refCount == |Refs(r.newTable, k)| == s.info[All(s)[k]].refCount
    {
      ReloadedRefs(h, s, k);
      assert All(s)[k] in s.info;
    }
  }

  lemma ReloadedCounters(s: State)
    requires Renames(s)
    ensures Counters(Reloaded(s), 0)
  {
    hide Place, All, Renames, InfoUpTo, AddrUpTo, TableUpTo;
    RenamesSizes(s);
    InfoShape(s, s.newTable);
    SplitCount(Reloaded(s).info, s.nNew, |All(s)|);
  }

  lemma SplitCount(info: map<int, Info>, n: nat, m: nat)
    requires n <= m && (forall k :: k in info <==> 0 <= k < m)
             && forall k :: k in info ==> (info[k].inTried <==> k >= n)
    ensures |NewIds(info)| == n && |TriedIds(info)| == m - n
  {
    hide Upto;
    assert forall k :: k in NewIds(info) <==> k in Upto(n);
    assert NewIds(info) == Upto(n);
    assert forall k :: k in Upto(m) <==> k in TriedIds(info) + NewIds(info);
    assert Upto(m) == TriedIds(info) + NewIds(info) && TriedIds(info) !! NewIds(info);
  }

  lemma RenamesSizes(s: State)
    requires Renames(s)
    ensures s.nextId >= 0 && 0 <= s.nNew <= |All(s)| == s.nNew + s.nTried
  {
  }

  /** What comes back passes the manager's own check again. */
  lemma ReloadedConsistent(h: Hashing, s: State)
    requires Consistent(h, s)
    ensures Renames(s) && Consistent(h, Reloaded(s))
  {
    hide Consistent, IdsBelow, AddrIndex, RandomIndex, NewPlaced, TriedPlaced, Counted, Dated, Counters, Reloaded,
         Renames;
    RenamesById(h, s);
    ReloadedIndexes(h, s);
    ReloadedPlaced(h, s);
    ReloadedCounted(h, s);
    ReloadedCounters(s);
    Assembled(h, Reloaded(s));
  }

  lemma Assembled(h: Hashing, r: State)
    requires Linked(h, r, {}) && Counters(r, 0)
    ensures Consistent(h, r)
  {
  }

  // ---- the steps of the reader ----

  /** One entry of the "new" table. If its table cannot be used, it gets the slot
      of its own source, should that be free. */
  function AddNew(h: Hashing, usable: bool, st: State, n: int, e: Entry): State {
    var x := Loaded(e).(randomPos := |st.random|);
    var slot := h.NewSlot(e.service, e.source);
    var take := !usable && slot !in st.newTable;
    st.(info := st.info[n := if take then x.(refCount := 1) else x],
        addr := st.addr[e.service.ip := n],
        random := st.random + [n],
        newTable := if take then st.newTable[slot := n] else st.newTable)
  }

  /** One entry of the "tried" table; it is lost if its slot is taken. A file with a
      negative number of new entries can hand out the id -1, which a slot cannot
      hold: there it means that the slot is empty. */
  function AddTried(h: Hashing, st: State, e: Entry): State {
    var slot := h.TriedSlot(e.service);
    if slot in st.triedTable then st.(nTried := st.nTried - 1)
    else
      st.(nextId := st.nextId + 1,
          info := st.info[st.nextId := Loaded(e).(randomPos := |st.random|, inTried := true)],
          addr := st.addr[e.service.ip := st.nextId],
          random := st.random + [st.nextId],
          triedTable := if st.nextId == -1 then st.triedTable else st.triedTable[slot := st.nextId])
  }

  /** One reference of the "new" table. */
  function AddRef(h: Hashing, usable: bool, st: State, bucket: nat, index: int): State {
    if !(0 <= index < st.nNew && index in st.info) then st
    else
      var x := st.info[index];
      var slot := h.SlotIn(x.service, bucket);
      if usable && slot !in st.newTable && x.refCount < BUCKETS_PER_ADDRESS then
        st.(info := st.info[index := x.(refCount := x.refCount + 1)], newTable := st.newTable[slot := index])
      else st
  }

  lemma RefsOfNone(id: int)
    ensures |Refs(map[], id)| == 0
  {
    assert Refs(map[], id) == {};
  }

  /** Reading new entry n. */
  lemma StageNew(h: Hashing, s: State, n: nat)
    requires Consistent(h, s) && Renames(s) && n < s.nNew
    ensures AddNew(h, true, Stage(s, n, map[], 0), n, Stored(s.info[All(s)[n]])) == Stage(s, n + 1, map[], 0)
  {
    hide Place, All, Renames, Consistent, Refs, TableUpTo, AddrUpTo, InfoUpTo;
    RenamesSizes(s);
    RenamesFacts(s);
    StageInfo(s, n);
    StageAddr(h, s, n);
    StageTried(h, s, n);
    assert Numbers(n + 1) == Numbers(n) + [n];
    NothingPlaced(s);
  }

  lemma NothingPlaced(s: State)
    requires Renames(s)
    ensures TableUpTo(s, map[], |All(s)|) == map[]
  {
    hide Place, All, Renames;
  }

  lemma StageInfo(s: State, n: nat)
    requires Renames(s) && n < |All(s)|
    ensures InfoUpTo(s, n + 1, map[]) ==
      InfoUpTo(s, n, map[])
        [n := Loaded(Stored(s.info[All(s)[n]])).(randomPos := n, inTried := s.info[All(s)[n]].inTried)]
  {
    hide Place, All, Renames, Refs;
    RenamesSizes(s);
    RefsOfNone(All(s)[n]);
  }

  lemma StageAddr(h: Hashing, s: State, n: nat)
    requires Consistent(h, s) && Renames(s) && n < |All(s)|
    ensures AddrUpTo(s, n + 1) == AddrUpTo(s, n)[s.info[All(s)[n]].service.ip := n]
  {
    hide Place, All, Renames, RandomIndex, NewPlaced, TriedPlaced, Counted, Counters;
    RenamesFacts(s);
    assert AddrIndex(s.info, s.addr);
    var x := s.info[All(s)[n]];
    forall a | a in s.addr ensures s.addr[a] in s.info && (Place(s, s.addr[a]) == n <==> a == x.service.ip) {
      var id := s.addr[a];
      assert id in s.info && s.info[id].service.ip == a;
      assert All(s)[Place(s, id)] == id;
    }
  }

  /** The tried entry n goes to a free slot; a new one to none. */
  lemma StageTried(h: Hashing, s: State, n: nat)
    requires Consistent(h, s) && Renames(s) && n < |All(s)|
    ensures var x, t := s.info[All(s)[n]], TableUpTo(s, s.triedTable, n);
      && (n < s.nNew ==> TableUpTo(s, s.triedTable, n + 1) == t)
      && (n >= s.nNew ==>
            h.TriedSlot(x.service) !in t && TableUpTo(s, s.triedTable, n + 1) == t[h.TriedSlot(x.service) := n])
  {
    hide Place, All, Renames, RandomIndex, NewPlaced, AddrIndex, Counted, Counters;
    RenamesFacts(s);
    assert TriedPlaced(h, s.info, s.triedTable);
    var id := All(s)[n];
    forall t | t in s.triedTable
      ensures s.triedTable[t] in s.info
              && (Place(s, s.triedTable[t]) == n <==> n >= s.nNew && t == h.TriedSlot(s.info[id].service))
    {
      var k := s.triedTable[t];
      assert k in s.info && s.info[k].inTried && t == h.TriedSlot(s.info[k].service);
      assert All(s)[Place(s, k)] == k;
    }
  }

  /** Reading the tried entry that gets number n. */
  lemma StageOfTried(h: Hashing, s: State, n: nat)
    requires Consistent(h, s) && Renames(s) && s.nNew <= n < |All(s)|
    ensures AddTried(h, Stage(s, n, map[], n), Stored(s.info[All(s)[n]])) == Stage(s, n + 1, map[], n + 1)
  {
    hide Place, All, Renames, Consistent, Refs, TableUpTo, AddrUpTo, InfoUpTo;
    RenamesFacts(s);
    StageInfo(s, n);
    StageAddr(h, s, n);
    StageTried(h, s, n);
    assert Numbers(n + 1) == Numbers(n) + [n];
  }

  /** Part of the "new" table. */
  ghost predicate PartOf(placed: map<Slot, int>, table: map<Slot, int>) {
    forall t :: t in placed ==> t in table && placed[t] == table[t]
  }

  /** A reference finds its slot free and its entry below the limit. */
  lemma StageRef(h: Hashing, s: State, placed: map<Slot, int>, slot: Slot)
    requires Consistent(h, s) && Renames(s) && PartOf(placed, s.newTable)
    requires slot in s.newTable && slot !in placed
    ensures s.newTable[slot] in s.info
    ensures var id, m := s.newTable[slot], |All(s)|;
      && Place(s, id) < s.nNew
      && AddRef(h, true, Stage(s, m, placed, m), slot.0, Place(s, id)) == Stage(s, m, placed[slot := id], m)
  {
    hide Place, All, Renames, Refs, TableUpTo, AddrUpTo, InfoUpTo, RandomIndex, AddrIndex, TriedPlaced, Counters;
    RenamesSizes(s);
    RenamesFacts(s);
    assert NewPlaced(h, s.info, s.newTable) && Counted(s.info, s.newTable, {});
    var id, m := s.newTable[slot], |All(s)|;
    var k := Place(s, id);
    assert All(s)[k] == id && !s.info[id].inTried;
    InfoShape(s, placed);
    RefInfo(s, placed, slot, k);
    RefTable(s, placed, slot, id);
    RefBelow(s.newTable, placed, slot, id);
  }

  lemma RefBelow(table: map<Slot, int>, placed: map<Slot, int>, slot: Slot, id: int)
    requires PartOf(placed, table) && slot in table && slot !in placed && table[slot] == id
    ensures |Refs(placed, id)| < |Refs(table, id)|
  {
    assert slot in Refs(table, id) && slot !in Refs(placed, id);
    SubsetSize(Refs(placed, id) + {slot}, Refs(table, id));
  }

  lemma RefInfo(s: State, placed: map<Slot, int>, slot: Slot, k: nat)
    requires Renames(s) && k < |All(s)| && slot !in placed
    ensures var m, id := |All(s)|, All(s)[k];
      var info := InfoUpTo(s, m, placed);
      && info[k].refCount == |Refs(placed, id)|
      && InfoUpTo(s, m, placed[slot := id]) == info[k := info[k].(refCount := info[k].refCount + 1)]
  {
    hide Place, All, Renames, Refs;
    RenamesSizes(s);
    RenamesFacts(s);
    var m, id := |All(s)|, All(s)[k];
    forall j | 0 <= j < m
      ensures |Refs(placed[slot := id], All(s)[j])| == |Refs(placed, All(s)[j])| + if j == k then 1 else 0
    {
      RefsInsert(placed, slot, id, All(s)[j]);
      assert Place(s, All(s)[j]) == j && Place(s, All(s)[k]) == k;
    }
  }

  lemma RefTable(s: State, placed: map<Slot, int>, slot: Slot, id: int)
    requires Renames(s) && slot !in placed && id in s.info
    ensures var m := |All(s)|;
      slot !in TableUpTo(s, placed, m)
          && TableUpTo(s, placed[slot := id], m) == TableUpTo(s, placed, m)[slot := Place(s, id)]
  {
    hide Place, All, Renames;
    RenamesFacts(s);
  }

  // ---- the steps together ----

  function LoadNew(h: Hashing, usable: bool, st: State, es: seq<Entry>, n: nat): State
    requires n <= |es|
  {
    if n == 0 then st else AddNew(h, usable, LoadNew(h, usable, st, es, n - 1), n - 1, es[n - 1])
  }

  function LoadTried(h: Hashing, st: State, es: seq<Entry>, n: nat): State
    requires n <= |es|
  {
    if n == 0 then st else AddTried(h, LoadTried(h, st, es, n - 1), es[n - 1])
  }

  function LoadBucket(h: Hashing, usable: bool, st: State, bucket: nat, ix: seq<int>, n: nat): State
    requires n <= |ix|
  {
    if n == 0 then st else AddRef(h, usable, LoadBucket(h, usable, st, bucket, ix, n - 1), bucket, ix[n - 1])
  }

  function LoadBuckets(h: Hashing, usable: bool, st: State, buckets: seq<seq<int>>, n: nat): State
    requires n <= |buckets|
  {
    if n == 0 then st
    else LoadBucket(h, usable, LoadBuckets(h, usable, st, buckets, n - 1), n - 1, buckets[n - 1], |buckets[n - 1]|)
  }

  /** The indexes written for the first j places of a bucket. */
  function Indexes(s: State, bucket: nat, j: nat): seq<int>
    requires s.nextId >= 0
  {
    if j == 0 then []
    else if (bucket, j - 1) in s.newTable then Indexes(s, bucket, j - 1) + [RankOf(s, s.newTable[(bucket, j - 1)])]
    else Indexes(s, bucket, j - 1)
  }

  /** The writer's number for an id: how many new entries come before it. */
  function RankOf(s: State, id: int): nat {
    |Ids(s.info, if id < 0 then 0 else id, false)|
  }

  function Entries(info: map<int, Info>, ids: seq<int>): (r: seq<Entry>)
    requires forall j :: 0 <= j < |ids| ==> ids[j] in info
    ensures |r| == |ids| && forall j :: 0 <= j < |ids| ==> r[j] == Stored(info[ids[j]])
  {
    seq(|ids|, j requires 0 <= j < |ids| => Stored(info[ids[j]]))
  }

  lemma AllSplit(s: State)
    requires Renames(s)
    ensures s.nextId >= 0 && s.nNew == |Ids(s.info, s.nextId, false)| && s.nTried == |Ids(s.info, s.nextId, true)|
    ensures |All(s)| == s.nNew + s.nTried
    ensures forall j :: 0 <= j < s.nNew ==> All(s)[j] == Ids(s.info, s.nextId, false)[j]
    ensures forall j :: 0 <= j < s.nTried ==> All(s)[s.nNew + j] == Ids(s.info, s.nextId, true)[j]
  {
    hide Ids, Place;
  }

  ghost function NewEntries(s: State): seq<Entry>
    requires Renames(s)
  {
    Entries(s.info, Ids(s.info, s.nextId, false))
  }

  ghost function TriedEntries(s: State): seq<Entry>
    requires Renames(s)
  {
    Entries(s.info, Ids(s.info, s.nextId, true))
  }

  lemma EntriesAt(s: State)
    requires Renames(s)
    ensures 0 <= s.nNew == |NewEntries(s)| && 0 <= s.nTried == |TriedEntries(s)| && |All(s)| == s.nNew + s.nTried
    ensures forall j :: 0 <= j < s.nNew ==> NewEntries(s)[j] == Stored(s.info[All(s)[j]])
    ensures forall j :: 0 <= j < s.nTried ==> TriedEntries(s)[j] == Stored(s.info[All(s)[s.nNew + j]])
  {
    hide Ids, Place, Renames, All;
    AllSplit(s);
  }

  lemma {:induction false} LoadsNew(h: Hashing, s: State, n: nat)
    requires Consistent(h, s) && Renames(s) && n <= s.nNew == |NewEntries(s)|
    ensures n <= |All(s)|
    ensures LoadNew(h, true, Stage(s, 0, map[], 0), NewEntries(s), n) == Stage(s, n, map[], 0)
  {
    hide Consistent, Renames, All, Stage, AddNew, NewEntries;
    EntriesAt(s);
    if n > 0 {
      LoadsNew(h, s, n - 1);
      StageNew(h, s, n - 1);
    }
  }

  lemma {:induction false} LoadsTried(h: Hashing, s: State, n: nat)
    requires Consistent(h, s) && Renames(s) && n <= s.nTried == |TriedEntries(s)|
    ensures 0 <= s.nNew && s.nNew + n <= |All(s)|
    ensures LoadTried(h, Stage(s, s.nNew, map[], s.nNew), TriedEntries(s), n) == Stage(s, s.nNew + n, map[], s.nNew + n)
  {
    hide Consistent, Renames, All, Stage, AddTried, TriedEntries;
    EntriesAt(s);
    if n > 0 {
      LoadsTried(h, s, n - 1);
      StageOfTried(h, s, s.nNew + n - 1);
    }
  }

  /** Slots lie within the tables. */
  ghost predicate Bounded(s: State, newBuckets: nat, triedBuckets: nat, size: nat) {
    && (forall t: Slot :: t in s.newTable ==> t.0 < newBuckets && t.1 < size)
    && (forall t: Slot :: t in s.triedTable ==> t.0 < triedBuckets && t.1 < size)
  }

  lemma VisitedPart(table: map<Slot, int>, bucket: nat, pos: nat)
    ensures PartOf(Visited(table, bucket, pos), table)
  {
  }

  /** The first j places of a bucket, read back. */
  lemma {:induction false} LoadsBucket(h: Hashing, s: State, bucket: nat, j: nat)
    requires Consistent(h, s) && Renames(s)
    ensures var m, ix := |All(s)|, Indexes(s, bucket, j);
      LoadBucket(h, true, Stage(s, m, Visited(s.newTable, bucket, 0), m), bucket, ix, |ix|) ==
      Stage(s, m, Visited(s.newTable, bucket, j), m)
  {
    hide Consistent, Renames, All, Stage, AddRef, Visited, PartOf, RankOf;
    RenamesSizes(s);
    if j > 0 {
      LoadsBucket(h, s, bucket, j - 1);
      VisitedNext(s.newTable, bucket, j - 1);
      VisitedPart(s.newTable, bucket, j - 1);
      if (bucket, j - 1) in s.newTable {
        var slot: Slot := (bucket, j - 1);
        StageRef(h, s, Visited(s.newTable, bucket, j - 1), slot);
        RankIsPlace(h, s, s.newTable[slot]);
        var m := |All(s)|;
        BucketSnoc(h, true, Stage(s, m, Visited(s.newTable, bucket, 0), m), bucket, Indexes(s, bucket, j - 1),
            RankOf(s, s.newTable[slot]));
      }
    }
  }

  lemma RankIsPlace(h: Hashing, s: State, id: int)
    requires Renames(s) && id in s.info && Place(s, id) < s.nNew
    ensures RankOf(s, id) == Place(s, id)
  {
    hide Ids;
  }

  lemma {:induction false} BucketSame(h: Hashing, usable: bool, st: State, bucket: nat, a: seq<int>, b: seq<int>,
          n: nat)
    requires n <= |a| && n <= |b| && a[..n] == b[..n]
    ensures LoadBucket(h, usable, st, bucket, a, n) == LoadBucket(h, usable, st, bucket, b, n)
  {
    hide AddRef;
    if n > 0 {
      assert a[n - 1] == a[..n][n - 1] == b[n - 1];
      assert a[..n - 1] == a[..n][..n - 1] && b[..n - 1] == b[..n][..n - 1];
      BucketSame(h, usable, st, bucket, a, b, n - 1);
    }
  }

  lemma BucketSnoc(h: Hashing, usable: bool, st: State, bucket: nat, ix: seq<int>, x: int)
    ensures LoadBucket(h, usable, st, bucket, ix + [x], |ix| + 1) ==
      AddRef(h, usable, LoadBucket(h, usable, st, bucket, ix, |ix|), bucket, x)
  {
    hide AddRef;
    BucketSame(h, usable, st, bucket, ix + [x], ix, |ix|);
  }

  function BucketLists(s: State, buckets: nat, size: nat): (r: seq<seq<int>>)
    requires s.nextId >= 0
    ensures |r| == buckets && forall b :: 0 <= b < buckets ==> r[b] == Indexes(s, b, size)
  {
    seq(buckets, b requires 0 <= b < buckets => Indexes(s, b, size))
  }

  lemma {:induction false} LoadsBuckets(h: Hashing, s: State, buckets: nat, size: nat, n: nat)
    requires Consistent(h, s) && Renames(s) && n <= buckets && (forall t: Slot :: t in s.newTable ==> t.1 < size)
    ensures s.nextId >= 0
    ensures var m := |All(s)|;
      LoadBuckets(h, true, Stage(s, m, map[], m), BucketLists(s, buckets, size), n) ==
      Stage(s, m, Visited(s.newTable, n, 0), m)
  {
    hide Consistent, Renames, All, Stage, Visited, Indexes, LoadBucket;
    RenamesSizes(s);
    if n > 0 {
      LoadsBuckets(h, s, buckets, size, n - 1);
      LoadsBucket(h, s, n - 1, size);
      VisitedRow(s.newTable, n - 1, size);
    } else {
      VisitedNone(s.newTable);
    }
  }

  lemma VisitedNone(table: map<Slot, int>)
    ensures Visited(table, 0, 0) == map[]
  {
  }

  // ---- pruning ----

  lemma DeleteIndexed(s: State, id: int)
    requires RandomIndex(s.info, s.random) && id in s.info
    ensures RandomIndex(Delete(s, id).info, Delete(s, id).random)
  {
    hide SwapRandom;
    PositionOf(s.info, s.random, id);
    var i, j := s.info[id].randomPos, |s.random| - 1;
    SwapIndex(s, i, j);
    SwapLast(s, i, j);
    var t := SwapRandom(s, i, j);
    LastDropped(t.info, t.random, id);
  }

  lemma SwapLast(s: State, i: nat, j: nat)
    requires RandomIndex(s.info, s.random) && i < |s.random| && j < |s.random|
    ensures SwapRandom(s, i, j).random[j] == s.random[i]
  {
  }

  lemma LastDropped(info: map<int, Info>, random: seq<int>, id: int)
    requires RandomIndex(info, random) && random != [] && random[|random| - 1] == id
    ensures RandomIndex(info - {id}, random[..|random| - 1])
  {
  }

  predicate Unplaced(x: Info) { !x.inTried && x.refCount == 0 }

  function PruneOne(st: State, id: int): (r: State)
    requires RandomIndex(st.info, st.random)
    ensures RandomIndex(r.info, r.random)
  {
    if id in st.info && Unplaced(st.info[id]) then
      DeleteIndexed(st, id);
      Delete(st, id)
    else st
  }

  /** The entries below k that found no slot are deleted. */
  function Prune(st: State, k: nat): (r: State)
    requires RandomIndex(st.info, st.random)
    ensures RandomIndex(r.info, r.random)
  {
    if k == 0 then st else PruneOne(Prune(st, k - 1), k - 1)
  }

  lemma {:induction false} NothingPruned(st: State, k: nat)
    requires RandomIndex(st.info, st.random) && forall id :: id in st.info ==> !Unplaced(st.info[id])
    ensures Prune(st, k) == st
  {
    hide RandomIndex;
    if k > 0 { NothingPruned(st, k - 1); }
  }

  /** Every position is found, and all ids are below the bound. */
  ghost predicate Indexed(st: State, bound: int) {
    RandomIndex(st.info, st.random) && forall id :: id in st.info ==> id < bound
  }

  lemma {:induction false} LoadNewIndexed(h: Hashing, usable: bool, st: State, es: seq<Entry>, n: nat)
    requires n <= |es| && Indexed(st, 0)
    ensures Indexed(LoadNew(h, usable, st, es, n), n)
    ensures LoadNew(h, usable, st, es, n).nNew == st.nNew
  {
    hide AddNew, Indexed;
    if n > 0 {
      LoadNewIndexed(h, usable, st, es, n - 1);
      AddNewIndexed(h, usable, LoadNew(h, usable, st, es, n - 1), n - 1, es[n - 1]);
    }
  }

  lemma AddNewIndexed(h: Hashing, usable: bool, st: State, n: nat, e: Entry)
    requires Indexed(st, n)
    ensures Indexed(AddNew(h, usable, st, n, e), n + 1) && AddNew(h, usable, st, n, e).nNew == st.nNew
  {
    var r := AddNew(h, usable, st, n, e);
    assert r.random == st.random + [n];
    assert r.info == st.info[n := r.info[n]] && r.info[n].randomPos == |st.random|;
  }

  lemma {:induction false} LoadTriedIndexed(h: Hashing, st: State, es: seq<Entry>, n: nat)
    requires n <= |es| && Indexed(st, st.nextId)
    ensures var r := LoadTried(h, st, es, n); Indexed(r, r.nextId)
  {
    hide AddTried, Indexed;
    if n > 0 {
      LoadTriedIndexed(h, st, es, n - 1);
      AddTriedIndexed(h, LoadTried(h, st, es, n - 1), es[n - 1]);
    }
  }

  lemma AddTriedIndexed(h: Hashing, st: State, e: Entry)
    requires Indexed(st, st.nextId)
    ensures var r := AddTried(h, st, e); Indexed(r, r.nextId)
  {
    var r := AddTried(h, st, e);
    if h.TriedSlot(e.service) !in st.triedTable {
      assert r.random == st.random + [st.nextId];
      assert r.info == st.info[st.nextId := r.info[st.nextId]] && r.info[st.nextId].randomPos == |st.random|;
    }
  }

  lemma {:induction false} LoadBucketIndexed(h: Hashing, usable: bool, st: State, bucket: nat, ix: seq<int>, n: nat)
    requires n <= |ix| && RandomIndex(st.info, st.random)
    ensures var r := LoadBucket(h, usable, st, bucket, ix, n); RandomIndex(r.info, r.random)
  {
    if n > 0 { LoadBucketIndexed(h, usable, st, bucket, ix, n - 1); }
  }

  lemma {:induction false} LoadBucketsIndexed(h: Hashing, usable: bool, st: State, buckets: seq<seq<int>>, n: nat)
    requires n <= |buckets| && RandomIndex(st.info, st.random)
    ensures var r := LoadBuckets(h, usable, st, buckets, n); RandomIndex(r.info, r.random)
  {
    if n > 0 {
      LoadBucketsIndexed(h, usable, st, buckets, n - 1);
      LoadBucketIndexed(h, usable, LoadBuckets(h, usable, st, buckets, n - 1), n - 1, buckets[n - 1], |buckets[n - 1]|);
    }
  }

  // ---- the whole file ----

  datatype Dims = Dims(newBuckets: nat, triedBuckets: nat, size: nat)

  datatype Disk = Disk(
    version: byte, key: nat, nNew: int, nTried: int, buckets: int,
    new_: seq<Entry>, tried: seq<Entry>, lists: seq<seq<int>>)

  predicate Usable(d: Disk, dims: Dims) { d.version == 1 && d.buckets == dims.newBuckets }

  function Before(h: Hashing, dims: Dims, d: Disk): State {
    var u := Usable(d, dims);
    var st := LoadNew(h, u, FRESH.(nNew := d.nNew, nTried := d.nTried), d.new_, |d.new_|);
    var st := LoadTried(h, st.(nextId := d.nNew), d.tried, |d.tried|);
    LoadBuckets(h, u, st, d.lists, |d.lists|)
  }

  /** Read on their own, entries are found at their positions whatever the file says. */
  lemma BeforeIndexed(h: Hashing, dims: Dims, d: Disk)
    requires |d.new_| == Max0(d.nNew)
    ensures var st := Before(h, dims, d); RandomIndex(st.info, st.random)
  {
    hide RandomIndex, LoadNew, LoadTried, LoadBuckets;
    var u := Usable(d, dims);
    var st0 := FRESH.(nNew := d.nNew, nTried := d.nTried);
    FreshIndexed(st0);
    LoadNewIndexed(h, u, st0, d.new_, |d.new_|);
    var st1 := LoadNew(h, u, st0, d.new_, |d.new_|);
    if d.nNew < 0 { NothingLoaded(h, u, st0, d.new_); }
    LoadTriedIndexed(h, st1.(nextId := d.nNew), d.tried, |d.tried|);
    LoadBucketsIndexed(h, u, LoadTried(h, st1.(nextId := d.nNew), d.tried, |d.tried|), d.lists, |d.lists|);
  }

  lemma FreshIndexed(st: State)
    requires st.info == map[] && st.random == []
    ensures Indexed(st, 0) && forall b :: Indexed(st, b)
  {
  }

  lemma NothingLoaded(h: Hashing, usable: bool, st: State, es: seq<Entry>)
    requires es == []
    ensures LoadNew(h, usable, st, es, 0) == st
  {
  }

  function Apply(h: Hashing, dims: Dims, d: Disk): State
    requires |d.new_| == Max0(d.nNew)
  {
    BeforeIndexed(h, dims, d);
    Prune(Before(h, dims, d), |d.new_|)
  }

  /** What the writer puts into the file. */
  ghost function Image(s: State, key: nat, dims: Dims): Disk
    requires Renames(s)
  {
    Disk(1, key, s.nNew, s.nTried, dims.newBuckets, NewEntries(s), TriedEntries(s),
        BucketLists(s, dims.newBuckets, dims.size))
  }

  /** Reading back what a consistent manager wrote loses nothing and rebuilds the
      same tables up to the renaming. */
  lemma AppliesBack(h: Hashing, s: State, key: nat, dims: Dims)
    requires Consistent(h, s) && Bounded(s, dims.newBuckets, dims.triedBuckets, dims.size)
    ensures Renames(s) && |Image(s, key, dims).new_| == Max0(s.nNew)
    ensures Apply(h, dims, Image(s, key, dims)) == Reloaded(s)
  {
    hide Consistent, Renames, All, Stage, LoadNew, LoadTried, LoadBuckets, Visited, NewEntries, TriedEntries,
         BucketLists, Prune;
    RenamesById(h, s);
    EntriesAt(s);
    RenamesSizes(s);
    var m := |All(s)|;
    StageStart(s);
    LoadsNew(h, s, s.nNew);
    StageMiddle(s);
    LoadsTried(h, s, s.nTried);
    LoadsBuckets(h, s, dims.newBuckets, dims.size, dims.newBuckets);
    VisitedAll(s.newTable, dims.newBuckets);
    ReloadedConsistent(h, s);
    NoneUnplaced(h, Reloaded(s));
    NothingPruned(Reloaded(s), |NewEntries(s)|);
  }

  lemma StageStart(s: State)
    requires Renames(s)
    ensures Stage(s, 0, map[], 0) == FRESH.(nNew := s.nNew, nTried := s.nTried)
  {
    hide Place, All, Renames, Refs;
  }

  lemma StageMiddle(s: State)
    requires Renames(s) && 0 <= s.nNew <= |All(s)|
    ensures Stage(s, s.nNew, map[], 0).(nextId := s.nNew) == Stage(s, s.nNew, map[], s.nNew)
  {
    hide Place, All, Renames, Refs;
  }

  lemma NoneUnplaced(h: Hashing, r: State)
    requires Consistent(h, r)
    ensures RandomIndex(r.info, r.random) && forall id :: id in r.info ==> !Unplaced(r.info[id])
  {
  }

  // ---- the size guards ----

  ghost function Grid(rows: nat, columns: nat): set<Slot> {
    if rows == 0 then {} else Grid(rows - 1, columns) + Row(rows - 1, columns)
  }

  ghost function Row(row: nat, columns: nat): set<Slot> {
    if columns == 0 then {} else Row(row, columns - 1) + {(row, columns - 1)}
  }

  lemma {:induction false} RowSize(row: nat, columns: nat)
    ensures |Row(row, columns)| == columns
    ensures forall t: Slot :: t in Row(row, columns) <==> t.0 == row && t.1 < columns
  {
    if columns > 0 { RowSize(row, columns - 1); }
  }

  lemma {:induction false} GridSize(rows: nat, columns: nat)
    ensures |Grid(rows, columns)| == Mul(rows, columns)
    ensures forall t: Slot :: t in Grid(rows, columns) <==> t.0 < rows && t.1 < columns
  {
    hide Row, Mul;
    MulRows(rows, columns);
    if rows > 0 {
      GridSize(rows - 1, columns);
      RowSize(rows - 1, columns);
      assert Grid(rows - 1, columns) !! Row(rows - 1, columns);
    }
  }

  lemma MulRows(rows: nat, columns: nat)
    ensures Mul(rows, columns) == if rows == 0 then 0 else Mul(rows - 1, columns) + columns
  {
  }

  lemma {:induction false} HoldersSize(table: map<Slot, int>)
    ensures |Holders(table)| <= |table|
    decreases |table|
  {
    if table != map[] {
      var t := Witness(table.Keys);
      var rest := table - {t};
      HoldersSize(rest);
      assert Holders(table) == Holders(rest) + {table[t]} by {
        assert forall u :: u in rest ==> rest[u] == table[u];
      }
    } else {
      assert Holders(table) == {};
    }
  }

  /** Each entry has a slot and each slot one entry: there are no more entries
      than slots. */
  lemma TableHolds(table: map<Slot, int>, ids: set<int>, rows: nat, columns: nat)
    requires forall t: Slot :: t in table ==> t.0 < rows && t.1 < columns
    requires ids <= Holders(table)
    ensures |ids| <= rows * columns
  {
    hide Grid, Holders;
    GridSize(rows, columns);
    SubsetSize(table.Keys, Grid(rows, columns));
    HoldersSize(table);
    SubsetSize(ids, Holders(table));
    MulDef(rows, columns);
  }

  lemma GuardsHold(h: Hashing, s: State, dims: Dims)
    requires Consistent(h, s) && Bounded(s, dims.newBuckets, dims.triedBuckets, dims.size)
    ensures s.nNew <= dims.newBuckets * dims.size && s.nTried <= dims.triedBuckets * dims.size
  {
    assert Counted(s.info, s.newTable, {}) && TriedPlaced(h, s.info, s.triedTable);
    forall id | id in NewIds(s.info) ensures id in Holders(s.newTable) {
      assert |Refs(s.newTable, id)| >= 1;
      var t := Witness(Refs(s.newTable, id));
      assert s.newTable[t] == id;
    }
    TableHolds(s.newTable, NewIds(s.info), dims.newBuckets, dims.size);
    forall id | id in TriedIds(s.info) ensures id in Holders(s.triedTable) {
      var t := h.TriedSlot(s.info[id].service);
      assert t in s.triedTable && s.triedTable[t] == id;
    }
    TableHolds(s.triedTable, TriedIds(s.info), dims.triedBuckets, dims.size);
  }

  // ---- the stream ----

  /** Magic is the number of the network at the head of the file. */
  datatype Token = Octet(b: byte) | Key(k: nat) | Num(n: int) | Record(e: Entry) | Magic(m: nat)

  type Tokens = seq<Token>

  const BIT30 := 0x4000_0000

  /** Exclusive or with 2^30. */
  function Toggle30(n: int): int { if n / BIT30 % 2 == 0 then n + BIT30 else n - BIT30 }

  lemma TogglesBack(n: int)
    ensures Toggle30(Toggle30(n)) == n
  {
  }

  function RecordTokens(es: seq<Entry>): (r: Tokens)
    ensures |r| == |es| && forall i :: 0 <= i < |es| ==> r[i] == Record(es[i])
  {
    seq(|es|, i requires 0 <= i < |es| => Record(es[i]))
  }

  function NumTokens(ix: seq<int>): (r: Tokens)
    ensures |r| == |ix| && forall i :: 0 <= i < |ix| ==> r[i] == Num(ix[i])
  {
    seq(|ix|, i requires 0 <= i < |ix| => Num(ix[i]))
  }

  function ListTokens(lists: seq<seq<int>>): Tokens {
    if lists == [] then [] else [Num(|lists[0]|)] + NumTokens(lists[0]) + ListTokens(lists[1..])
  }

  function Header(d: Disk): Tokens {
    [Octet(d.version), Octet(32), Key(d.key), Num(d.nNew), Num(d.nTried), Num(Toggle30(d.buckets))]
  }

  function Written(d: Disk): Tokens {
    Header(d) + (RecordTokens(d.new_) + (RecordTokens(d.tried) + ListTokens(d.lists)))
  }

  /** The records at the head of the stream, n of them unless something else comes first. */
  function Records(s: Tokens, n: nat): (es: seq<Entry>)
    ensures |es| <= n && |es| <= |s|
  {
    if n == 0 || s == [] || !s[0].Record? then [] else [s[0].e] + Records(s[1..], n - 1)
  }

  function ReadRecords(s: Tokens, n: nat): (r: Option<(seq<Entry>, Tokens)>)
    ensures r.Some? ==> |r.value.0| == n
  {
    var es := Records(s, n);
    if |es| == n then Some((es, s[n..])) else None
  }

  function Nums(s: Tokens, n: nat): (ix: seq<int>)
    ensures |ix| <= n && |ix| <= |s|
  {
    if n == 0 || s == [] || !s[0].Num? then [] else [s[0].n] + Nums(s[1..], n - 1)
  }

  /** n lists, each after its length; short of that, what is there of them. */
  datatype Lists = Lists(lists: seq<seq<int>>, complete: bool, rest: Tokens)

  function TakeLists(s: Tokens, n: nat): (r: Lists)
    ensures r.complete ==> |r.lists| == n
    decreases n
  {
    if n == 0 then Lists([], true, s)
    else if s == [] || !s[0].Num? then Lists([], false, s)
    else
      var ix := Nums(s[1..], Max0(s[0].n));
      if |ix| < Max0(s[0].n) then Lists([ix], false, s)
      else
        var more := TakeLists(s[1 + |ix|..], n - 1);
        more.(lists := [ix] + more.lists)
  }

  lemma {:induction false} RecordsBack(es: seq<Entry>, rest: Tokens)
    ensures ReadRecords(RecordTokens(es) + rest, |es|) == Some((es, rest))
  {
    if es == [] {
      assert RecordTokens(es) + rest == rest;
    } else {
      RecordsBack(es[1..], rest);
      var s := RecordTokens(es) + rest;
      assert s[1..] == RecordTokens(es[1..]) + rest;
      assert es == [es[0]] + es[1..];
      assert s[|es|..] == rest;
    }
  }

  lemma {:induction false} NumsBack(ix: seq<int>, rest: Tokens)
    ensures Nums(NumTokens(ix) + rest, |ix|) == ix && (NumTokens(ix) + rest)[|ix|..] == rest
  {
    if ix != [] {
      NumsBack(ix[1..], rest);
      assert (NumTokens(ix) + rest)[1..] == NumTokens(ix[1..]) + rest;
      assert ix == [ix[0]] + ix[1..];
    }
  }

  lemma ListBack(l: seq<int>, more: Tokens, n: nat)
    ensures TakeLists([Num(|l|)] + (NumTokens(l) + more), n + 1)
            == var r := TakeLists(more, n); r.(lists := [l] + r.lists)
  {
    hide Nums, NumTokens;
    var tail := NumTokens(l) + more;
    var s := [Num(|l|)] + tail;
    NumsBack(l, more);
    Sliced(Num(|l|), tail, |l|);
  }

  lemma Sliced(x: Token, tail: Tokens, k: nat)
    requires k <= |tail|
    ensures ([x] + tail)[1..] == tail && ([x] + tail)[1 + k..] == tail[k..]
  {
  }

  lemma ListsHead(lists: seq<seq<int>>, rest: Tokens)
    ensures lists == [] ==> ListTokens(lists) + rest == rest && TakeLists(rest, 0) == Lists([], true, rest)
    ensures lists != [] ==>
      ListTokens(lists) + rest == [Num(|lists[0]|)] + (NumTokens(lists[0]) + (ListTokens(lists[1..]) + rest))
  {
    hide NumTokens;
  }

  lemma {:induction false} ListsBack(lists: seq<seq<int>>, rest: Tokens)
    ensures TakeLists(ListTokens(lists) + rest, |lists|) == Lists(lists, true, rest)
  {
    hide TakeLists, NumTokens, ListTokens;
    ListsHead(lists, rest);
    if lists != [] {
      ListsBack(lists[1..], rest);
      ListBack(lists[0], ListTokens(lists[1..]) + rest, |lists| - 1);
      assert lists == [lists[0]] + lists[1..];
    }
  }

  /** The number of "new" buckets that the header names. */
  function HeaderBuckets(s: Tokens): int
    requires |s| >= 6 && s[0].Octet? && s[5].Num?
  {
    if s[0].b != 0 then Toggle30(s[5].n) else s[5].n
  }

  /** The header is there and its counts fit the tables. */
  predicate HeaderTaken(s: Tokens, dims: Dims) {
    && |s| >= 6 && s[0].Octet? && s[1].Octet? && s[1].b == 32 && s[2].Key? && s[3].Num? && s[4].Num? && s[5].Num?
    && s[3].n <= dims.newBuckets * dims.size && s[4].n <= dims.triedBuckets * dims.size
  }

  /** The file that the tokens hold, if the reader takes them. */
  function Parse(s: Tokens, dims: Dims): (r: Option<(Disk, Tokens)>)
    ensures r.Some? ==> |r.value.0.new_| == Max0(r.value.0.nNew)
  {
    if !HeaderTaken(s, dims) then None
    else
      match ReadRecords(s[6..], Max0(s[3].n))
      case None => None
      case Some((new_, r)) =>
        match ReadRecords(r, Max0(s[4].n))
        case None => None
        case Some((tried, r')) =>
          var l := TakeLists(r', Max0(HeaderBuckets(s)));
          if !l.complete then None
          else Some((Disk(s[0].b, s[2].k, s[3].n, s[4].n, HeaderBuckets(s), new_, tried, l.lists), l.rest))
  }

  lemma ParsesBack(d: Disk, dims: Dims, rest: Tokens)
    requires d.version != 0 && 0 <= d.nNew == |d.new_| && 0 <= d.nTried == |d.tried| && 0 <= d.buckets == |d.lists|
    requires d.nNew <= dims.newBuckets * dims.size && d.nTried <= dims.triedBuckets * dims.size
    ensures Parse(Written(d) + rest, dims) == Some((d, rest))
  {
    hide ReadRecords, TakeLists, ListTokens, RecordTokens, Toggle30;
    TogglesBack(d.buckets);
    var s3 := ListTokens(d.lists) + rest;
    var s2 := RecordTokens(d.tried) + s3;
    var s1 := RecordTokens(d.new_) + s2;
    assert (Written(d) + rest)[6..] == s1;
    RecordsBack(d.new_, s2);
    RecordsBack(d.tried, s3);
    ListsBack(d.lists, rest);
  }

  /** Into a fresh manager, the reader takes back all that a consistent manager
      wrote: no guard is hit, no entry lost, and the tables are the same up to
      renaming ids by rank. */
  lemma RoundTrip(hashing: nat -> Hashing, s: State, key: nat, dims: Dims, rest: Tokens)
    requires Consistent(hashing(key), s) && Bounded(s, dims.newBuckets, dims.triedBuckets, dims.size)
    ensures Renames(s)
    ensures var image := Image(s, key, dims);
      && Parse(Written(image) + rest, dims) == Some((image, rest))
      && Apply(hashing(image.key), dims, image) == Reloaded(s)
      && Consistent(hashing(image.key), Reloaded(s))
  {
    hide Consistent, Renames, Parse, Written, Apply, Reloaded, Bounded, NewEntries, TriedEntries, BucketLists;
    var h := hashing(key);
    AppliesBack(h, s, key, dims);
    ReloadedConsistent(h, s);
    GuardsHold(h, s, dims);
    EntriesAt(s);
    RenamesSizes(s);
    ParsesBack(Image(s, key, dims), dims, rest);
  }

  // ---- a read that fails ----

  /** A default-constructed entry, as mapInfo holds one before it is read. */
  const NO_INFO := Info(Service(0, 0), {}, 100000000, 0, 0, 0, 0, 0, 0, false, -1)

  /** What a read that fails leaves of a fresh manager. */
  function Partial(h: Hashing, dims: Dims, s: Tokens): State {
    if |s| < 4 || !s[0].Octet? || !s[1].Octet? || s[1].b != 32 || !s[2].Key? || !s[3].Num? then FRESH
    else
      var st := FRESH.(nNew := s[3].n);
      if |s| < 5 || !s[4].Num? then st
      else
        var st := st.(nTried := s[4].n);
        if !HeaderTaken(s, dims) then st
        else
          PartialTables(h, s[0].b == 1 && HeaderBuckets(s) == dims.newBuckets, st, s[6..], Max0(HeaderBuckets(s)))
  }

  function PartialTables(h: Hashing, usable: bool, st: State, s: Tokens, buckets: nat): State {
    var new_ := Records(s, Max0(st.nNew));
    var st1 := LoadNew(h, usable, st, new_, |new_|);
    if |new_| < Max0(st.nNew) then st1.(info := st1.info[|new_| := NO_INFO])
    else
      var tried := Records(s[|new_|..], Max0(st.nTried));
      var st2 := LoadTried(h, st1.(nextId := st.nNew), tried, |tried|);
      if |tried| < Max0(st.nTried) then st2.(nTried := st.nTried)
      else
        var l := TakeLists(s[|new_|..][|tried|..], buckets);
        LoadBuckets(h, usable, st2, l.lists, |l.lists|)
  }

  /** An entry is read or at least begun. */
  predicate Touched(s: Tokens, dims: Dims) {
    HeaderTaken(s, dims) && (s[3].n > 0 || (s[4].n > 0 && |s| > 6 && s[6].Record?))
  }

  lemma {:induction false} LoadNewIds(h: Hashing, usable: bool, st: State, es: seq<Entry>, n: nat, i: nat)
    requires i < n <= |es|
    ensures i in LoadNew(h, usable, st, es, n).info
  {
    if i < n - 1 { LoadNewIds(h, usable, st, es, n - 1, i); }
  }

  /** Every index below nNew names an entry when the references are read, so
      looking it up never makes a new one. */
  lemma IndexesKnown(h: Hashing, dims: Dims, d: Disk, index: int)
    requires |d.new_| == Max0(d.nNew) && 0 <= index < d.nNew
    ensures var st := LoadNew(h, Usable(d, dims), FRESH.(nNew := d.nNew, nTried := d.nTried), d.new_, |d.new_|);
      index in LoadTried(h, st.(nextId := d.nNew), d.tried, |d.tried|).info
  {
    hide LoadNew, LoadTried;
    var st0 := FRESH.(nNew := d.nNew, nTried := d.nTried);
    LoadNewIds(h, Usable(d, dims), st0, d.new_, |d.new_|, index);
    LoadTriedHas(h, LoadNew(h, Usable(d, dims), st0, d.new_, |d.new_|).(nextId := d.nNew), d.tried, |d.tried|);
  }

  lemma {:induction false} LoadTriedHas(h: Hashing, st: State, es: seq<Entry>, n: nat)
    requires n <= |es|
    ensures st.info.Keys <= LoadTried(h, st, es, n).info.Keys
    ensures n > 0 && st.triedTable == map[] ==> st.nextId in LoadTried(h, st, es, n).info
  {
    if n > 0 { LoadTriedHas(h, st, es, n - 1); }
  }

  lemma {:induction false} LoadBucketKeys(h: Hashing, usable: bool, st: State, bucket: nat, ix: seq<int>, n: nat)
    requires n <= |ix|
    ensures var r := LoadBucket(h, usable, st, bucket, ix, n); r.info.Keys == st.info.Keys && r.addr == st.addr
  {
    if n > 0 { LoadBucketKeys(h, usable, st, bucket, ix, n - 1); }
  }

  lemma {:induction false} LoadBucketsKeys(h: Hashing, usable: bool, st: State, buckets: seq<seq<int>>, n: nat)
    requires n <= |buckets|
    ensures var r := LoadBuckets(h, usable, st, buckets, n); r.info.Keys == st.info.Keys && r.addr == st.addr
  {
    hide LoadBucket;
    if n > 0 {
      LoadBucketsKeys(h, usable, st, buckets, n - 1);
      LoadBucketKeys(h, usable, LoadBuckets(h, usable, st, buckets, n - 1), n - 1, buckets[n - 1], |buckets[n - 1]|);
    }
  }

  /** The maps stay empty exactly when no entry is begun. */
  lemma PartialMaps(h: Hashing, dims: Dims, s: Tokens)
    ensures Partial(h, dims, s).info == map[] <==> !Touched(s, dims)
    ensures !Touched(s, dims) ==> Partial(h, dims, s).addr == map[]
  {
    hide PartialTables, HeaderBuckets;
    if HeaderTaken(s, dims) {
      PartialTablesMaps(h, s[0].b == 1 && HeaderBuckets(s) == dims.newBuckets, s[3].n, s[4].n, s[6..],
                        Max0(HeaderBuckets(s)));
    }
  }

  lemma RecordsNone(s: Tokens, n: nat)
    ensures Records(s, n) == [] <==> n == 0 || s == [] || !s[0].Record?
  {
  }

  /** With new entries in the maps, reading on does not empty them. */
  lemma {:induction false} NewStays(h: Hashing, usable: bool, st: State, s: Tokens, buckets: nat)
    requires st.nNew > 0
    ensures PartialTables(h, usable, st, s, buckets).info != map[]
  {
    hide LoadNew, LoadTried, LoadBuckets, TakeLists, Records;
    var new_ := Records(s, st.nNew);
    if |new_| == st.nNew {
      LoadNewIds(h, usable, st, new_, |new_|, st.nNew - 1);
      var st1 := LoadNew(h, usable, st, new_, |new_|).(nextId := st.nNew);
      var tried := Records(s[|new_|..], Max0(st.nTried));
      LoadTriedHas(h, st1, tried, |tried|);
      var st2 := LoadTried(h, st1, tried, |tried|);
      var l := TakeLists(s[|new_|..][|tried|..], buckets);
      LoadBucketsKeys(h, usable, st2, l.lists, |l.lists|);
      assert st.nNew - 1 in PartialTables(h, usable, st, s, buckets).info.Keys;
    } else {
      assert |new_| in PartialTables(h, usable, st, s, buckets).info;
    }
  }

  /** Without new entries the first tried one fills the maps. */
  lemma {:induction false} TriedFills(h: Hashing, usable: bool, st: State, s: Tokens, buckets: nat)
    requires st.nNew <= 0 && st.info == map[] && st.addr == map[] && st.triedTable == map[]
    ensures var r, none := PartialTables(h, usable, st, s, buckets), Records(s, Max0(st.nTried)) == [];
      (r.info == map[] <==> none) && (none ==> r.addr == map[])
  {
    hide LoadNew, LoadTried, LoadBuckets, TakeLists, Records;
    RecordsNone(s, 0);
    assert s[0..] == s;
    NothingLoaded(h, usable, st, []);
    var st1 := st.(nextId := st.nNew);
    var tried := Records(s, Max0(st.nTried));
    LoadTriedHas(h, st1, tried, |tried|);
    NothingTried(h, st1);
    var st2 := LoadTried(h, st1, tried, |tried|);
    var l := TakeLists(s[|tried|..], buckets);
    LoadBucketsKeys(h, usable, st2, l.lists, |l.lists|);
    var r := PartialTables(h, usable, st, s, buckets);
    assert r.info.Keys == st2.info.Keys && r.addr == st2.addr;
  }

  lemma PartialTablesMaps(h: Hashing, usable: bool, nNew: int, nTried: int, s: Tokens, buckets: nat)
    ensures var r := PartialTables(h, usable, FRESH.(nNew := nNew, nTried := nTried), s, buckets);
      var touched := nNew > 0 || (nTried > 0 && s != [] && s[0].Record?);
      (r.info == map[] <==> !touched) && (!touched ==> r.addr == map[])
  {
    hide PartialTables, Records;
    var st := FRESH.(nNew := nNew, nTried := nTried);
    if nNew > 0 {
      NewStays(h, usable, st, s, buckets);
    } else {
      TriedFills(h, usable, st, s, buckets);
      RecordsNone(s, Max0(nTried));
    }
  }

  lemma NothingTried(h: Hashing, st: State)
    ensures LoadTried(h, st, [], 0) == st
  {
  }

  /** A failed read is followed by Clear, which is to leave a clean manager. It
      does so exactly when the read had not begun an entry. */
  lemma FailedReadCleared(h: Hashing, h': Hashing, dims: Dims, s: Tokens)
    ensures Consistent(h', Cleared(Partial(h, dims, s))) <==> !Touched(s, dims)
  {
    hide Consistent, Cleared, Partial, Touched;
    PartialMaps(h, dims, s);
    ClearedConsistent(h', Partial(h, dims, s));
  }

  /** A file that ends after a header promising one entry is refused, and Clear
      leaves the entry behind. */
  lemma CutFile(h: Hashing, h': Hashing, dims: Dims, key: nat)
    requires dims.newBuckets > 0 && dims.size > 0
    ensures var s := [Octet(1), Octet(32), Key(key), Num(1), Num(0), Num(Toggle30(dims.newBuckets))];
      && Parse(s, dims) == None
      && Partial(h, dims, s).info == map[0 := NO_INFO]
      && !Consistent(h', Cleared(Partial(h, dims, s)))
  {
    hide Consistent, Cleared, Toggle30;
    MulMonotonic(1, dims.newBuckets, dims.size);
    var s := [Octet(1), Octet(32), Key(key), Num(1), Num(0), Num(Toggle30(dims.newBuckets))];
    assert s[6..] == [];
    assert HeaderTaken(s, dims);
    FailedReadCleared(h, h', dims, s);
  }
}
