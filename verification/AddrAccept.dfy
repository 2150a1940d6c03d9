/** Which files of the address manager give a consistent manager: the reader takes
    many that do not (src/addrman.h). */
module AddrAccept {
  import opened Common
  import opened AddrTables
  import opened AddrDisk

  // ---- what every file leaves before pruning ----

  /** Every address leads to an entry with it. */
  ghost predicate Covers(info: map<int, Info>, addr: map<NetAddr, int>) {
    && (forall id :: id in info ==> info[id].service.ip in addr)
    && (forall a :: a in addr ==> var id := addr[a]; id in info && info[id].service.ip == a)
  }

  /** The ids are those below n, from m on tried. */
  ghost predicate Numbered(info: map<int, Info>, m: int, n: int) {
    && (forall id :: id in info <==> 0 <= id < n)
    && (forall id :: id in info ==> (info[id].inTried <==> id >= m) && info[id].lastTry == 0)
  }

  /** As Counted, but an entry may have no reference. */
  ghost predicate Tallied(info: map<int, Info>, table: map<Slot, int>) {
    forall id :: id in info ==>
      && info[id].refCount == |Refs(table, id)| <= BUCKETS_PER_ADDRESS
      && (info[id].inTried ==> info[id].refCount == 0)
  }

  ghost predicate Entered(h: Hashing, st: State, m: int, n: int) {
    && Numbered(st.info, m, n) && Covers(st.info, st.addr)
    && NewPlaced(h, st.info, st.newTable) && TriedPlaced(h, st.info, st.triedTable)
    && Tallied(st.info, st.newTable)
  }

  lemma Unreferenced(h: Hashing, info: map<int, Info>, table: map<Slot, int>, id: int)
    requires NewPlaced(h, info, table) && id !in info
    ensures Refs(table, id) == {}
  {
  }

  lemma TallyInsert(h: Hashing, info: map<int, Info>, table: map<Slot, int>, slot: Slot, id: int, x: Info)
    requires Tallied(info, table) && slot !in table && !x.inTried && x.refCount == |Refs(table, id)| + 1
    requires x.refCount <= BUCKETS_PER_ADDRESS
    ensures Tallied(info[id := x], table[slot := id])
  {
    hide Refs;
    forall k | k in info[id := x]
      ensures |Refs(table[slot := id], k)| == if k == id then |Refs(table, k)| + 1 else |Refs(table, k)|
    {
      RefsInsert(table, slot, id, k);
    }
  }

  lemma NumberedNext(info: map<int, Info>, m: int, n: nat, x: Info)
    requires Numbered(info, m, n) && x.lastTry == 0
    ensures x.inTried && m <= n ==> Numbered(info[n := x], m, n + 1)
    ensures !x.inTried && m == n ==> Numbered(info[n := x], m + 1, n + 1)
  {
  }

  lemma CoversNext(info: map<int, Info>, addr: map<NetAddr, int>, id: int, x: Info)
    requires Covers(info, addr) && id !in info
    ensures Covers(info[id := x], addr[x.service.ip := id])
  {
  }

  lemma NewPlacedNext(h: Hashing, info: map<int, Info>, table: map<Slot, int>, id: int, x: Info)
    requires NewPlaced(h, info, table) && id !in info
    ensures NewPlaced(h, info[id := x], table)
    ensures !x.inTried ==> forall b: nat :: NewPlaced(h, info[id := x], table[h.SlotIn(x.service, b) := id])
  {
  }

  lemma TriedPlacedNext(h: Hashing, info: map<int, Info>, table: map<Slot, int>, id: int, x: Info)
    requires TriedPlaced(h, info, table) && id !in info
    ensures !x.inTried ==> TriedPlaced(h, info[id := x], table)
    ensures x.inTried && h.TriedSlot(x.service) !in table ==>
      TriedPlaced(h, info[id := x], table[h.TriedSlot(x.service) := id])
  {
  }

  lemma TallyNext(h: Hashing, info: map<int, Info>, table: map<Slot, int>, id: int, x: Info)
    requires Tallied(info, table) && NewPlaced(h, info, table) && id !in info && x.refCount == 0
    ensures Tallied(info[id := x], table)
  {
    hide Refs;
    Unreferenced(h, info, table, id);
  }

  lemma EnteredNew(h: Hashing, usable: bool, st: State, n: nat, e: Entry)
    requires Entered(h, st, n, n) && st.triedTable == map[]
    ensures var r := AddNew(h, usable, st, n, e); Entered(h, r, n + 1, n + 1) && r.triedTable == map[]
  {
    hide Refs, Numbered, Covers, NewPlaced, TriedPlaced, Tallied;
    var r := AddNew(h, usable, st, n, e);
    var x := r.info[n];
    NotYet(st.info, n, n);
    NumberedNext(st.info, n, n, x);
    CoversNext(st.info, st.addr, n, x);
    NewPlacedNext(h, st.info, st.newTable, n, x);
    TriedPlacedNext(h, st.info, st.triedTable, n, x);
    if x.refCount == 0 {
      TallyNext(h, st.info, st.newTable, n, x);
    } else {
      Unreferenced(h, st.info, st.newTable, n);
      TallyInsert(h, st.info, st.newTable, h.NewSlot(e.service, e.source), n, x);
    }
  }

  lemma NotYet(info: map<int, Info>, m: int, n: int)
    requires Numbered(info, m, n)
    ensures n !in info
  {
  }

  lemma EnteredTried(h: Hashing, st: State, m: nat, e: Entry)
    requires Entered(h, st, m, st.nextId) && m <= st.nextId
    ensures var r := AddTried(h, st, e);
      && Entered(h, r, m, r.nextId) && m <= r.nextId && r.nNew == st.nNew
      && r.nextId - r.nTried == st.nextId - st.nTried + 1
  {
    hide Refs, Numbered, Covers, NewPlaced, TriedPlaced, Tallied;
    if h.TriedSlot(e.service) !in st.triedTable {
      var id := st.nextId;
      var x := AddTried(h, st, e).info[id];
      NotYet(st.info, m, id);
      NumberedNext(st.info, m, id, x);
      CoversNext(st.info, st.addr, id, x);
      NewPlacedNext(h, st.info, st.newTable, id, x);
      TriedPlacedNext(h, st.info, st.triedTable, id, x);
      TallyNext(h, st.info, st.newTable, id, x);
    }
  }

  /** Another reference count leaves everything else about an entry. */
  lemma Recounted(h: Hashing, st: State, m: int, n: int, id: int, x: Info)
    requires Numbered(st.info, m, n) && Covers(st.info, st.addr) && TriedPlaced(h, st.info, st.triedTable)
    requires id in st.info && !st.info[id].inTried && x == st.info[id].(refCount := x.refCount)
    ensures Numbered(st.info[id := x], m, n) && Covers(st.info[id := x], st.addr)
    ensures TriedPlaced(h, st.info[id := x], st.triedTable)
  {
  }

  lemma Relisted(h: Hashing, info: map<int, Info>, table: map<Slot, int>, id: int, x: Info, b: nat)
    requires NewPlaced(h, info, table) && id in info && !info[id].inTried && x == info[id].(refCount := x.refCount)
    ensures NewPlaced(h, info[id := x], table[h.SlotIn(x.service, b) := id])
  {
  }

  lemma EnteredRef(h: Hashing, usable: bool, st: State, m: nat, n: int, bucket: nat, index: int)
    requires Entered(h, st, m, n) && st.nNew == m
    ensures var r := AddRef(h, usable, st, bucket, index);
      Entered(h, r, m, n) && r == st.(info := r.info, newTable := r.newTable)
  {
    hide Refs, Covers, NewPlaced, TriedPlaced;
    var r := AddRef(h, usable, st, bucket, index);
    if r != st {
      var slot := h.SlotIn(st.info[index].service, bucket);
      Recounted(h, st, m, n, index, r.info[index]);
      Relisted(h, st.info, st.newTable, index, r.info[index], bucket);
      TallyInsert(h, st.info, st.newTable, slot, index, r.info[index]);
    }
  }

  lemma {:induction false} EnteredAllNew(h: Hashing, usable: bool, st: State, es: seq<Entry>, n: nat)
    requires n <= |es| && Entered(h, st, 0, 0) && st.triedTable == map[]
    ensures var r := LoadNew(h, usable, st, es, n);
      Entered(h, r, n, n) && r.triedTable == map[] && r.nNew == st.nNew && r.nTried == st.nTried
  {
    hide Entered, AddNew;
    if n > 0 {
      EnteredAllNew(h, usable, st, es, n - 1);
      EnteredNew(h, usable, LoadNew(h, usable, st, es, n - 1), n - 1, es[n - 1]);
      NewCounters(h, usable, LoadNew(h, usable, st, es, n - 1), n - 1, es[n - 1]);
    }
  }

  lemma NewCounters(h: Hashing, usable: bool, st: State, n: int, e: Entry)
    ensures var r := AddNew(h, usable, st, n, e); r.nNew == st.nNew && r.nTried == st.nTried
  {
  }

  lemma {:induction false} EnteredAllTried(h: Hashing, st: State, m: nat, es: seq<Entry>, n: nat)
    requires n <= |es| && Entered(h, st, m, st.nextId) && m <= st.nextId
    ensures var r := LoadTried(h, st, es, n);
      && Entered(h, r, m, r.nextId) && m <= r.nextId && r.nNew == st.nNew
      && r.nextId - r.nTried == st.nextId - st.nTried + n
  {
    hide Entered, AddTried;
    if n > 0 {
      EnteredAllTried(h, st, m, es, n - 1);
      EnteredTried(h, LoadTried(h, st, es, n - 1), m, es[n - 1]);
    }
  }

  lemma {:induction false} EnteredBucket(h: Hashing, usable: bool, st: State, m: nat, n: int, bucket: nat,
          ix: seq<int>, k: nat)
    requires k <= |ix| && Entered(h, st, m, n) && st.nNew == m
    ensures var r := LoadBucket(h, usable, st, bucket, ix, k);
      Entered(h, r, m, n) && r == st.(info := r.info, newTable := r.newTable)
  {
    hide Entered, AddRef;
    if k > 0 {
      EnteredBucket(h, usable, st, m, n, bucket, ix, k - 1);
      EnteredRef(h, usable, LoadBucket(h, usable, st, bucket, ix, k - 1), m, n, bucket, ix[k - 1]);
    }
  }

  lemma {:induction false} EnteredBuckets(h: Hashing, usable: bool, st: State, m: nat, n: int, lists: seq<seq<int>>,
          k: nat)
    requires k <= |lists| && Entered(h, st, m, n) && st.nNew == m
    ensures var r := LoadBuckets(h, usable, st, lists, k);
      Entered(h, r, m, n) && r == st.(info := r.info, newTable := r.newTable)
  {
    hide Entered, LoadBucket;
    if k > 0 {
      EnteredBuckets(h, usable, st, m, n, lists, k - 1);
      var p := LoadBuckets(h, usable, st, lists, k - 1);
      EnteredBucket(h, usable, p, m, n, k - 1, lists[k - 1], |lists[k - 1]|);
    }
  }

  /** The lists have the lengths that the header says, as the reader makes sure. */
  predicate Complete(d: Disk) { |d.new_| == Max0(d.nNew) && |d.tried| == Max0(d.nTried) }

  lemma ParseComplete(s: Tokens, dims: Dims)
    requires Parse(s, dims).Some?
    ensures Complete(Parse(s, dims).value.0)
  {
    hide Records, TakeLists, Toggle30;
  }

  /** Whatever the file says, all but the addresses and the dates is in order. */
  lemma BeforeEntered(h: Hashing, dims: Dims, d: Disk)
    requires Complete(d) && d.nNew >= 0 && d.nTried >= 0
    ensures var st := Before(h, dims, d);
      Entered(h, st, d.nNew, st.nextId) && st.nNew == d.nNew && st.nextId - st.nTried == d.nNew <= st.nextId
  {
    hide LoadNew, LoadTried, LoadBuckets, Entered;
    var u, st0 := Usable(d, dims), FRESH.(nNew := d.nNew, nTried := d.nTried);
    NothingEntered(h, st0);
    EnteredAllNew(h, u, st0, d.new_, |d.new_|);
    var st1 := LoadNew(h, u, st0, d.new_, |d.new_|);
    Renumbered(h, st1, d.nNew);
    EnteredAllTried(h, st1.(nextId := d.nNew), d.nNew, d.tried, |d.tried|);
    var st2 := LoadTried(h, st1.(nextId := d.nNew), d.tried, |d.tried|);
    EnteredBuckets(h, u, st2, d.nNew, st2.nextId, d.lists, |d.lists|);
  }

  lemma NothingEntered(h: Hashing, st: State)
    requires st.info == map[] && st.addr == map[] && st.newTable == map[] && st.triedTable == map[]
    ensures Entered(h, st, 0, 0)
  {
  }

  lemma Renumbered(h: Hashing, st: State, n: nat)
    requires Entered(h, st, n, n)
    ensures Entered(h, st.(nextId := n), n, n)
  {
  }

  // ---- pruning ----

  ghost predicate IsDropped(info: map<int, Info>, k: nat, id: int) {
    id in info && 0 <= id < k && Unplaced(info[id])
  }

  ghost function Dropped(info: map<int, Info>, k: nat): set<int> {
    set id | id in info && IsDropped(info, k, id)
  }

  /** p is st without the entries dropped and the addresses they had. */
  ghost predicate PrunedTo(st: State, k: nat, p: State) {
    && p == st.(info := p.info, addr := p.addr, random := p.random, nNew := p.nNew)
    && (forall id :: id in p.info <==> id in st.info && !IsDropped(st.info, k, id))
    && (forall id :: id in p.info ==> p.info[id] == st.info[id].(randomPos := p.info[id].randomPos))
    && (forall a :: a in p.addr <==>
          a in st.addr && forall id :: IsDropped(st.info, k, id) ==> st.info[id].service.ip != a)
    && (forall a :: a in p.addr ==> p.addr[a] == st.addr[a])
    && p.nNew == st.nNew - |Dropped(st.info, k)|
  }

  lemma {:induction false} PruneShape(st: State, k: nat)
    requires RandomIndex(st.info, st.random)
    ensures PrunedTo(st, k, Prune(st, k))
  {
    hide RandomIndex, Delete;
    if k == 0 {
      assert Dropped(st.info, 0) == {};
    } else {
      PruneShape(st, k - 1);
      PruneNext(st, k - 1, Prune(st, k - 1));
    }
  }

  lemma PruneNext(st: State, k: nat, p: State)
    requires PrunedTo(st, k, p) && RandomIndex(p.info, p.random)
    ensures PrunedTo(st, k + 1, PruneOne(p, k))
  {
    hide RandomIndex, Delete, Dropped;
    DroppedNext(st.info, k);
    if k in p.info && Unplaced(p.info[k]) {
      DeleteShape(p, k);
    }
  }

  lemma DroppedNext(info: map<int, Info>, k: nat)
    ensures k !in Dropped(info, k)
    ensures Dropped(info, k + 1) == if k in info && Unplaced(info[k]) then Dropped(info, k) + {k} else Dropped(info, k)
    ensures forall id ::
      IsDropped(info, k + 1, id) <==> IsDropped(info, k, id) || (id == k && k in info && Unplaced(info[k]))
  {
  }

  lemma DeleteShape(s: State, id: int)
    requires RandomIndex(s.info, s.random) && id in s.info
    ensures var t := Delete(s, id);
      && t == s.(info := t.info, addr := s.addr - {s.info[id].service.ip}, random := t.random, nNew := s.nNew - 1)
      && (forall k :: k in t.info <==> k in s.info && k != id)
      && (forall k :: k in t.info ==> t.info[k] == s.info[k].(randomPos := t.info[k].randomPos))
  {
    PositionOf(s.info, s.random, id);
  }

  // ---- the exact condition ----

  /** Dates are right in every entry that keeps a place. */
  ghost predicate DatesRight(info: map<int, Info>) {
    forall id :: id in info && !Unplaced(info[id]) ==>
      info[id].lastSuccess >= 0 && (info[id].inTried ==> info[id].lastSuccess != 0)
  }

  /** No entry that keeps a place has its address in common with another. */
  ghost predicate AddressesApart(info: map<int, Info>) {
    forall i, j :: i in info && j in info && i != j && info[i].service.ip == info[j].service.ip ==>
      Unplaced(info[i]) && Unplaced(info[j])
  }

  ghost predicate Sound(h: Hashing, dims: Dims, d: Disk) {
    && d.nNew >= 0 && d.nTried >= 0
    && var info := Before(h, dims, d).info; DatesRight(info) && AddressesApart(info)
  }

  lemma PrunedDated(st: State, k: nat, p: State, m: int, n: int)
    requires PrunedTo(st, k, p) && Numbered(st.info, m, n) && k == Max0(m)
    ensures Dated(p.info) <==> DatesRight(st.info)
  {
    hide Dropped;
    if Dated(p.info) {
      forall id | id in st.info && !Unplaced(st.info[id])
        ensures st.info[id].lastSuccess >= 0 && (st.info[id].inTried ==> st.info[id].lastSuccess != 0)
      {
        assert id in p.info;
      }
    }
  }

  lemma PrunedAddresses(st: State, k: nat, p: State, m: int, n: int)
    requires PrunedTo(st, k, p) && Numbered(st.info, m, n) && Covers(st.info, st.addr) && k == Max0(m)
    ensures AddrIndex(p.info, p.addr) <==> AddressesApart(st.info)
  {
    hide PrunedTo, Numbered, Covers, AddressesApart, AddrIndex;
    if AddrIndex(p.info, p.addr) { IndexedApart(st, k, p, m, n); }
    if AddressesApart(st.info) { ApartIndexed(st, k, p, m, n); }
  }

  lemma IndexedApart(st: State, k: nat, p: State, m: int, n: int)
    requires PrunedTo(st, k, p) && Numbered(st.info, m, n) && k == Max0(m) && AddrIndex(p.info, p.addr)
    ensures AddressesApart(st.info)
  {
    hide Dropped;
    forall i, j | i in st.info && j in st.info && i != j && st.info[i].service.ip == st.info[j].service.ip
      ensures Unplaced(st.info[i])
    {
      assert Unplaced(st.info[i]) || i in p.info;
      assert IsDropped(st.info, k, j) || j in p.info;
    }
  }

  lemma ApartIndexed(st: State, k: nat, p: State, m: int, n: int)
    requires PrunedTo(st, k, p) && Numbered(st.info, m, n) && Covers(st.info, st.addr) && k == Max0(m)
    requires AddressesApart(st.info)
    ensures AddrIndex(p.info, p.addr)
  {
    hide Dropped;
    forall id | id in p.info ensures p.info[id].service.ip in p.addr && p.addr[p.info[id].service.ip] == id {
      var a := st.info[id].service.ip;
      var other := st.addr[a];
      assert id in st.info && other in st.info;
      assert other != id ==> Unplaced(st.info[id]);
    }
    forall a | a in p.addr ensures var id := p.addr[a]; id in p.info && p.info[id].service.ip == a {
      var id := st.addr[a];
      assert id in st.info && st.info[id].service.ip == a;
    }
  }

  lemma PrunedTables(h: Hashing, st: State, k: nat, p: State, m: nat)
    requires PrunedTo(st, k, p) && Entered(h, st, m, st.nextId) && k == m
    ensures NewPlaced(h, p.info, p.newTable) && TriedPlaced(h, p.info, p.triedTable)
    ensures Counted(p.info, p.newTable, {})
  {
    hide Refs, Dropped, Covers;
    forall s | s in p.newTable ensures var id := p.newTable[s]; id in p.info {
      var id := st.newTable[s];
      assert id in st.info;
      Holding(st.newTable, s);
    }
    forall id | id in p.info && !p.info[id].inTried ensures p.info[id].refCount >= 1 {
      assert !IsDropped(st.info, k, id);
    }
  }

  lemma Holding(table: map<Slot, int>, s: Slot)
    requires s in table
    ensures |Refs(table, table[s])| > 0
  {
    assert s in Refs(table, table[s]);
  }

  lemma PrunedCounters(st: State, k: nat, p: State, m: nat)
    requires PrunedTo(st, k, p) && Numbered(st.info, m, st.nextId) && k == m <= st.nextId
    requires st.nNew == m && st.nextId - st.nTried == m
    ensures Counters(p, 0) && IdsBelow(p.info, p.nextId)
  {
    SplitCount(st.info, m, st.nextId);
    var dropped := Dropped(st.info, k);
    assert NewIds(p.info) == NewIds(st.info) - dropped && dropped <= NewIds(st.info);
    assert TriedIds(p.info) == TriedIds(st.info);
  }

  /** A file with a negative count gives an inconsistent manager. */
  lemma NegativeCount(h: Hashing, dims: Dims, d: Disk)
    requires Complete(d) && (d.nNew < 0 || d.nTried < 0)
    ensures !Consistent(h, Apply(h, dims, d))
  {
    hide LoadNew, LoadTried, LoadBuckets, RandomIndex, AddrIndex, NewPlaced, TriedPlaced, Counted, Prune, Dropped;
    var u, st0 := Usable(d, dims), FRESH.(nNew := d.nNew, nTried := d.nTried);
    var st1 := LoadNew(h, u, st0, d.new_, |d.new_|).(nextId := d.nNew);
    var st2 := LoadTried(h, st1, d.tried, |d.tried|);
    var st := Before(h, dims, d);
    BeforeIndexed(h, dims, d);
    PruneShape(st, |d.new_|);
    LoadBucketsKeys(h, u, st2, d.lists, |d.lists|);
    BucketsFrame(h, u, st2, d.lists, |d.lists|);
    LoadTriedHas(h, st1, d.tried, |d.tried|);
    LoadNewFrame(h, u, st0, d.new_, |d.new_|);
    var p := Apply(h, dims, d);
    if d.nTried < 0 {
      NothingTried(h, st1);
      assert p.nTried == d.nTried;
    } else if d.tried == [] {
      NothingTried(h, st1);
      assert p.nextId == d.nNew;
    } else {
      assert d.nNew in st2.info.Keys;
      assert d.nNew in p.info;
    }
  }

  lemma {:induction false} LoadNewFrame(h: Hashing, usable: bool, st: State, es: seq<Entry>, n: nat)
    requires n <= |es|
    ensures var r := LoadNew(h, usable, st, es, n); r.nTried == st.nTried && r.triedTable == st.triedTable
  {
    if n > 0 { LoadNewFrame(h, usable, st, es, n - 1); }
  }

  lemma {:induction false} BucketFrame(h: Hashing, usable: bool, st: State, bucket: nat, ix: seq<int>, n: nat)
    requires n <= |ix|
    ensures var r := LoadBucket(h, usable, st, bucket, ix, n);
      r.nTried == st.nTried && r.nextId == st.nextId
  {
    if n > 0 { BucketFrame(h, usable, st, bucket, ix, n - 1); }
  }

  lemma {:induction false} BucketsFrame(h: Hashing, usable: bool, st: State, lists: seq<seq<int>>, n: nat)
    requires n <= |lists|
    ensures var r := LoadBuckets(h, usable, st, lists, n); r.nTried == st.nTried && r.nextId == st.nextId
  {
    hide LoadBucket;
    if n > 0 {
      BucketsFrame(h, usable, st, lists, n - 1);
      BucketFrame(h, usable, LoadBuckets(h, usable, st, lists, n - 1), n - 1, lists[n - 1], |lists[n - 1]|);
    }
  }

  /** What is read of an accepted file is consistent exactly when no count is
      negative, the dates are right, and no address is met twice. */
  lemma ApplyConsistent(h: Hashing, dims: Dims, d: Disk)
    requires Complete(d)
    ensures Consistent(h, Apply(h, dims, d)) <==> Sound(h, dims, d)
  {
    hide Before, RandomIndex, AddrIndex, NewPlaced, TriedPlaced, Counted, Dated, Counters, IdsBelow, Prune, PrunedTo,
         Numbered, Covers, Tallied, DatesRight, AddressesApart;
    if d.nNew < 0 || d.nTried < 0 {
      NegativeCount(h, dims, d);
    } else {
      var st := Before(h, dims, d);
      BeforeEntered(h, dims, d);
      BeforeIndexed(h, dims, d);
      PruneShape(st, |d.new_|);
      var p := Prune(st, |d.new_|);
      PrunedDated(st, |d.new_|, p, d.nNew, st.nextId);
      PrunedAddresses(st, |d.new_|, p, d.nNew, st.nextId);
      PrunedTables(h, st, |d.new_|, p, d.nNew);
      PrunedCounters(st, |d.new_|, p, d.nNew);
    }
  }

  /** A file that is accepted and gives an inconsistent manager: a header with a
      negative count and nothing behind it. */
  lemma NegativeFile(h: Hashing, dims: Dims, key: nat)
    ensures var s := [Octet(1), Octet(32), Key(key), Num(-1), Num(0), Num(BIT30)];
      && Parse(s, dims).Some?
      && !Consistent(h, Apply(h, dims, Parse(s, dims).value.0))
  {
    hide Apply, Consistent;
    var s := [Octet(1), Octet(32), Key(key), Num(-1), Num(0), Num(BIT30)];
    assert HeaderTaken(s, dims) && HeaderBuckets(s) == 0;
    assert s[6..] == [];
    ParseComplete(s, dims);
    NegativeCount(h, dims, Parse(s, dims).value.0);
  }
}
