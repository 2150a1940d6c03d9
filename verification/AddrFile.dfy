/** Writing the address manager to a file and reading it back, on the objects
    themselves (src/addrman.h, src/net.cpp). */
module AddrFile {
  import opened Common
  import opened AddrTables
  import opened AddrMan
  import opened AddrDisk
  import opened AddrAccept

  class File {
    var tokens: Tokens

    constructor (tokens: Tokens)
      ensures this.tokens == tokens
    {
      this.tokens := tokens;
    }

    method Write(t: Token)
      modifies this
      ensures tokens == old(tokens) + [t]
    {
      tokens := tokens + [t];
    }

    /** Reading past the end fails. */
    method Read() returns (t: Option<Token>)
      modifies this
      ensures old(tokens) == [] ==> t == None && tokens == []
      ensures old(tokens) != [] ==> t == Some(old(tokens)[0]) && tokens == old(tokens)[1..]
    {
      if tokens == [] { return None; }
      t := Some(tokens[0]);
      tokens := tokens[1..];
    }
  }

  ghost function DimsOf(m: Manager): Dims { Dims(m.vvNew.Length0, m.vvTried.Length0, m.vvNew.Length1) }

  /** The slots of a manager lie within its arrays. */
  lemma ManagerBounded(m: Manager)
    requires m.Shaped()
    ensures Bounded(m.Abs(), m.vvNew.Length0, m.vvTried.Length0, m.vvNew.Length1)
  {
  }

  // ---- writing ----

  lemma RecordsSnoc(es: seq<Entry>, e: Entry)
    ensures RecordTokens(es + [e]) == RecordTokens(es) + [Record(e)]
  {
  }

  lemma EntriesSnoc(info: map<int, Info>, ids: seq<int>, id: int)
    requires id in info && forall j :: 0 <= j < |ids| ==> ids[j] in info
    ensures forall j :: 0 <= j < |ids| + 1 ==> (ids + [id])[j] in info
    ensures Entries(info, ids + [id]) == Entries(info, ids) + [Stored(info[id])]
  {
  }

  lemma IdsStart(info: map<int, Info>, tried: bool)
    ensures Ids(info, 0, tried) == [] && RecordTokens(Entries(info, [])) == []
  {
  }

  /** Writes the entries of one kind in the order of their ids, and numbers the ids
      met on the way. The counter is right, so the writer's assertion holds. */
  method WriteEntries(f: File, m: Manager, tried: bool, count: int) returns (ranks: map<int, nat>)
    requires m.nIdCount >= 0 && count == |Ids(m.mapInfo, m.nIdCount, tried)|
    modifies f
    ensures f.tokens == old(f.tokens) + RecordTokens(Entries(m.mapInfo, Ids(m.mapInfo, m.nIdCount, tried)))
    ensures forall id :: id in m.mapInfo && 0 <= id < m.nIdCount ==>
              id in ranks && ranks[id] == |Ids(m.mapInfo, id, tried)|
  {
    hide Ids, RecordTokens, Entries;
    ranks := map[];
    var written := 0;
    var id := 0;
    IdsStart(m.mapInfo, tried);
    while id < m.nIdCount
      invariant 0 <= id <= m.nIdCount && written == |Ids(m.mapInfo, id, tried)|
      invariant f.tokens == old(f.tokens) + RecordTokens(Entries(m.mapInfo, Ids(m.mapInfo, id, tried)))
      invariant forall k :: k in m.mapInfo && 0 <= k < id ==> k in ranks && ranks[k] == |Ids(m.mapInfo, k, tried)|
    {
      IdsNext(m.mapInfo, id, tried);
      if id in m.mapInfo {
        ranks := ranks[id := written];
        if Chosen(m.mapInfo[id], tried) {
          IdsPrefix(m.mapInfo, id + 1, m.nIdCount, tried);
          assert written != count;
          EntriesSnoc(m.mapInfo, Ids(m.mapInfo, id, tried), id);
          RecordsSnoc(Entries(m.mapInfo, Ids(m.mapInfo, id, tried)), Stored(m.mapInfo[id]));
          f.Write(Record(Stored(m.mapInfo[id])));
          written := written + 1;
        }
      }
      id := id + 1;
    }
  }

  lemma NumsSnoc(ix: seq<int>, x: int)
    ensures NumTokens(ix + [x]) == NumTokens(ix) + [Num(x)]
  {
  }

  /** The numbers under which the entries of the "new" table were written. */
  ghost predicate RanksRight(s: State, ranks: map<int, nat>) {
    forall t :: t in s.newTable ==> s.newTable[t] in ranks && ranks[s.newTable[t]] == RankOf(s, s.newTable[t])
  }

  lemma IndexesNext(m: Manager, bucket: nat, i: nat)
    requires m.nIdCount >= 0 && bucket < m.vvNew.Length0 && i < m.vvNew.Length1
    ensures var s, id := m.Abs(), m.vvNew[bucket, i];
      && Indexes(s, bucket, i + 1) ==
           (if id != -1 then Indexes(s, bucket, i) + [RankOf(s, id)] else Indexes(s, bucket, i))
      && (id != -1 ==> (bucket, i) in s.newTable && s.newTable[(bucket, i)] == id)
  {
    hide RankOf;
  }

  lemma IndexesStart(m: Manager, bucket: nat)
    requires m.nIdCount >= 0
    ensures Indexes(m.Abs(), bucket, 0) == [] && NumTokens([]) == []
  {
  }

  method CountBucket(m: Manager, bucket: nat) returns (count: nat)
    requires m.nIdCount >= 0 && bucket < m.vvNew.Length0
    ensures count == |Indexes(m.Abs(), bucket, m.vvNew.Length1)|
  {
    hide Indexes, TableOf;
    count := 0;
    IndexesStart(m, bucket);
    for i := 0 to m.vvNew.Length1
      invariant count == |Indexes(m.Abs(), bucket, i)|
    {
      IndexesNext(m, bucket, i);
      if m.vvNew[bucket, i] != -1 { count := count + 1; }
    }
  }

  /** The occupied places of a bucket, counted first and then written. */
  method WriteBucket(f: File, m: Manager, ranks: map<int, nat>, bucket: nat)
    requires m.nIdCount >= 0 && bucket < m.vvNew.Length0 && RanksRight(m.Abs(), ranks)
    modifies f
    ensures var ix := Indexes(m.Abs(), bucket, m.vvNew.Length1);
            f.tokens == old(f.tokens) + ([Num(|ix|)] + NumTokens(ix))
  {
    hide RankOf, NumTokens, Indexes, TableOf;
    var count := CountBucket(m, bucket);
    f.Write(Num(count));
    IndexesStart(m, bucket);
    for i := 0 to m.vvNew.Length1
      invariant f.tokens == old(f.tokens) + ([Num(count)] + NumTokens(Indexes(m.Abs(), bucket, i)))
    {
      IndexesNext(m, bucket, i);
      if m.vvNew[bucket, i] != -1 {
        NumsSnoc(Indexes(m.Abs(), bucket, i), RankOf(m.Abs(), m.vvNew[bucket, i]));
        f.Write(Num(ranks[m.vvNew[bucket, i]]));
      }
    }
  }

  lemma {:induction false} ListsSnoc(lists: seq<seq<int>>, l: seq<int>)
    ensures ListTokens(lists + [l]) == ListTokens(lists) + ([Num(|l|)] + NumTokens(l))
  {
    if lists == [] {
      assert lists + [l] == [l];
    } else {
      ListsSnoc(lists[1..], l);
      assert (lists + [l])[1..] == lists[1..] + [l];
    }
  }

  method WriteBuckets(f: File, m: Manager, ranks: map<int, nat>)
    requires m.nIdCount >= 0 && RanksRight(m.Abs(), ranks)
    modifies f
    ensures f.tokens == old(f.tokens) + ListTokens(BucketLists(m.Abs(), m.vvNew.Length0, m.vvNew.Length1))
  {
    hide Indexes, RanksRight, ListTokens, NumTokens, TableOf;
    ghost var lists := BucketLists(m.Abs(), m.vvNew.Length0, m.vvNew.Length1);
    var b := 0;
    NoLists();
    while b < m.vvNew.Length0
      invariant 0 <= b <= m.vvNew.Length0 && f.tokens == old(f.tokens) + ListTokens(lists[..b])
    {
      WriteBucket(f, m, ranks, b);
      ListsSnoc(lists[..b], lists[b]);
      assert lists[..b + 1] == lists[..b] + [lists[b]];
      b := b + 1;
    }
    assert lists[..b] == lists;
  }

  lemma NoLists()
    ensures ListTokens([]) == []
  {
  }

  /** Writes the image of the manager, from which its tables can be rebuilt. */
  method Serialize(f: File, m: Manager)
    requires m.Valid()
    modifies f
    ensures Renames(m.Abs()) && f.tokens == old(f.tokens) + Written(Image(m.Abs(), m.nKey, DimsOf(m)))
  {
    hide *;
    ghost var s := m.Abs();
    SerializeStart(m);
    WriteHeader(f, m);
    var ranks := WriteEntries(f, m, false, m.nNew);
    var _ := WriteEntries(f, m, true, m.nTried);
    RanksOf(m, ranks);
    WriteBuckets(f, m, ranks);
    ImageTokens(s, m.nKey, DimsOf(m));
    SameParts(m);
  }

  method WriteHeader(f: File, m: Manager)
    requires Renames(m.Abs())
    modifies f
    ensures f.tokens == old(f.tokens) + Header(Image(m.Abs(), m.nKey, DimsOf(m)))
  {
    hide Renames, Toggle30, TableOf;
    f.Write(Octet(1));
    f.Write(Octet(32));
    f.Write(Key(m.nKey));
    f.Write(Num(m.nNew));
    f.Write(Num(m.nTried));
    f.Write(Num(Toggle30(m.vvNew.Length0)));
    ImageTokens(m.Abs(), m.nKey, DimsOf(m));
  }

  /** What the writer relies on. */
  lemma SerializeStart(m: Manager)
    requires m.Valid()
    ensures Renames(m.Abs()) && m.nIdCount >= 0
    ensures m.nNew == |Ids(m.mapInfo, m.nIdCount, false)| && m.nTried == |Ids(m.mapInfo, m.nIdCount, true)|
  {
    hide Ids, AddrDisk.Place, Consistent, TableOf;
    RenamesById(m.hashing, m.Abs());
  }

  lemma SameParts(m: Manager)
    ensures var s, d := m.Abs(), DimsOf(m);
      && s.info == m.mapInfo && s.nextId == m.nIdCount && s.nNew == m.nNew && s.nTried == m.nTried
      && d.newBuckets == m.vvNew.Length0 && d.size == m.vvNew.Length1
  {
  }

  lemma RanksOf(m: Manager, ranks: map<int, nat>)
    requires m.Valid() && m.nIdCount >= 0
    requires forall id :: id in m.mapInfo && 0 <= id < m.nIdCount ==>
               id in ranks && ranks[id] == |Ids(m.mapInfo, id, false)|
    ensures RanksRight(m.Abs(), ranks)
  {
    hide Ids;
    var s := m.Abs();
    assert NewPlaced(m.hashing, s.info, s.newTable) && IdsBelow(s.info, s.nextId);
    forall t | t in s.newTable ensures s.newTable[t] in ranks && ranks[s.newTable[t]] == RankOf(s, s.newTable[t]) {
      var id := s.newTable[t];
      assert id in s.info;
    }
  }

  lemma ImageTokens(s: State, key: nat, dims: Dims)
    requires Renames(s)
    ensures s.nextId >= 0
    ensures var d := Image(s, key, dims);
      && Header(d) == [Octet(1), Octet(32), Key(key), Num(s.nNew), Num(s.nTried), Num(Toggle30(dims.newBuckets))]
      && Written(d) == Header(d) + (RecordTokens(Entries(s.info, Ids(s.info, s.nextId, false)))
           + (RecordTokens(Entries(s.info, Ids(s.info, s.nextId, true)))
              + ListTokens(BucketLists(s, dims.newBuckets, dims.size))))
  {
    hide Ids, AddrDisk.Place, Toggle30, RecordTokens, ListTokens, BucketLists, Entries;
  }

  // ---- reading ----

  lemma {:induction false} NewSame(h: Hashing, usable: bool, st: State, a: seq<Entry>, b: seq<Entry>, n: nat)
    requires n <= |a| && n <= |b| && forall i :: 0 <= i < n ==> a[i] == b[i]
    ensures LoadNew(h, usable, st, a, n) == LoadNew(h, usable, st, b, n)
  {
    hide AddNew;
    if n > 0 { NewSame(h, usable, st, a, b, n - 1); }
  }

  lemma {:induction false} TriedSame(h: Hashing, st: State, a: seq<Entry>, b: seq<Entry>, n: nat)
    requires n <= |a| && n <= |b| && forall i :: 0 <= i < n ==> a[i] == b[i]
    ensures LoadTried(h, st, a, n) == LoadTried(h, st, b, n)
  {
    hide AddTried;
    if n > 0 { TriedSame(h, st, a, b, n - 1); }
  }

  lemma {:induction false} ListsSame(h: Hashing, usable: bool, st: State, a: seq<seq<int>>, b: seq<seq<int>>, n: nat)
    requires n <= |a| && n <= |b| && forall i :: 0 <= i < n ==> a[i] == b[i]
    ensures LoadBuckets(h, usable, st, a, n) == LoadBuckets(h, usable, st, b, n)
  {
    hide LoadBucket;
    if n > 0 { ListsSame(h, usable, st, a, b, n - 1); }
  }

  lemma NothingRead(h: Hashing, usable: bool, st: State)
    ensures LoadNew(h, usable, st, [], 0) == st && LoadTried(h, st, [], 0) == st
            && LoadBuckets(h, usable, st, [], 0) == st
    ensures forall b: nat :: LoadBucket(h, usable, st, b, [], 0) == st
  {
  }

  lemma NewSnoc(h: Hashing, usable: bool, st: State, es: seq<Entry>, e: Entry)
    ensures LoadNew(h, usable, st, es + [e], |es| + 1) == AddNew(h, usable, LoadNew(h, usable, st, es, |es|), |es|, e)
  {
    hide AddNew;
    NewSame(h, usable, st, es + [e], es, |es|);
  }

  lemma TriedSnoc(h: Hashing, st: State, es: seq<Entry>, e: Entry)
    ensures LoadTried(h, st, es + [e], |es| + 1) == AddTried(h, LoadTried(h, st, es, |es|), e)
  {
    hide AddTried;
    TriedSame(h, st, es + [e], es, |es|);
  }

  lemma BucketsSnoc(h: Hashing, usable: bool, st: State, lists: seq<seq<int>>, l: seq<int>)
    ensures LoadBuckets(h, usable, st, lists + [l], |lists| + 1) ==
      LoadBucket(h, usable, LoadBuckets(h, usable, st, lists, |lists|), |lists|, l, |l|)
  {
    hide LoadBucket;
    ListsSame(h, usable, st, lists + [l], lists, |lists|);
  }

  /** What has been read of a list, and what may follow. */
  lemma RecordsStep(all: Tokens, n: nat, es: seq<Entry>, s: Tokens)
    requires |es| < n && |es| <= |all| && s == all[|es|..] && Records(all, n) == es + Records(s, n - |es|)
    ensures s == [] || !s[0].Record? ==> Records(all, n) == es
    ensures s != [] && s[0].Record? ==>
      && |es| < |all| && s[1..] == all[|es| + 1..]
      && Records(all, n) == (es + [s[0].e]) + Records(s[1..], n - |es| - 1)
  {
  }

  lemma NumsStep(all: Tokens, n: nat, ix: seq<int>, s: Tokens)
    requires |ix| < n && |ix| <= |all| && s == all[|ix|..] && Nums(all, n) == ix + Nums(s, n - |ix|)
    ensures s == [] || !s[0].Num? ==> Nums(all, n) == ix
    ensures s != [] && s[0].Num? ==>
      && |ix| < |all| && s[1..] == all[|ix| + 1..]
      && Nums(all, n) == (ix + [s[0].n]) + Nums(s[1..], n - |ix| - 1)
  {
  }

  /** The default entry made before reading is overwritten. */
  lemma Overwritten(h: Hashing, usable: bool, st: State, n: int, e: Entry)
    ensures AddNew(h, usable, st.(info := st.info[n := NO_INFO]), n, e) == AddNew(h, usable, st, n, e)
  {
    var r := AddNew(h, usable, st, n, e);
    assert st.info[n := NO_INFO][n := r.info[n]] == r.info;
  }

  /** Slots lie within the arrays. */
  lemma SlotsWithin(m: Manager, service: Service, source: NetAddr, bucket: nat)
    requires m.Shaped()
    ensures var t := m.hashing.NewSlot(service, source); t.0 < m.vvNew.Length0 && t.1 < m.vvNew.Length1
    ensures var t := m.hashing.TriedSlot(service); t.0 < m.vvTried.Length0 && t.1 < m.vvTried.Length1
    ensures var t := m.hashing.SlotIn(service, bucket); t.0 == bucket && t.1 < m.vvNew.Length1
  {
  }

  /** The entry n of the "new" table. */
  method LoadEntry(m: Manager, usable: bool, n: nat, e: Entry)
    requires m.Shaped()
    modifies m, m.vvNew
    ensures m.Abs() == AddNew(m.hashing, usable, old(m.Abs()), n, e)
  {
    hide TableOf, InRange, Hashing.NewSlot;
    SlotsWithin(m, e.service, e.source, 0);
    var taken := TakeSlot(m, usable, n, m.hashing.NewSlot(e.service, e.source));
    m.mapAddr := m.mapAddr[e.service.ip := n];
    m.mapInfo := m.mapInfo[n := Loaded(e).(randomPos := |m.vRandom|, refCount := if taken then 1 else 0)];
    m.vRandom := m.vRandom + [n];
  }

  /** The slot of the entry's own source, if the file's table is no use. */
  method TakeSlot(m: Manager, usable: bool, n: nat, slot: Slot) returns (taken: bool)
    requires slot.0 < m.vvNew.Length0 && slot.1 < m.vvNew.Length1
    modifies m.vvNew
    ensures taken <==> !usable && slot !in old(TableOf(m.vvNew))
    ensures TableOf(m.vvNew) == if taken then old(TableOf(m.vvNew))[slot := n] else old(TableOf(m.vvNew))
  {
    hide TableOf;
    taken := !usable && m.vvNew[slot.0, slot.1] == -1;
    if taken { SetSlot(m.vvNew, slot, n); }
  }

  method ReadNew(f: File, m: Manager, usable: bool, n: nat) returns (ok: bool, ghost es: seq<Entry>)
    requires m.Shaped()
    modifies f, m, m.vvNew
    ensures es == Records(old(f.tokens), n) && (ok <==> |es| == n)
    ensures ok ==> f.tokens == old(f.tokens)[n..]
    ensures m.Abs() == var st := LoadNew(m.hashing, usable, old(m.Abs()), es, |es|);
                       if ok then st else st.(info := st.info[|es| := NO_INFO])
  {
    hide AddNew, LoadNew, Records, TableOf, InRange;
    ghost var all, start := f.tokens, m.Abs();
    es := [];
    var i := 0;
    NothingRead(m.hashing, usable, start);
    while i < n
      invariant 0 <= i <= n && |es| == i <= |all| && f.tokens == all[i..]
      invariant Records(all, n) == es + Records(f.tokens, n - i)
      invariant m.Abs() == LoadNew(m.hashing, usable, start, es, i)
    {
      m.mapInfo := m.mapInfo[i := NO_INFO];
      RecordsStep(all, n, es, f.tokens);
      var t := f.Read();
      if t.None? || !t.value.Record? { return false, es; }
      Overwritten(m.hashing, usable, LoadNew(m.hashing, usable, start, es, i), i, t.value.e);
      LoadEntry(m, usable, i, t.value.e);
      NewSnoc(m.hashing, usable, start, es, t.value.e);
      es := es + [t.value.e];
      i := i + 1;
    }
    NoneLeft(f.tokens, es, []);
    ok := true;
  }

  lemma NoneLeft(s: Tokens, es: seq<Entry>, ix: seq<int>)
    ensures es + Records(s, 0) == es && ix + Nums(s, 0) == ix
  {
  }

  /** One entry of the "tried" table, or one more lost. */
  method LoadTriedEntry(m: Manager, e: Entry) returns (lost: nat)
    requires m.Shaped()
    modifies m, m.vvTried
    ensures var r := AddTried(m.hashing, old(m.Abs()), e);
            m.Abs() == r.(nTried := old(m.nTried)) && lost == old(m.nTried) - r.nTried
  {
    hide TableOf, InRange, Hashing.TriedSlot;
    var slot := m.hashing.TriedSlot(e.service);
    SlotsWithin(m, e.service, 0, 0);
    if m.vvTried[slot.0, slot.1] == -1 {
      EnterTried(m, e, slot);
      lost := 0;
    } else {
      lost := 1;
    }
  }

  method EnterTried(m: Manager, e: Entry, slot: Slot)
    requires m.vvTried != m.vvNew && slot.0 < m.vvTried.Length0 && slot.1 < m.vvTried.Length1
    requires slot == m.hashing.TriedSlot(e.service) && slot !in TableOf(m.vvTried)
    modifies m, m.vvTried
    ensures m.Abs() == AddTried(m.hashing, old(m.Abs()), e)
  {
    hide TableOf, Hashing.TriedSlot;
    NotIn(TableOf(m.vvTried), slot);
    SetSlot(m.vvTried, slot, m.nIdCount);
    m.mapInfo := m.mapInfo[m.nIdCount := Loaded(e).(randomPos := |m.vRandom|, inTried := true)];
    m.vRandom := m.vRandom + [m.nIdCount];
    m.mapAddr := m.mapAddr[e.service.ip := m.nIdCount];
    m.nIdCount := m.nIdCount + 1;
  }

  lemma NotIn(table: map<Slot, int>, slot: Slot)
    requires slot !in table
    ensures table - {slot} == table
  {
  }

  lemma LossesAdd(h: Hashing, st: State, nTried: int, e: Entry)
    ensures var r, r' := AddTried(h, st, e), AddTried(h, st.(nTried := nTried), e);
      r'.(nTried := nTried) == r.(nTried := nTried) && nTried - r'.nTried == st.nTried - r.nTried
  {
  }

  method ReadTried(f: File, m: Manager, n: nat) returns (ok: bool, ghost es: seq<Entry>)
    requires m.Shaped()
    modifies f, m, m.vvTried
    ensures es == Records(old(f.tokens), n) && (ok <==> |es| == n)
    ensures ok ==> f.tokens == old(f.tokens)[n..]
    ensures m.Abs() == var st := LoadTried(m.hashing, old(m.Abs()), es, |es|);
                       if ok then st else st.(nTried := old(m.nTried))
  {
    hide AddTried, LoadTried, Records, TableOf, InRange;
    ghost var all, start := f.tokens, m.Abs();
    es := [];
    var lost, i := 0, 0;
    NothingRead(m.hashing, true, start);
    while i < n
      invariant 0 <= i <= n && |es| == i <= |all| && f.tokens == all[i..]
      invariant Records(all, n) == es + Records(f.tokens, n - i)
      invariant m.Abs() == LoadTried(m.hashing, start, es, i).(nTried := start.nTried)
      invariant lost == start.nTried - LoadTried(m.hashing, start, es, i).nTried
    {
      RecordsStep(all, n, es, f.tokens);
      var t := f.Read();
      if t.None? || !t.value.Record? { return false, es; }
      LossesAdd(m.hashing, LoadTried(m.hashing, start, es, i), start.nTried, t.value.e);
      TriedSnoc(m.hashing, start, es, t.value.e);
      var more := LoadTriedEntry(m, t.value.e);
      lost := lost + more;
      es := es + [t.value.e];
      i := i + 1;
    }
    NoneLeft(f.tokens, es, []);
    m.nTried := m.nTried - lost;
    ok := true;
  }

  /** One reference of the "new" table. */
  method LoadRef(m: Manager, usable: bool, bucket: nat, index: int)
    requires m.Shaped() && (usable ==> bucket < m.vvNew.Length0)
    modifies m`mapInfo, m.vvNew
    ensures m.Abs() == AddRef(m.hashing, usable, old(m.Abs()), bucket, index)
  {
    hide TableOf;
    if 0 <= index < m.nNew && index in m.mapInfo {
      var info := m.mapInfo[index];
      var slot := m.hashing.SlotIn(info.service, bucket);
      if usable && m.vvNew[slot.0, slot.1] == -1 && info.refCount < BUCKETS_PER_ADDRESS {
        m.mapInfo := m.mapInfo[index := info.(refCount := info.refCount + 1)];
        SetSlot(m.vvNew, slot, index);
      }
    }
  }

  method ReadBucket(f: File, m: Manager, usable: bool, bucket: nat, n: nat) returns (ok: bool, ghost ix: seq<int>)
    requires m.Shaped() && (usable ==> bucket < m.vvNew.Length0)
    modifies f, m`mapInfo, m.vvNew
    ensures ix == Nums(old(f.tokens), n) && (ok <==> |ix| == n)
    ensures ok ==> f.tokens == old(f.tokens)[n..]
    ensures m.Abs() == LoadBucket(m.hashing, usable, old(m.Abs()), bucket, ix, |ix|)
  {
    hide AddRef, LoadBucket, Nums, TableOf, InRange;
    ghost var all, start := f.tokens, m.Abs();
    ix := [];
    var i := 0;
    NothingRead(m.hashing, usable, start);
    while i < n
      invariant 0 <= i <= n && |ix| == i <= |all| && f.tokens == all[i..]
      invariant Nums(all, n) == ix + Nums(f.tokens, n - i)
      invariant m.Abs() == LoadBucket(m.hashing, usable, start, bucket, ix, i)
    {
      NumsStep(all, n, ix, f.tokens);
      var t := f.Read();
      if t.None? || !t.value.Num? { return false, ix; }
      BucketSnoc(m.hashing, usable, start, bucket, ix, t.value.n);
      LoadRef(m, usable, bucket, t.value.n);
      ix := ix + [t.value.n];
      i := i + 1;
    }
    NoneLeft(f.tokens, [], ix);
    ok := true;
  }

  /** The lists read so far before those that r takes. */
  ghost function After(lists: seq<seq<int>>, r: Lists): Lists { r.(lists := lists + r.lists) }

  lemma ListsStep(lists: seq<seq<int>>, s: Tokens, n: nat)
    requires n > 0
    ensures s == [] || !s[0].Num? ==> After(lists, TakeLists(s, n)) == Lists(lists, false, s)
    ensures s != [] && s[0].Num? ==>
      var ix := Nums(s[1..], Max0(s[0].n));
      if |ix| < Max0(s[0].n) then After(lists, TakeLists(s, n)) == Lists(lists + [ix], false, s)
      else After(lists, TakeLists(s, n)) == After(lists + [ix], TakeLists(s[1..][|ix|..], n - 1))
  {
    hide Nums;
    if s != [] && s[0].Num? {
      var ix := Nums(s[1..], Max0(s[0].n));
      assert s[1..][|ix|..] == s[1 + |ix|..];
    }
  }

  method ReadBuckets(f: File, m: Manager, usable: bool, n: nat) returns (ok: bool, ghost l: Lists)
    requires m.Shaped() && (usable ==> n <= m.vvNew.Length0)
    modifies f, m`mapInfo, m.vvNew
    ensures l == TakeLists(old(f.tokens), n) && (ok <==> l.complete) && (ok ==> f.tokens == l.rest)
    ensures m.Abs() == LoadBuckets(m.hashing, usable, old(m.Abs()), l.lists, |l.lists|)
  {
    hide LoadBucket, LoadBuckets, Nums, TakeLists, TableOf, InRange;
    ghost var start := m.Abs();
    l := TakeLists(f.tokens, n);
    ghost var lists: seq<seq<int>> := [];
    var i := 0;
    NothingRead(m.hashing, usable, start);
    while i < n
      invariant 0 <= i <= n && |lists| == i && l == After(lists, TakeLists(f.tokens, n - i))
      invariant m.Abs() == LoadBuckets(m.hashing, usable, start, lists, i)
    {
      ListsStep(lists, f.tokens, n - i);
      var t := f.Read();
      if t.None? || !t.value.Num? { return false, l; }
      ghost var ix;
      ok, ix := ReadBucket(f, m, usable, i, Max0(t.value.n));
      BucketsSnoc(m.hashing, usable, start, lists, ix);
      if !ok { return false, l; }
      lists := lists + [ix];
      i := i + 1;
    }
    TakenAll(f.tokens, lists);
    ok := true;
  }

  lemma TakenAll(s: Tokens, lists: seq<seq<int>>)
    ensures After(lists, TakeLists(s, 0)) == Lists(lists, true, s)
  {
  }

  /** Deletes the entries below n that found no slot. */
  method PruneEntries(m: Manager, n: nat)
    requires RandomIndex(m.mapInfo, m.vRandom)
    modifies m
    ensures m.Abs() == Prune(old(m.Abs()), n)
  {
    hide RandomIndex, TableOf, Delete;
    ghost var start := m.Abs();
    var id := 0;
    while id < n
      invariant 0 <= id <= n && m.Abs() == Prune(start, id)
    {
      if id in m.mapInfo && Unplaced(m.mapInfo[id]) { m.DeleteEntry(id); }
      id := id + 1;
    }
  }

  /** The bucket functions of every key fit the tables. */
  ghost predicate Fits(hashing: nat -> Hashing, dims: Dims) {
    forall k :: InRange(hashing(k), dims.newBuckets, dims.triedBuckets, dims.size)
  }

  /** Reads entries and tables into a manager that has its key and counters. */
  method ReadTables(f: File, m: Manager, usable: bool, buckets: int)
    returns (ok: bool, ghost new_: seq<Entry>, ghost tried: seq<Entry>, ghost l: Lists)
    requires m.Shaped() && (usable ==> buckets == m.vvNew.Length0)
    modifies f, m, m.vvNew, m.vvTried
    ensures new_ == Records(old(f.tokens), Max0(old(m.nNew)))
    ensures tried == if |new_| == Max0(old(m.nNew)) then Records(old(f.tokens)[|new_|..], Max0(old(m.nTried))) else []
    ensures |new_| == Max0(old(m.nNew)) ==> l == TakeLists(old(f.tokens)[|new_|..][|tried|..], Max0(buckets))
    ensures ok <==> |new_| == Max0(old(m.nNew)) && |tried| == Max0(old(m.nTried)) && l.complete
    ensures ok ==> f.tokens == l.rest
    ensures m.Abs() == PartialTables(m.hashing, usable, old(m.Abs()), old(f.tokens), Max0(buckets))
  {
    hide LoadNew, LoadTried, LoadBuckets, Records, TakeLists, TableOf, InRange;
    tried, l := [], Lists([], false, []);
    var nNew := m.nNew;
    ok, new_ := ReadNew(f, m, usable, Max0(nNew));
    if !ok { return; }
    NewCounters(m.hashing, usable, old(m.Abs()), new_, |new_|);
    m.nIdCount := nNew;
    ok, tried := ReadTried(f, m, Max0(m.nTried));
    l := TakeLists(old(f.tokens)[|new_|..][|tried|..], Max0(buckets));
    if !ok { return; }
    ok, l := ReadBuckets(f, m, usable, Max0(buckets));
  }

  lemma {:induction false} NewCounters(h: Hashing, usable: bool, st: State, es: seq<Entry>, n: nat)
    requires n <= |es|
    ensures LoadNew(h, usable, st, es, n).nNew == st.nNew && LoadNew(h, usable, st, es, n).nTried == st.nTried
  {
    if n > 0 { NewCounters(h, usable, st, es, n - 1); }
  }

  /** The version and the key. */
  method ReadKey(f: File) returns (r: Option<(byte, nat)>)
    modifies f
    ensures var s := old(f.tokens);
      if |s| >= 3 && s[0].Octet? && s[1].Octet? && s[1].b == 32 && s[2].Key?
      then r == Some((s[0].b, s[2].k)) && f.tokens == s[3..]
      else r == None
  {
    var version := f.Read();
    if version.None? || !version.value.Octet? { return None; }
    var keySize := f.Read();
    if keySize.None? || !keySize.value.Octet? || keySize.value.b != 32 { return None; }
    var key := f.Read();
    if key.None? || !key.value.Key? { return None; }
    r := Some((version.value.b, key.value.k));
  }

  /** The two counters, and the number of buckets as written. */
  method ReadCounters(f: File, m: Manager) returns (r: Option<int>)
    modifies f, m`nNew, m`nTried
    ensures var s := old(f.tokens);
      && (if |s| >= 3 && s[0].Num? && s[1].Num? && s[2].Num?
          then r == Some(s[2].n) && f.tokens == s[3..]
          else r == None)
      && m.nNew == (if |s| >= 1 && s[0].Num? then s[0].n else old(m.nNew))
      && m.nTried == (if |s| >= 2 && s[0].Num? && s[1].Num? then s[1].n else old(m.nTried))
  {
    var nNew := f.Read();
    if nNew.None? || !nNew.value.Num? { return None; }
    m.nNew := nNew.value.n;
    var nTried := f.Read();
    if nTried.None? || !nTried.value.Num? { return None; }
    m.nTried := nTried.value.n;
    var uBuckets := f.Read();
    if uBuckets.None? || !uBuckets.value.Num? { return None; }
    r := Some(uBuckets.value.n);
  }

  /** Reads a manager; `random` is the key it has before. A read that fails
      leaves part of the file in it. */
  method Unserialize(f: File, dims: Dims, hashing: nat -> Hashing, random: nat) returns (ok: bool, m: Manager)
    requires Fits(hashing, dims)
    modifies f
    ensures fresh(m) && fresh(m.vvNew) && fresh(m.vvTried) && m.Shaped() && DimsOf(m) == dims
    ensures m.hashing == hashing(m.nKey) && (m.Abs() == FRESH || KeyRead(old(f.tokens), m.nKey))
    ensures match Parse(old(f.tokens), dims)
            case None => !ok && m.Abs() == Partial(m.hashing, dims, old(f.tokens))
            case Some((d, rest)) => ok && f.tokens == rest && m.nKey == d.key && m.Abs() == Apply(m.hashing, dims, d)
  {
    hide Toggle30, PartialTables, RandomIndex, TableOf, InRange, Prune, Records, TakeLists, Consistent;
    ghost var s := f.tokens;
    m := new Manager(random, hashing(random), dims.newBuckets, dims.triedBuckets, dims.size);
    var head := ReadKey(f);
    if head.None? { return false, m; }
    var (version, key) := head.value;
    m := new Manager(key, hashing(key), dims.newBuckets, dims.triedBuckets, dims.size);
    var uBuckets := ReadCounters(f, m);
    if uBuckets.None? { return false, m; }
    var buckets := if version != 0 then Toggle30(uBuckets.value) else uBuckets.value;
    assert f.tokens == s[6..];
    if m.nNew > dims.newBuckets * dims.size { return false, m; }
    if m.nTried > dims.triedBuckets * dims.size { return false, m; }
    ok := ReadBody(f, m, version, buckets, s);
  }

  /** All that follows the header. */
  method ReadBody(f: File, m: Manager, version: byte, buckets: int, ghost s: Tokens) returns (ok: bool)
    requires m.Shaped() && HeaderTaken(s, DimsOf(m)) && f.tokens == s[6..]
    requires version == s[0].b && m.nKey == s[2].k && buckets == HeaderBuckets(s)
    requires m.Abs() == FRESH.(nNew := s[3].n, nTried := s[4].n)
    modifies f, m, m.vvNew, m.vvTried
    ensures match Parse(s, DimsOf(m))
            case None => !ok && m.Abs() == Partial(m.hashing, DimsOf(m), s)
            case Some((d, rest)) => ok && f.tokens == rest && m.Abs() == Apply(m.hashing, DimsOf(m), d)
  {
    hide Toggle30, PartialTables, RandomIndex, TableOf, InRange, Prune, Records, TakeLists, HeaderBuckets;
    var nNew := m.nNew;
    ghost var new_, tried, l;
    ok, new_, tried, l := ReadTables(f, m, version == 1 && buckets == m.vvNew.Length0, buckets);
    if !ok { return; }
    ghost var d := Disk(version, m.nKey, s[3].n, s[4].n, buckets, new_, tried, l.lists);
    ReadWhole(m.hashing, DimsOf(m), s, d);
    PruneEntries(m, Max0(nNew));
  }

  ghost predicate KeyRead(s: Tokens, key: nat) { |s| > 2 && s[2] == Key(key) }

  lemma ReadWhole(h: Hashing, dims: Dims, s: Tokens, d: Disk)
    requires HeaderTaken(s, dims) && |d.new_| == Max0(d.nNew) && |d.tried| == Max0(d.nTried)
    requires d == Disk(s[0].b, s[2].k, s[3].n, s[4].n, HeaderBuckets(s), d.new_, d.tried, d.lists)
    requires d.new_ == Records(s[6..], Max0(d.nNew)) && d.tried == Records(s[6..][|d.new_|..], Max0(d.nTried))
    requires var l := TakeLists(s[6..][|d.new_|..][|d.tried|..], Max0(d.buckets)); l.complete && l.lists == d.lists
    ensures Parse(s, dims).Some? && Parse(s, dims).value.0 == d
    ensures PartialTables(h, Usable(d, dims), FRESH.(nNew := d.nNew, nTried := d.nTried), s[6..], Max0(d.buckets))
            == Before(h, dims, d)
    ensures var st := Before(h, dims, d); RandomIndex(st.info, st.random)
  {
    hide Records, TakeLists, LoadNew, LoadTried, LoadBuckets, RandomIndex, Toggle30;
    BeforeIndexed(h, dims, d);
  }

  /** The manager that a file gives at start-up (CAddrDB::Read): a fresh one where
      the file is not of this network. After a read that fails it is cleared, and
      that makes it consistent exactly when the read had not begun an entry; after
      one that succeeds it is consistent exactly when the file is sound. */
  method ReadPeers(f: File, magic: nat, dims: Dims, hashing: nat -> Hashing, random: nat) returns (ok: bool, m: Manager)
    requires Fits(hashing, dims)
    modifies f
    ensures ok <==> OfNetwork(old(f.tokens), magic) && Parse(old(f.tokens)[1..], dims).Some?
    ensures !OfNetwork(old(f.tokens), magic) ==> m.Valid() && m.Abs() == FRESH
    ensures !ok && OfNetwork(old(f.tokens), magic) ==>
              && m.Abs() == Cleared(Partial(m.hashing, dims, old(f.tokens)[1..]))
              && (m.Valid() <==> !Touched(old(f.tokens)[1..], dims))
    ensures ok ==>
              var d := Parse(old(f.tokens)[1..], dims).value.0;
              m.Abs() == Apply(m.hashing, dims, d) && (m.Valid() <==> Sound(m.hashing, dims, d))
  {
    hide Parse, Partial, Touched, TableOf, InRange, Consistent, Apply, Sound;
    var head := f.Read();
    if head != Some(Magic(magic)) {
      m := new Manager(random, hashing(random), dims.newBuckets, dims.triedBuckets, dims.size);
      return false, m;
    }
    ghost var s := f.tokens;
    ok, m := Unserialize(f, dims, hashing, random);
    if ok {
      ParseComplete(s, dims);
      ApplyConsistent(m.hashing, dims, Parse(s, dims).value.0);
    } else {
      FailedReadCleared(m.hashing, m.hashing, dims, s);
      m.Clear();
    }
  }

  ghost predicate OfNetwork(s: Tokens, magic: nat) { s != [] && s[0] == Magic(magic) }

  /** Writing a manager and reading the file gives a manager with the same key
      and, up to the renaming of ids, the same tables. */
  method Reload(m: Manager, hashing: nat -> Hashing, random: nat) returns (r: Manager)
    requires m.Valid() && m.hashing == hashing(m.nKey) && Fits(hashing, DimsOf(m))
    ensures fresh(r) && r.Valid() && r.nKey == m.nKey && r.hashing == m.hashing && DimsOf(r) == DimsOf(m)
    ensures Renames(m.Abs()) && r.Abs() == Reloaded(m.Abs())
  {
    hide Parse, Partial, TableOf, InRange, Consistent, Renames, Reloaded, Apply, Written;
    var f := new File([]);
    Serialize(f, m);
    ManagerBounded(m);
    RoundTrip(hashing, m.Abs(), m.nKey, DimsOf(m), []);
    assert f.tokens == Written(Image(m.Abs(), m.nKey, DimsOf(m))) + [];
    var ok;
    ok, r := Unserialize(f, Dims(m.vvNew.Length0, m.vvTried.Length0, m.vvNew.Length1), hashing, random);
  }
}
