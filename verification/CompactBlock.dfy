/** Compact block relay (src/blockencodings.h, src/blockencodings.cpp): rebuilding
    a block from prefilled transactions, short ids matched against the memory
    pool, and the transactions asked for. */
module CompactBlock {
  import opened Common

  const U16 := 65536

  datatype Tx = Tx(id: nat, isNull: bool)

  /** The index is relative: how many slots lie between the previous prefilled one and this. */
  datatype Prefilled = Prefilled(index: nat, tx: Tx)

  datatype Message = Message(headerIsNull: bool, shortIds: seq<nat>, prefilled: seq<Prefilled>)
  {
    function Count(): nat { |shortIds| + |prefilled| }
  }

  type Slots = seq<Option<Tx>>

  // ---- prefilled slots ----

  /** The slot of prefilled transaction k. */
  function At(pre: seq<Prefilled>, k: nat): int
    requires k < |pre|
  {
    (if k == 0 then -1 else At(pre, k - 1)) + pre[k].index + 1
  }

  lemma {:induction false} SlotsAscend(pre: seq<Prefilled>, j: nat, k: nat)
    requires j <= k < |pre|
    ensures j <= At(pre, j) <= At(pre, k) && k - j <= At(pre, k) - At(pre, j)
    decreases k
  {
    if j < k {
      SlotsAscend(pre, j, k - 1);
    } else if j > 0 {
      SlotsAscend(pre, j - 1, j - 1);
    }
  }

  /** What the receiver accepts of prefilled transaction k. */
  predicate Acceptable(m: Message, k: nat)
    requires k < |m.prefilled|
  {
    && !m.prefilled[k].tx.isNull
    && At(m.prefilled, k) < U16
    && At(m.prefilled, k) <= |m.shortIds| + k
  }

  ghost predicate AllAcceptable(m: Message) {
    forall k :: 0 <= k < |m.prefilled| ==> Acceptable(m, k)
  }

  /** Exactly the first n prefilled transactions stand in their slots. */
  ghost predicate Holds(slots: Slots, pre: seq<Prefilled>, n: nat) {
    && n <= |pre|
    && (forall k :: 0 <= k < n ==> 0 <= At(pre, k) < |slots| && slots[At(pre, k)] == Some(pre[k].tx))
    && (forall j :: 0 <= j < |slots| && slots[j].Some? ==> exists k :: 0 <= k < n && At(pre, k) == j)
  }

  // ---- counting free slots ----

  function FreeCount(slots: Slots): (c: nat)
    ensures c <= |slots|
  {
    if slots == [] then 0 else (if slots[0].None? then 1 else 0) + FreeCount(slots[1..])
  }

  lemma {:induction false} FreeCountConcat(a: Slots, b: Slots)
    ensures FreeCount(a + b) == FreeCount(a) + FreeCount(b)
  {
    if a == [] {
      assert a + b == b;
    } else {
      FreeCountConcat(a[1..], b);
      assert (a + b)[1..] == a[1..] + b;
    }
  }

  lemma FreeCountUpdate(s: Slots, j: nat, x: Option<Tx>)
    requires j < |s|
    ensures FreeCount(s[j := x]) == FreeCount(s) - (if s[j].None? then 1 else 0) + (if x.None? then 1 else 0)
  {
    var l, r := s[..j], s[j + 1..];
    assert s == l + ([s[j]] + r) && s[j := x] == l + ([x] + r);
    FreeCountConcat(l, [s[j]] + r);
    FreeCountConcat(l, [x] + r);
    FreeCountConcat([s[j]], r);
    FreeCountConcat([x], r);
  }

  lemma FreeCountSnoc(s: Slots, j: nat)
    requires j < |s|
    ensures FreeCount(s[..j + 1]) == FreeCount(s[..j]) + if s[j].None? then 1 else 0
  {
    assert s[..j + 1] == s[..j] + [s[j]];
    FreeCountConcat(s[..j], [s[j]]);
  }

  lemma {:induction false} FreeCountMonotonic(s: Slots, i: nat, j: nat)
    requires i <= j <= |s|
    ensures FreeCount(s[..i]) <= FreeCount(s[..j]) <= FreeCount(s[..i]) + j - i
    decreases j
  {
    if i < j {
      FreeCountMonotonic(s, i, j - 1);
      FreeCountSnoc(s, j - 1);
    }
  }

  /** Slot j is free and i free slots come before it. */
  ghost predicate IsFreeSlot(s: Slots, i: int, j: int) {
    0 <= j < |s| && s[j].None? && FreeCount(s[..j]) == i
  }

  lemma FreeSlotUnique(s: Slots, i: nat, j: nat, k: nat)
    requires IsFreeSlot(s, i, j) && IsFreeSlot(s, i, k)
    ensures j == k
  {
    if j < k {
      FreeCountSnoc(s, j);
      FreeCountMonotonic(s, j + 1, k);
    } else if k < j {
      FreeCountSnoc(s, k);
      FreeCountMonotonic(s, k + 1, j);
    }
  }

  lemma {:induction false} NoneFree(s: Slots)
    requires forall j :: 0 <= j < |s| ==> s[j].None?
    ensures FreeCount(s) == |s|
  {
    if s != [] { NoneFree(s[1..]); }
  }

  lemma {:induction false} FreeSlotExists(s: Slots, i: nat) returns (j: nat)
    requires i < FreeCount(s)
    ensures IsFreeSlot(s, i, j)
  {
    j := |s| - 1;
    FreeCountSnoc(s, j);
    assert s[..|s|] == s;
    if !(s[j].None? && FreeCount(s[..j]) == i) {
      j := FreeSlotExists(s[..j], i);
      assert s[..|s| - 1][..j] == s[..j];
    }
  }

  /** Hangs: the program would not return. */
  datatype Status = Ok | Invalid | Failed | Hangs

  lemma HoldsStep(slots: Slots, pre: seq<Prefilled>, i: nat)
    requires i < |pre| && Holds(slots, pre, i) && 0 <= At(pre, i) < |slots|
    ensures slots[At(pre, i)].None? && Holds(slots[At(pre, i) := Some(pre[i].tx)], pre, i + 1)
  {
    hide At;
    forall k | 0 <= k < i ensures At(pre, k) < At(pre, i) { SlotsAscend(pre, k, i); }
    var s' := slots[At(pre, i) := Some(pre[i].tx)];
    forall j | 0 <= j < |s'| && s'[j].Some? ensures exists k :: 0 <= k < i + 1 && At(pre, k) == j {
      if j != At(pre, i) {
        var k :| 0 <= k < i && At(pre, k) == j;
      }
    }
  }

  lemma HoldsNone(slots: Slots, pre: seq<Prefilled>)
    requires forall j :: 0 <= j < |slots| ==> slots[j].None?
    ensures Holds(slots, pre, 0)
  {
  }

  /** The first loop: every prefilled transaction goes to its slot, which is in range. */
  method PlacePrefilled(m: Message) returns (ok: bool, slots: Slots)
    ensures ok <==> AllAcceptable(m)
    ensures ok ==> |slots| == m.Count() && Holds(slots, m.prefilled, |m.prefilled|) && FreeCount(slots) == |m.shortIds|
  {
    hide FreeCount, Holds;
    slots := seq(m.Count(), _ => None);
    HoldsNone(slots, m.prefilled);
    NoneFree(slots);
    var last := -1;
    var i := 0;
    while i < |m.prefilled|
      invariant 0 <= i <= |m.prefilled| && |slots| == m.Count()
      invariant last == if i == 0 then -1 else At(m.prefilled, i - 1)
      invariant forall k :: 0 <= k < i ==> Acceptable(m, k)
      invariant Holds(slots, m.prefilled, i) && FreeCount(slots) == m.Count() - i
    {
      last := last + m.prefilled[i].index + 1;
      assert last == At(m.prefilled, i);
      if m.prefilled[i].tx.isNull || last >= U16 || last > |m.shortIds| + i {
        assert !Acceptable(m, i);
        return false, slots;
      }
      SlotsAscend(m.prefilled, i, i);
      HoldsStep(slots, m.prefilled, i);
      FreeCountUpdate(slots, last, Some(m.prefilled[i].tx));
      slots := slots[last := Some(m.prefilled[i].tx)];
      i := i + 1;
    }
    ok := true;
  }

  // ---- short ids ----

  predicate Distinct(ids: seq<nat>) {
    forall i, j :: 0 <= i < j < |ids| ==> ids[i] != ids[j]
  }

  /** The i-th short id stands for the i-th free slot, cut to 16 bits. */
  ghost predicate Mapped(ids: map<nat, nat>, shortIds: seq<nat>, slots: Slots) {
    (forall id :: id in ids <==> id in shortIds) && MappedUpTo(ids, shortIds, slots, |shortIds|)
  }

  ghost predicate MappedUpTo(ids: map<nat, nat>, shortIds: seq<nat>, slots: Slots, n: nat) {
    forall i, j :: IsFreeSlot(slots, i, j) && i < n <= |shortIds| ==> shortIds[i] in ids && ids[shortIds[i]] == j % U16
  }

  lemma DistinctSnoc(ids: seq<nat>, x: nat)
    ensures Distinct(ids + [x]) <==> Distinct(ids) && x !in ids
  {
    var s := ids + [x];
    if Distinct(s) {
      assert forall i :: 0 <= i < |ids| ==> s[i] == ids[i] && s[i] != s[|ids|];
    }
  }

  /** Where the scan for short id i looks after n steps: its offset has 16 bits. */
  function ScanAt(i: nat, from: nat, n: nat): nat { i + (from + n) % U16 }

  /** The scan meets only occupied slots, over and over again. */
  ghost predicate Endless(slots: Slots, i: nat, from: nat) {
    forall n: nat :: ScanAt(i, from, n) < |slots| && slots[ScanAt(i, from, n)].Some?
  }

  /** Where a scan starts: i free slots have been passed. */
  ghost predicate ScanFrom(slots: Slots, i: nat, from: nat) {
    i < FreeCount(slots) && from < U16 && i + from <= |slots| && FreeCount(slots[..i + from]) == i
  }

  /** As many occupied slots as an offset can count are the first 65536. */
  ghost predicate Compact(slots: Slots) {
    |slots| - FreeCount(slots) >= U16 ==> |slots| > U16 && forall j :: 0 <= j < U16 ==> slots[j].Some?
  }

  lemma {:induction false} NoFreeBelow(slots: Slots, k: nat)
    requires k <= |slots| && forall j :: 0 <= j < k ==> slots[j].Some?
    ensures FreeCount(slots[..k]) == 0
  {
    if k > 0 {
      NoFreeBelow(slots, k - 1);
      FreeCountSnoc(slots, k - 1);
    }
  }

  /** The scan goes on for ever exactly if 65536 slots are occupied; it is then the
      scan for the first short id. */
  lemma ScanEndless(slots: Slots, i: nat, from: nat)
    requires ScanFrom(slots, i, from) && Compact(slots)
    ensures |slots| - FreeCount(slots) >= U16 ==> i == 0 && Endless(slots, i, from)
    ensures Endless(slots, i, from) ==> |slots| - FreeCount(slots) >= U16
  {
    hide FreeCount;
    if |slots| - FreeCount(slots) >= U16 {
      var k := if i + from <= U16 then i + from else U16;
      NoFreeBelow(slots, k);
      FreeCountMonotonic(slots, k, i + from);
    } else if Endless(slots, i, from) {
      OccupiedRun(slots, i, from, U16 - from);
      assert slots[..|slots|] == slots;
      FreeCountMonotonic(slots, i + U16, |slots|);
    }
  }

  /** Before the offset comes round, occupied slots only add to the offset. */
  lemma {:induction false} OccupiedRun(slots: Slots, i: nat, from: nat, n: nat)
    requires ScanFrom(slots, i, from) && Endless(slots, i, from) && from + n <= U16
    ensures i + from + n <= |slots| && FreeCount(slots[..i + from + n]) == i
  {
    hide FreeCount;
    if n > 0 {
      OccupiedRun(slots, i, from, n - 1);
      assert ScanAt(i, from, n - 1) == i + from + n - 1;
      FreeCountSnoc(slots, i + from + n - 1);
    }
  }

  /** The scan for the next free slot. Once the offset has gone round without
      finding one it never will. */
  method NextFree(slots: Slots, i: nat, from: nat) returns (r: Option<nat>)
    requires ScanFrom(slots, i, from) && Compact(slots)
    ensures r.Some? ==> from <= r.value < U16 && IsFreeSlot(slots, i, i + r.value)
    ensures r.None? <==> Endless(slots, i, from)
    ensures r.None? <==> |slots| - FreeCount(slots) >= U16
  {
    hide FreeCount;
    ScanEndless(slots, i, from);
    ghost var full := |slots| - FreeCount(slots) >= U16;
    var offset, steps := from, 0;
    if !full { InRange(slots, i, offset); }
    while slots[i + offset].Some?
      invariant 0 <= steps <= U16 && 0 <= offset < U16 && i + offset < |slots|
      invariant full ==> i == 0
      invariant !full ==> offset == from + steps && FreeCount(slots[..i + offset]) == i
      decreases U16 - steps
    {
      if !full {
        FreeCountSnoc(slots, i + offset);
        InRange(slots, i, offset + 1);
      }
      if steps == U16 { return None; }
      offset, steps := (offset + 1) % U16, steps + 1;
    }
    r := Some(offset);
  }

  lemma InRange(slots: Slots, i: nat, offset: nat)
    requires i < FreeCount(slots) && i + offset <= |slots| && FreeCount(slots[..i + offset]) == i
    requires |slots| - FreeCount(slots) < U16
    ensures i + offset < |slots| && offset < U16
  {
    assert slots[..|slots|] == slots;
    FreeCountMonotonic(slots, i + offset, |slots|);
  }

  // ---- how many prefilled transactions there can be ----

  /** More than 65536 prefilled transactions are never accepted. */
  lemma TooManyPrefilled(m: Message)
    requires |m.prefilled| > U16
    ensures !Acceptable(m, U16)
  {
    SlotsAscend(m.prefilled, U16, U16);
  }

  /** 65536 of them stand in the first 65536 slots. */
  lemma FullPrefilled(m: Message, slots: Slots)
    requires AllAcceptable(m) && |slots| == m.Count() && Holds(slots, m.prefilled, |m.prefilled|)
    requires FreeCount(slots) == |m.shortIds|
    ensures |m.prefilled| <= U16 && (m.shortIds != [] ==> Compact(slots))
  {
    hide FreeCount, At;
    if |m.prefilled| > U16 {
      assert Acceptable(m, U16);
      TooManyPrefilled(m);
    }
    if |m.prefilled| == U16 {
      forall j | 0 <= j < U16 ensures j < |slots| && slots[j].Some? {
        SlotsAscend(m.prefilled, j, j);
        SlotsAscend(m.prefilled, j, U16 - 1);
        assert Acceptable(m, U16 - 1);
        assert At(m.prefilled, j) == j;
      }
    }
  }

  /** Of an accepted message every scan ends if and only if there are fewer than
      65536 prefilled transactions. */
  lemma ScanEndsExact(m: Message, slots: Slots, i: nat, from: nat)
    requires AllAcceptable(m) && |slots| == m.Count() && Holds(slots, m.prefilled, |m.prefilled|)
    requires FreeCount(slots) == |m.shortIds| && ScanFrom(slots, i, from)
    ensures !Endless(slots, i, from) <==> |m.prefilled| < U16
  {
    hide FreeCount, At, Holds, Endless;
    FullPrefilled(m, slots);
    ScanEndless(slots, i, from);
  }

  /** A message that is accepted and never dealt with. */
  lemma FullMessageHangs(t: Tx, slots: Slots)
    requires !t.isNull
    ensures var m := Message(false, [7], seq(U16, _ => Prefilled(0, t)));
      && AllAcceptable(m)
      && (|slots| == m.Count() && Holds(slots, m.prefilled, U16) ==> Endless(slots, 0, 0))
  {
    var m := Message(false, [7], seq(U16, _ => Prefilled(0, t)));
    forall k | 0 <= k < U16 ensures At(m.prefilled, k) == k { Adjacent(m.prefilled, k); }
    if |slots| == m.Count() && Holds(slots, m.prefilled, U16) {
      forall n: nat ensures ScanAt(0, 0, n) < |slots| && slots[ScanAt(0, 0, n)].Some? {
        var k := ScanAt(0, 0, n);
        assert At(m.prefilled, k) == k;
      }
    }
  }

  lemma {:induction false} Adjacent(pre: seq<Prefilled>, k: nat)
    requires k < |pre| && forall j :: 0 <= j < |pre| ==> pre[j].index == 0
    ensures At(pre, k) == k
  {
    if k > 0 { Adjacent(pre, k - 1); }
  }

  /** The map after i short ids: as large as possible exactly while they are distinct. */
  ghost predicate Tracked(ids: map<nat, nat>, shortIds: seq<nat>, slots: Slots, i: nat) {
    && i <= |shortIds| && |ids| <= i && (|ids| == i <==> Distinct(shortIds[..i]))
    && (forall id :: id in ids <==> id in shortIds[..i])
    && (Distinct(shortIds[..i]) ==> MappedUpTo(ids, shortIds, slots, i))
  }

  lemma TrackedStep(ids: map<nat, nat>, shortIds: seq<nat>, slots: Slots, i: nat, slot: nat)
    requires Tracked(ids, shortIds, slots, i) && i < |shortIds| && IsFreeSlot(slots, i, slot)
    ensures Tracked(ids[shortIds[i] := slot % U16], shortIds, slots, i + 1)
  {
    hide Distinct, MappedUpTo, IsFreeSlot;
    var id := shortIds[i];
    assert shortIds[..i + 1] == shortIds[..i] + [id];
    DistinctSnoc(shortIds[..i], id);
    if Distinct(shortIds[..i + 1]) { MapStep(shortIds, slots, ids, i, slot); }
  }

  /** The second loop. The hash map gives up on crowded buckets; how it fills
      them is up to its implementation. */
  method MapShortIds(m: Message, slots: Slots, crowded: nat -> bool) returns (status: Status, ids: map<nat, nat>)
    requires |slots| == m.Count() && FreeCount(slots) == |m.shortIds|
    requires AllAcceptable(m) && Holds(slots, m.prefilled, |m.prefilled|)
    ensures status == Hangs <==> m.shortIds != [] && |m.prefilled| == U16
    ensures status == Hangs ==> Endless(slots, 0, 0)
    ensures status == Ok <==>
            status != Hangs && Distinct(m.shortIds) && forall i :: 0 <= i < |m.shortIds| ==> !crowded(i)
    ensures status != Invalid
    ensures status == Ok ==> Mapped(ids, m.shortIds, slots) && |ids| == |m.shortIds|
  {
    hide FreeCount, Distinct, Tracked, Mapped, Holds, AllAcceptable, Compact, Endless;
    ids := map[];
    var offset: nat := 0;
    var i := 0;
    TrackedNone(m.shortIds, slots);
    FullPrefilled(m, slots);
    while i < |m.shortIds|
      invariant 0 <= i <= |m.shortIds| && i + offset <= |slots| && FreeCount(slots[..i + offset]) == i
      invariant 0 <= offset < U16 && (i > 0 ==> |m.prefilled| < U16) && (i == 0 ==> offset == 0)
      invariant forall k :: 0 <= k < i ==> !crowded(k)
      invariant Tracked(ids, m.shortIds, slots, i)
    {
      var next := NextFree(slots, i, offset);
      if next.None? { return Hangs, ids; }
      offset := next.value;
      TrackedStep(ids, m.shortIds, slots, i, i + offset);
      ids := ids[m.shortIds[i] := (i + offset) % U16];
      if crowded(i) { return Failed, ids; }
      FreeCountSnoc(slots, i + offset);
      i := i + 1;
    }
    TrackedDone(ids, m.shortIds, slots);
    status := if |ids| == |m.shortIds| then Ok else Failed;
  }

  lemma TrackedDone(ids: map<nat, nat>, shortIds: seq<nat>, slots: Slots)
    requires Tracked(ids, shortIds, slots, |shortIds|)
    ensures |ids| == |shortIds| <==> Distinct(shortIds)
    ensures Distinct(shortIds) ==> Mapped(ids, shortIds, slots)
  {
    hide Distinct, MappedUpTo;
    assert shortIds[..|shortIds|] == shortIds;
  }

  lemma TrackedNone(shortIds: seq<nat>, slots: Slots)
    ensures Tracked(map[], shortIds, slots, 0) && FreeCount(slots[..0]) == 0
  {
    forall i, j | IsFreeSlot(slots, i, j) && i < 0 ensures false {}
  }

  lemma MapStep(shortIds: seq<nat>, slots: Slots, ids: map<nat, nat>, i: nat, slot: nat)
    requires i < |shortIds| && IsFreeSlot(slots, i, slot)
    requires Distinct(shortIds[..i + 1]) && MappedUpTo(ids, shortIds, slots, i)
    ensures MappedUpTo(ids[shortIds[i] := slot % U16], shortIds, slots, i + 1)
  {
    var ids' := ids[shortIds[i] := slot % U16];
    forall k, j | IsFreeSlot(slots, k, j) && k < i + 1
      ensures shortIds[k] in ids' && ids'[shortIds[k]] == j % U16
    {
      if k == i {
        FreeSlotUnique(slots, i, j, slot);
      } else {
        assert shortIds[..i + 1][k] != shortIds[..i + 1][i];
      }
    }
  }

  /** The i-th short id stands for the i-th free slot itself, for all i, exactly when
      there are no more than 65536 transactions. */
  lemma SlotMapExact(m: Message, base: Slots, ids: map<nat, nat>)
    requires |base| == m.Count() && Holds(base, m.prefilled, |m.prefilled|) && FreeCount(base) == |m.shortIds|
    requires AllAcceptable(m)
    requires Mapped(ids, m.shortIds, base)
    ensures m.Count() <= U16 <==>
      forall i, j :: IsFreeSlot(base, i, j) && i < |m.shortIds| ==> ids[m.shortIds[i]] == j
  {
    if m.Count() > U16 { LastSlotFree(m, base); }
  }

  // ---- the memory pool ----

  /** How many of the pool have this short id. */
  function Hits(pool: seq<Tx>, short: Tx -> nat, id: nat): nat {
    if pool == [] then 0
    else Hits(pool[..|pool| - 1], short, id) + if short(pool[|pool| - 1]) == id then 1 else 0
  }

  /** The one transaction of the pool with this short id, if there is just one. */
  function Match(pool: seq<Tx>, short: Tx -> nat, id: nat): (r: Option<Tx>)
    ensures r.Some? <==> Hits(pool, short, id) == 1
    ensures r.Some? ==> r.value in pool && short(r.value) == id
  {
    if pool == [] then None
    else
      var init, last := pool[..|pool| - 1], pool[|pool| - 1];
      if short(last) != id then Match(init, short, id)
      else if Hits(init, short, id) == 0 then Some(last)
      else None
  }

  /** After the pool was scanned: prefilled slots are as they were, and a slot
      with a short id holds the only match. */
  ghost predicate Scanned(base: Slots, shortIds: seq<nat>, slots: Slots, pool: seq<Tx>, short: Tx -> nat) {
    && |slots| == |base|
    && (forall j :: 0 <= j < |base| && base[j].Some? ==> slots[j] == base[j])
    && (forall i, j :: IsFreeSlot(base, i, j) && i < |shortIds| ==> slots[j] == Match(pool, short, shortIds[i]))
  }

  /** The slot that a pool transaction is taken for. */
  function Lands(ids: map<nat, nat>, short: Tx -> nat, t: Tx): Option<nat> {
    if short(t) in ids then Some(ids[short(t)]) else None
  }

  /** How many of the pool are taken for slot p. */
  function HitsAt(pool: seq<Tx>, ids: map<nat, nat>, short: Tx -> nat, p: nat): nat {
    if pool == [] then 0
    else HitsAt(pool[..|pool| - 1], ids, short, p) + if Lands(ids, short, pool[|pool| - 1]) == Some(p) then 1 else 0
  }

  /** What slot p holds: what it held, the only transaction taken for it, or nothing. */
  function Held(pool: seq<Tx>, ids: map<nat, nat>, short: Tx -> nat, p: nat, before: Option<Tx>): Option<Tx> {
    if pool == [] then before
    else
      var init, last := pool[..|pool| - 1], pool[|pool| - 1];
      if Lands(ids, short, last) != Some(p) then Held(init, ids, short, p, before)
      else if HitsAt(init, ids, short, p) == 0 then Some(last)
      else None
  }

  lemma {:induction false} HeldByHits(pool: seq<Tx>, ids: map<nat, nat>, short: Tx -> nat, p: nat, before: Option<Tx>)
    ensures var n := HitsAt(pool, ids, short, p);
      && (n == 0 ==> Held(pool, ids, short, p, before) == before)
      && (n == 1 ==> Held(pool, ids, short, p, before).Some?)
      && (n > 1 ==> Held(pool, ids, short, p, before).None?)
  {
    if pool != [] { HeldByHits(pool[..|pool| - 1], ids, short, p, before); }
  }

  /** How many slots were hit just once. */
  function Ones(hits: seq<nat>): nat {
    if hits == [] then 0 else (if hits[0] == 1 then 1 else 0) + Ones(hits[1..])
  }

  lemma {:induction false} OnesUpdate(hits: seq<nat>, p: nat, x: nat)
    requires p < |hits|
    ensures Ones(hits[p := x]) == Ones(hits) - (if hits[p] == 1 then 1 else 0) + (if x == 1 then 1 else 0)
  {
    if p == 0 {
      assert hits[p := x][1..] == hits[1..];
    } else {
      OnesUpdate(hits[1..], p - 1, x);
      assert hits[p := x][1..] == hits[1..][p - 1 := x];
    }
  }

  /** The slots, the flags and the hits after the pool was scanned. */
  ghost predicate Landed(base: Slots, ids: map<nat, nat>, slots: Slots, hits: seq<nat>, pool: seq<Tx>,
          short: Tx -> nat) {
    && |slots| == |hits| == |base|
    && (forall p :: 0 <= p < |base| ==> hits[p] == HitsAt(pool, ids, short, p))
    && (forall p :: 0 <= p < |base| ==> slots[p] == Held(pool, ids, short, p, base[p]))
  }

  lemma LandsNowhere(base: Slots, ids: map<nat, nat>, slots: Slots, hits: seq<nat>, pool: seq<Tx>, short: Tx -> nat,
          t: Tx)
    requires Landed(base, ids, slots, hits, pool, short) && short(t) !in ids
    ensures Landed(base, ids, slots, hits, pool + [t], short)
  {
    assert (pool + [t])[..|pool|] == pool;
  }

  lemma LandsAt(base: Slots, ids: map<nat, nat>, slots: Slots, hits: seq<nat>, pool: seq<Tx>, short: Tx -> nat, t: Tx)
    requires Landed(base, ids, slots, hits, pool, short) && short(t) in ids && ids[short(t)] < |base|
    ensures var p := ids[short(t)];
      && Landed(base, ids, slots[p := if hits[p] > 0 then None else Some(t)], hits[p := hits[p] + 1], pool + [t], short)
      && (hits[p] > 0 ==> (slots[p].Some? <==> hits[p] == 1))
  {
    var p := ids[short(t)];
    assert (pool + [t])[..|pool|] == pool;
    HeldByHits(pool, ids, short, p, base[p]);
  }

  lemma {:induction false} NoHits(hits: seq<nat>)
    requires forall p :: 0 <= p < |hits| ==> hits[p] == 0
    ensures Ones(hits) == 0
  {
    if hits != [] { NoHits(hits[1..]); }
  }

  /** The third loop. It stops early once every short id has its transaction. */
  method ScanPool(base: Slots, ids: map<nat, nat>, pool: seq<Tx>, short: Tx -> nat)
    returns (slots: Slots, count: int, ghost n: nat, ghost hits: seq<nat>)
    requires forall id :: id in ids ==> ids[id] < |base|
    ensures n <= |pool| && Landed(base, ids, slots, hits, pool[..n], short) && count == Ones(hits)
    ensures n == |pool| || count == |ids|
    ensures n == 0 ==> pool == []
  {
    hide Landed, HitsAt, Held, Ones;
    slots, count := base, 0;
    var have := seq(|base|, _ => false);
    hits := seq(|base|, _ => 0);
    NoHits(hits);
    NothingLanded(base, ids, hits, short);
    var i := 0;
    assert pool[..0] == [];
    while i < |pool|
      invariant 0 <= i <= |pool| && |slots| == |have| == |base| == |hits|
      invariant Landed(base, ids, slots, hits, pool[..i], short) && count == Ones(hits)
      invariant forall p :: 0 <= p < |base| ==> have[p] == (hits[p] > 0)
    {
      var id := short(pool[i]);
      assert pool[..i + 1] == pool[..i] + [pool[i]];
      if id in ids {
        var p := ids[id];
        LandsAt(base, ids, slots, hits, pool[..i], short, pool[i]);
        OnesUpdate(hits, p, hits[p] + 1);
        if !have[p] {
          slots, have, count := slots[p := Some(pool[i])], have[p := true], count + 1;
        } else if slots[p].Some? {
          slots, count := slots[p := None], count - 1;
        } else {
          assert slots[p := None] == slots;
        }
        hits := hits[p := hits[p] + 1];
      } else {
        LandsNowhere(base, ids, slots, hits, pool[..i], short, pool[i]);
      }
      i := i + 1;
      if count == |ids| { break; }
    }
    n := i;
  }

  lemma NothingLanded(base: Slots, ids: map<nat, nat>, hits: seq<nat>, short: Tx -> nat)
    requires |hits| == |base| && forall p :: 0 <= p < |hits| ==> hits[p] == 0
    ensures Landed(base, ids, base, hits, [], short)
  {
  }

  // ---- up to 65536 transactions ----

  lemma MappedAt(m: Message, base: Slots, ids: map<nat, nat>, i: nat, j: nat, t: Tx, short: Tx -> nat)
    requires |base| <= U16 && Mapped(ids, m.shortIds, base) && Distinct(m.shortIds) && FreeCount(base) == |m.shortIds|
    requires IsFreeSlot(base, i, j) && i < |m.shortIds|
    ensures Lands(ids, short, t) == Some(j) <==> short(t) == m.shortIds[i]
  {
    hide FreeCount, Distinct, MappedUpTo;
    MappedTo(m.shortIds, base, ids, i, j);
    if Lands(ids, short, t) == Some(j) {
      var k: nat :| k < |m.shortIds| && m.shortIds[k] == short(t);
      var j' := FreeSlotExists(base, k);
      MappedTo(m.shortIds, base, ids, k, j');
    }
  }

  /** Up to 65536 slots nothing is cut. */
  lemma MappedTo(shortIds: seq<nat>, base: Slots, ids: map<nat, nat>, i: nat, j: nat)
    requires |base| <= U16 && Mapped(ids, shortIds, base) && IsFreeSlot(base, i, j) && i < |shortIds|
    ensures shortIds[i] in ids && ids[shortIds[i]] == j
  {
    hide FreeCount;
    assert j % U16 == j;
  }

  lemma NothingForPrefilled(m: Message, base: Slots, ids: map<nat, nat>, p: nat, t: Tx, short: Tx -> nat)
    requires |base| <= U16 && Mapped(ids, m.shortIds, base) && FreeCount(base) == |m.shortIds|
    requires p < |base| && base[p].Some?
    ensures Lands(ids, short, t) != Some(p)
  {
    hide FreeCount;
    if short(t) in ids {
      var k: nat :| k < |m.shortIds| && m.shortIds[k] == short(t);
      var j := FreeSlotExists(base, k);
    }
  }

  lemma {:induction false} HitsMatch(m: Message, base: Slots, ids: map<nat, nat>, i: nat, j: nat, pool: seq<Tx>,
          short: Tx -> nat)
    requires |base| <= U16 && Mapped(ids, m.shortIds, base) && Distinct(m.shortIds) && FreeCount(base) == |m.shortIds|
    requires IsFreeSlot(base, i, j) && i < |m.shortIds|
    ensures HitsAt(pool, ids, short, j) == Hits(pool, short, m.shortIds[i])
    ensures Held(pool, ids, short, j, base[j]) == Match(pool, short, m.shortIds[i])
  {
    hide FreeCount, Mapped, Distinct;
    if pool != [] {
      HitsMatch(m, base, ids, i, j, pool[..|pool| - 1], short);
      MappedAt(m, base, ids, i, j, pool[|pool| - 1], short);
    }
  }

  lemma {:induction false} NoHitsForPrefilled(m: Message, base: Slots, ids: map<nat, nat>, p: nat, pool: seq<Tx>,
          short: Tx -> nat)
    requires |base| <= U16 && Mapped(ids, m.shortIds, base) && FreeCount(base) == |m.shortIds|
    requires p < |base| && base[p].Some?
    ensures HitsAt(pool, ids, short, p) == 0
  {
    hide FreeCount, Mapped;
    if pool != [] {
      NoHitsForPrefilled(m, base, ids, p, pool[..|pool| - 1], short);
      NothingForPrefilled(m, base, ids, p, pool[|pool| - 1], short);
    }
  }

  lemma FreeIndex(base: Slots, j: nat)
    requires j < |base| && base[j].None?
    ensures FreeCount(base[..j]) < FreeCount(base) && IsFreeSlot(base, FreeCount(base[..j]), j)
  {
    FreeCountSnoc(base, j);
    FreeCountMonotonic(base, j + 1, |base|);
    assert base[..|base|] == base;
  }

  /** Where slot numbers fit 16 bits, each slot with a short id holds its match. */
  lemma LandedScanned(m: Message, base: Slots, ids: map<nat, nat>, slots: Slots, hits: seq<nat>, pool: seq<Tx>,
          short: Tx -> nat)
    requires |base| <= U16 && Mapped(ids, m.shortIds, base) && Distinct(m.shortIds) && FreeCount(base) == |m.shortIds|
    requires Landed(base, ids, slots, hits, pool, short)
    ensures Scanned(base, m.shortIds, slots, pool, short)
    ensures FreeCount(slots) == |m.shortIds| - Ones(hits)
  {
    hide FreeCount, Mapped, Distinct, HitsAt, Held, Hits, Match;
    forall p | 0 <= p < |base| && base[p].Some? ensures slots[p] == base[p] && hits[p] == 0 {
      NoHitsForPrefilled(m, base, ids, p, pool, short);
      HeldByHits(pool, ids, short, p, base[p]);
    }
    forall i, j | IsFreeSlot(base, i, j) && i < |m.shortIds| ensures slots[j] == Match(pool, short, m.shortIds[i]) {
      HitsMatch(m, base, ids, i, j, pool, short);
    }
    forall p | 0 <= p < |base| && base[p].None? ensures slots[p].None? <==> hits[p] != 1 {
      HeldByHits(pool, ids, short, p, base[p]);
    }
    FreeAndOnes(base, slots, hits);
  }

  lemma {:induction false} FreeAndOnes(base: Slots, slots: Slots, hits: seq<nat>)
    requires |base| == |slots| == |hits|
    requires forall p :: 0 <= p < |base| && base[p].Some? ==> slots[p].Some? && hits[p] == 0
    requires forall p :: 0 <= p < |base| && base[p].None? ==> (slots[p].None? <==> hits[p] != 1)
    ensures FreeCount(slots) + Ones(hits) == FreeCount(base)
  {
    if base != [] { FreeAndOnes(base[1..], slots[1..], hits[1..]); }
  }

  // ---- filling the block ----

  /** The slots with the missing transactions put in, in order: defined when there
      are exactly as many as free slots. */
  function Filled(slots: Slots, missing: seq<Tx>): (r: Option<seq<Tx>>)
    ensures r.Some? <==> |missing| == FreeCount(slots)
    ensures r.Some? ==> |r.value| == |slots|
    ensures r.Some? ==> forall j :: 0 <= j < |slots| && slots[j].Some? ==> r.value[j] == slots[j].value
  {
    if slots == [] then (if missing == [] then Some([]) else None)
    else if slots[0].Some? then
      match Filled(slots[1..], missing) {
        case None => None
        case Some(rest) => Some([slots[0].value] + rest)
      }
    else if missing == [] then None
    else
      match Filled(slots[1..], missing[1..]) {
        case None => None
        case Some(rest) => Some([missing[0]] + rest)
      }
  }

  /** The transactions of the block at the free slots, in order. */
  function Missing(slots: Slots, block: seq<Tx>): seq<Tx>
    requires |slots| == |block|
  {
    if slots == [] then []
    else (if slots[0].Some? then [] else [block[0]]) + Missing(slots[1..], block[1..])
  }

  ghost predicate Agrees(slots: Slots, block: seq<Tx>) {
    |slots| == |block| && forall j :: 0 <= j < |slots| && slots[j].Some? ==> slots[j].value == block[j]
  }

  lemma {:induction false} FillsBack(slots: Slots, block: seq<Tx>)
    requires Agrees(slots, block)
    ensures Filled(slots, Missing(slots, block)) == Some(block)
  {
    if slots != [] {
      FillsBack(slots[1..], block[1..]);
      assert block == [block[0]] + block[1..];
      var rest := Missing(slots[1..], block[1..]);
      assert ([] + rest) == rest && ([block[0]] + rest)[1..] == rest;
    }
  }

  /** Nothing else than the missing transactions fills the slots to that block. */
  lemma {:induction false} FilledUnique(slots: Slots, missing: seq<Tx>)
    requires Filled(slots, missing).Some?
    ensures missing == Missing(slots, Filled(slots, missing).value)
  {
    if slots != [] {
      var block := Filled(slots, missing).value;
      var rest := if slots[0].Some? then missing else missing[1..];
      FilledUnique(slots[1..], rest);
      assert block[1..] == Filled(slots[1..], rest).value;
    }
  }

  // ---- the whole exchange ----

  /** The message tells of the block: its prefilled transactions are the block's,
      and the i-th short id is that of the transaction at the i-th free slot. */
  ghost predicate Describes(m: Message, block: seq<Tx>, short: Tx -> nat) {
    && m.Count() == |block|
    && (forall k :: 0 <= k < |m.prefilled| ==>
          0 <= At(m.prefilled, k) < |block| && m.prefilled[k].tx == block[At(m.prefilled, k)])
    && (forall base :: Holds(base, m.prefilled, |m.prefilled|) && |base| == |block| ==>
          ShortIdsOf(base, m.shortIds, block, short))
  }

  ghost predicate ShortIdsOf(base: Slots, shortIds: seq<nat>, block: seq<Tx>, short: Tx -> nat)
    requires |base| == |block|
  {
    forall i, j :: IsFreeSlot(base, i, j) && i < |shortIds| ==> shortIds[i] == short(block[j])
  }

  /** Slots as InitData leaves them. */
  ghost predicate Ready(m: Message, pool: seq<Tx>, short: Tx -> nat, slots: Slots, count: int, base: Slots, n: nat) {
    && n <= |pool| && |base| == m.Count() && Holds(base, m.prefilled, |m.prefilled|) && FreeCount(base) == |m.shortIds|
    && Scanned(base, m.shortIds, slots, pool[..n], short)
    && FreeCount(slots) == |m.shortIds| - count && (n == |pool| || count == |m.shortIds|)
  }

  /** The same for messages of any length. */
  ghost predicate Settled(m: Message, pool: seq<Tx>, short: Tx -> nat, slots: Slots, count: int,
                          base: Slots, ids: map<nat, nat>, hits: seq<nat>, n: nat) {
    && n <= |pool| && |base| == m.Count() && Holds(base, m.prefilled, |m.prefilled|) && FreeCount(base) == |m.shortIds|
    && Mapped(ids, m.shortIds, base) && Distinct(m.shortIds)
    && Landed(base, ids, slots, hits, pool[..n], short) && count == Ones(hits)
    && (n == |pool| || count == |m.shortIds|) && (n == 0 ==> pool == [])
  }

  lemma SettledReady(m: Message, pool: seq<Tx>, short: Tx -> nat, slots: Slots, count: int,
                     base: Slots, ids: map<nat, nat>, hits: seq<nat>, n: nat)
    requires Settled(m, pool, short, slots, count, base, ids, hits, n) && m.Count() <= U16
    ensures Ready(m, pool, short, slots, count, base, n)
  {
    hide FreeCount, Mapped, Distinct, Landed, Scanned, Holds;
    LandedScanned(m, base, ids, slots, hits, pool[..n], short);
  }

  /** A pool transaction with the short id of one of the block is that one. */
  ghost predicate TrueMatches(pool: seq<Tx>, block: seq<Tx>, short: Tx -> nat) {
    forall t, j :: t in pool && 0 <= j < |block| && short(t) == short(block[j]) ==> t == block[j]
  }

  /** What is available belongs to the block, and with what is missing the block
      is rebuilt exactly. */
  lemma Reconstructs(m: Message, block: seq<Tx>, pool: seq<Tx>, short: Tx -> nat, slots: Slots, count: int, base: Slots,
          n: nat)
    requires Describes(m, block, short) && Ready(m, pool, short, slots, count, base, n)
             && TrueMatches(pool, block, short)
    ensures Agrees(slots, block) && Filled(slots, Missing(slots, block)) == Some(block)
    ensures |Missing(slots, block)| == |m.shortIds| - count
  {
    hide FreeCount, Filled, Missing, At;
    assert ShortIdsOf(base, m.shortIds, block, short);
    forall j | 0 <= j < |slots| && slots[j].Some? ensures slots[j].value == block[j] {
      if base[j].Some? {
        var k :| 0 <= k < |m.prefilled| && At(m.prefilled, k) == j;
      } else {
        FreeIndex(base, j);
      }
    }
    FillsBack(slots, block);
  }

  /** The last slot of an acceptable message of more than 65536 transactions is free. */
  lemma LastSlotFree(m: Message, base: Slots)
    requires AllAcceptable(m) && m.Count() > U16 && |base| == m.Count() && Holds(base, m.prefilled, |m.prefilled|)
    requires FreeCount(base) == |m.shortIds|
    ensures IsFreeSlot(base, |m.shortIds| - 1, m.Count() - 1)
  {
    var j := m.Count() - 1;
    forall k | 0 <= k < |m.prefilled| ensures At(m.prefilled, k) != j { assert Acceptable(m, k); }
    assert base[j].None?;
    FreeCountSnoc(base, j);
    assert base[..|base|] == base;
  }

  /** Beyond 65536 transactions the block is not rebuilt: of a pool that holds just
      the last transaction, a true match, that one is put into another's slot. */
  lemma MisplacedBeyond(m: Message, block: seq<Tx>, short: Tx -> nat, slots: Slots, count: int,
                        base: Slots, ids: map<nat, nat>, hits: seq<nat>, n: nat)
    requires Describes(m, block, short) && AllAcceptable(m) && m.Count() > U16
    requires block[|block| - 1] !in block[..|block| - 1]
    requires Settled(m, [block[|block| - 1]], short, slots, count, base, ids, hits, n)
    ensures !Agrees(slots, block)
  {
    hide FreeCount, At, Holds, Distinct;
    var j := |block| - 1;
    LastSlotFree(m, base);
    assert ShortIdsOf(base, m.shortIds, block, short);
    var p := ids[short(block[j])];
    assert p == j % U16 < j;
    assert [block[j]][..n] == [block[j]] && [block[j]][..0] == [];
    assert HitsAt([], ids, short, p) == 0;
    assert slots[p] == Some(block[j]);
    assert block[..j][p] == block[p];
  }

  /** The message made from a block: its first transaction prefilled. */
  method MakeMessage(block: seq<Tx>, short: Tx -> nat) returns (m: Message)
    requires block != []
    ensures Describes(m, block, short) && !m.headerIsNull && m.prefilled == [Prefilled(0, block[0])]
    ensures m.shortIds == seq(|block| - 1, i requires 0 <= i < |block| - 1 => short(block[i + 1]))
  {
    var ids: seq<nat> := [];
    var i := 1;
    while i < |block|
      invariant 1 <= i <= |block| && |ids| == i - 1
      invariant forall k :: 0 <= k < i - 1 ==> ids[k] == short(block[k + 1])
    {
      ids := ids + [short(block[i])];
      i := i + 1;
    }
    m := Message(false, ids, [Prefilled(0, block[0])]);
    forall base | Holds(base, m.prefilled, 1) && |base| == |block| ensures ShortIdsOf(base, ids, block, short) {
      FirstHeld(base, m.prefilled);
    }
  }

  lemma FirstHeld(base: Slots, pre: seq<Prefilled>)
    requires |pre| == 1 && pre[0].index == 0 && Holds(base, pre, 1) && base != []
    ensures forall i, j :: IsFreeSlot(base, i, j) ==> i == j - 1
  {
    assert At(pre, 0) == 0;
    forall i, j | IsFreeSlot(base, i, j) ensures i == j - 1 {
      assert base[..j] == [base[0]] + base[1..j];
      FreeCountConcat([base[0]], base[1..j]);
      forall k | 0 <= k < j - 1 ensures base[1..j][k].None? { assert base[k + 1].None?; }
      NoneFree(base[1..j]);
    }
  }

  datatype Checked = Passes | Corrupt | Fails

  class PartialBlock {
    var headerIsNull: bool
    var available: Slots
    var prefilledCount: nat
    var mempoolCount: int

    constructor ()
      ensures headerIsNull && available == [] && prefilledCount == 0 && mempoolCount == 0
    {
      headerIsNull, available, prefilledCount, mempoolCount := true, [], 0, 0;
    }

    /** Accepts exactly the messages that are not empty or too long, whose
        prefilled transactions are acceptable and fewer than 65536 beside short
        ids, and whose short ids are distinct and not crowded. */
    method InitData(m: Message, maxTxns: nat, crowded: nat -> bool, pool: seq<Tx>, short: Tx -> nat)
      returns (status: Status)
      requires headerIsNull && available == [] && mempoolCount == 0
      modifies this
      ensures status == Invalid <==> m.headerIsNull || m.Count() == 0 || m.Count() > maxTxns || !AllAcceptable(m)
      ensures status == Hangs <==> status != Invalid && m.shortIds != [] && |m.prefilled| == U16
      ensures status == Ok <==>
        && status != Invalid && status != Hangs
        && Distinct(m.shortIds) && forall i :: 0 <= i < |m.shortIds| ==> !crowded(i)
      ensures status == Ok ==> !headerIsNull && prefilledCount == |m.prefilled|
      ensures status == Ok ==>
        exists base, ids, hits, n :: Settled(m, pool, short, available, mempoolCount, base, ids, hits, n)
    {
      hide Distinct, FreeCount, At, Holds, Landed, Mapped, AllAcceptable, Ones;
      if m.headerIsNull || m.Count() == 0 { return Invalid; }
      if m.Count() > maxTxns { return Invalid; }
      headerIsNull := m.headerIsNull;
      var ok, base := PlacePrefilled(m);
      available := base;
      if !ok { return Invalid; }
      prefilledCount := |m.prefilled|;
      var mapped, ids := MapShortIds(m, base, crowded);
      if mapped != Ok { return mapped; }
      InBounds(ids, m.shortIds, base);
      ghost var n, hits;
      available, mempoolCount, n, hits := ScanPool(base, ids, pool, short);
      assert Settled(m, pool, short, available, mempoolCount, base, ids, hits, n);
      status := Ok;
    }

    /** The block from what is available and what was sent for. */
    method FillBlock(missing: seq<Tx>, check: seq<Tx> -> Checked) returns (status: Status, block: seq<Tx>)
      requires !headerIsNull
      ensures status == Ok <==> Filled(available, missing).Some? && check(Filled(available, missing).value) == Passes
      ensures status == Failed <==>
              Filled(available, missing).Some? && check(Filled(available, missing).value) == Corrupt
      ensures status == Ok ==> Filled(available, missing) == Some(block)
    {
      block := [];
      var offset := 0;
      var i := 0;
      assert available[0..] == available && missing[0..] == missing;
      FilledStart(available, missing);
      while i < |available|
        invariant 0 <= i <= |available| && 0 <= offset <= |missing|
        invariant FilledFrom(block, available[i..], missing[offset..]) == Filled(available, missing)
      {
        assert available[i..][1..] == available[i + 1..];
        if available[i].None? {
          if |missing| <= offset { return Invalid, block; }
          assert missing[offset..][1..] == missing[offset + 1..];
          FilledStep(block, missing[offset], available[i + 1..], missing[offset + 1..]);
          block := block + [missing[offset]];
          offset := offset + 1;
        } else {
          FilledStep(block, available[i].value, available[i + 1..], missing[offset..]);
          block := block + [available[i].value];
        }
        i := i + 1;
      }
      if |missing| != offset { return Invalid, block; }
      assert block + [] == block;
      status := match check(block) { case Passes => Ok case Corrupt => Failed case Fails => Invalid };
    }
  }

  /** A block of at most 65536 transactions goes over: the message made of it, what
      the pool has, and what was asked for give it back, exactly when its short ids
      are distinct and not crowded and it passes the check. */
  method Relay(block: seq<Tx>, maxTxns: nat, crowded: nat -> bool, pool: seq<Tx>, short: Tx -> nat,
          check: seq<Tx> -> Checked)
    returns (status: Status, received: seq<Tx>)
    requires 0 < |block| <= U16 && |block| <= maxTxns && !block[0].isNull && TrueMatches(pool, block, short)
    ensures var ids := seq(|block| - 1, i requires 0 <= i < |block| - 1 => short(block[i + 1]));
      status == Ok <==>
        Distinct(ids) && (forall i :: 0 <= i < |ids| ==> !crowded(i)) && check(block) == Passes
    ensures status == Ok ==> received == block
  {
    hide Distinct, Describes, Settled, Ready, TrueMatches, Filled;
    received := [];
    var m := MakeMessage(block, short);
    MadeAcceptable(m, block);
    var p := new PartialBlock();
    status := p.InitData(m, maxTxns, crowded, pool, short);
    if status != Ok { return; }
    ghost var base, ids, hits, n :| Settled(m, pool, short, p.available, p.mempoolCount, base, ids, hits, n);
    SettledReady(m, pool, short, p.available, p.mempoolCount, base, ids, hits, n);
    Reconstructs(m, block, pool, short, p.available, p.mempoolCount, base, n);
    status, received := p.FillBlock(Missing(p.available, block), check);
  }

  lemma MadeAcceptable(m: Message, block: seq<Tx>)
    requires block != [] && !block[0].isNull && m.prefilled == [Prefilled(0, block[0])] && |m.shortIds| == |block| - 1
    ensures AllAcceptable(m) && m.Count() == |block|
  {
  }

  /** The rest of the block behind what is already there. */
  ghost function FilledFrom(block: seq<Tx>, slots: Slots, missing: seq<Tx>): Option<seq<Tx>> {
    match Filled(slots, missing)
    case None => None
    case Some(rest) => Some(block + rest)
  }

  lemma FilledStart(slots: Slots, missing: seq<Tx>)
    ensures FilledFrom([], slots, missing) == Filled(slots, missing)
  {
    if Filled(slots, missing).Some? { assert [] + Filled(slots, missing).value == Filled(slots, missing).value; }
  }

  lemma FilledStep(block: seq<Tx>, t: Tx, slots: Slots, missing: seq<Tx>)
    ensures FilledFrom(block + [t], slots, missing) ==
      match Filled(slots, missing) case None => None case Some(rest) => Some(block + ([t] + rest))
  {
    if Filled(slots, missing).Some? {
      assert block + [t] + Filled(slots, missing).value == block + ([t] + Filled(slots, missing).value);
    }
  }

  lemma InBounds(ids: map<nat, nat>, shortIds: seq<nat>, base: Slots)
    requires Mapped(ids, shortIds, base) && FreeCount(base) == |shortIds|
    ensures forall id :: id in ids ==> ids[id] < |base|
  {
    hide FreeCount;
    forall id | id in ids ensures ids[id] < |base| {
      var i: nat :| i < |shortIds| && shortIds[i] == id;
      var j := FreeSlotExists(base, i);
    }
  }

  // ---- which transactions are asked for ----

  predicate Ascends(ix: seq<nat>) {
    forall i :: 0 < i < |ix| ==> ix[i - 1] < ix[i]
  }

  /** What is written for index i: its distance to the one after the previous, in
      64-bit arithmetic. */
  function Difference(ix: seq<nat>, i: nat): nat
    requires i < |ix|
  {
    (ix[i] - if i == 0 then 0 else ix[i - 1] + 1) % U64
  }

  function Differences(ix: seq<nat>): seq<nat> {
    seq(|ix|, i requires 0 <= i < |ix| => Difference(ix, i))
  }

  method WriteIndexes(ix: seq<nat>) returns (out: seq<nat>)
    requires forall i :: 0 <= i < |ix| ==> ix[i] < U16
    ensures out == Differences(ix)
  {
    out := [];
    var i := 0;
    while i < |ix|
      invariant 0 <= i <= |ix| && |out| == i
      invariant forall k :: 0 <= k < i ==> out[k] == Difference(ix, k)
    {
      out := out + [(ix[i] - if i == 0 then 0 else ix[i - 1] + 1) % U64];
      i := i + 1;
    }
  }

  /** The reader rebuilds the indexes in place, in an offset of 16 bits. */
  function ReadFrom(d: seq<nat>, offset: nat): Option<seq<nat>> {
    if d == [] then Some([])
    else if d[0] + offset >= U16 then None
    else
      match ReadFrom(d[1..], (d[0] + offset + 1) % U16)
      case None => None
      case Some(rest) => Some([d[0] + offset] + rest)
  }

  method ReadIndexes(message: seq<nat>) returns (r: Option<seq<nat>>)
    ensures r == ReadFrom(message, 0)
  {
    hide ReadFrom;
    var indexes := new nat[|message|];
    var i := 0;
    while i < |message|
      invariant 0 <= i <= |message| && indexes[..i] == message[..i]
      invariant forall k :: 0 <= k < i ==> message[k] < U16
    {
      if message[i] >= U16 {
        Oversized(message, 0, i);
        return None;
      }
      indexes[i] := message[i];
      assert indexes[..i + 1] == message[..i + 1];
      i := i + 1;
    }
    assert indexes[..] == message;
    var offset: nat := 0;
    i := 0;
    ghost var done: seq<nat> := [];
    IndexesStart(message);
    while i < |message|
      invariant 0 <= i <= |message| && offset < U16
      invariant done == indexes[..i] && indexes[i..] == message[i..]
      invariant Behind(done, ReadFrom(message[i..], offset)) == ReadFrom(message, 0)
    {
      assert indexes[i] == indexes[i..][0];
      ReadFromStep(message, i, offset);
      if indexes[i] + offset >= U16 { return None; }
      indexes[i] := indexes[i] + offset;
      offset := (indexes[i] + 1) % U16;
      BehindStep(done, indexes[i], ReadFrom(message[i + 1..], offset));
      done := done + [indexes[i]];
      i := i + 1;
    }
    assert message[i..] == [] && done + [] == done == indexes[..];
    ReadFromEnd(offset);
    r := Some(indexes[..]);
  }

  lemma ReadFromStep(d: seq<nat>, i: nat, offset: nat)
    requires i < |d|
    ensures ReadFrom(d[i..], offset) ==
      if d[i] + offset >= U16 then None else Behind([d[i] + offset], ReadFrom(d[i + 1..], (d[i] + offset + 1) % U16))
  {
    assert d[i..][1..] == d[i + 1..];
  }

  lemma ReadFromEnd(offset: nat)
    ensures ReadFrom([], offset) == Some([])
  {
  }

  ghost function Behind(done: seq<nat>, r: Option<seq<nat>>): Option<seq<nat>> {
    match r
    case None => None
    case Some(rest) => Some(done + rest)
  }

  lemma BehindStep(done: seq<nat>, x: nat, r: Option<seq<nat>>)
    ensures Behind(done + [x], r) == Behind(done, Behind([x], r))
  {
    if r.Some? { assert done + [x] + r.value == done + ([x] + r.value); }
  }

  lemma IndexesStart(message: seq<nat>)
    ensures message[0..] == message && Behind([], ReadFrom(message, 0)) == ReadFrom(message, 0)
  {
    if ReadFrom(message, 0).Some? { assert [] + ReadFrom(message, 0).value == ReadFrom(message, 0).value; }
  }

  lemma {:induction false} Oversized(d: seq<nat>, offset: nat, i: nat)
    requires i < |d| && d[i] >= U16
    ensures ReadFrom(d, offset).None?
  {
    if i > 0 { Oversized(d[1..], (d[0] + offset + 1) % U16, i - 1); }
  }

  ghost predicate AscendsFrom(ix: seq<nat>, i: nat) {
    forall k :: 0 < k < |ix| && i <= k ==> ix[k - 1] < ix[k]
  }

  lemma {:induction false} IndexesFrom(ix: seq<nat>, i: nat)
    requires i <= |ix| && forall k :: 0 <= k < |ix| ==> ix[k] < U16
    ensures ReadFrom(Differences(ix)[i..], if i == 0 then 0 else (ix[i - 1] + 1) % U16) ==
      if AscendsFrom(ix, i) then Some(ix[i..]) else None
    decreases |ix| - i
  {
    hide Difference;
    if i < |ix| {
      var d := Differences(ix);
      assert d[i..][0] == Difference(ix, i) && d[i..][1..] == d[i + 1..];
      assert ix[i..] == [ix[i]] + ix[i + 1..];
      IndexesFrom(ix, i + 1);
      DifferenceValue(ix, i);
      assert AscendsFrom(ix, i) <==> AscendsFrom(ix, i + 1) && (i == 0 || ix[i - 1] < ix[i]);
    }
  }

  lemma DifferenceValue(ix: seq<nat>, i: nat)
    requires i < |ix| && ix[i] < U16 && (i > 0 ==> ix[i - 1] < U16)
    ensures if i > 0 && ix[i] <= ix[i - 1] then Difference(ix, i) >= U16
            else Difference(ix, i) + (if i == 0 then 0 else (ix[i - 1] + 1) % U16) == ix[i]
  {
  }

  /** A request comes back as it was exactly when its indexes ascend strictly;
      otherwise the reader refuses it. */
  lemma RequestRoundTrip(ix: seq<nat>)
    requires forall i :: 0 <= i < |ix| ==> ix[i] < U16
    ensures ReadFrom(Differences(ix), 0) == if Ascends(ix) then Some(ix) else None
  {
    IndexesFrom(ix, 0);
    assert Differences(ix)[0..] == Differences(ix) && ix[0..] == ix;
    assert Ascends(ix) <==> AscendsFrom(ix, 0);
  }
}
