/** The rolling Bloom filter (CRollingBloomFilter, src/bloom.cpp): two bits per
    position tag it with one of three generations, and starting a generation
    wipes the oldest with a mask. */
module RollingBloom {
  import opened Common

  type Key = seq<byte>

  // ---- words ----

  predicate Bit(x: bv64, i: bv6) {
    (x >> i) & 1 == 1
  }

  /** -(uint64_t)b. */
  function Ones(b: bool): bv64 { if b then !0 else 0 }

  /** x with bit i replaced. */
  function WithBit(x: bv64, i: bv6, b: bool): bv64 {
    (x & !((1 as bv64) << i)) | ((if b then 1 else 0) << i)
  }

  lemma WithBitAt(x: bv64, i: bv6, b: bool, k: bv6)
    ensures Bit(WithBit(x, i, b), k) == if k == i then b else Bit(x, k)
  {
  }

  lemma EitherBit(p1: bv64, p2: bv64, i: bv6)
    ensures Bit(p1 | p2, i) <==> Bit(p1, i) || Bit(p2, i)
  {
  }

  lemma BothBits(p1: bv64, p2: bv64, i: bv6)
    ensures Bit(p1 & p2, i) <==> Bit(p1, i) && Bit(p2, i)
  {
  }

  /** A word under the wiping mask of its pair. */
  function Masked(x: bv64, p1: bv64, p2: bv64, g1: bool, g2: bool): bv64 {
    x & ((p1 ^ Ones(g1)) | (p2 ^ Ones(g2)))
  }

  lemma FlippedBit(p: bv64, g: bool, i: bv6)
    ensures Bit(p ^ Ones(g), i) <==> Bit(p, i) != g
  {
  }

  lemma MaskedAt(x: bv64, p1: bv64, p2: bv64, g1: bool, g2: bool, i: bv6)
    ensures Bit(Masked(x, p1, p2, g1, g2), i) == (Bit(x, i) && !(Bit(p1, i) == g1 && Bit(p2, i) == g2))
  {
    hide Bit, Ones;
    FlippedBit(p1, g1, i);
    FlippedBit(p2, g2, i);
    EitherBit(p1 ^ Ones(g1), p2 ^ Ones(g2), i);
    BothBits(x, (p1 ^ Ones(g1)) | (p2 ^ Ones(g2)), i);
  }

  /** Masking clears exactly the positions whose two bits spell the generation. */
  lemma WipeAt(p1: bv64, p2: bv64, g1: bool, g2: bool, i: bv6)
    ensures var hit := Bit(p1, i) == g1 && Bit(p2, i) == g2;
            && Bit(Masked(p1, p1, p2, g1, g2), i) == (Bit(p1, i) && !hit)
            && Bit(Masked(p2, p1, p2, g1, g2), i) == (Bit(p2, i) && !hit)
  {
    hide Bit, Masked;
    MaskedAt(p1, p1, p2, g1, g2, i);
    MaskedAt(p2, p1, p2, g1, g2, i);
  }

  // ---- positions ----

  /** A pair of words and a bit within them. */
  type Cell = (nat, bv6)

  function Tag(b1: bool, b2: bool): nat {
    (if b1 then 1 else 0) + (if b2 then 2 else 0)
  }

  /** The generation stored at a cell; 0 is none. */
  ghost function TagAt(data: seq<bv64>, c: Cell): nat
    requires 2 * c.0 + 1 < |data|
  {
    Tag(Bit(data[2 * c.0], c.1), Bit(data[2 * c.0 + 1], c.1))
  }

  /** Up to word p, cells of one generation have been cleared and no others. */
  ghost predicate WipedTo(before: seq<bv64>, after: seq<bv64>, generation: nat, p: nat) {
    && p <= |before| == |after|
    && (forall k :: p <= k < |before| ==> after[k] == before[k])
    && forall c: Cell :: 2 * c.0 + 1 < p ==>
      TagAt(after, c) == if TagAt(before, c) == generation then 0 else TagAt(before, c)
  }

  lemma WipePair(before: seq<bv64>, after: seq<bv64>, generation: nat, p: nat)
    requires WipedTo(before, after, generation, p) && p % 2 == 0 && p + 1 < |before| && 1 <= generation <= 3
    ensures var g1, g2, p1, p2 := generation % 2 == 1, generation / 2 == 1, after[p], after[p + 1];
            WipedTo(before, after[p := Masked(p1, p1, p2, g1, g2)][p + 1 := Masked(p2, p1, p2, g1, g2)],
                    generation, p + 2)
  {
    hide Bit, Masked;
    var g1, g2, p1, p2 := generation % 2 == 1, generation / 2 == 1, after[p], after[p + 1];
    var next := after[p := Masked(p1, p1, p2, g1, g2)][p + 1 := Masked(p2, p1, p2, g1, g2)];
    forall c: Cell | 2 * c.0 + 1 < p + 2
      ensures TagAt(next, c) == if TagAt(before, c) == generation then 0 else TagAt(before, c)
    {
      if 2 * c.0 + 1 < p {
        assert TagAt(next, c) == TagAt(after, c);
      } else {
        WipeAt(p1, p2, g1, g2, c.1);
      }
    }
  }

  method Wipe(data: array<bv64>, generation: nat)
    requires data.Length % 2 == 0 && 1 <= generation <= 3
    modifies data
    ensures WipedTo(old(data[..]), data[..], generation, data.Length)
  {
    hide Masked, WipedTo;
    var g1, g2 := generation % 2 == 1, generation / 2 == 1;
    ghost var before := data[..];
    WipeStart(before, generation);
    var p := 0;
    while p < data.Length
      invariant 0 <= p <= data.Length && p % 2 == 0
      invariant WipedTo(before, data[..], generation, p)
    {
      WipePair(before, data[..], generation, p);
      var p1, p2 := data[p], data[p + 1];
      ghost var now := data[..];
      data[p] := Masked(p1, p1, p2, g1, g2);
      data[p + 1] := Masked(p2, p1, p2, g1, g2);
      assert data[..] == now[p := Masked(p1, p1, p2, g1, g2)][p + 1 := Masked(p2, p1, p2, g1, g2)];
      p := p + 2;
    }
  }

  lemma WipeStart(data: seq<bv64>, generation: nat)
    ensures WipedTo(data, data, generation, 0)
  {
  }

  method SetTag(data: array<bv64>, c: Cell, generation: nat)
    requires 2 * c.0 + 1 < data.Length && 1 <= generation <= 3
    modifies data
    ensures forall k: Cell :: 2 * k.0 + 1 < data.Length ==>
            TagAt(data[..], k) == if k == c then generation else old(TagAt(data[..], k))
  {
    hide Bit, WithBit;
    var i := 2 * c.0;
    data[i] := WithBit(data[i], c.1, generation % 2 == 1);
    data[i + 1] := WithBit(data[i + 1], c.1, generation / 2 == 1);
    forall k: Cell | 2 * k.0 + 1 < data.Length
      ensures TagAt(data[..], k) == if k == c then generation else old(TagAt(data[..], k))
    {
      if k.0 == c.0 {
        WithBitAt(old(data[i]), c.1, generation % 2 == 1, k.1);
        WithBitAt(old(data[i + 1]), c.1, generation / 2 == 1, k.1);
      }
    }
  }

  // ---- what the tags mean ----

  /** Where hash function n sends a key. */
  function CellOf(hash: (nat, bv32, Key) -> bv32, tweak: bv32, size: nat, n: nat, key: Key): (c: Cell)
    requires size > 0 && size % 2 == 0
    ensures 2 * c.0 + 1 < size
  {
    var h := hash(n, tweak, key);
    var pos := ((h >> 6) as nat) % size;
    (pos / 2, (h & 0x3F) as bv6)
  }

  /** A tag shows the newest generation that hit the cell if that is the current
      one or one of the two before it, and nothing otherwise. */
  ghost predicate TagsShow(data: seq<bv64>, newest: map<Cell, nat>, age: nat) {
    forall c: Cell :: 2 * c.0 + 1 < |data| ==>
      TagAt(data, c) == if c in newest && newest[c] + 2 >= age then newest[c] % 3 + 1 else 0
  }

  /** Starting a generation forgets exactly the one three back. */
  lemma Rotated(before: seq<bv64>, after: seq<bv64>, newest: map<Cell, nat>, age: nat)
    requires TagsShow(before, newest, age) && WipedTo(before, after, (age + 1) % 3 + 1, |before|)
    requires |before| % 2 == 0 && forall c :: c in newest ==> newest[c] <= age
    ensures TagsShow(after, newest, age + 1)
  {
    hide TagAt;
    forall c: Cell | 2 * c.0 + 1 < |after|
      ensures TagAt(after, c) == if c in newest && newest[c] + 2 >= age + 1 then newest[c] % 3 + 1 else 0
    {
    }
  }

  /** Marking a cell with the current generation. */
  lemma MarkOne(before: seq<bv64>, after: seq<bv64>, newest: map<Cell, nat>, age: nat, cell: Cell)
    requires TagsShow(before, newest, age) && |before| == |after|
    requires forall k: Cell :: 2 * k.0 + 1 < |after| ==>
             TagAt(after, k) == if k == cell then age % 3 + 1 else TagAt(before, k)
    ensures TagsShow(after, newest[cell := age], age)
  {
  }

  /** What decides where keys go. */
  datatype Shape = Shape(hash: (nat, bv32, Key) -> bv32, tweak: bv32, size: nat, funcs: nat) {
    ghost predicate Ok() { size > 0 && size % 2 == 0 }

    ghost function Cells(n: nat, key: Key): set<Cell>
      requires Ok()
    {
      set k: nat | k < n :: CellOf(hash, tweak, size, k, key)
    }
  }

  ghost predicate Hits(sh: Shape, key: Key, c: Cell)
    requires sh.Ok()
  {
    c in sh.Cells(sh.funcs, key)
  }

  /** `newest` is the newest generation in which each cell was hit. */
  ghost predicate Recorded(sh: Shape, log: seq<Key>, generations: seq<nat>, newest: map<Cell, nat>, age: nat) {
    && sh.Ok() && |generations| == |log|
    && (forall c :: c in newest ==> newest[c] <= age)
    && (forall c :: c in newest ==> exists j :: 0 <= j < |log| && generations[j] == newest[c] && Hits(sh, log[j], c))
    && (forall j, c :: 0 <= j < |log| && Hits(sh, log[j], c) ==> c in newest && newest[c] >= generations[j])
  }

  lemma RecordOne(sh: Shape, log: seq<Key>, generations: seq<nat>, newest: map<Cell, nat>, next: map<Cell, nat>,
          age: nat, key: Key)
    requires Recorded(sh, log, generations, newest, age)
    requires forall c :: c in next <==> c in newest || Hits(sh, key, c)
    requires forall c :: c in next ==> next[c] == if Hits(sh, key, c) then age else newest[c]
    ensures Recorded(sh, log + [key], generations + [age], next, age)
  {
    hide Hits;
    var log', gens' := log + [key], generations + [age];
    forall c | c in next ensures exists j :: 0 <= j < |log'| && gens'[j] == next[c] && Hits(sh, log'[j], c) {
      if Hits(sh, key, c) {
        assert gens'[|log|] == next[c] && log'[|log|] == key;
      } else {
        var j :| 0 <= j < |log| && generations[j] == newest[c] && Hits(sh, log[j], c);
        assert gens'[j] == next[c] && log'[j] == log[j];
      }
    }
    forall j, c | 0 <= j < |log'| && Hits(sh, log'[j], c) ensures c in next && next[c] >= gens'[j] {
      if j < |log| { assert log'[j] == log[j]; }
    }
  }

  /** Some key of the current generation or the two before it hit the cell. */
  ghost predicate Live(sh: Shape, log: seq<Key>, generations: seq<nat>, age: nat, c: Cell)
    requires sh.Ok() && |generations| == |log|
  {
    exists j :: 0 <= j < |log| && generations[j] + 2 >= age && Hits(sh, log[j], c)
  }

  lemma NewestLive(sh: Shape, log: seq<Key>, generations: seq<nat>, newest: map<Cell, nat>, age: nat, c: Cell)
    requires Recorded(sh, log, generations, newest, age)
    ensures Live(sh, log, generations, age, c) <==> c in newest && newest[c] + 2 >= age
  {
    hide Hits;
    if Live(sh, log, generations, age, c) {
      var j :| 0 <= j < |log| && generations[j] + 2 >= age && Hits(sh, log[j], c);
      assert c in newest && newest[c] >= generations[j];
    }
  }

  lemma TagNewest(data: seq<bv64>, newest: map<Cell, nat>, age: nat, c: Cell)
    requires TagsShow(data, newest, age) && 2 * c.0 + 1 < |data|
    ensures Bit(data[2 * c.0], c.1) || Bit(data[2 * c.0 + 1], c.1) <==> c in newest && newest[c] + 2 >= age
  {
    hide Bit;
    assert TagAt(data, c) != 0 <==> c in newest && newest[c] + 2 >= age;
  }

  lemma TagLive(sh: Shape, log: seq<Key>, generations: seq<nat>, newest: map<Cell, nat>, age: nat, data: seq<bv64>,
          c: Cell)
    requires Recorded(sh, log, generations, newest, age) && TagsShow(data, newest, age) && 2 * c.0 + 1 < |data|
    ensures Bit(data[2 * c.0] | data[2 * c.0 + 1], c.1) <==> Live(sh, log, generations, age, c)
  {
    hide Bit, Live, TagsShow;
    EitherBit(data[2 * c.0], data[2 * c.0 + 1], c.1);
    NewestLive(sh, log, generations, newest, age, c);
    TagNewest(data, newest, age, c);
  }

  /** Generations are runs of e inserts; the current one has `current` so far. */
  ghost predicate Counted(log: seq<Key>, generations: seq<nat>, age: nat, e: nat, current: nat) {
    && e >= 1 && current <= e
    && |log| == Mul(age, e) + current
    && |generations| == |log|
    && (forall j :: 0 <= j < |log| ==> Mul(generations[j], e) <= j < Mul(generations[j] + 1, e))
  }

  lemma CountOne(log: seq<Key>, generations: seq<nat>, age: nat, e: nat, current: nat, key: Key)
    requires Counted(log, generations, age, e, current) && current < e
    ensures Counted(log + [key], generations + [age], age, e, current + 1)
  {
    hide Mul;
    NextMultiple(age, e);
    var gens' := generations + [age];
    forall j | 0 <= j < |gens'| ensures Mul(gens'[j], e) <= j < Mul(gens'[j] + 1, e) {
      if j < |generations| { assert gens'[j] == generations[j]; }
    }
  }

  lemma RecentGeneration(g: nat, age: nat, e: nat, j: nat, total: nat, current: nat)
    requires total == Mul(age, e) + current && j < Mul(g + 1, e) && j + 2 * e >= total && e >= 1
    ensures g + 2 >= age
  {
    NextMultiple(g + 1, e);
    NextMultiple(g + 2, e);
    if g + 3 <= age { MulMonotonic(g + 3, age, e); }
  }

  class Filter {
    const nHashFuncs: nat
    const nEntriesPerGeneration: nat
    const data: array<bv64>
    const hash: (nat, bv32, Key) -> bv32
    var nEntriesThisGeneration: nat
    var nGeneration: nat
    var nTweak: bv32

    /** Keys inserted since the last reset, with the generation each fell in. */
    ghost var log: seq<Key>
    ghost var generations: seq<nat>
    ghost var age: nat
    ghost var newest: map<Cell, nat>

    ghost function Sh(): Shape
      reads this`nTweak
    {
      Shape(hash, nTweak, data.Length, nHashFuncs)
    }

    ghost predicate Valid()
      reads this, data
    {
      && Counted(log, generations, age, nEntriesPerGeneration, nEntriesThisGeneration)
      && Recorded(Sh(), log, generations, newest, age)
      && TagsShow(data[..], newest, age)
      && nGeneration == age % 3 + 1
    }

    /** The sizes come from the wanted false-positive rate. */
    constructor (nElements: nat, hashFuncs: nat, pairs: nat, hash: (nat, bv32, Key) -> bv32, tweak: bv32)
      requires nElements >= 1 && pairs >= 1
      ensures Valid() && log == [] && nHashFuncs == hashFuncs && nEntriesPerGeneration == (nElements + 1) / 2
              && fresh(data)
    {
      nHashFuncs := hashFuncs;
      nEntriesPerGeneration := (nElements + 1) / 2;
      data := new bv64[2 * pairs](i => 0);
      this.hash := hash;
      nEntriesThisGeneration, nGeneration, nTweak := 0, 1, tweak;
      log, generations, age, newest := [], [], 0, map[];
      new;
      ZeroTags(data[..]);
    }

    method Reset(tweak: bv32)
      requires Valid()
      modifies this, data
      ensures Valid() && log == []
    {
      nTweak, nEntriesThisGeneration, nGeneration := tweak, 0, 1;
      for i := 0 to data.Length
        invariant forall k :: 0 <= k < i ==> data[k] == 0
        invariant nTweak == tweak && nEntriesThisGeneration == 0 && nGeneration == 1
      {
        data[i] := 0;
      }
      log, generations, age, newest := [], [], 0, map[];
      ZeroTags(data[..]);
    }

    /** Starts a new generation when the current one is full. */
    method Rotate()
      requires Valid() && nEntriesThisGeneration == nEntriesPerGeneration
      modifies this`nEntriesThisGeneration, this`nGeneration, this`age, data
      ensures Valid() && nEntriesThisGeneration == 0 && age == old(age) + 1
    {
      hide TagsShow, WipedTo, Mul;
      nEntriesThisGeneration := 0;
      nGeneration := nGeneration + 1;
      if nGeneration == 4 { nGeneration := 1; }
      ghost var before := data[..];
      Wipe(data, nGeneration);
      Rotated(before, data[..], newest, age);
      NextMultiple(age, nEntriesPerGeneration);
      age := age + 1;
    }

    method Insert(key: Key)
      requires Valid()
      modifies this, data
      ensures Valid() && log == old(log) + [key] && nTweak == old(nTweak)
    {
      hide TagsShow, Recorded, Counted, TagAt, Hits;
      NotEmpty(log, generations, age, nEntriesPerGeneration, nEntriesThisGeneration);
      if nEntriesThisGeneration == nEntriesPerGeneration { Rotate(); }
      NotEmpty(log, generations, age, nEntriesPerGeneration, nEntriesThisGeneration);
      CountOne(log, generations, age, nEntriesPerGeneration, nEntriesThisGeneration, key);
      nEntriesThisGeneration := nEntriesThisGeneration + 1;
      Mark(key);
      log, generations := log + [key], generations + [age];
    }

    /** The loop over the hash functions. */
    method Mark(key: Key)
      requires Recorded(Sh(), log, generations, newest, age) && TagsShow(data[..], newest, age)
               && nGeneration == age % 3 + 1
      modifies this`newest, data
      ensures TagsShow(data[..], newest, age) && Recorded(Sh(), log + [key], generations + [age], newest, age)
    {
      ghost var before, sh := newest, Sh();
      hide TagsShow, Recorded, TagAt;
      ShapeOk(sh, log, generations, newest, age);
      for n := 0 to nHashFuncs
        invariant TagsShow(data[..], newest, age)
        invariant forall c :: c in newest <==> c in before || c in sh.Cells(n, key)
        invariant forall c :: c in newest ==> newest[c] == if c in sh.Cells(n, key) then age else before[c]
      {
        var c := CellOf(hash, nTweak, data.Length, n, key);
        assert sh.Cells(n + 1, key) == sh.Cells(n, key) + {c};
        ghost var words := data[..];
        SetTag(data, c, nGeneration);
        MarkOne(words, data[..], newest, age, c);
        newest := newest[c := age];
      }
      RecordOne(sh, log, generations, before, newest, age, key);
    }

    /** Exactness: a key is reported if and only if every one of its cells was
        hit in the current generation or the two before it. */
    method Contains(key: Key) returns (r: bool)
      requires Valid()
      ensures Sh().Ok() && |generations| == |log|
      ensures r <==> forall c :: Hits(Sh(), key, c) ==> Live(Sh(), log, generations, age, c)
    {
      ghost var sh := Sh();
      hide TagsShow, Recorded, Bit, Live;
      ShapeOk(sh, log, generations, newest, age);
      for n := 0 to nHashFuncs
        invariant forall c :: c in sh.Cells(n, key) ==> Live(sh, log, generations, age, c)
      {
        var c := CellOf(hash, nTweak, data.Length, n, key);
        assert sh.Cells(n + 1, key) == sh.Cells(n, key) + {c};
        TagLive(sh, log, generations, newest, age, data[..], c);
        if !Bit(data[2 * c.0] | data[2 * c.0 + 1], c.1) {
          assert Hits(sh, key, c);
          return false;
        }
      }
      return true;
    }

    /** No false negatives: each of the last 2 * nEntriesPerGeneration keys, which
        is at least the number of elements asked for, passes the test above. */
    lemma RecentKept(j: nat)
      requires Valid() && j < |log| && j + 2 * nEntriesPerGeneration >= |log|
      ensures Sh().Ok() && |generations| == |log|
      ensures forall c :: Hits(Sh(), log[j], c) ==> Live(Sh(), log, generations, age, c)
    {
      hide Mul, Hits, TagsShow;
      RecentGeneration(generations[j], age, nEntriesPerGeneration, j, |log|, nEntriesThisGeneration);
    }
  }

  lemma ShapeOk(sh: Shape, log: seq<Key>, generations: seq<nat>, newest: map<Cell, nat>, age: nat)
    requires Recorded(sh, log, generations, newest, age)
    ensures sh.Ok() && |generations| == |log|
  {
  }

  lemma NotEmpty(log: seq<Key>, generations: seq<nat>, age: nat, e: nat, current: nat)
    requires Counted(log, generations, age, e, current)
    ensures e >= 1 && current <= e
  {
  }

  lemma NextMultiple(a: int, e: int)
    ensures Mul(a + 1, e) == Mul(a, e) + e
  {
    assert (a + 1) * e == a * e + e;
  }

  lemma ZeroTags(data: seq<bv64>)
    requires forall k :: 0 <= k < |data| ==> data[k] == 0
    ensures TagsShow(data, map[], 0)
  {
    assert forall i: bv6 :: !Bit(0, i);
  }
}
