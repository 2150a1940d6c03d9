/** Transaction records in the coins database (src/coins.h): a header code, a
    bit mask of the unspent outputs past the second, and those outputs. */
module CoinsCodec {
  import opened Common
  import opened Coins
  import opened Limbs
  import opened Streams
  import opened OutputCodec

  // ---- availability bits ----

  predicate Avail(vout: seq<TxOut>, i: nat) { i < |vout| && !vout[i].IsNull() }

  function BitValue(b: bool): nat { if b then 1 else 0 }

  /** The availabilities of n outputs from `from` on, lowest bit first. */
  function Pack(vout: seq<TxOut>, from: nat, n: nat): (x: nat)
    ensures x < Pow2(n)
    decreases n
  {
    if n == 0 then 0 else BitValue(Avail(vout, from)) + 2 * Pack(vout, from + 1, n - 1)
  }

  lemma {:induction false} PackTest(vout: seq<TxOut>, from: nat, n: nat, p: nat)
    requires p < n
    ensures TestBit(Pack(vout, from, n), p) == Avail(vout, from + p)
    decreases n
  {
    var rest := Pack(vout, from + 1, n - 1);
    assert Pack(vout, from, n) / 2 == rest;
    if p > 0 { PackTest(vout, from + 1, n - 1, p - 1); }
  }

  lemma {:induction false} PackSnoc(vout: seq<TxOut>, from: nat, n: nat)
    ensures Pack(vout, from, n + 1) == Pack(vout, from, n) + if Avail(vout, from + n) then Pow2(n) else 0
    decreases n
  {
    if n > 0 { PackSnoc(vout, from + 1, n - 1); }
  }

  lemma {:induction false} PackZero(vout: seq<TxOut>, from: nat, n: nat)
    ensures Pack(vout, from, n) == 0 <==> forall i :: from <= i < from + n ==> !Avail(vout, i)
    decreases n
  {
    if n > 0 { PackZero(vout, from + 1, n - 1); }
  }

  function MaskByte(vout: seq<TxOut>, b: nat): byte
  {
    assert Pow2(8) == 256;
    Pack(vout, 2 + b * 8, 8)
  }

  function Masks(vout: seq<TxOut>, n: nat): (m: seq<byte>)
    ensures |m| == n && forall b :: 0 <= b < n ==> m[b] == MaskByte(vout, b)
  {
    seq(n, b requires 0 <= b < n => MaskByte(vout, b))
  }

  /** How many blocks of eight outputs there are past the second output. */
  function Blocks(vout: seq<TxOut>): nat { (|vout| + 5) / 8 }

  /** Without the zero bytes at the end. */
  function Used(m: seq<byte>): (r: seq<byte>)
    ensures r <= m && (r == [] || r[|r| - 1] != 0)
    ensures forall b :: |r| <= b < |m| ==> m[b] == 0
  {
    if m == [] || m[|m| - 1] != 0 then m else Used(m[..|m| - 1])
  }

  /** The mask bytes written. */
  function MasksOf(vout: seq<TxOut>): seq<byte> { Used(Masks(vout, Blocks(vout))) }

  function NonZero(m: seq<byte>): nat {
    if m == [] then 0 else BitValue(m[0] != 0) + NonZero(m[1..])
  }

  lemma {:induction false} NonZeroSnoc(m: seq<byte>, x: byte)
    ensures NonZero(m + [x]) == NonZero(m) + BitValue(x != 0)
  {
    if m == [] {
      assert m + [x] == [x];
    } else {
      NonZeroSnoc(m[1..], x);
      assert (m + [x])[1..] == m[1..] + [x];
    }
  }

  lemma {:induction false} NonZeroUsed(m: seq<byte>)
    ensures NonZero(Used(m)) == NonZero(m) <= |m|
    decreases |m|
  {
    if m != [] {
      var l, x := m[..|m| - 1], m[|m| - 1];
      assert m == l + [x];
      NonZeroUsed(l);
      NonZeroSnoc(l, x);
    }
  }

  /** Whether no output of block b is left. */
  method BlockIsEmpty(vout: seq<TxOut>, b: nat) returns (zero: bool)
    ensures zero <==> MaskByte(vout, b) == 0
  {
    hide Pack;
    zero := true;
    var i := 0;
    while i < 8 && 2 + b * 8 + i < |vout|
      invariant 0 <= i <= 8
      invariant zero <==> forall k :: 2 + b * 8 <= k < 2 + b * 8 + i ==> !Avail(vout, k)
    {
      if !vout[2 + b * 8 + i].IsNull() {
        assert Avail(vout, 2 + b * 8 + i);
        zero := false;
      }
      i := i + 1;
    }
    PackZero(vout, 2 + b * 8, 8);
  }

  lemma MasksSnoc(vout: seq<TxOut>, b: nat)
    ensures var m, x := Masks(vout, b), MaskByte(vout, b);
      && NonZero(Masks(vout, b + 1)) == NonZero(m) + BitValue(x != 0)
      && |Used(Masks(vout, b + 1))| == if x != 0 then b + 1 else |Used(m)|
  {
    hide NonZero, MaskByte, Used;
    var m, x := Masks(vout, b), MaskByte(vout, b);
    assert Masks(vout, b + 1) == m + [x];
    NonZeroSnoc(m, x);
    UsedSnoc(m, x);
  }

  lemma UsedSnoc(m: seq<byte>, x: byte)
    ensures Used(m + [x]) == if x != 0 then m + [x] else Used(m)
  {
    assert (m + [x])[..|m|] == m;
  }

  /** The mask bytes up to the last non-zero one, and the number of non-zero ones. */
  method CalcMaskSize(vout: seq<TxOut>) returns (bytes: nat, nonzero: nat)
    ensures bytes == |MasksOf(vout)| && nonzero == NonZero(MasksOf(vout))
  {
    hide MaskByte;
    bytes, nonzero := 0, 0;
    var b := 0;
    while 2 + b * 8 < |vout|
      invariant 0 <= b <= Blocks(vout)
      invariant bytes == |Used(Masks(vout, b))| && nonzero == NonZero(Masks(vout, b))
    {
      var zero := BlockIsEmpty(vout, b);
      MasksSnoc(vout, b);
      if !zero {
        bytes := b + 1;
        nonzero := nonzero + 1;
      }
      b := b + 1;
    }
    NonZeroUsed(Masks(vout, b));
  }

  // ---- writing ----

  function Outs(c: Curve, vout: seq<TxOut>): Items {
    if vout == [] then []
    else (if vout[0].IsNull() then [] else WriteOut(c, vout[0])) + Outs(c, vout[1..])
  }

  /** A count of mask bytes; one less is written when neither of the first two
      outputs is left, since there is at least one then. */
  function HeaderCode(coinBase: bool, first: bool, second: bool, masks: nat): int {
    8 * (masks - if first || second then 0 else 1) + BitValue(coinBase) + 2 * BitValue(first) + 4 * BitValue(second)
  }

  function WriteRecord(c: Curve, r: CoinRecord): Items {
    var m := MasksOf(r.vout);
    VarInt(r.version) + (VarInt(HeaderCode(r.coinBase, Avail(r.vout, 0), Avail(r.vout, 1), NonZero(m)))
      + (Octets(m) + (Outs(c, r.vout) + VarInt(r.height))))
  }

  /** There is something to store: the assertion of the writer. */
  lemma SomethingLeft(r: CoinRecord)
    requires !r.IsPruned()
    ensures Avail(r.vout, 0) || Avail(r.vout, 1) || NonZero(MasksOf(r.vout)) > 0
  {
    hide Pack, NonZero;
    var vout := r.vout;
    var i: nat :| i < |vout| && !vout[i].IsNull();
    if i >= 2 {
      var b := (i - 2) / 8;
      PackZero(vout, 2 + b * 8, 8);
      assert Avail(vout, i);
      assert Masks(vout, Blocks(vout))[b] != 0;
      LastCounts(MasksOf(vout));
    }
  }

  // ---- reading ----

  function Bits(m: byte): (b: seq<bool>)
    ensures |b| == 8 && forall p :: 0 <= p < 8 ==> b[p] == TestBit(m, p)
  {
    seq(8, p requires 0 <= p < 8 => TestBit(m, p))
  }

  /** Mask bytes are read until `masks` of them were not zero. */
  function ReadMasks(s: Items, masks: nat): Option<(seq<bool>, Items)> {
    if masks == 0 then Some(([], s))
    else if s == [] || !s[0].Octet? then None
    else
      match ReadMasks(s[1..], if s[0].b != 0 then masks - 1 else masks)
      case None => None
      case Some((bits, rest)) => Some((Bits(s[0].b) + bits, rest))
  }

  ghost predicate SpentNull(outs: seq<TxOut>, v: seq<bool>) {
    |outs| == |v| && forall i :: 0 <= i < |v| && !v[i] ==> outs[i] == NULL_TXOUT
  }

  function ReadOuts(c: Curve, avail: seq<bool>, s: Items): (r: Option<(seq<TxOut>, Items)>)
    ensures r.Some? ==> SpentNull(r.value.0, avail)
  {
    if avail == [] then Some(([], s))
    else
      match (if avail[0] then ReadOut(c, s) else Some((NULL_TXOUT, s)))
      case None => None
      case Some((o, r)) =>
        match ReadOuts(c, avail[1..], r)
        case None => None
        case Some((outs, rest)) => Some(([o] + outs, rest))
  }

  const HALF: int := LIMB / 2

  /** A signed number of 32 bits. */
  function ReadInt(s: Items): Option<(int, Items)> {
    match ReadUint(s, LIMB)
    case None => None
    case Some((n, rest)) => Some((if n < HALF then n else n - LIMB, rest))
  }

  function MaskCount(code: nat): nat { code / 8 + if code % 8 / 2 != 0 then 0 else 1 }

  /** Everything but the coin stake flag, which is not stored. */
  function ReadRecord(c: Curve, into: CoinRecord, s: Items): Option<(CoinRecord, Items)> {
    match ReadInt(s)
    case None => None
    case Some((version, s1)) =>
      match ReadUint(s1, LIMB)
      case None => None
      case Some((code, s2)) =>
        match ReadMasks(s2, MaskCount(code))
        case None => None
        case Some((bits, s3)) =>
          match ReadOuts(c, [TestBit(code, 1), TestBit(code, 2)] + bits, s3)
          case None => None
          case Some((outs, s4)) =>
            match ReadInt(s4)
            case None => None
            case Some((height, rest)) =>
              Some((CoinRecord(TestBit(code, 0), into.coinStake, outs, height, version).Cleanup(), rest))
  }

  // ---- what is read back ----

  /** Equality of records. */
  ghost predicate SameRecord(a: CoinRecord, b: CoinRecord) {
    || (a.IsPruned() && b.IsPruned())
    || (&& a.coinBase == b.coinBase && a.height == b.height && a.version == b.version
        && SameOutputs(a.vout, b.vout))
  }

  ghost predicate SameOutputs(a: seq<TxOut>, b: seq<TxOut>) {
    |a| == |b| && forall i :: 0 <= i < |a| ==> SameOutput(a[i], b[i])
  }

  ghost predicate AllFaithful(vout: seq<TxOut>) {
    forall i :: 0 <= i < |vout| && !vout[i].IsNull() ==> Faithful(vout[i])
  }

  /** Spent outputs hold nothing else either. */
  ghost predicate Tidy(vout: seq<TxOut>) {
    forall i :: 0 <= i < |vout| && vout[i].IsNull() ==> SameOutput(vout[i], NULL_TXOUT)
  }

  ghost predicate Storable(r: CoinRecord) {
    r.version >= 0 && r.height >= 0 && AllFaithful(r.vout) && Tidy(r.vout)
  }

  /** Widths the fields have in the program, and amounts within the money range. */
  ghost predicate InRange(r: CoinRecord) {
    && -HALF <= r.version < HALF && -HALF <= r.height < HALF && |r.vout| + 12 < LIMB
    && Moneyed(r.vout)
  }

  ghost predicate Moneyed(vout: seq<TxOut>) {
    forall i :: 0 <= i < |vout| && !vout[i].IsNull() ==> IsMoney(vout[i].value) && Sized(vout[i].script)
  }

  function AllBits(m: seq<byte>): (b: seq<bool>)
    ensures |b| == 8 * |m|
  {
    if m == [] then [] else Bits(m[0]) + AllBits(m[1..])
  }

  lemma {:induction false} AllBitsAt(m: seq<byte>, i: nat)
    requires i < 8 * |m|
    ensures AllBits(m)[i] == TestBit(m[i / 8], i % 8)
  {
    if i >= 8 { AllBitsAt(m[1..], i - 8); }
  }

  /** Exactly the mask bytes written are read: the last one is not zero. */
  lemma {:induction false} MasksRoundTrip(m: seq<byte>, rest: Items)
    requires m == [] || m[|m| - 1] != 0
    ensures ReadMasks(Octets(m) + rest, NonZero(m)) == Some((AllBits(m), rest))
  {
    if m == [] {
      assert Octets(m) + rest == rest;
    } else {
      hide ReadMasks, Bits;
      MasksRoundTrip(m[1..], rest);
      LastCounts(m);
      var tail := Octets(m[1..]) + rest;
      assert Octets(m) + rest == [Octet(m[0])] + tail;
      MaskStep(m[0], tail, NonZero(m));
    }
  }

  lemma MaskStep(b: byte, s: Items, masks: nat)
    requires masks > 0
    ensures ReadMasks([Octet(b)] + s, masks) == Joined(Bits(b), ReadMasks(s, masks - BitValue(b != 0)))
  {
    assert ([Octet(b)] + s)[1..] == s;
  }

  lemma LastCounts(m: seq<byte>)
    requires m != [] && m[|m| - 1] != 0
    ensures NonZero(m) > 0
  {
    assert m == m[..|m| - 1] + [m[|m| - 1]];
    NonZeroSnoc(m[..|m| - 1], m[|m| - 1]);
  }

  lemma HeaderRoundTrip(coinBase: bool, first: bool, second: bool, masks: nat)
    requires first || second || masks > 0
    ensures var code := HeaderCode(coinBase, first, second, masks);
      && 0 <= code <= 8 * masks + 7 && MaskCount(code) == masks
      && TestBit(code, 0) == coinBase && TestBit(code, 1) == first && TestBit(code, 2) == second
  {
    var n := masks - if first || second then 0 else 1;
    var code := HeaderCode(coinBase, first, second, masks);
    var low := BitValue(coinBase) + 2 * BitValue(first) + 4 * BitValue(second);
    ModUnique(code, n, low, 8);
    assert code / 2 == 4 * n + BitValue(first) + 2 * BitValue(second);
    assert code / 2 / 2 == 2 * n + BitValue(second);
    assert TestBit(code, 1) == TestBit(code / 2, 0) && TestBit(code, 2) == TestBit(code / 2 / 2, 0);
  }

  ghost function AvailBits(vout: seq<TxOut>): seq<bool> {
    [Avail(vout, 0), Avail(vout, 1)] + AllBits(MasksOf(vout))
  }

  /** v tells which outputs are left, and covers them all. */
  ghost predicate Covers(v: seq<bool>, vout: seq<TxOut>) {
    && (forall i :: 0 <= i < |v| ==> v[i] == Avail(vout, i))
    && (forall i :: |v| <= i < |vout| ==> vout[i].IsNull())
  }

  lemma MaskBitAt(vout: seq<TxOut>, j: nat)
    requires j < 8 * |MasksOf(vout)|
    ensures AllBits(MasksOf(vout))[j] == Avail(vout, 2 + j)
  {
    hide Pack, TestBit, Used, AllBits;
    var m := MasksOf(vout);
    AllBitsAt(m, j);
    assert m[j / 8] == MaskByte(vout, j / 8);
    PackTest(vout, 2 + j / 8 * 8, 8, j % 8);
  }

  lemma MaskBeyond(vout: seq<TxOut>, i: nat)
    requires 2 + 8 * |MasksOf(vout)| <= i < |vout|
    ensures vout[i].IsNull()
  {
    hide Pack, Used;
    var b := (i - 2) / 8;
    assert Masks(vout, Blocks(vout))[b] == 0;
    PackZero(vout, 2 + b * 8, 8);
    assert !Avail(vout, i);
  }

  lemma AvailBitsCover(vout: seq<TxOut>)
    ensures Covers(AvailBits(vout), vout)
  {
    hide AllBits, MasksOf;
    var v := AvailBits(vout);
    forall i | 0 <= i < |v| ensures v[i] == Avail(vout, i) {
      if i >= 2 { MaskBitAt(vout, i - 2); }
    }
    forall i | |v| <= i < |vout| ensures vout[i].IsNull() { MaskBeyond(vout, i); }
  }

  ghost predicate AvailSame(outs: seq<TxOut>, vout: seq<TxOut>) {
    forall i :: 0 <= i < |vout| && !vout[i].IsNull() ==> i < |outs| && SameOutput(outs[i], vout[i])
  }

  /** An output as it is read, a spent one without its remains. */
  function NormalAt(vout: seq<TxOut>, i: nat): (o: TxOut)
    ensures o.IsNull() <==> !Avail(vout, i)
  {
    if Avail(vout, i) then Normal(vout[i]) else NULL_TXOUT
  }

  function NormalOuts(vout: seq<TxOut>, n: nat): (r: seq<TxOut>)
    ensures |r| == n && forall i :: 0 <= i < n ==> r[i] == NormalAt(vout, i)
  {
    seq(n, i requires 0 <= i < n => NormalAt(vout, i))
  }

  /** What a storable record comes back as: the flag is that of the record read
      into, and the outputs are in their normal form. */
  function Kept(into: CoinRecord, r: CoinRecord): CoinRecord {
    r.(coinStake := into.coinStake, vout := NormalOuts(r.vout, |r.vout|))
  }

  function Tail<T>(s: seq<T>): seq<T> { if s == [] then [] else s[1..] }

  lemma CoversTail(v: seq<bool>, vout: seq<TxOut>)
    requires Covers(v, vout) && v != []
    ensures Covers(v[1..], Tail(vout)) && v[0] == Avail(vout, 0)
  {
    forall i | 0 <= i < |v| - 1 ensures v[1..][i] == Avail(Tail(vout), i) { assert v[i + 1] == Avail(vout, i + 1); }
  }

  /** One output read before the rest. */
  lemma OutsStep(c: Curve, v: seq<bool>, s: Items, o: TxOut, r: Items)
    requires v != [] && (if v[0] then ReadOut(c, s) == Some((o, r)) else o == NULL_TXOUT && r == s)
    ensures ReadOuts(c, v, s) ==
      match ReadOuts(c, v[1..], r) case None => None case Some((outs, rest)) => Some(([o] + outs, rest))
  {
  }

  /** The outputs left come back equal exactly when all of them are faithful. */
  lemma {:induction false} OutsRoundTrip(c: Curve, vout: seq<TxOut>, v: seq<bool>, rest: Items)
    requires Lawful(c) && Moneyed(vout) && Covers(v, vout)
    ensures var r := ReadOuts(c, v, Outs(c, vout) + rest);
      && (r.Some? && AvailSame(r.value.0, vout) <==> AllFaithful(vout))
      && (AllFaithful(vout) ==> r.value.1 == rest)
    decreases |v|
  {
    hide Lawful, ReadOut, WriteOut, Faithful, SameOutput, ReadOuts, AvailSame, AllFaithful, Covers, Moneyed;
    if v == [] {
      NothingLeft(c, vout, rest);
    } else {
      CoversTail(v, vout);
      MoneyedTail(vout);
      var s := Outs(c, Tail(vout)) + rest;
      OutsRoundTrip(c, Tail(vout), v[1..], rest);
      if v[0] {
        OutputRoundTrip(c, vout[0], s);
        assert Outs(c, vout) + rest == WriteOut(c, vout[0]) + s;
        var r := ReadOut(c, WriteOut(c, vout[0]) + s);
        if r.Some? {
          OutsStep(c, v, Outs(c, vout) + rest, r.value.0, r.value.1);
          var more := ReadOuts(c, v[1..], r.value.1);
          if more.Some? { SameCons(r.value.0, more.value.0, vout); }
        } else {
          OutsStop(c, v, Outs(c, vout) + rest);
        }
        FaithfulCons(vout);
      } else {
        OutsStep(c, v, s, NULL_TXOUT, s);
        SpentHead(c, vout, rest);
        FaithfulCons(vout);
        var more := ReadOuts(c, v[1..], s);
        if more.Some? { SameCons(NULL_TXOUT, more.value.0, vout); }
      }
    }
  }

  /** Faithful outputs come back in their normal form. */
  lemma {:induction false} OutsExact(c: Curve, vout: seq<TxOut>, v: seq<bool>, rest: Items)
    requires Lawful(c) && Moneyed(vout) && Covers(v, vout) && AllFaithful(vout)
    ensures ReadOuts(c, v, Outs(c, vout) + rest) == Some((NormalOuts(vout, |v|), rest))
    decreases |v|
  {
    hide Lawful, ReadOut, WriteOut, Faithful, ReadOuts, AllFaithful, Covers, Moneyed;
    if v == [] {
      NothingLeft(c, vout, rest);
    } else {
      CoversTail(v, vout);
      MoneyedTail(vout);
      FaithfulCons(vout);
      var s := Outs(c, Tail(vout)) + rest;
      OutsExact(c, Tail(vout), v[1..], rest);
      NormalCons(vout, |v|);
      if v[0] {
        OutputRoundTrip(c, vout[0], s);
        assert Outs(c, vout) + rest == WriteOut(c, vout[0]) + s;
        OutsStep(c, v, Outs(c, vout) + rest, Normal(vout[0]), s);
      } else {
        OutsStep(c, v, s, NULL_TXOUT, s);
        SpentHead(c, vout, rest);
      }
    }
  }

  lemma NormalCons(vout: seq<TxOut>, n: nat)
    requires n > 0
    ensures NormalOuts(vout, n) == [NormalAt(vout, 0)] + NormalOuts(Tail(vout), n - 1)
  {
    hide Normal;
    forall i | 0 < i < n ensures NormalAt(vout, i) == NormalAt(Tail(vout), i - 1) {}
  }

  lemma OutsStop(c: Curve, v: seq<bool>, s: Items)
    requires v != [] && v[0] && ReadOut(c, s).None?
    ensures ReadOuts(c, v, s).None?
  {
  }

  lemma NothingLeft(c: Curve, vout: seq<TxOut>, rest: Items)
    requires Covers([], vout)
    ensures ReadOuts(c, [], Outs(c, vout) + rest) == Some(([], rest)) && AvailSame([], vout) && AllFaithful(vout)
  {
    NothingWritten(c, vout);
    assert [] + rest == rest;
  }

  lemma SpentHead(c: Curve, vout: seq<TxOut>, rest: Items)
    requires !Avail(vout, 0)
    ensures Outs(c, vout) + rest == Outs(c, Tail(vout)) + rest
  {
    assert vout == [] || Outs(c, vout) == Outs(c, vout[1..]);
  }

  lemma MoneyedTail(vout: seq<TxOut>)
    requires Moneyed(vout)
    ensures Moneyed(Tail(vout))
    ensures Avail(vout, 0) ==> IsMoney(vout[0].value) && Sized(vout[0].script)
  {
  }

  lemma FaithfulCons(vout: seq<TxOut>)
    ensures AllFaithful(vout) <==> (Avail(vout, 0) ==> Faithful(vout[0])) && AllFaithful(Tail(vout))
  {
    hide Faithful;
    forall i | 0 < i < |vout| ensures vout[i] == Tail(vout)[i - 1] {}
  }

  lemma SameCons(o: TxOut, outs: seq<TxOut>, vout: seq<TxOut>)
    ensures AvailSame([o] + outs, vout) <==> (Avail(vout, 0) ==> SameOutput(o, vout[0])) && AvailSame(outs, Tail(vout))
  {
    hide SameOutput;
    var all := [o] + outs;
    if AvailSame(all, vout) {
      forall i | 0 <= i < |Tail(vout)| && !Tail(vout)[i].IsNull()
        ensures i < |outs| && SameOutput(outs[i], Tail(vout)[i])
      {
        assert vout[i + 1] == Tail(vout)[i];
        assert all[i + 1] == outs[i];
      }
    }
    forall i | 0 < i < |vout| ensures vout[i] == Tail(vout)[i - 1] {}
  }

  lemma {:induction false} NothingWritten(c: Curve, vout: seq<TxOut>)
    requires forall i :: 0 <= i < |vout| ==> vout[i].IsNull()
    ensures Outs(c, vout) == []
  {
    if vout != [] { NothingWritten(c, vout[1..]); }
  }

  function Stored(n: int): int { if n < 0 then n % 128 else n }

  lemma IntRoundTrip(n: int, rest: Items)
    requires -HALF <= n < HALF
    ensures ReadInt(VarInt(n) + rest) == Some((Stored(n), rest))
  {
    hide ReadVar, VarInt, Wrap;
    VarIntRoundTrip(n, rest);
    WrapSmall(Stored(n), LIMB);
  }

  /** The record made of what was read. */
  function Rebuilt(coinBase: bool, coinStake: bool, version: int, outs: Option<(seq<TxOut>, Items)>)
    : Option<(CoinRecord, Items)>
  {
    match outs
    case None => None
    case Some((vout, s)) =>
      match ReadInt(s)
      case None => None
      case Some((height, rest)) => Some((CoinRecord(coinBase, coinStake, vout, height, version).Cleanup(), rest))
  }

  lemma MasksFit(vout: seq<TxOut>)
    requires |vout| + 12 < LIMB
    ensures 8 * NonZero(MasksOf(vout)) + 7 < LIMB
  {
    hide Masks;
    NonZeroUsed(Masks(vout, Blocks(vout)));
  }

  ghost function Code(r: CoinRecord): int {
    HeaderCode(r.coinBase, Avail(r.vout, 0), Avail(r.vout, 1), NonZero(MasksOf(r.vout)))
  }

  lemma Regrouped(a: Items, b: Items, c: Items, d: Items, e: Items, rest: Items)
    ensures (a + (b + (c + (d + e)))) + rest == a + (b + (c + (d + (e + rest))))
  {
  }

  lemma Appended(s: Items, a: Items, b: Items, c: Items, d: Items, e: Items)
    ensures ((((s + a) + b) + c) + d) + e == s + (a + (b + (c + (d + e))))
  {
  }

  lemma RecordLayout(c: Curve, into: CoinRecord, r: CoinRecord, rest: Items)
    requires InRange(r) && !r.IsPruned()
    ensures ReadRecord(c, into, WriteRecord(c, r) + rest) ==
      Rebuilt(r.coinBase, into.coinStake, Stored(r.version),
              ReadOuts(c, AvailBits(r.vout), Outs(c, r.vout) + (VarInt(r.height) + rest)))
  {
    hide *;
    CodeRead(r);
    var s3 := Outs(c, r.vout) + (VarInt(r.height) + rest);
    var s2 := Octets(MasksOf(r.vout)) + s3;
    var s1 := VarInt(Code(r)) + s2;
    Layout(c, r, rest);
    Widths(r);
    IntRoundTrip(r.version, s1);
    UintRoundTrip(Code(r), LIMB, s2);
    MasksRoundTrip(MasksOf(r.vout), s3);
    ReadParts(c, into, VarInt(r.version) + s1, Stored(r.version), s1, Code(r), s2, AllBits(MasksOf(r.vout)), s3);
    BitsOf(r.vout);
  }

  lemma Widths(r: CoinRecord)
    requires InRange(r)
    ensures -HALF <= r.version < HALF
    ensures MasksOf(r.vout) == [] || MasksOf(r.vout)[|MasksOf(r.vout)| - 1] != 0
  {
    hide Used, Masks, Moneyed;
  }

  lemma BitsOf(vout: seq<TxOut>)
    ensures AvailBits(vout) == [Avail(vout, 0), Avail(vout, 1)] + AllBits(MasksOf(vout))
  {
  }

  lemma Layout(c: Curve, r: CoinRecord, rest: Items)
    ensures WriteRecord(c, r) + rest == VarInt(r.version) +
      (VarInt(Code(r)) + (Octets(MasksOf(r.vout)) + (Outs(c, r.vout) + (VarInt(r.height) + rest))))
  {
    hide VarInt, HeaderCode, MasksOf, Octets, Outs, NonZero, Avail;
    Regrouped(VarInt(r.version), VarInt(Code(r)), Octets(MasksOf(r.vout)), Outs(c, r.vout), VarInt(r.height), rest);
  }

  lemma CodeRead(r: CoinRecord)
    requires InRange(r) && !r.IsPruned()
    ensures 0 <= Code(r) < LIMB && MaskCount(Code(r)) == NonZero(MasksOf(r.vout))
    ensures TestBit(Code(r), 0) == r.coinBase
    ensures TestBit(Code(r), 1) == Avail(r.vout, 0) && TestBit(Code(r), 2) == Avail(r.vout, 1)
  {
    hide HeaderCode, MasksOf, NonZero, TestBit, MaskCount;
    SomethingLeft(r);
    HeaderRoundTrip(r.coinBase, Avail(r.vout, 0), Avail(r.vout, 1), NonZero(MasksOf(r.vout)));
    MasksFit(r.vout);
  }

  /** The reader, part by part. */
  lemma ReadParts(c: Curve, into: CoinRecord, s: Items, version: int, s1: Items, code: nat, s2: Items, bits: seq<bool>,
          s3: Items)
    requires ReadInt(s) == Some((version, s1)) && ReadUint(s1, LIMB) == Some((code, s2))
    requires ReadMasks(s2, MaskCount(code)) == Some((bits, s3))
    ensures ReadRecord(c, into, s) ==
      Rebuilt(TestBit(code, 0), into.coinStake, version,
              ReadOuts(c, [TestBit(code, 1), TestBit(code, 2)] + bits, s3))
  {
    hide ReadInt, ReadUint, ReadMasks, ReadOuts, MaskCount, TestBit;
  }

  lemma CleanedSame(outs: seq<TxOut>, v: seq<bool>, vout: seq<TxOut>)
    requires Covers(v, vout) && SpentNull(outs, v) && vout != [] && !vout[|vout| - 1].IsNull()
    ensures SameOutputs(DropTrailingNulls(outs), vout) <==> AvailSame(outs, vout) && Tidy(vout)
  {
    hide DropTrailingNulls;
    var d, n := DropTrailingNulls(outs), |vout|;
    assert n <= |v|;
    assert forall i :: 0 <= i < n ==> v[i] == !vout[i].IsNull();
    if SameOutputs(d, vout) {
      assert forall i :: 0 <= i < n ==> outs[i] == d[i];
    }
  }

  lemma {:induction false} DroppedTo(outs: seq<TxOut>, n: nat)
    requires 0 < n <= |outs| && !outs[n - 1].IsNull() && forall i :: n <= i < |outs| ==> outs[i].IsNull()
    ensures DropTrailingNulls(outs) == outs[..n]
  {
    if n < |outs| {
      DroppedTo(outs[..|outs| - 1], n);
      assert outs[..|outs| - 1][..n] == outs[..n];
    }
  }

  lemma CleanedExact(v: seq<bool>, vout: seq<TxOut>)
    requires Covers(v, vout) && vout != [] && !vout[|vout| - 1].IsNull()
    ensures DropTrailingNulls(NormalOuts(vout, |v|)) == NormalOuts(vout, |vout|)
  {
    hide DropTrailingNulls, NormalAt;
    var outs, n := NormalOuts(vout, |v|), |vout|;
    assert n <= |v|;
    DroppedTo(outs, n);
    assert outs[..n] == NormalOuts(vout, n);
  }

  /** Written and read, a record comes back equal exactly when it is storable, and
      then the reader takes exactly what the writer wrote. */
  lemma RecordRoundTrip(c: Curve, into: CoinRecord, r: CoinRecord, rest: Items)
    requires Lawful(c) && InRange(r) && r.IsTrimmed() && !r.IsPruned()
    ensures var q := ReadRecord(c, into, WriteRecord(c, r) + rest);
      && (q.Some? && SameRecord(q.value.0, r) <==> Storable(r))
      && (Storable(r) ==> q.value == (Kept(into, r), rest) && q.value.0.IsTrimmed())
  {
    hide Lawful, ReadRecord, WriteRecord, ReadOuts, Outs, VarInt, ReadInt, AvailBits, AvailSame, AllFaithful, Tidy,
      SameOutputs, Covers, Moneyed, DropTrailingNulls, SpentNull;
    var s := VarInt(r.height) + rest;
    var v := AvailBits(r.vout);
    RecordLayout(c, into, r, rest);
    AvailBitsCover(r.vout);
    OutsRoundTrip(c, r.vout, v, s);
    IntRoundTrip(r.height, rest);
    var outs := ReadOuts(c, v, Outs(c, r.vout) + s);
    if outs.Some? { CleanedSame(outs.value.0, v, r.vout); }
    if Storable(r) {
      OutsExact(c, r.vout, v, s);
      CleanedExact(v, r.vout);
    }
  }

  // ---- the same on streams ----

  /** The mask byte of block b, built bit by bit. */
  method BuildMask(vout: seq<TxOut>, b: nat) returns (avail: byte)
    ensures avail == MaskByte(vout, b)
  {
    hide Pack, Pow2;
    var x, i, bit: nat := 0, 0, 1;
    PackNone(vout, 2 + b * 8);
    while i < 8 && 2 + b * 8 + i < |vout|
      invariant 0 <= i <= 8 && bit == Pow2(i)
      invariant x == Pack(vout, 2 + b * 8, i)
    {
      PackSnoc(vout, 2 + b * 8, i);
      if !vout[2 + b * 8 + i].IsNull() { x := x + bit; }
      Doubled(i);
      bit := 2 * bit;
      i := i + 1;
    }
    PackBeyond(vout, 2 + b * 8, i, 8);
    assert x == MaskByte(vout, b);
    avail := x;
  }

  lemma PackNone(vout: seq<TxOut>, from: nat)
    ensures Pack(vout, from, 0) == 0 && Pow2(0) == 1
  {
  }

  lemma Doubled(i: nat)
    ensures Pow2(i + 1) == 2 * Pow2(i)
  {
  }

  lemma {:induction false} PackBeyond(vout: seq<TxOut>, from: nat, i: nat, n: nat)
    requires i <= n && (i == n || from + i >= |vout|)
    ensures Pack(vout, from, n) == Pack(vout, from, i)
    decreases n
  {
    hide Pack;
    if i < n {
      PackSnoc(vout, from, n - 1);
      PackBeyond(vout, from, i, n - 1);
    }
  }

  lemma OctetsSnoc(v: seq<byte>, x: byte)
    ensures Octets(v + [x]) == Octets(v) + [Octet(x)]
  {
    if v == [] {
      assert v + [x] == [x];
    } else {
      OctetsSnoc(v[1..], x);
      assert (v + [x])[1..] == v[1..] + [x];
    }
  }

  method WriteMasks(s: Stream, vout: seq<TxOut>, bytes: nat)
    requires bytes == |MasksOf(vout)|
    modifies s
    ensures s.items == old(s.items) + Octets(MasksOf(vout))
  {
    hide Octets, MaskByte, Used;
    ghost var m := MasksOf(vout);
    var b := 0;
    OctetsNone();
    while b < bytes
      invariant 0 <= b <= bytes && s.items == old(s.items) + Octets(m[..b])
    {
      var avail := BuildMask(vout, b);
      s.Write(Octet(avail));
      assert m[..b + 1] == m[..b] + [avail];
      OctetsSnoc(m[..b], avail);
      b := b + 1;
    }
    assert m[..bytes] == m;
  }

  lemma OctetsNone()
    ensures Octets([]) == []
  {
  }

  method WriteOuts(c: Curve, s: Stream, vout: seq<TxOut>)
    requires Moneyed(vout)
    modifies s
    ensures s.items == old(s.items) + Outs(c, vout)
  {
    hide WriteOut;
    var i := 0;
    assert vout[0..] == vout;
    while i < |vout|
      invariant 0 <= i <= |vout|
      invariant s.items + Outs(c, vout[i..]) == old(s.items) + Outs(c, vout)
    {
      ghost var before := s.items;
      assert vout[i..][1..] == vout[i + 1..];
      if !vout[i].IsNull() { SerializeOutput(c, s, vout[i]); }
      assert before + Outs(c, vout[i..]) == s.items + Outs(c, vout[i + 1..]);
      i := i + 1;
    }
    assert Outs(c, vout[i..]) == [];
  }

  /** Only records that are not pruned can be written. */
  method Serialize(c: Curve, r: CoinRecord, s: Stream)
    requires InRange(r) && !r.IsPruned()
    modifies s
    ensures s.items == old(s.items) + WriteRecord(c, r)
  {
    hide VarInt, HeaderCode, MasksOf, Octets, Outs, NonZero, Moneyed, TestBit, MaskCount;
    var maskSize, maskCode := CalcMaskSize(r.vout);
    var first := |r.vout| > 0 && !r.vout[0].IsNull();
    var second := |r.vout| > 1 && !r.vout[1].IsNull();
    SomethingLeft(r);
    assert first || second || maskCode > 0;
    CodeRead(r);
    Pow2Limb();
    s.WriteVarInt(r.version, 32);
    s.WriteVarInt(HeaderCode(r.coinBase, first, second, maskCode), 32);
    WriteMasks(s, r.vout, maskSize);
    WriteOuts(c, s, r.vout);
    s.WriteVarInt(r.height, 32);
    Appended(old(s.items), VarInt(r.version), VarInt(Code(r)), Octets(MasksOf(r.vout)), Outs(c, r.vout),
        VarInt(r.height));
  }

  method UnserializeMasks(s: Stream, masks: nat) returns (avail: Option<seq<bool>>)
    modifies s
    ensures Agrees(avail, s.items, ReadMasks(old(s.items), masks))
  {
    hide Bits;
    var v: seq<bool> := [];
    var k := masks;
    JoinedStep([], [], ReadMasks(s.items, masks));
    while k > 0
      invariant 0 <= k
      invariant ReadMasks(old(s.items), masks) == Joined(v, ReadMasks(s.items, k))
      decreases |s.items|
    {
      var item := s.Read();
      if item.None? || !item.value.Octet? { return None; }
      var ch := item.value.b;
      var next := if ch != 0 then k - 1 else k;
      JoinedStep(v, Bits(ch), ReadMasks(s.items, next));
      v := v + Bits(ch);
      k := next;
    }
    assert v + [] == v;
    avail := Some(v);
  }

  method UnserializeOuts(c: Curve, s: Stream, avail: seq<bool>) returns (vout: Option<seq<TxOut>>)
    modifies s
    ensures Agrees(vout, s.items, ReadOuts(c, avail, old(s.items)))
  {
    hide ReadOut, ReadOuts, SpentNull;
    var v: seq<TxOut> := [];
    var i := 0;
    assert avail[0..] == avail;
    JoinedStep([], [], ReadOuts(c, avail, s.items));
    while i < |avail|
      invariant 0 <= i <= |avail|
      invariant ReadOuts(c, avail, old(s.items)) == Joined(v, ReadOuts(c, avail[i..], s.items))
    {
      assert avail[i..][1..] == avail[i + 1..];
      ghost var before := s.items;
      var o := NULL_TXOUT;
      if avail[i] {
        var read := UnserializeOutput(c, s);
        if read.None? {
          OutsStop(c, avail[i..], before);
          return None;
        }
        o := read.value;
      }
      OutsStep(c, avail[i..], before, o, s.items);
      JoinedStep(v, [o], ReadOuts(c, avail[i + 1..], s.items));
      v := v + [o];
      i := i + 1;
    }
    assert avail[i..] == [];
    NoOuts(c, s.items);
    assert v + [] == v;
    vout := Some(v);
  }

  lemma NoOuts(c: Curve, s: Items)
    ensures ReadOuts(c, [], s) == Some(([], s))
  {
  }

  method UnserializeInt(s: Stream) returns (n: Option<int>)
    modifies s
    ensures Agrees(n, s.items, ReadInt(old(s.items)))
  {
    hide ReadUint;
    var x := s.ReadVarInt(LIMB);
    if x.None? { return None; }
    n := Some(if x.value < HALF then x.value else x.value - LIMB);
  }

  method Unserialize(c: Curve, into: CoinRecord, s: Stream) returns (r: Option<CoinRecord>)
    modifies s
    ensures Agrees(r, s.items, ReadRecord(c, into, old(s.items)))
  {
    hide ReadUint, ReadInt, ReadMasks, ReadOuts, TestBit, MaskCount;
    var version := UnserializeInt(s);
    if version.None? { return None; }
    var code := s.ReadVarInt(LIMB);
    if code.None? { return None; }
    var bits := UnserializeMasks(s, MaskCount(code.value));
    if bits.None? { return None; }
    var vout := UnserializeOuts(c, s, [TestBit(code.value, 1), TestBit(code.value, 2)] + bits.value);
    if vout.None? { return None; }
    var height := UnserializeInt(s);
    if height.None? { return None; }
    r := Some(CoinRecord(TestBit(code.value, 0), into.coinStake, vout.value, height.value, version.value).Cleanup());
  }
}
