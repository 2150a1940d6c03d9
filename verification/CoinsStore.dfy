/** What the coins database gives back of a record: the row it writes, and the
    record it reads from a row into an empty one (src/txdb.cpp, src/dbwrapper.h,
    src/coins.h). */
module CoinsStore {
  import opened Common
  import opened Coins
  import opened Limbs
  import opened Streams
  import opened OutputCodec
  import opened CoinsCodec

  /** The record a row gives; none where decoding fails or only spent outputs are left. */
  function Shown(c: Curve, row: Items): (r: Option<CoinRecord>)
    ensures r.Some? ==> !r.value.IsPruned() && r.value.IsTrimmed() && !r.value.coinStake
  {
    match ReadRecord(c, EMPTY_RECORD, row)
    case None => None
    case Some((q, _)) => if q.IsPruned() then None else Some(q)
  }

  lemma ReadTrimmed(c: Curve, row: Items)
    ensures var q := ReadRecord(c, EMPTY_RECORD, row);
      if q.None? then Shown(c, row) == None
      else q.value.0.IsTrimmed() && Shown(c, row) == if q.value.0.IsPruned() then None else Some(q.value.0)
  {
    hide ReadOuts, ReadMasks, ReadUint, ReadInt;
  }

  /** What comes back of a record that is written. */
  function Reread(c: Curve, r: CoinRecord): Option<CoinRecord> {
    if r.IsPruned() then None else Shown(c, WriteRecord(c, r))
  }

  /** Fields within their widths and amounts within the money range. */
  ghost predicate Writable(r: CoinRecord) { InRange(r) && r.IsTrimmed() && !r.IsPruned() }

  /** What a storable record comes back as: without the coin stake flag. */
  function Back(r: CoinRecord): CoinRecord { Kept(EMPTY_RECORD, r) }

  /** The record comes back as it is: it carries no coin stake flag, spent outputs
      leave nothing, and a proof is present exactly in the outputs that store one. */
  ghost predicate Exact(r: CoinRecord) {
    Storable(r) && !r.coinStake && forall i :: 0 <= i < |r.vout| ==> r.vout[i] == NormalAt(r.vout, i)
  }

  /** A record comes back equal, as the program compares records, exactly when it
      is storable; and then without its coin stake flag. */
  lemma RereadSame(c: Curve, r: CoinRecord)
    requires Lawful(c) && Writable(r)
    ensures Reread(c, r).Some? && SameRecord(Reread(c, r).value, r) <==> Storable(r)
    ensures Storable(r) ==> Reread(c, r) == Some(Back(r))
  {
    hide Lawful, ReadRecord, WriteRecord, InRange, Storable;
    RecordRoundTrip(c, EMPTY_RECORD, r, []);
    assert WriteRecord(c, r) + [] == WriteRecord(c, r);
    BackLives(r);
  }

  lemma BackLives(r: CoinRecord)
    requires r.IsTrimmed() && !r.IsPruned()
    ensures Back(r).IsTrimmed() && !Back(r).IsPruned()
    ensures forall q :: SameRecord(q, r) ==> !q.IsPruned()
  {
    hide NormalAt;
    var last := |r.vout| - 1;
    assert !Back(r).vout[last].IsNull();
    forall q | SameRecord(q, r) ensures !q.IsPruned() {
      assert SameOutput(q.vout[last], r.vout[last]);
    }
  }

  /** A record comes back as it is exactly when it is an exact one. */
  lemma RereadExact(c: Curve, r: CoinRecord)
    requires Lawful(c) && Writable(r)
    ensures Reread(c, r) == Some(r) <==> Exact(r)
  {
    hide Lawful, Reread, Storable, NormalAt;
    RereadSame(c, r);
    SameItself(r);
    BackExact(r);
  }

  lemma SameItself(r: CoinRecord)
    ensures SameRecord(r, r)
  {
  }

  lemma BackExact(r: CoinRecord)
    ensures Back(r) == r <==> !r.coinStake && forall i :: 0 <= i < |r.vout| ==> r.vout[i] == NormalAt(r.vout, i)
  {
    hide NormalAt;
    var v := NormalOuts(r.vout, |r.vout|);
    if forall i :: 0 <= i < |r.vout| ==> r.vout[i] == NormalAt(r.vout, i) {
      assert v == r.vout;
    }
  }

  /** What came back once comes back again as it is. */
  lemma BackStays(r: CoinRecord)
    requires Writable(r) && Storable(r)
    ensures Writable(Back(r)) && Exact(Back(r)) && SameRecord(Back(r), r) && Back(Back(r)) == Back(r)
  {
    hide NormalAt, Faithful;
    var b := Back(r);
    BackLives(r);
    forall i | 0 <= i < |r.vout|
      ensures b.vout[i] == NormalAt(r.vout, i) == NormalAt(b.vout, i) && SameOutput(b.vout[i], r.vout[i])
      ensures !r.vout[i].IsNull() ==> Faithful(b.vout[i]) && IsMoney(b.vout[i].value) && Sized(b.vout[i].script)
      ensures b.vout[i].IsNull() ==> SameOutput(b.vout[i], NULL_TXOUT)
    {
      NormalTwice(r.vout, b.vout, i);
    }
    BackExact(b);
  }

  lemma NormalTwice(vout: seq<TxOut>, back: seq<TxOut>, i: nat)
    requires i < |vout| == |back| && back[i] == NormalAt(vout, i)
    requires if vout[i].IsNull() then SameOutput(vout[i], NULL_TXOUT) else Faithful(vout[i])
    ensures NormalAt(back, i) == back[i] && SameOutput(back[i], vout[i])
    ensures !vout[i].IsNull() ==> Faithful(back[i])
    ensures back[i].IsNull() ==> back[i] == NULL_TXOUT
  {
  }

  /** One output of a coin stake transaction. */
  const STAKED := CoinRecord(false, true, [NULL_TXOUT.(value := 200000000, script := [OP_RETURN, 1])], 1000, 1)

  /** The coin stake flag of a record in every other way storable is lost. */
  lemma StakeForgotten(c: Curve)
    requires Lawful(c)
    ensures Writable(STAKED) && Storable(STAKED)
    ensures Reread(c, STAKED) == Some(STAKED.(coinStake := false)) != Some(STAKED)
  {
    hide Lawful, Reread;
    var v := STAKED.vout;
    assert !v[0].IsNull() && Faithful(v[0]);
    assert NormalOuts(v, 1) == v;
    RereadSame(c, STAKED);
  }
}
