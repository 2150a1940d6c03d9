/** Transaction outputs and the pruned transaction records kept in the coins
    database (src/primitives/transaction.h, src/coins.h). */
module Coins {

  import opened Common

  /** A range proof is opaque here: only whether it is present matters. */
  type RangeProof = seq<byte>

  datatype TokenId = TokenId(token: nat, subid: nat)

  const NO_TOKEN := TokenId(0, 0xFFFF_FFFF_FFFF_FFFF)

  datatype TxOut = TxOut(
    value: int,
    script: seq<byte>,
    ephemeralKey: seq<byte>,
    outputKey: seq<byte>,
    spendingKey: seq<byte>,
    data: seq<byte>,
    tokenId: TokenId,
    proof: Option<RangeProof>)
  {
    predicate IsNull() {
      value == -1 && script == [] && spendingKey == [] && ephemeralKey == [] && outputKey == []
    }
  }

  const NULL_TXOUT := TxOut(-1, [], [], [], [], [], NO_TOKEN, None)

  /** The record of one transaction: metadata and its outputs, spent ones null. */
  datatype CoinRecord = CoinRecord(coinBase: bool, coinStake: bool, vout: seq<TxOut>, height: int, version: int)
  {
    predicate IsPruned() {
      forall i :: 0 <= i < |vout| ==> vout[i].IsNull()
    }

    /** No spent outputs at the end of vout. */
    predicate IsTrimmed() {
      vout == [] || !vout[|vout| - 1].IsNull()
    }

    predicate IsAvailable(pos: nat) {
      pos < |vout| && !vout[pos].IsNull()
    }

    function Cleanup(): (r: CoinRecord)
      ensures r.IsTrimmed()
      ensures r.vout <= vout && r == this.(vout := r.vout)
      ensures forall i: nat :: r.IsAvailable(i) <==> IsAvailable(i)
    {
      this.(vout := DropTrailingNulls(vout))
    }

    function Spend(pos: nat): (r: (bool, CoinRecord))
      ensures r.0 <==> IsAvailable(pos)
      ensures forall i: nat :: r.1.IsAvailable(i) <==> IsAvailable(i) && i != pos
      ensures forall i: nat :: r.1.IsAvailable(i) ==> IsAvailable(i) && r.1.vout[i] == vout[i]
      ensures IsTrimmed() ==> r.1.IsTrimmed()
    {
      if !IsAvailable(pos) then (false, this)
      else (true, this.(vout := vout[pos := NULL_TXOUT]).Cleanup())
    }
  }

  const EMPTY_RECORD := CoinRecord(false, false, [], 0, 0)

  function DropTrailingNulls(v: seq<TxOut>): (r: seq<TxOut>)
    ensures r <= v
    ensures r == [] || !r[|r| - 1].IsNull()
    ensures forall i :: |r| <= i < |v| ==> v[i].IsNull()
  {
    if v != [] && v[|v| - 1].IsNull() then DropTrailingNulls(v[..|v| - 1]) else v
  }
}
