/**
 * Transactions, their unspent outputs and the per-transaction coin records
 * (src/primitives/transaction.h, src/undo.h, src/coins.h).
 */
module Coins {
  import opened Primitives

  type Byte = b: int | 0 <= b < 256
  const OP_RETURN: Byte := 0x6a

  const MAX_MONEY: int := 21_000_000 * 100_000_000

  predicate MoneyRange(value: int) { 0 <= value <= MAX_MONEY }

  datatype TxOut = TxOut(nValue: int, scriptPubKey: seq<Byte>) {
    predicate IsNull() { nValue == -1 }

    predicate IsUnspendable() { |scriptPubKey| > 0 && scriptPubKey[0] == OP_RETURN }
  }

  const NULL_OUT := TxOut(-1, [])

  datatype OutPoint = OutPoint(hash: Hash, n: nat) {
    predicate IsNull() { hash == NULL_HASH && n == 0xffff_ffff }
  }

  datatype TxIn = TxIn(prevout: OutPoint, scriptSig: seq<Byte>)

  datatype Tx = Tx(txid: Hash, nVersion: int, vin: seq<TxIn>, vout: seq<TxOut>) {
    predicate IsCoinBase() { |vin| == 1 && vin[0].prevout.IsNull() }
  }

  /** The undo record of one input: metadata is present only when `nHeight != 0`. */
  datatype TxInUndo = TxInUndo(txout: TxOut, fCoinBase: bool, nHeight: nat, nVersion: int)

  type TxUndo = seq<TxInUndo>

  /** CCoins: the outputs of one transaction; spent ones are null, trailing spent ones dropped. */
  datatype Coins = Coins(fCoinBase: bool, vout: seq<TxOut>, nHeight: nat, nVersion: int) {

    predicate IsPruned() { forall i :: 0 <= i < |vout| ==> vout[i].IsNull() }

    predicate IsAvailable(n: nat) { n < |vout| && !vout[n].IsNull() }

    /** No trailing spent output. */
    predicate IsClean() { vout == [] || !vout[|vout| - 1].IsNull() }

    /** The comparison operator: all pruned records are equal. */
    predicate SameAs(other: Coins) {
      (IsPruned() && other.IsPruned()) || this == other
    }

    /** What a record held by a validated view looks like. */
    ghost predicate WellFormed() {
      && vout != [] && IsClean()
      && nHeight > 0
      && (forall i :: 0 <= i < |vout| ==> vout[i].nValue >= 0 || vout[i] == NULL_OUT)
    }

    function Cleanup(): (c: Coins)
      ensures c.IsClean() && c.IsPruned() == IsPruned()
      ensures c.IsPruned() <==> c.vout == []
    {
      this.(vout := Trimmed(vout))
    }

    function Spend(n: nat): (c: Coins)
      requires IsAvailable(n)
    {
      this.(vout := vout[n := NULL_OUT]).Cleanup()
    }

    function ClearUnspendable(): (c: Coins) {
      this.(vout := NullUnspendable(vout)).Cleanup()
    }
  }

  const EMPTY_COINS := Coins(false, [], 0, 0)

  /** The outputs without the spent ones at the end. */
  function Trimmed(vout: seq<TxOut>): (r: seq<TxOut>)
    ensures r <= vout
    ensures forall i :: |r| <= i < |vout| ==> vout[i].IsNull()
    ensures r == [] || !r[|r| - 1].IsNull()
  {
    if vout == [] then []
    else if vout[|vout| - 1].IsNull() then Trimmed(vout[..|vout| - 1])
    else vout
  }

  function NullUnspendable(vout: seq<TxOut>): (r: seq<TxOut>)
    ensures |r| == |vout|
    ensures forall i :: 0 <= i < |r| ==> r[i] == if vout[i].IsUnspendable() then NULL_OUT else vout[i]
  {
    seq(|vout|, i requires 0 <= i < |vout| => if vout[i].IsUnspendable() then NULL_OUT else vout[i])
  }

  function FromTx(tx: Tx, height: nat): (c: Coins)
    ensures c.IsClean() && (c.IsPruned() <==> c.vout == [])
    ensures c.fCoinBase == tx.IsCoinBase() && c.nHeight == height && c.nVersion == tx.nVersion
    ensures forall n: nat :: c.IsAvailable(n) <==> n < |tx.vout| && !tx.vout[n].IsNull() && !tx.vout[n].IsUnspendable()
    ensures forall n: nat :: c.IsAvailable(n) ==> c.vout[n] == tx.vout[n]
  {
    Coins(tx.IsCoinBase(), tx.vout, height, tx.nVersion).ClearUnspendable()
  }

  /** A trimmed sequence is determined by its non-null entries. */
  lemma TrimmedUnique(a: seq<TxOut>, b: seq<TxOut>)
    requires a <= b && (a == [] || !a[|a| - 1].IsNull())
    requires forall i :: |a| <= i < |b| ==> b[i].IsNull()
    ensures Trimmed(b) == a
  {
    assert |Trimmed(b)| == |a|;
  }

  lemma CleanupOfClean(c: Coins)
    requires c.IsClean()
    ensures c.Cleanup() == c
  {
    TrimmedUnique(c.vout, c.vout);
  }

  lemma {:induction false} ClearUnspendableIdempotent(c: Coins)
    ensures c.ClearUnspendable().ClearUnspendable() == c.ClearUnspendable()
  {
    var d := c.ClearUnspendable();
    assert NullUnspendable(d.vout) == d.vout;
    CleanupOfClean(d);
  }

  /** The destructive loop of CCoins::Cleanup. */
  method CleanupInPlace(vout: seq<TxOut>) returns (r: seq<TxOut>)
    ensures r == Trimmed(vout)
  {
    r := vout;
    while |r| > 0 && r[|r| - 1].IsNull()
      invariant Trimmed(r) == Trimmed(vout)
    {
      r := r[..|r| - 1];
    }
  }
}
