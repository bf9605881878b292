/**
 * What connecting and disconnecting transactions does to the set of unspent coins,
 * stated on plain maps (src/main.cpp: CheckTransaction, CheckTxInputs, UpdateCoins,
 * ApplyTxInUndo, the transaction loops of ConnectBlock and DisconnectBlock).
 */
module Ledger {
  import opened Primitives
  import opened Coins

  /** Unspent coins by transaction id; a pruned record is represented by absence. */
  type View = map<Hash, Coins>

  ghost predicate WellFormedView(v: View) {
    forall h :: h in v ==> v[h].WellFormed()
  }

  function Lookup(v: View, h: Hash): Coins {
    if h in v then v[h] else EMPTY_COINS
  }

  function Store(v: View, h: Hash, c: Coins): View {
    if c.IsPruned() then v - {h} else v[h := c]
  }

  predicate Available(v: View, out: OutPoint) {
    out.hash in v && v[out.hash].IsAvailable(out.n)
  }

  predicate HaveInputs(v: View, vin: seq<TxIn>) {
    forall i :: 0 <= i < |vin| ==> Available(v, vin[i].prevout)
  }

  predicate DistinctPrevouts(vin: seq<TxIn>) {
    forall i, j :: 0 <= i < j < |vin| ==> vin[i].prevout != vin[j].prevout
  }

  // ---------------------------------------------------------------- spending

  function SpendInput(v: View, out: OutPoint): View
    requires Available(v, out)
  {
    Store(v, out.hash, v[out.hash].Spend(out.n))
  }

  function InputUndo(v: View, out: OutPoint): TxInUndo
    requires Available(v, out)
  {
    var c := v[out.hash];
    if c.Spend(out.n).vout == [] then TxInUndo(c.vout[out.n], c.fCoinBase, c.nHeight, c.nVersion)
    else TxInUndo(c.vout[out.n], false, 0, 0)
  }

  /** Every input is still unspent when its turn comes: the assertion inside UpdateCoins. */
  predicate Spendable(v: View, vin: seq<TxIn>)
    decreases |vin|, 0
  {
    vin == [] || (Spendable(v, vin[..|vin| - 1]) && Available(SpendInputs(v, vin[..|vin| - 1]), vin[|vin| - 1].prevout))
  }

  function SpendInputs(v: View, vin: seq<TxIn>): View
    requires Spendable(v, vin)
    decreases |vin|, 1
  {
    if vin == [] then v
    else SpendInput(SpendInputs(v, vin[..|vin| - 1]), vin[|vin| - 1].prevout)
  }

  function InputUndos(v: View, vin: seq<TxIn>): (undo: TxUndo)
    requires Spendable(v, vin)
    ensures |undo| == |vin|
  {
    if vin == [] then []
    else InputUndos(v, vin[..|vin| - 1]) + [InputUndo(SpendInputs(v, vin[..|vin| - 1]), vin[|vin| - 1].prevout)]
  }

  lemma SpendInputEffect(v: View, out: OutPoint, o: OutPoint)
    requires Available(v, out)
    ensures Available(SpendInput(v, out), o) <==> Available(v, o) && o != out
    ensures Available(v, o) && o != out ==> SpendInput(v, out)[o.hash].vout[o.n] == v[o.hash].vout[o.n]
    ensures SpendInput(v, out).Keys <= v.Keys
  {
    var c := v[out.hash];
    var spent := c.vout[out.n := NULL_OUT];
    assert c.Spend(out.n).vout <= spent;
    if o.hash == out.hash && Available(v, o) && o != out {
      assert !spent[o.n].IsNull();
    }
  }

  /** Spending removes exactly the listed outpoints and nothing else. */
  lemma {:induction false} SpendInputsEffect(v: View, vin: seq<TxIn>, o: OutPoint)
    requires Spendable(v, vin)
    ensures Available(SpendInputs(v, vin), o) <==>
            Available(v, o) && forall i :: 0 <= i < |vin| ==> vin[i].prevout != o
    ensures SpendInputs(v, vin).Keys <= v.Keys
  {
    if vin != [] {
      var init, last := vin[..|vin| - 1], vin[|vin| - 1].prevout;
      SpendInputsEffect(v, init, o);
      SpendInputEffect(SpendInputs(v, init), last, o);
      assert forall i :: 0 <= i < |init| ==> init[i] == vin[i];
    }
  }

  /** Available inputs without repetitions never trip the assertion in UpdateCoins. */
  lemma {:induction false} HaveInputsSpendable(v: View, vin: seq<TxIn>)
    requires HaveInputs(v, vin) && DistinctPrevouts(vin)
    ensures Spendable(v, vin)
  {
    if vin != [] {
      var init := vin[..|vin| - 1];
      HaveInputsSpendable(v, init);
      SpendInputsEffect(v, init, vin[|vin| - 1].prevout);
    }
  }

  /** Conversely, inputs that can be spent one after the other were all available and distinct. */
  lemma {:induction false} SpendableMeansDistinct(v: View, vin: seq<TxIn>)
    requires Spendable(v, vin)
    ensures HaveInputs(v, vin) && DistinctPrevouts(vin)
  {
    if vin != [] {
      var init := vin[..|vin| - 1];
      SpendableMeansDistinct(v, init);
      SpendInputsEffect(v, init, vin[|vin| - 1].prevout);
      assert forall i :: 0 <= i < |init| ==> init[i] == vin[i];
    }
  }

  // ---------------------------------------------------------- undoing inputs

  /** Outputs padded with null up to index `n`, with `out` stored there. */
  function PutOutput(vout: seq<TxOut>, n: nat, out: TxOut): (r: seq<TxOut>)
    ensures n < |r| && r[n] == out
  {
    if n < |vout| then vout[n := out]
    else vout + seq(n - |vout|, _ => NULL_OUT) + [out]
  }

  function ApplyTxInUndo(undo: TxInUndo, v: View, out: OutPoint): (View, bool)
  {
    var coins := Lookup(v, out.hash);
    var last := undo.nHeight != 0;
    var kept := if last then Coins(undo.fCoinBase, [], undo.nHeight, undo.nVersion) else coins;
    var clean := (coins.IsPruned() <==> last) && !kept.IsAvailable(out.n);
    (Store(v, out.hash, kept.(vout := PutOutput(kept.vout, out.n, undo.txout)).Cleanup()), clean)
  }

  /** Undo records applied from the last input to the first. */
  function UndoInputs(v: View, vin: seq<TxIn>, undo: TxUndo): (View, bool)
    requires |undo| == |vin|
    decreases |vin|
  {
    if vin == [] then (v, true)
    else
      var n := |vin| - 1;
      var (v1, clean1) := ApplyTxInUndo(undo[n], v, vin[n].prevout);
      var (v2, clean2) := UndoInputs(v1, vin[..n], undo[..n]);
      (v2, clean1 && clean2)
  }

  lemma SpendInputWellFormed(v: View, out: OutPoint)
    requires WellFormedView(v) && Available(v, out)
    ensures WellFormedView(SpendInput(v, out))
  {
    var c := v[out.hash];
    assert c.Spend(out.n).vout <= c.vout[out.n := NULL_OUT];
  }

  /** Putting an output back where it was spent rebuilds the output vector, trimmed or not. */
  lemma PutOutputInverts(c: Coins, n: nat)
    requires c.WellFormed() && c.IsAvailable(n)
    ensures PutOutput(c.Spend(n).vout, n, c.vout[n]) == c.vout
  {
    var last := |c.vout| - 1;
    var nulled := c.vout[n := NULL_OUT];
    if n < last {
      assert !nulled[last].IsNull();
      TrimmedUnique(nulled, nulled);
    } else {
      var kept := Trimmed(nulled);
      assert |kept| <= last by {
        assert nulled[last].IsNull();
      }
      assert forall i :: |kept| <= i < last ==> c.vout[i] == nulled[i] == NULL_OUT;
      assert PutOutput(kept, n, c.vout[n]) == c.vout;
    }
  }

  /** One input: the undo record restores the record exactly, metadata included. */
  lemma UndoInputInverts(v: View, out: OutPoint)
    requires WellFormedView(v) && Available(v, out)
    ensures ApplyTxInUndo(InputUndo(v, out), SpendInput(v, out), out) == (v, true)
  {
    var c := v[out.hash];
    var s := c.Spend(out.n);
    PutOutputInverts(c, out.n);
    CleanupOfClean(c);
    assert !c.IsPruned();
    if s.vout == [] {
      assert PutOutput([], out.n, c.vout[out.n]) == c.vout;
      assert (v - {out.hash})[out.hash := c] == v;
    } else {
      assert s.(vout := c.vout) == c;
      assert v[out.hash := s][out.hash := c] == v;
    }
  }

  lemma {:induction false} SpendInputsWellFormed(v: View, vin: seq<TxIn>)
    requires WellFormedView(v) && Spendable(v, vin)
    ensures WellFormedView(SpendInputs(v, vin))
  {
    if vin != [] {
      SpendInputsWellFormed(v, vin[..|vin| - 1]);
      SpendInputWellFormed(SpendInputs(v, vin[..|vin| - 1]), vin[|vin| - 1].prevout);
    }
  }

  /** All inputs of a transaction, several of which may spend the same record. */
  lemma {:induction false} UndoInputsInverts(v: View, vin: seq<TxIn>)
    requires WellFormedView(v) && Spendable(v, vin)
    ensures UndoInputs(SpendInputs(v, vin), vin, InputUndos(v, vin)) == (v, true)
  {
    if vin != [] {
      var n := |vin| - 1;
      var init := vin[..n];
      SpendInputsWellFormed(v, init);
      UndoInputInverts(SpendInputs(v, init), vin[n].prevout);
      UndoInputsInverts(v, init);
      assert InputUndos(v, vin)[..n] == InputUndos(v, init);
    }
  }

  // ------------------------------------------------------------ transactions

  const COINBASE_MATURITY := 100

  function ValueOut(vout: seq<TxOut>): int {
    if vout == [] then 0 else ValueOut(vout[..|vout| - 1]) + vout[|vout| - 1].nValue
  }

  function ValueIn(v: View, vin: seq<TxIn>): int
    requires HaveInputs(v, vin)
  {
    if vin == [] then 0
    else
      assert forall i :: 0 <= i < |vin| - 1 ==> vin[..|vin| - 1][i] == vin[i];
      ValueIn(v, vin[..|vin| - 1]) + OutputFor(v, vin[|vin| - 1].prevout).nValue
  }

  function OutputFor(v: View, out: OutPoint): TxOut
    requires Available(v, out)
  {
    v[out.hash].vout[out.n]
  }

  function TotalUpTo(vout: seq<TxOut>, i: nat): int
    requires i < |vout|
  {
    ValueOut(vout[..i + 1])
  }

  predicate OutputsInRange(vout: seq<TxOut>) {
    forall i :: 0 <= i < |vout| ==> MoneyRange(vout[i].nValue) && MoneyRange(TotalUpTo(vout, i))
  }

  /** The accepting condition of CheckTransaction; size limits are not modelled. */
  predicate CheckTransaction(tx: Tx) {
    && tx.vin != [] && tx.vout != []
    && OutputsInRange(tx.vout)
    && DistinctPrevouts(tx.vin)
    && (if tx.IsCoinBase() then 2 <= |tx.vin[0].scriptSig| <= 100
        else forall i :: 0 <= i < |tx.vin| ==> !tx.vin[i].prevout.IsNull())
  }

  /** The accepting condition of CheckTxInputs. */
  predicate CheckTxInputs(v: View, tx: Tx, spendHeight: nat) {
    && HaveInputs(v, tx.vin)
    && (forall i :: 0 <= i < |tx.vin| ==> InputMatureAndInRange(v, tx.vin, i, spendHeight))
    && ValueIn(v, tx.vin) >= ValueOut(tx.vout)
    && MoneyRange(ValueIn(v, tx.vin) - ValueOut(tx.vout))
  }

  predicate InputMatureAndInRange(v: View, vin: seq<TxIn>, i: nat, spendHeight: nat)
    requires i < |vin| && HaveInputs(v, vin)
  {
    var out := vin[i].prevout;
    && (v[out.hash].fCoinBase ==> spendHeight - v[out.hash].nHeight >= COINBASE_MATURITY)
    && MoneyRange(OutputFor(v, out).nValue)
    && (assert HaveInputs(v, vin[..i + 1]) by {
          assert forall k :: 0 <= k <= i ==> vin[..i + 1][k] == vin[k];
        }
        MoneyRange(ValueIn(v, vin[..i + 1])))
  }

  /** UpdateCoins on a non-coinbase transaction spends its inputs; any transaction adds its outputs. */
  function UpdateCoins(v: View, tx: Tx, height: nat): View
    requires !tx.IsCoinBase() ==> Spendable(v, tx.vin)
  {
    Store(if tx.IsCoinBase() then v else SpendInputs(v, tx.vin), tx.txid, FromTx(tx, height))
  }

  function UpdateCoinsUndo(v: View, tx: Tx): TxUndo
    requires !tx.IsCoinBase() ==> Spendable(v, tx.vin)
  {
    if tx.IsCoinBase() then [] else InputUndos(v, tx.vin)
  }

  datatype Undone = Inconsistent | Restored(view: View, clean: bool)

  /** The recorded outputs are those the transaction created; a negative version is not stored. */
  predicate OutputsMatch(recorded: Coins, tx: Tx, height: nat) {
    var outsBlock := FromTx(tx, height);
    var outs := recorded.ClearUnspendable();
    (if outsBlock.nVersion < 0 then outs.(nVersion := outsBlock.nVersion) else outs).SameAs(outsBlock)
  }

  /** One round of the DisconnectBlock loop; `undo` is absent for the first transaction. */
  function DisconnectTx(v: View, tx: Tx, height: nat, first: bool, undo: TxUndo): Undone {
    var clean := OutputsMatch(Lookup(v, tx.txid), tx, height);
    var removed := v - {tx.txid};
    if first then Restored(removed, clean)
    else if |undo| != |tx.vin| then Inconsistent
    else
      var (restored, clean2) := UndoInputs(removed, tx.vin, undo);
      Restored(restored, clean && clean2)
  }

  lemma FromTxWellFormed(tx: Tx, height: nat)
    requires CheckTransaction(tx) && height > 0
    ensures var c := FromTx(tx, height); c.IsPruned() || c.WellFormed()
  {
    var c := FromTx(tx, height);
    assert c.vout <= NullUnspendable(tx.vout);
  }

  lemma UpdateCoinsWellFormed(v: View, tx: Tx, height: nat)
    requires WellFormedView(v) && CheckTransaction(tx) && height > 0
    requires !tx.IsCoinBase() ==> Spendable(v, tx.vin)
    ensures WellFormedView(UpdateCoins(v, tx, height))
    ensures UpdateCoins(v, tx, height).Keys <= v.Keys + {tx.txid}
  {
    var c := FromTx(tx, height);
    assert c.IsPruned() || c.WellFormed() by {
      FromTxWellFormed(tx, height);
    }
    hide CheckTransaction, FromTx, SpendInputs, Coins.WellFormed, Coins.IsPruned;
    if !tx.IsCoinBase() {
      SpendInputsWellFormed(v, tx.vin);
      SpendInputsEffect(v, tx.vin, OutPoint(0, 0));
    }
  }

  /** A transaction whose id was unspent nowhere before is undone exactly and reported clean. */
  lemma DisconnectTxInverts(v: View, tx: Tx, height: nat)
    requires WellFormedView(v) && tx.txid !in v
    requires !tx.IsCoinBase() ==> Spendable(v, tx.vin)
    ensures DisconnectTx(UpdateCoins(v, tx, height), tx, height, tx.IsCoinBase(), UpdateCoinsUndo(v, tx))
            == Restored(v, true)
  {
    var spent := if tx.IsCoinBase() then v else SpendInputs(v, tx.vin);
    assert tx.txid !in spent && (!tx.IsCoinBase() ==> UndoInputs(spent, tx.vin, InputUndos(v, tx.vin)) == (v, true)) by {
      if !tx.IsCoinBase() {
        SpendInputsEffect(v, tx.vin, OutPoint(0, 0));
        UndoInputsInverts(v, tx.vin);
      }
    }
    StoredOutputsMatch(spent, tx, height);
  }

  lemma StoredOutputsMatch(v: View, tx: Tx, height: nat)
    requires tx.txid !in v
    ensures var v1 := Store(v, tx.txid, FromTx(tx, height));
            v1 - {tx.txid} == v && OutputsMatch(Lookup(v1, tx.txid), tx, height)
  {
    ClearUnspendableIdempotent(Coins(tx.IsCoinBase(), tx.vout, height, tx.nVersion));
  }

  /** When a coinbase overwrites unspent coins of the same id they cannot be brought back. */
  lemma CoinbaseUndoneIffNothingOverwritten(v: View, tx: Tx, height: nat)
    requires WellFormedView(v) && tx.IsCoinBase()
    ensures DisconnectTx(UpdateCoins(v, tx, height), tx, height, true, UpdateCoinsUndo(v, tx)) == Restored(v, true)
            <==> tx.txid !in v
  {
    if tx.txid !in v {
      DisconnectTxInverts(v, tx, height);
    } else {
      assert tx.txid !in (UpdateCoins(v, tx, height) - {tx.txid});
    }
  }
}
