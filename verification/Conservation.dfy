/**
 * The total value of all unspent outputs across ConnectBlock (src/main.cpp): what enters is the
 * coinbase, what leaves is fees and provably unspendable outputs.
 */
module Conservation {
  import opened Primitives
  import opened Coins
  import opened Ledger
  import opened BlockUndo
  import opened Sums

  function Worth(vout: seq<TxOut>): int {
    if vout == [] then 0
    else Worth(vout[..|vout| - 1]) + (if vout[|vout| - 1].IsNull() then 0 else vout[|vout| - 1].nValue)
  }

  ghost function Worths(v: View): map<Hash, int> {
    map h | h in v :: Worth(v[h].vout)
  }

  /** The value of everything unspent. */
  ghost function Total(v: View): int {
    Sum(Worths(v))
  }

  /** The value a list of outputs sends to scripts that can never be satisfied. */
  function Unspendable(vout: seq<TxOut>): int {
    if vout == [] then 0
    else Unspendable(vout[..|vout| - 1]) + (if vout[|vout| - 1].IsUnspendable() then vout[|vout| - 1].nValue else 0)
  }

  function BlockUnspendable(txs: seq<Tx>): int {
    if txs == [] then 0 else BlockUnspendable(txs[..|txs| - 1]) + Unspendable(txs[|txs| - 1].vout)
  }

  lemma {:induction false} WorthTrimmed(vout: seq<TxOut>)
    ensures Worth(Trimmed(vout)) == Worth(vout)
  {
    if vout != [] && vout[|vout| - 1].IsNull() {
      WorthTrimmed(vout[..|vout| - 1]);
    }
  }

  lemma {:induction false} WorthPruned(vout: seq<TxOut>)
    requires forall i :: 0 <= i < |vout| ==> vout[i].IsNull()
    ensures Worth(vout) == 0
  {
    if vout != [] {
      WorthPruned(vout[..|vout| - 1]);
    }
  }

  lemma {:induction false} WorthNulled(vout: seq<TxOut>, n: nat)
    requires n < |vout| && !vout[n].IsNull()
    ensures Worth(vout[n := NULL_OUT]) == Worth(vout) - vout[n].nValue
  {
    var m := |vout| - 1;
    var nulled := vout[n := NULL_OUT];
    if n < m {
      WorthNulled(vout[..m], n);
      assert nulled[..m] == vout[..m][n := NULL_OUT];
    } else {
      assert nulled[..m] == vout[..m];
    }
  }

  lemma {:induction false} WorthNullUnspendable(vout: seq<TxOut>)
    requires forall i :: 0 <= i < |vout| ==> vout[i].nValue >= 0
    ensures Worth(NullUnspendable(vout)) == ValueOut(vout) - Unspendable(vout)
  {
    if vout != [] {
      var m := |vout| - 1;
      WorthNullUnspendable(vout[..m]);
      assert NullUnspendable(vout)[..m] == NullUnspendable(vout[..m]);
    }
  }

  lemma TotalStore(v: View, h: Hash, c: Coins)
    ensures Total(Store(v, h, c)) == Total(v) - Worth(Lookup(v, h).vout) + Worth(c.vout)
  {
    if c.IsPruned() {
      WorthPruned(c.vout);
      assert Worths(v - {h}) == Worths(v) - {h};
      if h in v {
        SumRemove(Worths(v), h);
      } else {
        assert v - {h} == v;
      }
    } else {
      assert Worths(v[h := c]) == Worths(v)[h := Worth(c.vout)];
      SumUpdate(Worths(v), h, Worth(c.vout));
    }
  }

  lemma TotalSpendInput(v: View, out: OutPoint)
    requires Available(v, out)
    ensures Total(SpendInput(v, out)) == Total(v) - OutputFor(v, out).nValue
  {
    var c := v[out.hash];
    TotalStore(v, out.hash, c.Spend(out.n));
    WorthTrimmed(c.vout[out.n := NULL_OUT]);
    WorthNulled(c.vout, out.n);
  }

  lemma {:induction false} SpendInputsKeepsOutputs(v: View, vin: seq<TxIn>, o: OutPoint)
    requires Spendable(v, vin) && Available(SpendInputs(v, vin), o)
    ensures Available(v, o) && OutputFor(SpendInputs(v, vin), o) == OutputFor(v, o)
    decreases |vin|
  {
    if vin != [] {
      var init, last := vin[..|vin| - 1], vin[|vin| - 1].prevout;
      SpendInputEffect(SpendInputs(v, init), last, o);
      SpendInputsKeepsOutputs(v, init, o);
    }
  }

  lemma {:induction false} TotalSpendInputs(v: View, vin: seq<TxIn>)
    requires Spendable(v, vin)
    ensures HaveInputs(v, vin) && Total(SpendInputs(v, vin)) == Total(v) - ValueIn(v, vin)
    decreases |vin|
  {
    SpendableMeansDistinct(v, vin);
    if vin != [] {
      var init, last := vin[..|vin| - 1], vin[|vin| - 1].prevout;
      TotalSpendInputs(v, init);
      TotalSpendInput(SpendInputs(v, init), last);
      SpendInputsKeepsOutputs(v, init, last);
    }
  }

  /** One transaction whose id was unspent nowhere before. */
  lemma TotalUpdateCoins(v: View, tx: Tx, height: nat)
    requires CheckTransaction(tx) && tx.txid !in v
    requires !tx.IsCoinBase() ==> Spendable(v, tx.vin)
    ensures !tx.IsCoinBase() ==> HaveInputs(v, tx.vin)
    ensures Total(UpdateCoins(v, tx, height))
            == Total(v) - (if tx.IsCoinBase() then 0 else ValueIn(v, tx.vin)) + ValueOut(tx.vout) - Unspendable(tx.vout)
  {
    var spent := if tx.IsCoinBase() then v else SpendInputs(v, tx.vin);
    assert tx.txid !in spent && Total(spent) == Total(v) - (if tx.IsCoinBase() then 0 else ValueIn(v, tx.vin)) by {
      if !tx.IsCoinBase() {
        TotalSpendInputs(v, tx.vin);
        SpendInputsEffect(v, tx.vin, OutPoint(0, 0));
      }
    }
    TotalStore(spent, tx.txid, FromTx(tx, height));
    WorthTrimmed(NullUnspendable(tx.vout));
    WorthNullUnspendable(tx.vout);
  }

  /** Every accepted transaction list: coinbase in, fees and unspendable outputs out, no fee negative. */
  lemma {:induction false} TotalConnectTxs(v: View, txs: seq<Tx>, height: nat)
    requires WellFormedView(v) && height > 0 && NoOverwrite(v, txs) && DistinctTxids(txs)
    requires CheckedTxs(txs) && ConnectTxs(v, txs, height).Accepted?
    ensures var c := ConnectTxs(v, txs, height);
            && Total(c.view) == Total(v) + (if txs == [] then 0 else ValueOut(txs[0].vout)) - c.fees - BlockUnspendable(txs)
            && c.fees >= 0
    decreases |txs|
  {
    hide CheckTransaction, UpdateCoins, UpdateCoinsUndo, Spendable, Total;
    if txs != [] {
      var n := |txs| - 1;
      var init, tx := txs[..n], txs[n];
      PrefixConnected(v, txs, height, n);
      var before := ConnectTxs(v, init, height).view;
      assert tx.txid !in before by {
        ConnectTxsWellFormed(v, init, height);
        assert forall i :: 0 <= i < n ==> init[i] == txs[i];
      }
      assert NoOverwrite(v, init) && DistinctTxids(init) && (n > 0 ==> init[0] == txs[0]);
      TotalConnectTxs(v, init, height);
      AcceptedTxSpendable(before, tx, height);
      TotalUpdateCoins(before, tx, height);
    }
  }

  /** Conservation for every block ConnectBlock accepts. */
  lemma {:induction false} ConnectBlockConservesValue(v: View, txs: seq<Tx>, height: nat)
    requires WellFormedView(v) && height > 0 && TxidsInjective(txs)
    requires ConnectBlock(v, txs, height, true).Accepted?
    ensures var c := ConnectBlock(v, txs, height, true);
            && Total(c.view) == Total(v) + ValueOut(txs[0].vout) - c.fees - BlockUnspendable(txs)
            && c.fees >= 0
  {
    AcceptedTxidsDistinct(v, txs, height);
    TotalConnectTxs(v, txs, height);
  }

  /** A block that skipped the BIP 30 scan also takes out what its coinbase overwrote. */
  lemma {:induction false} ExemptBlockLosesOverwrittenValue(v: View, txs: seq<Tx>, height: nat)
    requires WellFormedView(v) && height > 0 && TxidsInjective(txs) && OnlyCoinbaseOverwrites(v, txs)
    requires ConnectBlock(v, txs, height, false).Accepted?
    ensures var c := ConnectBlock(v, txs, height, false);
            && Total(c.view) == Total(v) - Worth(Lookup(v, txs[0].txid).vout) + ValueOut(txs[0].vout) - c.fees - BlockUnspendable(txs)
            && c.fees >= 0
  {
    hide CheckTransaction, ConnectTxs, Total, Coins.WellFormed;
    var v' := v - {txs[0].txid};
    OverwrittenCoinsForgotten(v, txs, height);
    ConnectBlockConservesValue(v', txs, height);
    TotalStore(v, txs[0].txid, EMPTY_COINS);
  }
}
