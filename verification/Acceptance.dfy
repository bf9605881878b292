/**
 * Which transactions and blocks the checks of src/main.cpp let through, stated without the running
 * totals and intermediate views in which CheckTransaction, CheckTxInputs and ConnectBlock compute it.
 */
module Acceptance {
  import opened Primitives
  import opened Coins
  import opened Ledger
  import opened BlockUndo

  /** All values of a list of outputs are non-negative. */
  predicate NonNegative(vout: seq<TxOut>) {
    forall i :: 0 <= i < |vout| ==> vout[i].nValue >= 0
  }

  lemma {:induction false} ValueOutGrows(vout: seq<TxOut>, i: nat)
    requires NonNegative(vout) && i <= |vout|
    ensures 0 <= ValueOut(vout[..i]) <= ValueOut(vout)
    decreases |vout|
  {
    var n := |vout| - 1;
    if i <= n {
      ValueOutGrows(vout[..n], i);
      assert vout[..n][..i] == vout[..i];
    } else {
      assert vout[..i] == vout;
      if n >= 0 {
        ValueOutGrows(vout[..n], n);
        assert vout[..n][..n] == vout[..n];
      }
    }
  }

  /** The tests on each output and on the running total come down to one test on the total. */
  lemma OutputRangesIff(vout: seq<TxOut>)
    ensures OutputsInRange(vout) <==> NonNegative(vout) && ValueOut(vout) <= 2_100_000_000_000_000
  {
    if NonNegative(vout) && ValueOut(vout) <= 2_100_000_000_000_000 {
      forall i | 0 <= i < |vout|
        ensures MoneyRange(vout[i].nValue) && MoneyRange(TotalUpTo(vout, i))
      {
        ValueOutGrows(vout, i + 1);
        ValueOutGrows(vout, i);
        assert vout[..i + 1][..i] == vout[..i];
      }
    }
    if OutputsInRange(vout) && vout != [] {
      assert MoneyRange(TotalUpTo(vout, |vout| - 1));
      assert vout[..|vout|] == vout;
    }
  }

  /** CheckTransaction in full: 21 million coins of 10^8 units, distinct inputs, scripts of a coinbase. */
  lemma CheckTransactionIff(tx: Tx)
    ensures CheckTransaction(tx) <==>
            && |tx.vin| > 0 && |tx.vout| > 0
            && NonNegative(tx.vout) && ValueOut(tx.vout) <= 2_100_000_000_000_000
            && (forall i, j :: 0 <= i < j < |tx.vin| ==> tx.vin[i].prevout != tx.vin[j].prevout)
            && (if |tx.vin| == 1 && tx.vin[0].prevout == OutPoint(0, 4294967295) then 2 <= |tx.vin[0].scriptSig| <= 100
                else forall i :: 0 <= i < |tx.vin| ==> tx.vin[i].prevout != OutPoint(0, 4294967295))
  {
    OutputRangesIff(tx.vout);
    hide ValueOut, OutputsInRange;
    assert forall o: OutPoint :: o.IsNull() <==> o == OutPoint(0, 4294967295);
  }

  // ------------------------------------------------------------------ inputs

  /** The inputs are there, and no amount is negative. */
  predicate InputsThere(v: View, vin: seq<TxIn>) {
    HaveInputs(v, vin) && forall k :: 0 <= k < |vin| ==> OutputFor(v, vin[k].prevout).nValue >= 0
  }

  lemma {:induction false} ValueInGrows(v: View, vin: seq<TxIn>, i: nat)
    requires InputsThere(v, vin) && i <= |vin|
    ensures InputsThere(v, vin[..i]) && 0 <= ValueIn(v, vin[..i]) <= ValueIn(v, vin)
    decreases |vin|
  {
    assert forall k :: 0 <= k < i ==> vin[..i][k] == vin[k];
    var n := |vin| - 1;
    if i <= n {
      assert forall k :: 0 <= k < n ==> vin[..n][k] == vin[k];
      ValueInGrows(v, vin[..n], i);
      assert vin[..n][..i] == vin[..i];
    } else {
      assert vin[..i] == vin;
      if n >= 0 {
        assert forall k :: 0 <= k < n ==> vin[..n][k] == vin[k];
        ValueInGrows(v, vin[..n], n);
        assert vin[..n][..n] == vin[..n];
      }
    }
  }

  /** A coinbase is spent at least 100 blocks later, and what comes out is no more than what goes in. */
  predicate InputsPass(v: View, tx: Tx, height: nat) {
    && InputsThere(v, tx.vin)
    && (forall k :: 0 <= k < |tx.vin| && v[tx.vin[k].prevout.hash].fCoinBase ==>
          height - v[tx.vin[k].prevout.hash].nHeight >= 100)
    && ValueOut(tx.vout) <= ValueIn(v, tx.vin) <= 2_100_000_000_000_000
  }

  /** CheckTxInputs in full, for a transaction that passed CheckTransaction. */
  lemma CheckTxInputsIff(v: View, tx: Tx, height: nat)
    requires CheckTransaction(tx)
    ensures CheckTxInputs(v, tx, height) <==> InputsPass(v, tx, height)
  {
    hide *;
    if CheckTxInputs(v, tx, height) {
      CheckedInputsPass(v, tx, height);
    }
    if InputsPass(v, tx, height) {
      PassingInputsChecked(v, tx, height);
    }
  }

  lemma CheckedInputsPass(v: View, tx: Tx, height: nat)
    requires CheckTransaction(tx) && CheckTxInputs(v, tx, height)
    ensures InputsPass(v, tx, height)
  {
    hide ValueIn, ValueOut;
    var n := |tx.vin|;
    forall k | 0 <= k < n
      ensures OutputFor(v, tx.vin[k].prevout).nValue >= 0
      ensures v[tx.vin[k].prevout.hash].fCoinBase ==> height - v[tx.vin[k].prevout.hash].nHeight >= 100
    {
      assert InputMatureAndInRange(v, tx.vin, k, height);
    }
    assert InputMatureAndInRange(v, tx.vin, n - 1, height);
    assert tx.vin[..n - 1 + 1] == tx.vin;
  }

  lemma PassingInputsChecked(v: View, tx: Tx, height: nat)
    requires CheckTransaction(tx) && InputsPass(v, tx, height)
    ensures CheckTxInputs(v, tx, height)
  {
    OutputRangesIff(tx.vout);
    ValueOutGrows(tx.vout, 0);
    forall k | 0 <= k < |tx.vin|
      ensures InputMatureAndInRange(v, tx.vin, k, height)
    {
      ValueInGrows(v, tx.vin, k + 1);
      ValueInGrows(v, tx.vin, k);
      assert tx.vin[..k + 1][..k] == tx.vin[..k];
    }
  }

  // ------------------------------------------------------------------ blocks

  /**
   * The record of an id for the transaction that follows `earlier` in a block: the one from before the block, or the
   * outputs of the earlier transaction with this id.
   */
  function Origin(v: View, earlier: seq<Tx>, height: nat, id: Hash): Coins {
    if id in v || earlier == [] then Lookup(v, id)
    else
      var n := |earlier| - 1;
      if earlier[n].txid == id then Coins(n == 0, earlier[n].vout, height, earlier[n].nVersion)
      else Origin(v, earlier[..n], height, id)
  }

  /** A script that starts with OP_RETURN. */
  predicate NeverSpendable(script: seq<Byte>) {
    |script| > 0 && script[0] == 106
  }

  /** The outpoint names an output that was unspent before the block or is created earlier in it, and is spent by nobody so far. */
  predicate Unspent(v: View, earlier: seq<Tx>, height: nat, o: OutPoint) {
    && (var c := Origin(v, earlier, height, o.hash);
        c.IsAvailable(o.n) && (o.hash in v || !NeverSpendable(c.vout[o.n].scriptPubKey)))
    && forall j :: 0 < j < |earlier| ==> !Spends(earlier[j], o)
  }

  /** What the view after `earlier` holds for an id, as far as it matters for spending output `n` of it. */
  predicate SameOutput(c: Coins, d: Coins, n: nat) {
    c.IsAvailable(n) && d.IsAvailable(n) && c.vout[n] == d.vout[n] && c.fCoinBase == d.fCoinBase && c.nHeight == d.nHeight
  }

  /** The view in the middle of a block shows exactly the outputs that are unspent by the definition above. */
  lemma {:induction false} AvailableIff(v: View, txs: seq<Tx>, height: nat, o: OutPoint)
    requires WellFormedView(v) && height > 0 && NoOverwrite(v, txs) && DistinctTxids(txs)
    requires CheckedTxs(txs) && ConnectTxs(v, txs, height).Accepted?
    ensures Available(ConnectTxs(v, txs, height).view, o) <==> Unspent(v, txs, height, o)
    ensures Unspent(v, txs, height, o) ==>
              SameOutput(ConnectTxs(v, txs, height).view[o.hash], Origin(v, txs, height, o.hash), o.n)
    decreases |txs|
  {
    hide CheckTransaction, AcceptsTx, UpdateCoins, UpdateCoinsUndo, Coins.WellFormed, Coins.IsAvailable, FromTx, Spends;
    if txs == [] {
      AvailableBefore(v, height, o);
    } else {
      var n := |txs| - 1;
      var init, tx := txs[..n], txs[n];
      PrefixConnected(v, txs, height, n);
      assert NoOverwrite(v, init) && DistinctTxids(init);
      AvailableIff(v, init, height, o);
      var before := ConnectTxs(v, init, height).view;
      AcceptedTxSpendable(before, tx, height);
      assert forall j :: 0 <= j < n ==> init[j] == txs[j];
      if o.hash == tx.txid {
        CreatedOutput(before, tx, height, o);
        forall j | 0 < j < |txs|
          ensures !Spends(txs[j], o)
        {
          if Spends(txs[j], o) {
            SpentIdNotCreatedLater(v, txs, height, j, n, o);
          }
        }
      } else {
        OtherOutput(before, tx, height, o);
      }
    }
  }

  lemma AvailableBefore(v: View, height: nat, o: OutPoint)
    ensures Available(v, o) <==> Unspent(v, [], height, o)
    ensures Available(v, o) ==> SameOutput(v[o.hash], Origin(v, [], height, o.hash), o.n)
  {
  }

  lemma CreatedOutput(v: View, tx: Tx, height: nat, o: OutPoint)
    requires CheckTransaction(tx) && o.hash == tx.txid && (!tx.IsCoinBase() ==> Spendable(v, tx.vin))
    ensures var c, v' := Coins(tx.IsCoinBase(), tx.vout, height, tx.nVersion), UpdateCoins(v, tx, height);
            && (Available(v', o) <==> c.IsAvailable(o.n) && !c.vout[o.n].IsUnspendable())
            && (Available(v', o) ==> SameOutput(v'[o.hash], c, o.n))
  {
    hide SpendInputs, Spendable;
  }

  lemma OtherOutput(v: View, tx: Tx, height: nat, o: OutPoint)
    requires CheckTransaction(tx) && o.hash != tx.txid && (!tx.IsCoinBase() ==> Spendable(v, tx.vin))
    ensures var v' := UpdateCoins(v, tx, height);
            && (Available(v', o) <==> Available(v, o) && (tx.IsCoinBase() || !Spends(tx, o)))
            && (Available(v', o) ==> SameOutput(v'[o.hash], v[o.hash], o.n))
  {
    if !tx.IsCoinBase() {
      SpendInputsEffect(v, tx.vin, o);
      if Available(SpendInputs(v, tx.vin), o) {
        SpendingKeepsRecord(v, tx.vin, o);
      }
    }
  }

  lemma {:induction false} SpendingKeepsRecord(v: View, vin: seq<TxIn>, o: OutPoint)
    requires Spendable(v, vin) && Available(SpendInputs(v, vin), o)
    ensures Available(v, o) && SameOutput(SpendInputs(v, vin)[o.hash], v[o.hash], o.n)
    decreases |vin|
  {
    if vin != [] {
      var init, last := vin[..|vin| - 1], vin[|vin| - 1].prevout;
      SpendInputEffect(SpendInputs(v, init), last, o);
      SpendingKeepsRecord(v, init, o);
    }
  }

  predicate AllUnspent(v: View, earlier: seq<Tx>, height: nat, vin: seq<TxIn>) {
    forall k :: 0 <= k < |vin| ==> Unspent(v, earlier, height, vin[k].prevout)
  }

  function SpentValue(v: View, earlier: seq<Tx>, height: nat, vin: seq<TxIn>): int
    requires AllUnspent(v, earlier, height, vin)
  {
    if vin == [] then 0
    else
      var init, o := vin[..|vin| - 1], vin[|vin| - 1].prevout;
      assert forall k :: 0 <= k < |init| ==> init[k] == vin[k];
      assert Unspent(v, earlier, height, o);
      SpentValue(v, earlier, height, init) + Origin(v, earlier, height, o.hash).vout[o.n].nValue
  }

  /** The transaction may follow `earlier` in a block at `height`. */
  predicate Fits(v: View, earlier: seq<Tx>, height: nat, tx: Tx) {
    && AllUnspent(v, earlier, height, tx.vin)
    && (forall k :: 0 <= k < |tx.vin| ==>
          var c := Origin(v, earlier, height, tx.vin[k].prevout.hash); c.fCoinBase ==> height - c.nHeight >= 100)
    && ValueOut(tx.vout) <= SpentValue(v, earlier, height, tx.vin) <= 2_100_000_000_000_000
  }

  /** `u` shows the outputs that are unspent after `earlier`, with their amounts and metadata. */
  ghost predicate Shows(u: View, v: View, earlier: seq<Tx>, height: nat) {
    && (forall o :: Available(u, o) <==> Unspent(v, earlier, height, o))
    && (forall o :: Available(u, o) ==>
          OutputFor(u, o).nValue >= 0 && SameOutput(u[o.hash], Origin(v, earlier, height, o.hash), o.n))
  }

  lemma ViewShows(v: View, txs: seq<Tx>, height: nat)
    requires WellFormedView(v) && height > 0 && NoOverwrite(v, txs) && DistinctTxids(txs)
    requires CheckedTxs(txs) && ConnectTxs(v, txs, height).Accepted?
    ensures Shows(ConnectTxs(v, txs, height).view, v, txs, height)
  {
    hide CheckTransaction, ConnectTxs, Unspent, Origin, SameOutput;
    var u := ConnectTxs(v, txs, height).view;
    ConnectTxsWellFormed(v, txs, height);
    forall o
      ensures Available(u, o) <==> Unspent(v, txs, height, o)
      ensures Available(u, o) ==>
                OutputFor(u, o).nValue >= 0 && SameOutput(u[o.hash], Origin(v, txs, height, o.hash), o.n)
    {
      AvailableIff(v, txs, height, o);
    }
  }

  lemma {:induction false} SameValue(u: View, v: View, earlier: seq<Tx>, height: nat, vin: seq<TxIn>)
    requires Shows(u, v, earlier, height)
    ensures InputsThere(u, vin) <==> AllUnspent(v, earlier, height, vin)
    ensures InputsThere(u, vin) ==> ValueIn(u, vin) == SpentValue(v, earlier, height, vin)
    decreases |vin|
  {
    hide Unspent, Origin;
    if vin != [] {
      var init := vin[..|vin| - 1];
      assert forall k :: 0 <= k < |init| ==> init[k] == vin[k];
      SameValue(u, v, earlier, height, init);
    }
  }

  lemma FitsIff(u: View, v: View, earlier: seq<Tx>, height: nat, tx: Tx)
    requires Shows(u, v, earlier, height)
    ensures InputsPass(u, tx, height) <==> Fits(v, earlier, height, tx)
  {
    hide Unspent, Origin, ValueIn, SpentValue, ValueOut;
    SameValue(u, v, earlier, height, tx.vin);
  }

  predicate FitsAt(v: View, txs: seq<Tx>, height: nat, i: nat)
    requires i < |txs|
  {
    Fits(v, txs[..i], height, txs[i])
  }

  lemma NextAcceptedIff(v: View, init: seq<Tx>, height: nat, tx: Tx)
    requires WellFormedView(v) && height > 0 && NoOverwrite(v, init) && DistinctTxids(init)
    requires CheckedTxs(init) && CheckTransaction(tx) && ConnectTxs(v, init, height).Accepted? && !tx.IsCoinBase()
    ensures AcceptsTx(ConnectTxs(v, init, height).view, tx, height) <==> Fits(v, init, height, tx)
  {
    hide CheckTransaction, ConnectTxs, Fits, CheckTxInputs, Shows, InputsPass;
    ViewShows(v, init, height);
    FitsIff(ConnectTxs(v, init, height).view, v, init, height, tx);
    CheckTxInputsIff(ConnectTxs(v, init, height).view, tx, height);
  }

  /** The transaction loop of ConnectBlock accepts exactly the lists in which every transaction fits after the earlier ones. */
  lemma {:induction false} ListAcceptedIff(v: View, txs: seq<Tx>, height: nat)
    requires WellFormedView(v) && height > 0 && NoOverwrite(v, txs) && DistinctTxids(txs) && CheckedTxs(txs)
    ensures ConnectTxs(v, txs, height).Accepted? <==> forall i :: 0 < i < |txs| ==> FitsAt(v, txs, height, i)
    decreases |txs|
  {
    hide CheckTransaction, Fits, UpdateCoins, UpdateCoinsUndo, CheckTxInputs, Coins.WellFormed;
    if txs != [] {
      var n := |txs| - 1;
      var init := txs[..n];
      PrefixChecked(txs, n);
      ListAcceptedIff(v, init, height);
      assert forall i :: 0 <= i < n ==> init[i] == txs[i] && init[..i] == txs[..i];
      assert forall i :: 0 <= i < n ==> FitsAt(v, init, height, i) == FitsAt(v, txs, height, i);
      if ConnectTxs(v, init, height).Accepted? && n > 0 {
        NextAcceptedIff(v, init, height, txs[n]);
        assert FitsAt(v, txs, height, n) == Fits(v, init, height, txs[n]);
      }
    }
  }

  /** A block that may follow a chain with the coins `v`. */
  ghost predicate BlockFits(v: View, txs: seq<Tx>, height: nat) {
    && CheckBlock(txs) && NoOverwrite(v, txs) && DistinctTxids(txs)
    && forall i :: 0 < i < |txs| ==> FitsAt(v, txs, height, i)
  }

  /** ConnectBlock under the BIP 30 rule accepts a block exactly if it fits. */
  lemma BlockAcceptedIff(v: View, txs: seq<Tx>, height: nat)
    requires WellFormedView(v) && height > 0 && TxidsInjective(txs)
    ensures ConnectBlock(v, txs, height, true).Accepted? <==> BlockFits(v, txs, height)
  {
    hide CheckTransaction, Fits, ConnectTxs;
    if CheckBlock(txs) && NoOverwrite(v, txs) {
      if ConnectTxs(v, txs, height).Accepted? {
        AcceptedTxidsDistinct(v, txs, height);
      }
      if DistinctTxids(txs) {
        ListAcceptedIff(v, txs, height);
      }
    }
  }

  /** No output is spent twice in an accepted block, and none before it is created. */
  lemma NoDoubleSpend(v: View, txs: seq<Tx>, height: nat, i: nat, k: nat, j: nat, l: nat)
    requires WellFormedView(v) && height > 0 && TxidsInjective(txs) && ConnectBlock(v, txs, height, true).Accepted?
    requires 0 < i <= j < |txs| && k < |txs[i].vin| && l < |txs[j].vin|
    ensures txs[i].vin[k].prevout == txs[j].vin[l].prevout ==> i == j && k == l
    ensures txs[i].vin[k].prevout.hash != txs[j].txid
  {
    hide ConnectTxs, OutputsInRange, Fits;
    BlockAcceptedIff(v, txs, height);
    var o := txs[i].vin[k].prevout;
    assert Spends(txs[i], o);
    SpentIdNotCreatedLater(v, txs, height, i, j, o);
    if i < j && o == txs[j].vin[l].prevout {
      EarlierUnspent(v, txs, height, j, l);
    }
  }

  lemma EarlierUnspent(v: View, txs: seq<Tx>, height: nat, j: nat, l: nat)
    requires BlockFits(v, txs, height) && 0 < j < |txs| && l < |txs[j].vin|
    ensures Unspent(v, txs[..j], height, txs[j].vin[l].prevout)
    ensures forall i :: 0 < i < j ==> !Spends(txs[i], txs[j].vin[l].prevout)
  {
    hide CheckTransaction, SpentValue, Origin;
    assert FitsAt(v, txs, height, j);
    assert forall i :: 0 < i < j ==> txs[..j][i] == txs[i];
  }

  /** Every input of an accepted block spends a record of the view at that point, 100 blocks deep if a coinbase. */
  lemma AcceptedInputsMature(v: View, txs: seq<Tx>, height: nat, enforceBip30: bool, i: nat, k: nat)
    requires ConnectBlock(v, txs, height, enforceBip30).Accepted? && 0 < i < |txs| && k < |txs[i].vin|
    ensures CheckedTxs(txs[..i]) && ConnectTxs(v, txs[..i], height).Accepted?
    ensures var u, o := ConnectTxs(v, txs[..i], height).view, txs[i].vin[k].prevout;
            && o.hash in u && o.n < |u[o.hash].vout| && 0 <= u[o.hash].vout[o.n].nValue <= 2_100_000_000_000_000
            && (u[o.hash].fCoinBase ==> height - u[o.hash].nHeight >= 100)
  {
    hide OutputsInRange, UpdateCoins, UpdateCoinsUndo, ConnectTxs;
    PrefixConnected(v, txs, height, i);
    assert InputMatureAndInRange(ConnectTxs(v, txs[..i], height).view, txs[i].vin, k, height);
  }

  /** Nobody spends the coinbase of the own block, with or without the BIP 30 scan. */
  lemma OwnCoinbaseNotSpent(v: View, txs: seq<Tx>, height: nat, enforceBip30: bool, i: nat, k: nat)
    requires ConnectBlock(v, txs, height, enforceBip30).Accepted? && TxidsInjective(txs) && 0 < i < |txs| && k < |txs[i].vin|
    ensures txs[i].vin[k].prevout.hash != txs[0].txid
  {
    hide CheckTransaction, ConnectTxs;
    AcceptedInputsMature(v, txs, height, enforceBip30, i, k);
    CoinbaseRecord(v, txs, height, i);
  }

  lemma {:induction false} CoinbaseRecord(v: View, txs: seq<Tx>, height: nat, i: nat)
    requires CheckedTxs(txs) && ConnectTxs(v, txs, height).Accepted? && TxidsInjective(txs) && 0 < i <= |txs|
    ensures CheckedTxs(txs[..i]) && ConnectTxs(v, txs[..i], height).Accepted?
    ensures var u := ConnectTxs(v, txs[..i], height).view;
            txs[0].txid in u ==> u[txs[0].txid].fCoinBase && u[txs[0].txid].nHeight == height
    decreases i
  {
    hide CheckTransaction, CheckTxInputs, UpdateCoins, UpdateCoinsUndo;
    PrefixConnected(v, txs, height, i);
    PrefixConnected(v, txs, height, i - 1);
    var tx, before := txs[i - 1], ConnectTxs(v, txs[..i - 1], height).view;
    assert txs[..i][..i - 1] == txs[..i - 1];
    AcceptedTxSpendable(before, tx, height);
    MetadataKept(before, tx, height, txs[0].txid);
    if i > 1 {
      CoinbaseRecord(v, txs, height, i - 1);
    }
  }

  lemma MetadataKept(v: View, tx: Tx, height: nat, id: Hash)
    requires !tx.IsCoinBase() ==> Spendable(v, tx.vin)
    ensures var u := UpdateCoins(v, tx, height);
            id in u ==> if id == tx.txid then u[id].fCoinBase == tx.IsCoinBase() && u[id].nHeight == height
                        else id in v && u[id].fCoinBase == v[id].fCoinBase && u[id].nHeight == v[id].nHeight
  {
    if !tx.IsCoinBase() {
      SpendingKeepsMetadata(v, tx.vin, id);
    }
  }

  lemma {:induction false} SpendingKeepsMetadata(v: View, vin: seq<TxIn>, id: Hash)
    requires Spendable(v, vin)
    ensures var u := SpendInputs(v, vin);
            id in u ==> id in v && u[id].fCoinBase == v[id].fCoinBase && u[id].nHeight == v[id].nHeight
    decreases |vin|
  {
    if vin != [] {
      SpendingKeepsMetadata(v, vin[..|vin| - 1], id);
    }
  }
}
