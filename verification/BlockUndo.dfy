/**
 * Whole blocks on plain maps: the transaction loops of ConnectBlock and DisconnectBlock
 * (src/main.cpp) and the theorem that the second undoes the first.
 */
module BlockUndo {
  import opened Primitives
  import opened Coins
  import opened Ledger

  type BlockUndoData = seq<TxUndo>

  datatype Connected = Rejected | Accepted(view: View, undo: BlockUndoData, fees: int)

  /** What CheckBlock guarantees about a list of transactions and each of its prefixes. */
  predicate CheckedTxs(txs: seq<Tx>) {
    forall i :: 0 <= i < |txs| ==> CheckTransaction(txs[i]) && (txs[i].IsCoinBase() <==> i == 0)
  }

  predicate CheckBlock(txs: seq<Tx>) { txs != [] && CheckedTxs(txs) }

  /** The BIP 30 rule: no transaction of the block has unspent coins already. */
  predicate NoOverwrite(v: View, txs: seq<Tx>) {
    forall i :: 0 <= i < |txs| ==> txs[i].txid !in v
  }

  /** Ids identify transactions: the hash is collision free on the block. */
  ghost predicate TxidsInjective(txs: seq<Tx>) {
    forall i, j :: 0 <= i < |txs| && 0 <= j < |txs| && txs[i].txid == txs[j].txid ==> txs[i] == txs[j]
  }

  ghost predicate DistinctTxids(txs: seq<Tx>) {
    forall i, j :: 0 <= i < j < |txs| ==> txs[i].txid != txs[j].txid
  }

  predicate AcceptsTx(v: View, tx: Tx, height: nat) {
    !tx.IsCoinBase() ==> CheckTxInputs(v, tx, height)
  }

  lemma AcceptedTxSpendable(v: View, tx: Tx, height: nat)
    requires CheckTransaction(tx) && AcceptsTx(v, tx, height)
    ensures !tx.IsCoinBase() ==> Spendable(v, tx.vin)
  {
    if !tx.IsCoinBase() {
      HaveInputsSpendable(v, tx.vin);
    }
  }

  function ConnectTxs(v: View, txs: seq<Tx>, height: nat): (r: Connected)
    requires CheckedTxs(txs)
    ensures r.Accepted? ==> |r.undo| == if txs == [] then 0 else |txs| - 1
    decreases |txs|
  {
    if txs == [] then Accepted(v, [], 0)
    else
      var n := |txs| - 1;
      var tx := txs[n];
      assert forall i :: 0 <= i < n ==> txs[..n][i] == txs[i];
      var before := ConnectTxs(v, txs[..n], height);
      if before.Rejected? || !AcceptsTx(before.view, tx, height) then Rejected
      else
        AcceptedTxSpendable(before.view, tx, height);
        Accepted(UpdateCoins(before.view, tx, height),
                 before.undo + (if n == 0 then [] else [UpdateCoinsUndo(before.view, tx)]),
                 before.fees + (if n == 0 then 0 else ValueIn(before.view, tx.vin) - ValueOut(tx.vout)))
  }

  function ConnectBlock(v: View, txs: seq<Tx>, height: nat, enforceBip30: bool): Connected {
    if !CheckBlock(txs) || (enforceBip30 && !NoOverwrite(v, txs)) then Rejected
    else ConnectTxs(v, txs, height)
  }

  function WithClean(u: Undone, clean: bool): Undone {
    if u.Inconsistent? then u else u.(clean := u.clean && clean)
  }

  /** The reverse loop of DisconnectBlock. */
  function DisconnectTxs(v: View, txs: seq<Tx>, height: nat, undo: BlockUndoData): Undone
    requires txs != [] ==> |undo| == |txs| - 1
    decreases |txs|
  {
    if txs == [] then Restored(v, true)
    else
      var n := |txs| - 1;
      var last := DisconnectTx(v, txs[n], height, n == 0, if n == 0 then [] else undo[n - 1]);
      if last.Inconsistent? then Inconsistent
      else WithClean(DisconnectTxs(last.view, txs[..n], height, if n == 0 then [] else undo[..n - 1]), last.clean)
  }

  function DisconnectBlock(v: View, txs: seq<Tx>, height: nat, undo: BlockUndoData): Undone {
    if |undo| + 1 != |txs| then Inconsistent else DisconnectTxs(v, txs, height, undo)
  }

  lemma PrefixChecked(txs: seq<Tx>, n: nat)
    requires CheckedTxs(txs) && n <= |txs|
    ensures CheckedTxs(txs[..n])
  {
    assert forall i :: 0 <= i < n ==> txs[..n][i] == txs[i];
  }

  /** Facts about the view reached after the first `n` transactions of an accepted list. */
  lemma {:induction false} PrefixConnected(v: View, txs: seq<Tx>, height: nat, n: nat)
    requires CheckedTxs(txs) && ConnectTxs(v, txs, height).Accepted? && n <= |txs|
    ensures CheckedTxs(txs[..n]) && ConnectTxs(v, txs[..n], height).Accepted?
    ensures n < |txs| ==> AcceptsTx(ConnectTxs(v, txs[..n], height).view, txs[n], height)
    decreases |txs|
  {
    hide CheckTransaction, AcceptsTx, UpdateCoins, UpdateCoinsUndo;
    PrefixChecked(txs, n);
    if n == |txs| {
      assert txs[..n] == txs;
    } else {
      var m := |txs| - 1;
      PrefixChecked(txs, m);
      if n < m {
        PrefixConnected(v, txs[..m], height, n);
        assert txs[..m][..n] == txs[..n];
      }
    }
  }

  /** Accepted lists keep the view well formed and add no ids but their own. */
  lemma {:induction false} ConnectTxsWellFormed(v: View, txs: seq<Tx>, height: nat)
    requires WellFormedView(v) && height > 0
    requires CheckedTxs(txs) && ConnectTxs(v, txs, height).Accepted?
    ensures WellFormedView(ConnectTxs(v, txs, height).view)
    ensures forall h :: h in ConnectTxs(v, txs, height).view ==>
              h in v || exists i :: 0 <= i < |txs| && txs[i].txid == h
    decreases |txs|
  {
    hide CheckTransaction, AcceptsTx, UpdateCoins, UpdateCoinsUndo;
    if txs != [] {
      var n := |txs| - 1;
      PrefixChecked(txs, n);
      ConnectTxsWellFormed(v, txs[..n], height);
      var before := ConnectTxs(v, txs[..n], height).view;
      AcceptedTxSpendable(before, txs[n], height);
      UpdateCoinsWellFormed(before, txs[n], height);
      assert forall i :: 0 <= i < n ==> txs[..n][i] == txs[i];
      assert txs[n].txid == txs[n].txid;
    }
  }

  predicate Spends(tx: Tx, o: OutPoint) {
    exists k :: 0 <= k < |tx.vin| && tx.vin[k].prevout == o
  }

  lemma UpdateCoinsAvailable(v: View, tx: Tx, height: nat, o: OutPoint)
    requires !tx.IsCoinBase() && CheckTransaction(tx) && AcceptsTx(v, tx, height) && o.hash != tx.txid
    ensures Spendable(v, tx.vin)
    ensures Available(UpdateCoins(v, tx, height), o) <==> Available(v, o) && !Spends(tx, o)
  {
    AcceptedTxSpendable(v, tx, height);
    SpendInputsEffect(v, tx.vin, o);
  }

  /** The id of an output spent by transaction `i` is not the id of any transaction from `i` on. */
  lemma SpentIdNotCreatedLater(v: View, txs: seq<Tx>, height: nat, i: nat, m: nat, o: OutPoint)
    requires WellFormedView(v) && height > 0 && NoOverwrite(v, txs) && DistinctTxids(txs)
    requires CheckedTxs(txs) && ConnectTxs(v, txs, height).Accepted?
    requires 0 < i <= m < |txs| && Spends(txs[i], o)
    ensures o.hash != txs[m].txid
  {
    hide CheckTransaction, UpdateCoins, UpdateCoinsUndo;
    PrefixConnected(v, txs, height, i);
    ConnectTxsWellFormed(v, txs[..i], height);
    assert o.hash in ConnectTxs(v, txs[..i], height).view;
  }

  /**
   * An output spent by transaction `i` of the block is never available again later in it,
   * because re-creating it would need an id that was unspent before the block or is repeated in it.
   */
  lemma {:induction false} SpentStaysSpent(v: View, txs: seq<Tx>, height: nat, i: nat, o: OutPoint)
    requires WellFormedView(v) && height > 0 && NoOverwrite(v, txs) && DistinctTxids(txs)
    requires CheckedTxs(txs) && ConnectTxs(v, txs, height).Accepted?
    requires 0 < i < |txs| && Spends(txs[i], o)
    ensures !Available(ConnectTxs(v, txs, height).view, o)
    decreases |txs|
  {
    hide CheckTransaction, AcceptsTx, UpdateCoins, UpdateCoinsUndo, Spends, Available;
    var n := |txs| - 1;
    var init := txs[..n];
    PrefixConnected(v, txs, height, n);
    if i < n {
      assert init[i] == txs[i];
      SpentStaysSpent(v, init, height, i, o);
    }
    SpentIdNotCreatedLater(v, txs, height, i, n, o);
    UpdateCoinsAvailable(ConnectTxs(v, init, height).view, txs[n], height, o);
  }

  /** BIP 30 plus input availability already force the ids inside an accepted block apart. */
  lemma {:induction false} AcceptedTxidsDistinct(v: View, txs: seq<Tx>, height: nat)
    requires WellFormedView(v) && height > 0 && NoOverwrite(v, txs) && TxidsInjective(txs)
    requires CheckedTxs(txs) && ConnectTxs(v, txs, height).Accepted?
    ensures DistinctTxids(txs)
    decreases |txs|
  {
    hide CheckTransaction, AcceptsTx, UpdateCoins, UpdateCoinsUndo;
    if |txs| > 1 {
      var n := |txs| - 1;
      var init := txs[..n];
      PrefixConnected(v, txs, height, n);
      assert forall i :: 0 <= i < n ==> init[i] == txs[i];
      AcceptedTxidsDistinct(v, init, height);
      forall i | 0 <= i < n
        ensures txs[i].txid != txs[n].txid
      {
        NotRepeated(v, txs, height, i);
      }
    }
  }

  /** A repeated transaction would spend an output that its first copy has already spent. */
  lemma NotRepeated(v: View, txs: seq<Tx>, height: nat, i: nat)
    requires WellFormedView(v) && height > 0 && NoOverwrite(v, txs) && TxidsInjective(txs)
    requires CheckedTxs(txs) && ConnectTxs(v, txs, height).Accepted?
    requires i < |txs| - 1 && DistinctTxids(txs[..|txs| - 1])
    ensures txs[i].txid != txs[|txs| - 1].txid
  {
    hide UpdateCoins, UpdateCoinsUndo, ConnectTxs;
    var n := |txs| - 1;
    var init := txs[..n];
    PrefixConnected(v, txs, height, n);
    if txs[i].txid == txs[n].txid {
      assert init[i] == txs[n] && i > 0;
      var o := txs[n].vin[0].prevout;
      assert Spends(init[i], o);
      SpentStaysSpent(v, init, height, i, o);
    }
  }

  lemma {:induction false} DisconnectTxsInverts(v: View, txs: seq<Tx>, height: nat)
    requires WellFormedView(v) && height > 0 && NoOverwrite(v, txs) && DistinctTxids(txs)
    requires CheckedTxs(txs) && ConnectTxs(v, txs, height).Accepted?
    ensures var c := ConnectTxs(v, txs, height);
            DisconnectTxs(c.view, txs, height, c.undo) == Restored(v, true)
    decreases |txs|
  {
    hide CheckTransaction, AcceptsTx, UpdateCoins, DisconnectTx, Spendable, InputUndos, SpendInputs, Coins.WellFormed;
    if txs != [] {
      var n := |txs| - 1;
      var init := txs[..n];
      PrefixConnected(v, txs, height, n);
      var before := ConnectTxs(v, init, height);
      var c := ConnectTxs(v, txs, height);
      assert WellFormedView(before.view) && txs[n].txid !in before.view by {
        ConnectTxsWellFormed(v, init, height);
        assert forall i :: 0 <= i < n ==> init[i] == txs[i];
      }
      AcceptedTxSpendable(before.view, txs[n], height);
      DisconnectTxInverts(before.view, txs[n], height);
      assert NoOverwrite(v, init) && DistinctTxids(init);
      DisconnectTxsInverts(v, init, height);
      if n > 0 {
        assert c.undo[n - 1] == UpdateCoinsUndo(before.view, txs[n]);
        assert c.undo[..n - 1] == before.undo;
      }
    }
  }

  /**
   * Disconnecting a block with the undo data its connection produced restores the coins exactly
   * and reports clean, for every block that passes the checks of ConnectBlock.
   */
  lemma DisconnectInvertsConnect(v: View, txs: seq<Tx>, height: nat)
    requires WellFormedView(v) && height > 0 && TxidsInjective(txs)
    requires ConnectBlock(v, txs, height, true).Accepted?
    ensures var c := ConnectBlock(v, txs, height, true);
            && WellFormedView(c.view)
            && DisconnectBlock(c.view, txs, height, c.undo) == Restored(v, true)
  {
    AcceptedTxidsDistinct(v, txs, height);
    DisconnectTxsInverts(v, txs, height);
    ConnectTxsWellFormed(v, txs, height);
  }

  // ------------------------------------------------- blocks exempt from the BIP 30 scan

  /** Only the coinbase may repeat the id of unspent coins. */
  predicate OnlyCoinbaseOverwrites(v: View, txs: seq<Tx>) {
    forall i :: 0 < i < |txs| ==> txs[i].txid !in v
  }

  /** What the coinbase overwrites has no influence on the outcome: it might as well have been spent before. */
  lemma {:induction false} OverwrittenCoinsForgotten(v: View, txs: seq<Tx>, height: nat)
    requires txs != [] && CheckedTxs(txs)
    ensures ConnectTxs(v, txs, height) == ConnectTxs(v - {txs[0].txid}, txs, height)
    decreases |txs|
  {
    hide CheckTransaction, AcceptsTx, UpdateCoins, UpdateCoinsUndo;
    var n := |txs| - 1;
    PrefixChecked(txs, n);
    if n == 0 {
      CoinbaseOverwrites(v, txs[0], height);
      assert txs[..0] == [];
    } else {
      OverwrittenCoinsForgotten(v, txs[..n], height);
    }
  }

  lemma CoinbaseOverwrites(v: View, tx: Tx, height: nat)
    requires tx.IsCoinBase()
    ensures AcceptsTx(v, tx, height) && AcceptsTx(v - {tx.txid}, tx, height)
    ensures UpdateCoins(v, tx, height) == UpdateCoins(v - {tx.txid}, tx, height)
    ensures UpdateCoinsUndo(v, tx) == UpdateCoinsUndo(v - {tx.txid}, tx)
  {
    hide FromTx, Coins.IsPruned;
    var c := FromTx(tx, height);
    assert Store(v, tx.txid, c) == Store(v - {tx.txid}, tx.txid, c);
  }

  /** Disconnecting a block that skipped the scan gives everything back but what its coinbase overwrote. */
  lemma ExemptBlockUndone(v: View, txs: seq<Tx>, height: nat)
    requires WellFormedView(v) && height > 0 && TxidsInjective(txs) && OnlyCoinbaseOverwrites(v, txs)
    requires ConnectBlock(v, txs, height, false).Accepted?
    ensures var c := ConnectBlock(v, txs, height, false);
            && WellFormedView(c.view)
            && DisconnectBlock(c.view, txs, height, c.undo) == Restored(v - {txs[0].txid}, true)
  {
    hide CheckTransaction, ConnectTxs, DisconnectTxs, Coins.WellFormed;
    OverwrittenCoinsForgotten(v, txs, height);
    DisconnectInvertsConnect(v - {txs[0].txid}, txs, height);
  }

  /** So it is undone exactly if and only if its coinbase overwrote nothing unspent. */
  lemma ExemptBlockUndoneIff(v: View, txs: seq<Tx>, height: nat)
    requires WellFormedView(v) && height > 0 && TxidsInjective(txs) && OnlyCoinbaseOverwrites(v, txs)
    requires ConnectBlock(v, txs, height, false).Accepted?
    ensures var c := ConnectBlock(v, txs, height, false);
            DisconnectBlock(c.view, txs, height, c.undo) == Restored(v, true) <==> txs[0].txid !in v
  {
    ExemptBlockUndone(v, txs, height);
    hide DisconnectBlock;
    assert txs[0].txid !in v ==> v - {txs[0].txid} == v;
    assert txs[0].txid !in v - {txs[0].txid};
  }
}
