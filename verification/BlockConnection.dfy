/**
 * UpdateCoins, CheckTxInputs, ConnectBlock and DisconnectBlock (src/main.cpp) as they run on a
 * coin cache, each proved against the map-level definitions of Ledger and BlockUndo.
 */
module BlockConnection {
  import opened Primitives
  import opened Coins
  import opened Ledger
  import opened CoinsCache
  import opened BlockUndo

  /** The part of a cache's state that transaction processing leaves alone. */
  twostate predicate Untouched(view: CoinsViewCache)
    requires old(view.Valid()) && view.Valid()
    reads view.Repr
  {
    && view.BaseView() == old(view.BaseView())
    && view.BaseBest() == old(view.BaseBest())
    && view.hashBlock == old(view.hashBlock)
    && view.hasModifier == old(view.hasModifier)
  }

  /** Spends one available output and returns its undo record. */
  method SpendWithUndo(view: CoinsViewCache, out: OutPoint) returns (undo: TxInUndo)
    requires view.Valid() && !view.hasModifier && Available(view.View(), out)
    modifies view.Repr
    ensures view.Valid() && Untouched(view)
    ensures view.View() == SpendInput(old(view.View()), out)
    ensures undo == InputUndo(old(view.View()), out)
  {
    hide Overlay;
    var coins := view.ModifyCoins(out.hash);
    undo := TxInUndo(coins.vout[out.n], false, 0, 0);
    var spent := coins.Spend(out.n);
    if |spent.vout| == 0 {
      undo := undo.(nHeight := spent.nHeight, fCoinBase := spent.fCoinBase, nVersion := spent.nVersion);
    }
    CleanupOfClean(spent);
    view.ReleaseModifier(out.hash, spent);
  }

  method UpdateCoins(view: CoinsViewCache, tx: Tx, height: nat) returns (undo: TxUndo)
    requires view.Valid() && !view.hasModifier
    requires !tx.IsCoinBase() ==> Spendable(view.View(), tx.vin) && tx.txid !in view.BaseView()
    modifies view.Repr
    ensures view.Valid() && Untouched(view)
    ensures view.View() == Ledger.UpdateCoins(old(view.View()), tx, height)
    ensures undo == UpdateCoinsUndo(old(view.View()), tx)
  {
    hide Overlay, InputUndo, SpendInput, FromTx;
    undo := [];
    ghost var before := view.View();
    if !tx.IsCoinBase() {
      for i := 0 to |tx.vin|
        invariant view.Valid() && Untouched(view)
        invariant Spendable(before, tx.vin[..i])
        invariant view.View() == SpendInputs(before, tx.vin[..i])
        invariant undo == InputUndos(before, tx.vin[..i])
      {
        SpendablePrefix(before, tx.vin, i + 1);
        assert tx.vin[..i + 1][..i] == tx.vin[..i];
        var u := SpendWithUndo(view, tx.vin[i].prevout);
        undo := undo + [u];
      }
      assert tx.vin[..|tx.vin|] == tx.vin;
      ghost var spent := view.View();
      var _ := view.ModifyNewCoins(tx.txid);
      CleanupOfClean(FromTx(tx, height));
      assert Store(spent - {tx.txid}, tx.txid, FromTx(tx, height)) == Store(spent, tx.txid, FromTx(tx, height));
    } else {
      var _ := view.ModifyCoins(tx.txid);
      CleanupOfClean(FromTx(tx, height));
    }
    view.ReleaseModifier(tx.txid, FromTx(tx, height));
  }

  lemma {:induction false} SpendablePrefix(v: View, vin: seq<TxIn>, n: nat)
    requires Spendable(v, vin) && n <= |vin|
    ensures Spendable(v, vin[..n])
    decreases |vin|
  {
    if n == |vin| {
      assert vin[..n] == vin;
    } else {
      SpendablePrefix(v, vin[..|vin| - 1], n);
      assert vin[..|vin| - 1][..n] == vin[..n];
    }
  }

  /** CTransaction::GetValueOut on outputs that passed CheckTransaction. */
  method GetValueOut(vout: seq<TxOut>) returns (total: int)
    ensures total == ValueOut(vout)
  {
    total := 0;
    for i := 0 to |vout|
      invariant total == ValueOut(vout[..i])
    {
      total := total + vout[i].nValue;
      assert vout[..i + 1][..i] == vout[..i];
    }
    assert vout[..|vout|] == vout;
  }

  /** CheckTransaction: running total of the outputs, set of the outpoints seen so far. */
  method CheckTransaction(tx: Tx) returns (ok: bool)
    ensures ok <==> Ledger.CheckTransaction(tx)
  {
    if tx.vin == [] || tx.vout == [] {
      return false;
    }
    ok := CheckOutputs(tx.vout);
    if !ok {
      return;
    }
    ok := CheckDuplicates(tx.vin);
    if !ok {
      return;
    }
    if tx.IsCoinBase() {
      return 2 <= |tx.vin[0].scriptSig| <= 100;
    }
    for i := 0 to |tx.vin|
      invariant forall k :: 0 <= k < i ==> !tx.vin[k].prevout.IsNull()
    {
      if tx.vin[i].prevout.IsNull() {
        return false;
      }
    }
  }

  method CheckOutputs(vout: seq<TxOut>) returns (ok: bool)
    ensures ok <==> OutputsInRange(vout)
  {
    var nValueOut := 0;
    for i := 0 to |vout|
      invariant nValueOut == ValueOut(vout[..i])
      invariant forall k :: 0 <= k < i ==> MoneyRange(vout[k].nValue) && MoneyRange(TotalUpTo(vout, k))
    {
      if vout[i].nValue < 0 || vout[i].nValue > MAX_MONEY {
        return false;
      }
      nValueOut := nValueOut + vout[i].nValue;
      assert vout[..i + 1][..i] == vout[..i];
      assert nValueOut == TotalUpTo(vout, i);
      if !MoneyRange(nValueOut) {
        return false;
      }
    }
    ok := true;
  }

  method CheckDuplicates(vin: seq<TxIn>) returns (ok: bool)
    ensures ok <==> DistinctPrevouts(vin)
  {
    var seen: set<OutPoint> := {};
    for i := 0 to |vin|
      invariant forall o :: o in seen <==> exists k :: 0 <= k < i && vin[k].prevout == o
      invariant forall j, k :: 0 <= j < k < i ==> vin[j].prevout != vin[k].prevout
    {
      if vin[i].prevout in seen {
        return false;
      }
      seen := seen + {vin[i].prevout};
    }
    ok := true;
  }

  /** The part of CheckBlock that looks at the transactions: one coinbase, in front, and each transaction passes. */
  method CheckBlock(txs: seq<Tx>) returns (ok: bool)
    ensures ok <==> BlockUndo.CheckBlock(txs)
  {
    hide Ledger.CheckTransaction;
    if txs == [] || !txs[0].IsCoinBase() {
      return false;
    }
    for i := 1 to |txs|
      invariant forall k :: 0 < k < i ==> !txs[k].IsCoinBase()
    {
      if txs[i].IsCoinBase() {
        return false;
      }
    }
    for i := 0 to |txs|
      invariant forall k :: 0 <= k < i ==> Ledger.CheckTransaction(txs[k])
    {
      ok := CheckTransaction(txs[i]);
      if !ok {
        return;
      }
    }
    ok := true;
  }

  method CheckTxInputs(view: CoinsViewCache, tx: Tx, spendHeight: nat) returns (ok: bool, fee: int)
    requires view.Valid() && !view.hasModifier
    modifies view.Repr
    ensures view.Valid() && Untouched(view) && view.View() == old(view.View())
    ensures ok <==> Ledger.CheckTxInputs(view.View(), tx, spendHeight)
    ensures ok ==> fee == ValueIn(view.View(), tx.vin) - ValueOut(tx.vout)
  {
    hide Overlay;
    ghost var v := view.View();
    ok := view.HaveAllInputs(tx.vin);
    if !ok {
      return false, 0;
    }
    var valueIn := 0;
    for i := 0 to |tx.vin|
      invariant view.Valid() && Untouched(view) && view.View() == v
      invariant HaveInputs(v, tx.vin[..i]) && valueIn == ValueIn(v, tx.vin[..i])
      invariant forall k :: 0 <= k < i ==> InputMatureAndInRange(v, tx.vin, k, spendHeight)
    {
      var out := tx.vin[i].prevout;
      var found, coins := view.FetchCoins(out.hash);
      assert Available(v, out) && coins == v[out.hash];
      valueIn := valueIn + coins.vout[out.n].nValue;
      assert tx.vin[..i + 1][..i] == tx.vin[..i];
      assert forall k :: 0 <= k <= i ==> tx.vin[..i + 1][k] == tx.vin[k];
      if (coins.fCoinBase && spendHeight - coins.nHeight < COINBASE_MATURITY)
         || !MoneyRange(coins.vout[out.n].nValue) || !MoneyRange(valueIn) {
        assert !InputMatureAndInRange(v, tx.vin, i, spendHeight);
        return false, 0;
      }
    }
    assert tx.vin[..|tx.vin|] == tx.vin;
    var valueOut := GetValueOut(tx.vout);
    fee := valueIn - valueOut;
    ok := valueIn >= valueOut && MoneyRange(fee);
  }

  /** The BIP 30 scan over the block. */
  method FindOverwrite(view: CoinsViewCache, txs: seq<Tx>) returns (found: bool)
    requires view.Valid() && !view.hasModifier
    modifies view.Repr
    ensures view.Valid() && Untouched(view) && view.View() == old(view.View())
    ensures found <==> !NoOverwrite(view.View(), txs)
  {
    hide Overlay;
    for i := 0 to |txs|
      invariant view.Valid() && Untouched(view) && view.View() == old(view.View())
      invariant NoOverwrite(view.View(), txs[..i])
    {
      var have, coins := view.FetchCoins(txs[i].txid);
      if have && !coins.IsPruned() {
        assert txs[i].txid in view.View();
        return true;
      }
      assert txs[..i + 1] == txs[..i] + [txs[i]];
    }
    assert txs[..|txs|] == txs;
    found := false;
  }

  /**
   * ConnectBlock on a cache that has not been written to yet. `otherChecks` stands for the verdict of
   * scripts, signature-operation limits and lock times. A rejected block leaves the layer below untouched.
   */
  method ConnectBlock(view: CoinsViewCache, txs: seq<Tx>, height: nat, enforceBip30: bool, otherChecks: bool, hash: Hash)
    returns (ok: bool, undo: BlockUndoData, fees: int)
    requires view.Valid() && !view.hasModifier && view.View() == view.BaseView()
    requires !enforceBip30 ==> forall i :: 0 < i < |txs| ==> txs[i].txid !in view.View()
    modifies view.Repr
    ensures view.Valid() && !view.hasModifier
    ensures view.BaseView() == old(view.BaseView()) && view.BaseBest() == old(view.BaseBest())
    ensures ok <==> otherChecks && BlockUndo.ConnectBlock(old(view.View()), txs, height, enforceBip30).Accepted?
    ensures ok ==> Accepted(view.View(), undo, fees) == BlockUndo.ConnectBlock(old(view.View()), txs, height, enforceBip30)
    ensures ok ==> view.hashBlock == hash
  {
    hide Overlay, Ledger.CheckTransaction;
    ghost var start := view.View();
    undo, fees := [], 0;
    ok := CheckBlock(txs);
    if !ok {
      return;
    }
    if enforceBip30 {
      var overwrites := FindOverwrite(view, txs);
      if overwrites {
        return false, undo, fees;
      }
    }
    ok, undo, fees := ConnectTransactions(view, txs, height);
    ok := ok && otherChecks;
    if ok {
      view.SetBestBlock(hash);
    }
  }

  /** One round of the transaction loop of ConnectBlock. */
  method ConnectTransaction(view: CoinsViewCache, tx: Tx, height: nat) returns (ok: bool, undo: TxUndo, fee: int)
    requires view.Valid() && !view.hasModifier && Ledger.CheckTransaction(tx)
    requires !tx.IsCoinBase() ==> tx.txid !in view.BaseView()
    modifies view.Repr
    ensures view.Valid() && Untouched(view)
    ensures ok <==> AcceptsTx(old(view.View()), tx, height)
    ensures ok && !tx.IsCoinBase() ==> Spendable(old(view.View()), tx.vin)
    ensures ok ==> view.View() == Ledger.UpdateCoins(old(view.View()), tx, height)
    ensures ok ==> undo == UpdateCoinsUndo(old(view.View()), tx)
    ensures ok && !tx.IsCoinBase() ==>
              HaveInputs(old(view.View()), tx.vin) && fee == ValueIn(old(view.View()), tx.vin) - ValueOut(tx.vout)
  {
    hide Overlay, Ledger.CheckTransaction, Ledger.UpdateCoins, UpdateCoinsUndo;
    ghost var v := view.View();
    ok, undo, fee := true, [], 0;
    if !tx.IsCoinBase() {
      ok, fee := CheckTxInputs(view, tx, height);
      if !ok {
        return;
      }
    }
    AcceptedTxSpendable(v, tx, height);
    undo := UpdateCoins(view, tx, height);
  }

  /** The transaction loop of ConnectBlock. */
  method ConnectTransactions(view: CoinsViewCache, txs: seq<Tx>, height: nat)
    returns (ok: bool, undo: BlockUndoData, fees: int)
    requires view.Valid() && !view.hasModifier && CheckedTxs(txs)
    requires forall i :: 0 < i < |txs| ==> txs[i].txid !in view.BaseView()
    modifies view.Repr
    ensures view.Valid() && Untouched(view)
    ensures ok <==> ConnectTxs(old(view.View()), txs, height).Accepted?
    ensures ok ==> Accepted(view.View(), undo, fees) == ConnectTxs(old(view.View()), txs, height)
  {
    hide Overlay, Ledger.CheckTransaction, AcceptsTx, Ledger.UpdateCoins, UpdateCoinsUndo, Spendable, ValueIn;
    ghost var start := view.View();
    undo, fees := [], 0;
    for i := 0 to |txs|
      invariant view.Valid() && Untouched(view)
      invariant CheckedTxs(txs[..i]) && Accepted(view.View(), undo, fees) == ConnectTxs(start, txs[..i], height)
    {
      PrefixChecked(txs, i + 1);
      assert txs[..i + 1][..i] == txs[..i];
      var u, fee;
      ok, u, fee := ConnectTransaction(view, txs[i], height);
      if !ok {
        RejectedPrefix(start, txs, height, i + 1);
        return;
      }
      if i > 0 {
        undo, fees := undo + [u], fees + fee;
      }
    }
    assert txs[..|txs|] == txs;
    ok := true;
  }

  lemma RejectedPrefix(v: View, txs: seq<Tx>, height: nat, n: nat)
    requires CheckedTxs(txs) && n <= |txs| && CheckedTxs(txs[..n]) && ConnectTxs(v, txs[..n], height).Rejected?
    ensures ConnectTxs(v, txs, height).Rejected?
  {
    hide *;
    if ConnectTxs(v, txs, height).Accepted? {
      PrefixConnected(v, txs, height, n);
    }
  }

  /**
   * ApplyTxInUndo through a modifier. On an inconsistency the metadata left in a pruned cache entry
   * can survive, so only the clean case is a function of the view.
   */
  method ApplyTxInUndo(undo: TxInUndo, view: CoinsViewCache, out: OutPoint) returns (clean: bool)
    requires view.Valid() && !view.hasModifier
    modifies view.Repr
    ensures view.Valid() && Untouched(view)
    ensures clean <==> Ledger.ApplyTxInUndo(undo, old(view.View()), out).1
    ensures clean ==> view.View() == Ledger.ApplyTxInUndo(undo, old(view.View()), out).0
  {
    hide Overlay;
    var coins := view.ModifyCoins(out.hash);
    clean := true;
    assert coins.IsPruned() ==> coins.vout == [];
    assert coins.IsPruned() == Lookup(view.View(), out.hash).IsPruned();
    if undo.nHeight != 0 {
      clean := coins.IsPruned();
      coins := Coins(undo.fCoinBase, [], undo.nHeight, undo.nVersion);
    } else if coins.IsPruned() {
      clean := false;
    }
    if coins.IsAvailable(out.n) {
      clean := false;
    }
    coins := coins.(vout := PutOutput(coins.vout, out.n, undo.txout));
    view.ReleaseModifier(out.hash, coins);
  }

  /** Restores the inputs of one transaction, last input first. */
  method RestoreInputs(view: CoinsViewCache, vin: seq<TxIn>, undo: TxUndo) returns (clean: bool)
    requires view.Valid() && !view.hasModifier && |undo| == |vin|
    modifies view.Repr
    ensures view.Valid() && Untouched(view)
    ensures clean <==> UndoInputs(old(view.View()), vin, undo).1
    ensures clean ==> view.View() == UndoInputs(old(view.View()), vin, undo).0
  {
    hide Overlay, Ledger.ApplyTxInUndo;
    clean := true;
    var j := |vin|;
    assert vin[..j] == vin && undo[..j] == undo;
    ghost var all := UndoInputs(view.View(), vin, undo);
    while j > 0
      invariant 0 <= j <= |vin|
      invariant view.Valid() && Untouched(view)
      invariant if clean then UndoInputs(view.View(), vin[..j], undo[..j]) == all else !all.1
    {
      j := j - 1;
      assert vin[..j + 1][..j] == vin[..j] && undo[..j + 1][..j] == undo[..j];
      var c := ApplyTxInUndo(undo[j], view, vin[j].prevout);
      clean := clean && c;
    }
  }

  /** One round of the DisconnectBlock loop. */
  method DisconnectTransaction(view: CoinsViewCache, tx: Tx, height: nat, first: bool, undo: TxUndo)
    returns (consistent: bool, clean: bool)
    requires view.Valid() && !view.hasModifier
    modifies view.Repr
    ensures view.Valid() && Untouched(view)
    ensures var spec := DisconnectTx(old(view.View()), tx, height, first, undo);
            && (consistent <==> spec.Restored?)
            && (consistent ==> clean == spec.clean)
            && (consistent && clean ==> view.View() == spec.view)
  {
    hide Overlay, UndoInputs, FromTx;
    var coins := view.ModifyCoins(tx.txid);
    assert coins.IsPruned() ==> coins.vout == [];
    clean := OutputsMatch(coins, tx, height);
    PrunedMatchAlike(coins, Lookup(view.View(), tx.txid), tx, height);
    CleanupOfClean(EMPTY_COINS);
    view.ReleaseModifier(tx.txid, EMPTY_COINS);
    consistent := first || |undo| == |tx.vin|;
    if consistent && !first {
      var restored := RestoreInputs(view, tx.vin, undo);
      clean := clean && restored;
    }
  }

  lemma PrunedMatchAlike(a: Coins, b: Coins, tx: Tx, height: nat)
    requires a == b || (a.vout == [] && b.vout == [])
    ensures OutputsMatch(a, tx, height) == OutputsMatch(b, tx, height)
  {
    assert NullUnspendable([]) == [];
    assert a.vout == [] ==> a.ClearUnspendable().IsPruned();
    assert b.vout == [] ==> b.ClearUnspendable().IsPruned();
  }

  /** DisconnectBlock on a cache: success means clean, and the layer below is never touched. */
  method DisconnectBlock(view: CoinsViewCache, txs: seq<Tx>, height: nat, undo: BlockUndoData, prev: Hash)
    returns (ok: bool)
    requires view.Valid() && !view.hasModifier
    modifies view.Repr
    ensures view.Valid() && !view.hasModifier
    ensures view.BaseView() == old(view.BaseView()) && view.BaseBest() == old(view.BaseBest())
    ensures var spec := BlockUndo.DisconnectBlock(old(view.View()), txs, height, undo);
            && (ok <==> spec.Restored? && spec.clean)
            && (ok ==> view.View() == spec.view && view.hashBlock == prev)
  {
    hide Overlay, DisconnectTx;
    if |undo| + 1 != |txs| {
      return false;
    }
    ok := true;
    var i := |txs|;
    assert txs[..i] == txs && undo[..i - 1] == undo;
    ghost var all := DisconnectTxs(view.View(), txs, height, undo);
    while i > 0
      invariant 0 <= i <= |txs|
      invariant view.Valid() && Untouched(view)
      invariant var rest := DisconnectTxs(view.View(), txs[..i], height, if i == 0 then [] else undo[..i - 1]);
                if ok then rest == all else all.Inconsistent? || !all.clean
    {
      i := i - 1;
      assert txs[..i + 1][..i] == txs[..i] && (i > 0 ==> undo[..i][..i - 1] == undo[..i - 1]);
      var consistent, clean := DisconnectTransaction(view, txs[i], height, i == 0, if i == 0 then [] else undo[i - 1]);
      if !consistent {
        return false;
      }
      ok := ok && clean;
    }
    view.SetBestBlock(prev);
  }
}
