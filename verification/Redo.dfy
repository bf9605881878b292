/**
 * The other direction of undoing (src/main.cpp: ApplyTxInUndo, DisconnectBlock): whatever the undo data, a
 * disconnection that is reported clean lost nothing, because connecting the block again leads back.
 */
module Redo {
  import opened Primitives
  import opened Coins
  import opened Ledger
  import opened BlockUndo

  /** No output that can never be spent is on record. */
  ghost predicate Cleared(v: View) {
    forall h :: h in v ==> forall i :: 0 <= i < |v[h].vout| ==> !v[h].vout[i].IsUnspendable()
  }

  /** Undo data as it is written: a real output, and metadata only with the last output of a record. */
  ghost predicate Sound(u: TxInUndo) {
    u.txout.nValue >= 0 && !u.txout.IsUnspendable() && (u.nHeight == 0 ==> !u.fCoinBase && u.nVersion == 0)
  }

  ghost predicate SoundAll(undo: TxUndo) {
    forall i :: 0 <= i < |undo| ==> Sound(undo[i])
  }

  /** One record is applied cleanly exactly if it neither overwrites a record or an output nor misses its record. */
  lemma ApplyCleanIff(undo: TxInUndo, v: View, out: OutPoint)
    requires WellFormedView(v)
    ensures ApplyTxInUndo(undo, v, out).1 <==> (undo.nHeight != 0 <==> out.hash !in v) && !Available(v, out)
  {
    if out.hash in v {
      var c := v[out.hash];
      assert !c.vout[|c.vout| - 1].IsNull();
    }
  }

  /** An output vector with a free place takes an output and gives it up again. */
  lemma PutThenSpend(c: Coins, n: nat, out: TxOut)
    requires !c.IsAvailable(n) && c.IsClean() && (forall i :: 0 <= i < |c.vout| && c.vout[i].IsNull() ==> c.vout[i] == NULL_OUT)
    requires !out.IsNull()
    ensures var d := c.(vout := PutOutput(c.vout, n, out));
            d.IsClean() && d.IsAvailable(n) && d.vout[n] == out && d.Spend(n) == c
            && forall i :: 0 <= i < |d.vout| ==> d.vout[i] == out || d.vout[i] == NULL_OUT || d.vout[i] in c.vout
  {
    var d := PutOutput(c.vout, n, out);
    if n < |c.vout| {
      assert d[n := NULL_OUT] == c.vout;
      TrimmedUnique(c.vout, c.vout);
    } else {
      TrimmedUnique(c.vout, d[n := NULL_OUT]);
    }
  }

  /** The record an undo record is applied to: none of its outputs left, or what the view has. */
  ghost function Kept(undo: TxInUndo, v: View, out: OutPoint): Coins {
    if undo.nHeight != 0 then Coins(undo.fCoinBase, [], undo.nHeight, undo.nVersion) else Lookup(v, out.hash)
  }

  lemma AppliedRecord(undo: TxInUndo, v: View, out: OutPoint)
    requires WellFormedView(v) && Sound(undo) && ApplyTxInUndo(undo, v, out).1
    ensures var kept := Kept(undo, v, out);
            var d := kept.(vout := PutOutput(kept.vout, out.n, undo.txout));
            && ApplyTxInUndo(undo, v, out).0 == v[out.hash := d]
            && d.IsAvailable(out.n) && d.vout[out.n] == undo.txout && d.Spend(out.n) == kept
            && (kept.IsPruned() <==> undo.nHeight != 0) && (kept.vout == [] <==> undo.nHeight != 0)
  {
    ApplyCleanIff(undo, v, out);
    var kept := Kept(undo, v, out);
    PutThenSpend(kept, out.n, undo.txout);
    CleanupOfClean(kept.(vout := PutOutput(kept.vout, out.n, undo.txout)));
    if undo.nHeight == 0 {
      assert !kept.vout[|kept.vout| - 1].IsNull();
    }
    hide Coins.Spend, Coins.Cleanup, PutOutput;
  }

  /** One input: what a clean undo record puts back can be spent again, with the same record as undo data. */
  lemma RespendInput(undo: TxInUndo, v: View, out: OutPoint)
    requires WellFormedView(v) && Sound(undo) && ApplyTxInUndo(undo, v, out).1
    ensures var v1 := ApplyTxInUndo(undo, v, out).0;
            Available(v1, out) && SpendInput(v1, out) == v && InputUndo(v1, out) == undo
  {
    ApplyCleanIff(undo, v, out);
    AppliedRecord(undo, v, out);
    hide ApplyTxInUndo, PutOutput, Coins.Spend, Coins.IsAvailable, Coins.IsPruned, WellFormedView;
    var kept := Kept(undo, v, out);
    var v1 := ApplyTxInUndo(undo, v, out).0;
    if undo.nHeight != 0 {
      assert v1 - {out.hash} == v;
    } else {
      assert v1[out.hash := kept] == v;
    }
  }

  lemma ApplyKeeps(undo: TxInUndo, v: View, out: OutPoint)
    requires WellFormedView(v) && Cleared(v) && Sound(undo) && ApplyTxInUndo(undo, v, out).1
    ensures WellFormedView(ApplyTxInUndo(undo, v, out).0) && Cleared(ApplyTxInUndo(undo, v, out).0)
  {
    ApplyCleanIff(undo, v, out);
    var kept := if undo.nHeight != 0 then Coins(undo.fCoinBase, [], undo.nHeight, undo.nVersion) else v[out.hash];
    var d := kept.(vout := PutOutput(kept.vout, out.n, undo.txout));
    RecordPutBack(kept, out.n, undo.txout);
    assert ApplyTxInUndo(undo, v, out).0 == v[out.hash := d];
    hide ApplyTxInUndo, Coins.WellFormed, TxOut.IsUnspendable;
  }

  /** A record with an output put back is again one that a view may hold. */
  lemma RecordPutBack(c: Coins, n: nat, out: TxOut)
    requires !c.IsAvailable(n) && c.IsClean() && c.nHeight > 0 && out.nValue >= 0 && !out.IsUnspendable()
    requires forall i :: 0 <= i < |c.vout| ==> (c.vout[i].nValue >= 0 || c.vout[i] == NULL_OUT) && !c.vout[i].IsUnspendable()
    ensures var d := c.(vout := PutOutput(c.vout, n, out));
            d.WellFormed() && d.Cleanup() == d && !d.IsPruned() && forall i :: 0 <= i < |d.vout| ==> !d.vout[i].IsUnspendable()
  {
    PutThenSpend(c, n, out);
    CleanupOfClean(c.(vout := PutOutput(c.vout, n, out)));
  }

  lemma {:induction false} RespendInputs(v: View, vin: seq<TxIn>, undo: TxUndo)
    requires WellFormedView(v) && Cleared(v) && |undo| == |vin| && SoundAll(undo) && UndoInputs(v, vin, undo).1
    ensures var w := UndoInputs(v, vin, undo).0;
            && WellFormedView(w) && Cleared(w)
            && Spendable(w, vin) && SpendInputs(w, vin) == v && InputUndos(w, vin) == undo
    decreases |vin|
  {
    hide ApplyTxInUndo, SpendInput, InputUndo, Available, Cleared, WellFormedView, Sound;
    if vin != [] {
      var n := |vin| - 1;
      RespendInput(undo[n], v, vin[n].prevout);
      ApplyKeeps(undo[n], v, vin[n].prevout);
      RespendInputs(ApplyTxInUndo(undo[n], v, vin[n].prevout).0, vin[..n], undo[..n]);
    }
  }

  /** One transaction; a negative version is not compared, so versions must not be negative. */
  lemma ReconnectTx(v: View, tx: Tx, height: nat, undo: TxUndo)
    requires WellFormedView(v) && Cleared(v) && SoundAll(undo) && tx.nVersion >= 0
    requires var d := DisconnectTx(v, tx, height, tx.IsCoinBase(), undo); d.Restored? && d.clean
    ensures var w := DisconnectTx(v, tx, height, tx.IsCoinBase(), undo).view;
            && WellFormedView(w) && Cleared(w) && (tx.IsCoinBase() || Spendable(w, tx.vin))
            && UpdateCoins(w, tx, height) == v && (tx.IsCoinBase() || UpdateCoinsUndo(w, tx) == undo)
  {
    var removed := v - {tx.txid};
    MatchedOutputs(v, tx, height);
    hide OutputsMatch, FromTx, Coins.WellFormed;
    if !tx.IsCoinBase() {
      RespendInputs(removed, tx.vin, undo);
    }
  }

  lemma MatchedOutputs(v: View, tx: Tx, height: nat)
    requires WellFormedView(v) && Cleared(v) && tx.nVersion >= 0 && OutputsMatch(Lookup(v, tx.txid), tx, height)
    ensures Store(v - {tx.txid}, tx.txid, FromTx(tx, height)) == v
  {
    hide FromTx;
    var c := Lookup(v, tx.txid);
    ClearedAlready(c);
    hide Coins.ClearUnspendable, Cleared;
    if tx.txid in v {
      assert !c.vout[|c.vout| - 1].IsNull();
    }
  }

  lemma ClearedAlready(c: Coins)
    requires c.IsClean() && forall i :: 0 <= i < |c.vout| ==> !c.vout[i].IsUnspendable()
    ensures c.ClearUnspendable() == c
  {
    assert NullUnspendable(c.vout) == c.vout;
    CleanupOfClean(c);
  }

  ghost predicate SoundBlock(txs: seq<Tx>, undo: BlockUndoData) {
    && (forall i :: 0 <= i < |txs| ==> txs[i].nVersion >= 0)
    && (forall i :: 0 <= i < |undo| ==> SoundAll(undo[i]))
  }

  /**
   * A clean disconnection inverts connection: if the block connects to the coins that were restored, it leads
   * back to the coins there were, and produces the undo data that was used.
   */
  lemma {:induction false} ConnectInvertsDisconnect(v: View, txs: seq<Tx>, height: nat, undo: BlockUndoData)
    requires WellFormedView(v) && Cleared(v) && CheckedTxs(txs) && SoundBlock(txs, undo)
    requires txs != [] ==> |undo| == |txs| - 1
    requires var d := DisconnectTxs(v, txs, height, undo); d.Restored? && d.clean
    ensures var w := DisconnectTxs(v, txs, height, undo).view;
            && WellFormedView(w) && Cleared(w)
            && var c := ConnectTxs(w, txs, height); c.Accepted? ==> c.view == v && (txs != [] ==> c.undo == undo)
    decreases |txs|
  {
    hide CheckTransaction, AcceptsTx, UpdateCoins, UpdateCoinsUndo, DisconnectTx, Cleared, WellFormedView, SoundAll;
    hide Spendable, InputUndos, SpendInputs, ConnectTxs;
    if txs == [] {
      assert ConnectTxs(v, [], height) == Accepted(v, [], 0) by {
        NothingConnected(v, height);
      }
    } else {
      var n := |txs| - 1;
      var u := if n == 0 then [] else undo[n - 1];
      var rest := if n == 0 then [] else undo[..n - 1];
      assert SoundAll(u) by {
        NoUndoSound();
      }
      ReconnectTx(v, txs[n], height, u);
      var v1 := DisconnectTx(v, txs[n], height, n == 0, u).view;
      PrefixChecked(txs, n);
      ConnectInvertsDisconnect(v1, txs[..n], height, rest);
      hide DisconnectTxs;
      LastConnected(DisconnectTxs(v1, txs[..n], height, rest).view, txs, height);
      assert n > 0 ==> rest + [u] == undo;
    }
  }

  lemma NothingConnected(v: View, height: nat)
    ensures CheckedTxs([]) && ConnectTxs(v, [], height) == Accepted(v, [], 0)
  {
  }

  /** How the last transaction of an accepted list contributes. */
  lemma LastConnected(v: View, txs: seq<Tx>, height: nat)
    requires txs != [] && CheckedTxs(txs)
    ensures var n := |txs| - 1;
            && CheckedTxs(txs[..n])
            && var c, before := ConnectTxs(v, txs, height), ConnectTxs(v, txs[..n], height);
               c.Accepted? ==>
                 && before.Accepted? && (txs[n].IsCoinBase() || Spendable(before.view, txs[n].vin)) && (txs[n].IsCoinBase() <==> n == 0)
                 && c.view == UpdateCoins(before.view, txs[n], height)
                 && c.undo == before.undo + (if n == 0 then [] else [UpdateCoinsUndo(before.view, txs[n])])
  {
    hide CheckTransaction, AcceptsTx, UpdateCoins, UpdateCoinsUndo, Spendable;
    PrefixChecked(txs, |txs| - 1);
    var before := ConnectTxs(v, txs[..|txs| - 1], height);
    if before.Accepted? && AcceptsTx(before.view, txs[|txs| - 1], height) {
      AcceptedTxSpendable(before.view, txs[|txs| - 1], height);
    }
  }

  lemma NoUndoSound()
    ensures SoundAll([])
  {
  }
}
