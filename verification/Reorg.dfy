/**
 * ConnectTip, DisconnectTip and ActivateBestChainStep (src/main.cpp): through every reorganisation the
 * coins at the tip are those obtained by replaying the blocks of the active chain from genesis.
 */
module Reorg {
  import opened Primitives
  import opened Coins
  import opened Ledger
  import opened CoinsCache
  import opened BlockUndo
  import BlockConnection
  import opened BlockTree
  import opened ActiveChain
  import opened Candidates

  type BlockStore = map<BlockPtr, seq<Tx>>

  datatype Replayed = Broken | Reached(view: View)

  /** The coins after connecting, in order, all blocks of a path; the genesis block creates none. */
  ghost function Replay(blocks: BlockStore, exempt: set<BlockPtr>, path: seq<BlockPtr>): Replayed
    requires forall i :: 0 < i < |path| ==> path[i] in blocks
  {
    if |path| <= 1 then Reached(map[])
    else
      var n := |path| - 1;
      var before := Replay(blocks, exempt, path[..n]);
      if before.Broken? then Broken
      else
        var c := ConnectBlock(before.view, blocks[path[n]], n, path[n] !in exempt);
        if c.Rejected? then Broken else Reached(c.view)
  }

  lemma {:induction false} ReplayWellFormed(blocks: BlockStore, exempt: set<BlockPtr>, path: seq<BlockPtr>)
    requires forall i :: 0 < i < |path| ==> path[i] in blocks
    ensures var r := Replay(blocks, exempt, path); r.Reached? ==> WellFormedView(r.view)
    decreases |path|
  {
    hide CheckTransaction, ConnectTxs, Coins.WellFormed, NoOverwrite;
    if |path| > 1 {
      var n := |path| - 1;
      ReplayWellFormed(blocks, exempt, path[..n]);
      var before := Replay(blocks, exempt, path[..n]);
      if before.Reached? && ConnectBlock(before.view, blocks[path[n]], n, path[n] !in exempt).Accepted? {
        ConnectTxsWellFormed(before.view, blocks[path[n]], n);
      }
    }
  }

  /** What the block connection on top of a path produces. */
  ghost function ConnectOn(blocks: BlockStore, exempt: set<BlockPtr>, path: seq<BlockPtr>, b: BlockPtr): Connected
    requires b in blocks && forall i :: 0 < i < |path| ==> path[i] in blocks
  {
    var before := Replay(blocks, exempt, path);
    if before.Broken? then Rejected else ConnectBlock(before.view, blocks[b], |path|, b !in exempt)
  }

  lemma ReplayExtends(blocks: BlockStore, exempt: set<BlockPtr>, path: seq<BlockPtr>, b: BlockPtr)
    requires path != [] && b in blocks && forall i :: 0 < i < |path| ==> path[i] in blocks
    ensures var c := ConnectOn(blocks, exempt, path, b);
            Replay(blocks, exempt, path + [b]) == if c.Rejected? then Broken else Reached(c.view)
  {
    hide ConnectBlock;
    assert (path + [b])[..|path|] == path;
  }

  /** The id that the coinbase of an exempt block may have taken from unspent coins. */
  ghost function Overwritten(blocks: BlockStore, exempt: set<BlockPtr>, b: BlockPtr): set<Hash>
    requires b in blocks
  {
    if b in exempt && blocks[b] != [] then {blocks[b][0].txid} else {}
  }

  /** Undoing the last block of a path leads back to the replay of the rest, without what an exempt coinbase overwrote. */
  lemma UndoLast(blocks: BlockStore, exempt: set<BlockPtr>, path: seq<BlockPtr>, b: BlockPtr)
    requires path != [] && b in blocks && forall i :: 0 < i < |path| ==> path[i] in blocks
    requires TxidsInjective(blocks[b]) && ConnectOn(blocks, exempt, path, b).Accepted?
    requires b in exempt ==> OnlyCoinbaseOverwrites(Replay(blocks, exempt, path).view, blocks[b])
    ensures var c := ConnectOn(blocks, exempt, path, b);
            DisconnectBlock(c.view, blocks[b], |path|, c.undo)
            == Restored(Replay(blocks, exempt, path).view - Overwritten(blocks, exempt, b), true)
  {
    hide Replay, DisconnectBlock, ConnectTxs, NoOverwrite;
    ReplayWellFormed(blocks, exempt, path);
    var v := Replay(blocks, exempt, path).view;
    if b in exempt {
      ExemptBlockUndone(v, blocks[b], |path|);
    } else {
      DisconnectInvertsConnect(v, blocks[b], |path|);
      assert v - {} == v;
    }
  }

  ghost predicate Stored(blocks: BlockStore, path: seq<BlockPtr>) {
    forall i :: 0 < i < |path| ==> path[i] in blocks
  }

  /** The block index and the blocks and undo data on disk. */
  datatype Storage = Storage(
    genesis: BlockPtr,
    exempt: set<BlockPtr>, // blocks whose connection skips the BIP 30 scan
    index: Tree,
    blocks: BlockStore,
    undo: map<BlockPtr, BlockUndoData>)
  {
    /** A tree with one root; ids in stored blocks are collision free. */
    ghost predicate IndexOk() {
      && TreeOk(index) && SkipsOk(index) && WorkGrows(index)
      && (forall b :: b in index ==> (index[b].pprev == NIL <==> b == genesis))
      && (forall b :: b in blocks ==> TxidsInjective(blocks[b]))
    }

    /** `b` and its ancestors are on disk, except perhaps the genesis block. */
    ghost predicate Connectable(b: BlockPtr)
      requires IndexOk()
    {
      b in index && b in blocks && index[b].pprev in index && Stored(blocks, PathTo(index, index[b].pprev))
    }

    /** The outcome of connecting `b` on top of its own ancestors. */
    ghost function Connection(b: BlockPtr): Connected
      requires IndexOk() && Connectable(b)
    {
      ConnectOn(blocks, exempt, PathTo(index, index[b].pprev), b)
    }

    /** Where the BIP 30 scan is skipped, at most the coinbase repeats an id with unspent coins. */
    ghost predicate ExemptionSound(b: BlockPtr)
      requires IndexOk()
    {
      b in exempt && Connectable(b) ==>
        var before := Replay(blocks, exempt, PathTo(index, index[b].pprev));
        before.Reached? ==> OnlyCoinbaseOverwrites(before.view, blocks[b])
    }

    /** The block can be taken off again: if it skipped the scan, its coinbase still overwrote nothing unspent. */
    ghost predicate Undoable(b: BlockPtr)
      requires IndexOk()
    {
      b in exempt && Connectable(b) && blocks[b] != [] ==>
        var before := Replay(blocks, exempt, PathTo(index, index[b].pprev));
        before.Reached? ==> blocks[b][0].txid !in before.view
    }

    /** `b` connects on top of its own ancestors, given the verdicts on everything but the coins. */
    ghost predicate Connects(b: BlockPtr, accepts: BlockPtr -> bool)
      requires IndexOk()
    {
      accepts(b) && (b == genesis || (Connectable(b) && Connection(b).Accepted?))
    }

    /** Undo data on disk is what connecting the block on its own ancestors produces. */
    ghost predicate UndoOk(b: BlockPtr)
      requires IndexOk() && b in undo
    {
      Connectable(b) && Connection(b).Accepted? && undo[b] == Connection(b).undo
    }

    ghost predicate Ok() {
      && IndexOk()
      && (forall b {:trigger ExemptionSound(b)} :: ExemptionSound(b))
      && (forall b {:trigger UndoOk(b)} :: b in undo ==> UndoOk(b))
    }
  }

  /** Status changes keep the storage consistent. */
  lemma RelabelledOk(s: Storage, index: Tree)
    requires s.Ok() && SameShape(s.index, index)
    ensures s.(index := index).Ok()
  {
    hide Replay, ConnectBlock, OnlyCoinbaseOverwrites, SkipsOk, PathTo;
    var s' := s.(index := index);
    SameShapeOk(s.index, index);
    WorkGrowsSame(s.index, index);
    forall b
      ensures s'.ExemptionSound(b)
    {
      assert s.ExemptionSound(b);
    }
    forall b | b in s'.undo
      ensures s'.UndoOk(b)
    {
      assert s.UndoOk(b);
    }
  }

  /** Writing the undo data of a block that connects keeps the storage consistent. */
  lemma UndoWrittenOk(s: Storage, b: BlockPtr)
    requires s.Ok() && s.Connectable(b) && s.Connection(b).Accepted?
    ensures s.(undo := s.undo[b := s.Connection(b).undo]).Ok()
  {
    var s' := s.(undo := s.undo[b := s.Connection(b).undo]);
    forall k
      ensures s'.ExemptionSound(k)
    {
      assert s.ExemptionSound(k);
    }
    forall k | k in s'.undo
      ensures s'.UndoOk(k)
    {
      assert k != b ==> s.UndoOk(k);
    }
  }

  /**
   * The block-scoped part of ConnectTip: a cache on top of the tip is connected and flushed, or dropped.
   * The genesis block only moves the best-block marker.
   */
  method ApplyBlock(tip: CoinsViewCache, txs: seq<Tx>, height: nat, isGenesis: bool, enforceBip30: bool,
                    otherChecks: bool, hash: Hash, prev: Hash)
    returns (ok: bool, undo: BlockUndoData)
    requires tip.Valid() && !tip.hasModifier && tip.Best() == prev && hash != NULL_HASH
    requires !isGenesis && !enforceBip30 ==> OnlyCoinbaseOverwrites(tip.View(), txs)
    modifies tip.Repr
    ensures tip.Valid() && !tip.hasModifier
    ensures tip.Best() == if ok then hash else prev
    ensures !ok || isGenesis ==> tip.View() == old(tip.View())
    ensures isGenesis ==> (ok <==> otherChecks)
    ensures !isGenesis ==> (ok <==> otherChecks && ConnectBlock(old(tip.View()), txs, height, enforceBip30).Accepted?)
    ensures ok && !isGenesis ==>
              var c := ConnectBlock(old(tip.View()), txs, height, enforceBip30); tip.View() == c.view && undo == c.undo
  {
    hide Overlay, ConnectBlock;
    var view := new CoinsViewCache.OnCache(tip);
    var best := view.GetBestBlock();
    assert best == prev;
    undo := [];
    if isGenesis {
      ok := otherChecks;
      if ok {
        view.SetBestBlock(hash);
      }
    } else {
      var fees;
      ok, undo, fees := BlockConnection.ConnectBlock(view, txs, height, enforceBip30, otherChecks, hash);
    }
    if ok {
      view.Flush();
    }
  }

  /** The block-scoped part of DisconnectTip. */
  method RevertBlock(tip: CoinsViewCache, txs: seq<Tx>, height: nat, undo: BlockUndoData, hash: Hash, prev: Hash)
    returns (ok: bool)
    requires tip.Valid() && !tip.hasModifier && tip.Best() == hash && prev != NULL_HASH
    modifies tip.Repr
    ensures tip.Valid() && !tip.hasModifier
    ensures var spec := DisconnectBlock(old(tip.View()), txs, height, undo);
            && (ok <==> spec.Restored? && spec.clean)
            && (ok ==> tip.View() == spec.view && tip.Best() == prev)
  {
    hide Overlay, DisconnectBlock;
    var view := new CoinsViewCache.OnCache(tip);
    var best := view.GetBestBlock();
    assert best == hash;
    ok := BlockConnection.DisconnectBlock(view, txs, height, undo, prev);
    if ok {
      view.Flush();
    }
  }

  /** What the model does not compute: the other checks on a block, and whether a failure may be due to corrupt data. */
  datatype Verdicts = Verdicts(accepts: BlockPtr -> bool, corrupt: BlockPtr -> bool)

  /** The length of the longest common prefix. */
  function Shared(a: seq<BlockPtr>, b: seq<BlockPtr>): (n: nat)
    ensures n <= |a| && n <= |b| && a[..n] == b[..n]
    ensures n < |a| && n < |b| ==> a[n] != b[n]
  {
    if a == [] || b == [] || a[0] != b[0] then 0 else 1 + Shared(a[1..], b[1..])
  }

  lemma {:induction false} SharedUnique(a: seq<BlockPtr>, b: seq<BlockPtr>, n: nat)
    requires n <= |a| && n <= |b| && a[..n] == b[..n] && (n < |a| && n < |b| ==> a[n] != b[n])
    ensures n == Shared(a, b)
  {
    if a != [] && b != [] && a[0] == b[0] {
      SharedUnique(a[1..], b[1..], n - 1);
    }
  }

  /** The circumstances of one activation step, and how far it has to go. */
  datatype Plan = Plan(
    store: Storage,
    candidates: set<BlockPtr>,
    path: seq<BlockPtr>,      // to the block of most work
    keep: nat,                // as much of it is active already
    oldTip: BlockPtr,
    verdicts: Verdicts)
  {
    ghost predicate Ok() {
      && store.Ok() && candidates <= store.index.Keys
      && path != [] && Target() in store.index && path == PathTo(store.index, Target()) && Target() in candidates
      && (forall k :: 0 <= k < |path| ==> path[k] in store.index && path[k] in store.blocks)
      && keep <= |path| && (oldTip == NIL || oldTip in store.index)
    }

    ghost function Target(): BlockPtr
      requires path != []
    {
      path[|path| - 1]
    }

    ghost predicate Connects(k: nat)
      requires Ok() && k < |path|
    {
      store.Connects(path[k], verdicts.accepts)
    }

    /** More work than before. */
    ghost predicate Improves(k: nat)
      requires Ok() && k < |path|
    {
      oldTip == NIL || store.index[path[k]].nChainWork > store.index[oldTip].nChainWork
    }

    /** The first `n` blocks of the path are or become active: they connect, and none but the last improves. */
    ghost predicate Reaches(n: nat)
      requires Ok()
    {
      && keep <= n <= |path|
      && (forall k :: keep <= k < n ==> Connects(k))
      && (forall k :: keep <= k < n - 1 ==> !Improves(k))
    }

    /** There is no reason yet to stop. */
    ghost predicate Open(n: nat)
      requires Ok() && n <= |path|
    {
      n <= keep || !Improves(n - 1)
    }

    /** The step ends with `n` active blocks, at an invalid block or not. */
    ghost predicate EndsAt(n: nat, invalid: bool)
      requires Ok()
    {
      && Reaches(n)
      && (if invalid then n < |path| && Open(n) && !Connects(n) else n == |path| || !Open(n))
    }

    /** A block that fails is marked, unless its data may be corrupt. */
    ghost predicate Marks(n: nat, invalid: bool)
      requires path != []
    {
      invalid && n < |path| && !verdicts.corrupt(path[n])
    }

    ghost function IndexAfter(n: nat, invalid: bool): Tree
      requires Ok()
    {
      if Marks(n, invalid) then store.index[path[n] := store.index[path[n]].(failedValid := true)] else store.index
    }

    /** Candidates worse than the new tip are gone, and so is a block that failed. */
    ghost function CandidatesAfter(n: nat, invalid: bool): set<BlockPtr>
      requires Ok() && n <= |path|
    {
      (if n <= keep then candidates else set c | c in candidates && !Worse(store.index, c, path[n - 1]))
      - (if Marks(n, invalid) then {path[n]} else {})
    }

    /** The state after the first `n` blocks, possibly with the next one found invalid. */
    ghost predicate Holds(n: nat, invalid: bool, vChain: seq<BlockPtr>, store': Storage, candidates': set<BlockPtr>)
      requires Ok()
    {
      && n <= |path| && vChain == path[..n]
      && store' == store.(index := IndexAfter(n, invalid), undo := store'.undo)
      && candidates' == CandidatesAfter(n, invalid)
    }
  }

  /** Whether a block connects does not depend on the undo data on disk. */
  lemma ConnectsAlike(s: Storage, s': Storage, b: BlockPtr, accepts: BlockPtr -> bool)
    requires s.IndexOk() && s' == s.(undo := s'.undo)
    ensures s'.IndexOk() && (s.Connects(b, accepts) <==> s'.Connects(b, accepts))
  {
    hide SkipsOk, Stored, ConnectOn, PathTo, TreeOk, WorkGrows;
  }

  /** After the next block has connected and the candidates are pruned. */
  lemma StepTaken(p: Plan, n: nat, s: Storage, s': Storage, candidates: set<BlockPtr>)
    requires p.Ok() && n < |p.path| && p.Reaches(n) && p.Open(n) && p.Connects(n)
    requires p.Holds(n, false, p.path[..n], s, candidates) && s' == s.(undo := s'.undo)
    ensures s'.index == p.store.index && candidates <= s'.index.Keys
    ensures var pruned := set c | c in candidates && !Worse(s'.index, c, p.path[n]);
            p.Holds(n + 1, false, p.path[..n] + [p.path[n]], s', pruned)
    ensures p.Reaches(n + 1) && (p.Open(n + 1) <==> !p.Improves(n)) && (p.Improves(n) ==> p.EndsAt(n + 1, false))
  {
    hide PathTo, Storage.Ok, Storage.Connects, Worse;
    assert p.path[..n] + [p.path[n]] == p.path[..n + 1];
    PlanWork(p, n);
    PrunedAgain(p.store.index, p.candidates, candidates, if n == p.keep then NIL else p.path[n - 1], p.path[n]);
  }

  /** After the next block has been refused. */
  lemma StepRefused(p: Plan, n: nat, s: Storage, s': Storage, candidates: set<BlockPtr>, candidates': set<BlockPtr>)
    requires p.Ok() && n < |p.path| && p.Reaches(n) && p.Open(n) && !p.Connects(n)
    requires p.Holds(n, false, p.path[..n], s, candidates)
    requires var b := p.path[n];
             if p.verdicts.corrupt(b) then s' == s && candidates' == candidates
             else s' == s.(index := s.index[b := s.index[b].(failedValid := true)]) && candidates' == candidates - {b}
    ensures p.Holds(n, true, p.path[..n], s', candidates') && p.EndsAt(n, true)
  {
    hide PathTo, Storage.Ok, Storage.Connects, Worse;
  }

  lemma PlanWork(p: Plan, n: nat)
    requires p.Ok() && n < |p.path|
    ensures n > 0 ==> p.store.index[p.path[n - 1]].nChainWork < p.store.index[p.path[n]].nChainWork
    ensures NIL !in p.store.index && !Worse(p.store.index, p.Target(), p.path[n])
  {
    hide PathTo, Replay, SkipsOk;
    NotWorseThanAncestor(p.store.index, p.Target(), n);
    if n > 0 {
      TipsOnPath(p.store.index, p.Target(), n, n + 1);
    }
  }

  class Chainstate {
    const tip: CoinsViewCache
    const chain: Chain
    var store: Storage
    var candidates: set<BlockPtr>

    /** The tip coins are the replay of the active chain, and undo data for every active block is on disk. */
    ghost predicate Inv()
      reads this, chain, tip, tip.Repr
    {
      && this !in tip.Repr && chain !in tip.Repr
      && tip.Valid() && !tip.hasModifier
      && store.Ok() && candidates <= store.index.Keys
      && IsPath(store.index, chain.vChain) && Stored(store.blocks, chain.vChain)
      && Replay(store.blocks, store.exempt, chain.vChain) == Reached(tip.View())
      && tip.Best() == chain.Tip()
      && (forall i :: 0 < i < |chain.vChain| ==> chain.vChain[i] in store.undo)
    }

    /** A node that has just been started on an empty coin database. */
    constructor (db: CoinsViewDB, s: Storage)
      requires db.coins == map[] && db.best == NULL_HASH && s.Ok()
      ensures Inv() && store == s && candidates == {} && chain.vChain == [] && fresh(chain) && fresh(tip.Repr - {db})
    {
      tip := new CoinsViewCache.OnDisk(db);
      chain := new Chain();
      store, candidates := s, {};
    }

    /**
     * ConnectTip: on success the chain grows by `b`; on rejection nothing moves but the failure mark, and that only
     * if the data was not possibly corrupted.
     */
    method ConnectTip(b: BlockPtr, otherChecks: bool, corruptionPossible: bool) returns (ok: bool)
      requires Inv() && b in store.index && b in store.blocks && store.index[b].pprev == chain.Tip()
      modifies this, chain, tip.Repr
      ensures Inv()
      ensures b == old(store.genesis) ==> (ok <==> otherChecks)
      ensures b != old(store.genesis) ==>
                var c := ConnectBlock(old(tip.View()), old(store.blocks)[b], |old(chain.vChain)|, b !in old(store.exempt));
                && old(store).Connectable(b) && old(store).Connection(b) == c
                && (ok <==> otherChecks && c.Accepted?)
      ensures chain.vChain == if ok then old(chain.vChain) + [b] else old(chain.vChain)
      ensures store == old(store).(undo := store.undo, index := store.index)
      ensures store.index == if ok || corruptionPossible then old(store.index)
                             else old(store.index)[b := old(store.index)[b].(failedValid := true)]
      ensures store.undo == if ok && b != old(store.genesis) && b !in old(store.undo)
                            then old(store.undo)[b := old(store).Connection(b).undo] else old(store.undo)
      ensures candidates == if ok || corruptionPossible then old(candidates) else old(candidates) - {b}
    {
      hide Replay, ConnectBlock, SkipsOk, OnlyCoinbaseOverwrites, PathTo;
      var node := store.index[b];
      var isGenesis := b == store.genesis;
      ghost var path := chain.vChain;
      BeforeConnect(b);
      AfterConnect(store, path, b);
      var undo;
      ok, undo := ApplyBlock(tip, store.blocks[b], node.nHeight, isGenesis, b !in store.exempt, otherChecks, b, node.pprev);
      if ok {
        assert Replay(store.blocks, store.exempt, path + [b]) == Reached(tip.View());
        if !isGenesis {
          WriteUndo(b, undo);
        }
        chain.SetTip(store.index, b);
      } else {
        assert Inv();
        if !corruptionPossible {
          MarkFailed(b);
        }
      }
    }

    /** Undo data is written the first time a block is connected and kept afterwards. */
    method WriteUndo(b: BlockPtr, undo: BlockUndoData)
      requires store.Ok() && store.Connectable(b) && store.Connection(b).Accepted? && undo == store.Connection(b).undo
      modifies this
      ensures store.Ok() && b in store.undo && candidates == old(candidates)
      ensures store == if b in old(store.undo) then old(store) else old(store).(undo := old(store.undo)[b := undo])
    {
      hide *;
      UndoWrittenOk(store, b);
      if b !in store.undo {
        store := store.(undo := store.undo[b := undo]);
      }
    }

    /** InvalidBlockFound: the block is marked and is no candidate any more. */
    method MarkFailed(b: BlockPtr)
      requires Inv() && b in store.index
      modifies this
      ensures Inv() && SameShape(old(store.index), store.index)
      ensures store == old(store).(index := old(store.index)[b := old(store.index)[b].(failedValid := true)])
      ensures candidates == old(candidates) - {b}
    {
      hide Replay, ConnectBlock, SkipsOk, OnlyCoinbaseOverwrites, PathTo;
      var index := store.index[b := store.index[b].(failedValid := true)];
      RelabelledOk(store, index);
      SameShapeOk(store.index, index);
      store := store.(index := index);
      candidates := candidates - {b};
    }

    /**
     * DisconnectTip: never fails on consistent data, and takes exactly the last block off. The tip coins are the replay
     * of the rest again if and only if that block overwrote nothing unspent; otherwise exactly those coins are missing.
     */
    method DisconnectTip() returns (ok: bool)
      requires Inv() && |chain.vChain| > 1
      modifies this, chain, tip.Repr
      ensures ok && store == old(store) && candidates == old(candidates) && tip.Valid()
      ensures chain.vChain == old(chain.vChain)[..|old(chain.vChain)| - 1] && Stored(store.blocks, chain.vChain)
      ensures Replay(store.blocks, store.exempt, chain.vChain).Reached? && old(chain.Tip()) in store.blocks
      ensures tip.View() == Replay(store.blocks, store.exempt, chain.vChain).view
                            - Overwritten(store.blocks, store.exempt, old(chain.Tip()))
      ensures Inv() <==> store.Undoable(old(chain.Tip()))
    {
      hide Replay, ConnectBlock, DisconnectBlock, SkipsOk, OnlyCoinbaseOverwrites, PathTo;
      var b := chain.Tip();
      var node := store.index[b];
      ghost var rest := chain.vChain[..|chain.vChain| - 1];
      BeforeDisconnect();
      if b !in store.undo {
        return false;
      }
      ok := RevertBlock(tip, store.blocks[b], node.nHeight, store.undo[b], b, node.pprev);
      if ok {
        chain.SetTip(store.index, node.pprev);
      }
    }

    lemma BeforeDisconnect()
      requires Inv() && |chain.vChain| > 1
      ensures var b, rest := chain.Tip(), chain.vChain[..|chain.vChain| - 1];
              && b in store.blocks && store.index[b].nHeight == |rest| && b in store.undo
              && store.index[b].pprev == rest[|rest| - 1] && rest[|rest| - 1] in store.index && rest[|rest| - 1] != NIL
              && rest == PathTo(store.index, rest[|rest| - 1]) && Stored(store.blocks, rest)
              && Replay(store.blocks, store.exempt, rest).Reached?
              && DisconnectBlock(tip.View(), store.blocks[b], |rest|, store.undo[b])
                 == Restored(Replay(store.blocks, store.exempt, rest).view - Overwritten(store.blocks, store.exempt, b), true)
              && (store.Undoable(b) <==>
                    Replay(store.blocks, store.exempt, rest).view - Overwritten(store.blocks, store.exempt, b)
                    == Replay(store.blocks, store.exempt, rest).view)
    {
      hide Replay, ConnectBlock, DisconnectBlock, SkipsOk, OnlyCoinbaseOverwrites;
      var b, rest := chain.Tip(), chain.vChain[..|chain.vChain| - 1];
      assert NodeOk(store.index, b);
      assert chain.vChain == rest + [b];
      assert rest == PathTo(store.index, store.index[b].pprev);
      ReplayExtends(store.blocks, store.exempt, rest, b);
      assert b == chain.vChain[|rest|];
      assert store.UndoOk(b) && store.ExemptionSound(b);
      assert Replay(store.blocks, store.exempt, rest).Reached?;
      UndoLast(store.blocks, store.exempt, rest, b);
    }

    /** The first loop of ActivateBestChainStep: back to the fork, without failure. */
    method DisconnectTo(fork: BlockPtr, ghost keep: nat) returns (ok: bool)
      requires Inv() && (chain.vChain == [] ==> keep == 0 && fork == NIL)
      requires chain.vChain != [] ==> 0 < keep <= |chain.vChain| && chain.vChain[keep - 1] == fork
      requires forall k :: keep <= k < |chain.vChain| ==> store.Undoable(chain.vChain[k])
      modifies this, chain, tip.Repr
      ensures ok && Inv() && store == old(store) && candidates == old(candidates)
      ensures chain.vChain == old(chain.vChain)[..keep]
    {
      hide Replay, SkipsOk, PathTo;
      ok := true;
      while chain.Tip() != NIL && chain.Tip() != fork
        invariant Inv() && store == old(store) && candidates == old(candidates) && ok
        invariant keep <= |chain.vChain| <= |old(chain.vChain)|
        invariant chain.vChain == old(chain.vChain)[..|chain.vChain|]
        decreases |chain.vChain|
      {
        assert store.Undoable(chain.Tip());
        ok := DisconnectTip();
        if !ok {
          return;
        }
      }
      if chain.vChain != [] {
        PathParent(store.index, chain.Tip(), keep - 1);
        PathParent(store.index, chain.Tip(), |chain.vChain| - 1);
      }
    }

    /** The state after the first `n` blocks of a plan, possibly with the next one found invalid. */
    ghost predicate At(p: Plan, n: nat, invalid: bool)
      requires p.Ok()
      reads this, chain
    {
      p.Holds(n, invalid, chain.vChain, store, candidates)
    }

    /** The second loop over one list of blocks, lowest last; stops at an invalid block or a better tip. */
    method ConnectList(list: seq<BlockPtr>, oldTip: BlockPtr, verdicts: Verdicts, ghost p: Plan)
      returns (fContinue: bool, fInvalidFound: bool)
      requires Inv() && p.Ok() && oldTip == p.oldTip && verdicts == p.verdicts
      requires var n := |chain.vChain|;
               && At(p, n, false) && p.Reaches(n) && p.Open(n)
               && n + |list| <= |p.path| && Reverse(list) == p.path[n..n + |list|]
      modifies this, chain, tip.Repr
      ensures Inv() && At(p, |chain.vChain|, fInvalidFound) && p.Reaches(|chain.vChain|)
      ensures fContinue ==> |chain.vChain| == |old(chain.vChain)| + |list| && p.Open(|chain.vChain|) && !fInvalidFound
      ensures !fContinue ==> p.EndsAt(|chain.vChain|, fInvalidFound)
    {
      hide *;
      fContinue, fInvalidFound := true, false;
      ghost var n := |chain.vChain|;
      assert n <= |p.path| by {
        AtMost(p, n);
      }
      var k := |list|;
      while k > 0 && fContinue
        invariant 0 <= k <= |list| && |chain.vChain| == n + |list| - k
        invariant Inv() && At(p, |chain.vChain|, false) && p.Reaches(|chain.vChain|)
        invariant if fContinue then p.Open(|chain.vChain|) else p.EndsAt(|chain.vChain|, false)
        decreases k
      {
        k := k - 1;
        ListEntry(list, p.path, n, k);
        var connected, better := ConnectNext(list[k], oldTip, verdicts, p);
        if !connected {
          fInvalidFound, fContinue := true, false;
          return;
        }
        fContinue := !better;
      }
    }

    lemma AtMost(p: Plan, n: nat)
      requires p.Ok() && At(p, n, false)
      ensures p.Holds(n, false, chain.vChain, store, candidates) && n <= |p.path| && chain.vChain == p.path[..n]
    {
      hide PathTo;
    }

    /** Connects the next block of the path, prunes the candidates, and compares with the old tip. */
    method ConnectNext(b: BlockPtr, oldTip: BlockPtr, verdicts: Verdicts, ghost p: Plan) returns (connected: bool, better: bool)
      requires Inv() && p.Ok() && oldTip == p.oldTip && verdicts == p.verdicts
      requires var n := |chain.vChain|; At(p, n, false) && p.Reaches(n) && p.Open(n) && n < |p.path| && b == p.path[n]
      modifies this, chain, tip.Repr
      ensures Inv() && At(p, |chain.vChain|, !connected) && p.Reaches(|chain.vChain|)
      ensures |chain.vChain| == |old(chain.vChain)| + (if connected then 1 else 0)
      ensures if connected && !better then p.Open(|chain.vChain|) else p.EndsAt(|chain.vChain|, !connected)
    {
      hide Chainstate.Inv, Plan.Ok, Plan.Holds, Plan.Reaches, Plan.Open, Plan.EndsAt, Plan.Connects, Worse, PathTo;
      ghost var n := |chain.vChain|;
      AtMost(p, n);
      ghost var s, before := store, candidates;
      connected := TryNext(b, verdicts, p);
      better := false;
      if connected {
        StepTaken(p, n, s, store, before);
        better := AfterNext(b, oldTip, p);
      } else {
        StepRefused(p, n, s, store, before, candidates);
      }
    }

    /** Connects the next block if the verdicts allow it. */
    method TryNext(b: BlockPtr, verdicts: Verdicts, ghost p: Plan) returns (connected: bool)
      requires Inv() && p.Ok() && verdicts == p.verdicts
      requires var n := |chain.vChain|; At(p, n, false) && n < |p.path| && b == p.path[n]
      modifies this, chain, tip.Repr
      ensures Inv() && |old(chain.vChain)| < |p.path| && (connected <==> p.Connects(|old(chain.vChain)|))
      ensures chain.vChain == if connected then old(chain.vChain) + [b] else old(chain.vChain)
      ensures connected ==> store == old(store).(undo := store.undo) && candidates == old(candidates) && p.Target() in candidates
      ensures !connected && verdicts.corrupt(b) ==> store == old(store) && candidates == old(candidates)
      ensures !connected && !verdicts.corrupt(b) ==>
                && b in old(store.index) && candidates == old(candidates) - {b}
                && store == old(store).(index := old(store.index)[b := old(store.index)[b].(failedValid := true)])
    {
      NextOnPath(p, |chain.vChain|);
      hide Chainstate.Inv, Chainstate.At, Plan.Ok, Plan.Connects, Worse, Storage.Connection, Storage.IndexOk, PathTo, ConnectBlock;
      connected := ConnectTip(b, verdicts.accepts(b), verdicts.corrupt(b));
    }

    /** What follows a connection: the candidates are pruned and the new tip is compared with the old one. */
    method AfterNext(b: BlockPtr, oldTip: BlockPtr, ghost p: Plan) returns (better: bool)
      requires Inv() && p.Ok() && oldTip == p.oldTip && store.index == p.store.index
      requires p.Target() in candidates && exists n :: 0 <= n < |p.path| && b == p.path[n]
      modifies this`candidates
      ensures Inv() && b in store.index && candidates == set c | c in old(candidates) && !Worse(store.index, c, b)
      ensures oldTip == NIL || oldTip in store.index
      ensures better <==> oldTip == NIL || store.index[b].nChainWork > store.index[oldTip].nChainWork
    {
      ghost var n :| 0 <= n < |p.path| && b == p.path[n];
      PlanWork(p, n);
      PruneCandidates(b, p.Target());
      better := oldTip == NIL || store.index[b].nChainWork > store.index[oldTip].nChainWork;
    }

    /** Pruning against the new tip; the block we are working towards is left, so the set is not empty. */
    method PruneCandidates(b: BlockPtr, ghost mostWork: BlockPtr)
      requires Inv() && b in store.index && mostWork in candidates && mostWork in store.index && !Worse(store.index, mostWork, b)
      modifies this`candidates
      ensures Inv() && mostWork in candidates
      ensures candidates == set c | c in old(candidates) && !Worse(store.index, c, b)
    {
      hide Replay, SkipsOk, PathTo;
      candidates := PruneBlockIndexCandidates(store.index, candidates, b);
      assert mostWork in candidates;
      assert candidates != {};
    }

    /** The next block of a plan: its parent is the tip, and the target is no worse. */
    lemma NextOnPath(p: Plan, n: nat)
      requires Inv() && p.Ok() && At(p, n, false) && n < |p.path|
      ensures var b := p.path[n];
              && store == p.store.(undo := store.undo) && b in store.index && b in store.blocks && store.index[b].pprev == chain.Tip()
              && p.Target() in store.index && p.Target() in candidates && !Worse(store.index, p.Target(), b)
              && chain.vChain == p.path[..n] && (p.oldTip == NIL || p.oldTip in store.index)
              && (p.Connects(n) <==> store.Connects(b, p.verdicts.accepts))
    {
      hide PathTo, Replay, SkipsOk, Storage.Connects;
      ConnectsAlike(p.store, store, p.path[n], p.verdicts.accepts);
      PathParent(store.index, p.Target(), n);
      PlanWork(p, n);
      if n > p.keep {
        PlanWork(p, n - 1);
      }
    }

    /**
     * ActivateBestChainStep. It cannot fail without an I/O error and keeps the tip coins equal to the replay of the
     * active chain whatever the verdicts are. What the chain shares with the path to `mostWork` stays; then the blocks of
     * the path are connected up to the first one with more work than the old tip, or up to `mostWork`, or up to the
     * first one that does not connect, and only that one is called invalid.
     */
    method ActivateBestChainStep(mostWork: BlockPtr, verdicts: Verdicts) returns (ok: bool, fInvalidFound: bool)
      requires Inv() && mostWork in store.index
      requires forall k :: 0 <= k <= store.index[mostWork].nHeight ==> PathTo(store.index, mostWork)[k] in store.blocks
      requires forall b :: b in chain.vChain && b !in PathTo(store.index, mostWork) ==> store.Undoable(b)
      requires mostWork in candidates
      modifies this, chain, tip.Repr
      ensures ok && Inv()
      ensures var path := PathTo(old(store.index), mostWork);
              var p := Plan(old(store), old(candidates), path, Shared(old(chain.vChain), path), old(chain.Tip()), verdicts);
              p.Ok() && At(p, |chain.vChain|, fInvalidFound) && p.EndsAt(|chain.vChain|, fInvalidFound)
      ensures var path := PathTo(old(store.index), mostWork);
              && (fInvalidFound ==> |chain.vChain| < |path| && !old(store).Connects(path[|chain.vChain|], verdicts.accepts))
              && ((forall k :: Shared(old(chain.vChain), path) <= k < |path| ==> old(store).Connects(path[k], verdicts.accepts))
                  ==> !fInvalidFound)
              && (fInvalidFound || chain.vChain == path || old(chain.vChain) == [] ||
                  old(store.index)[chain.Tip()].nChainWork > old(store.index)[old(chain.Tip())].nChainWork)
    {
      IndexSound();
      hide Chainstate.Inv, Chainstate.At, Plan.Ok, Plan.EndsAt, Storage.Ok, Storage.Connects, TreeOk, SkipsOk, PathTo, Shared;
      var oldTip := chain.Tip();
      ghost var path, before := PathTo(store.index, mostWork), chain.vChain;
      ghost var p := Plan(store, candidates, path, Shared(before, path), oldTip, verdicts);
      PlanSound(p, mostWork);
      var nHeight;
      ok, nHeight := BackToFork(mostWork);
      fInvalidFound := false;
      if !ok {
        return;
      }
      AtStart(p);
      fInvalidFound := ConnectTowards(mostWork, nHeight, oldTip, verdicts, p);
      AtEnd(p, fInvalidFound);
    }

    lemma AtStart(p: Plan)
      requires p.Ok() && store == p.store && candidates == p.candidates && chain.vChain == p.path[..p.keep]
      ensures At(p, p.keep, false)
    {
      hide PathTo, Storage.Ok;
    }

    /** What a step amounts to. */
    lemma AtEnd(p: Plan, invalid: bool)
      requires p.Ok() && At(p, |chain.vChain|, invalid) && p.EndsAt(|chain.vChain|, invalid)
      ensures invalid ==> |chain.vChain| < |p.path| && !p.store.Connects(p.path[|chain.vChain|], p.verdicts.accepts)
      ensures (forall k :: p.keep <= k < |p.path| ==> p.store.Connects(p.path[k], p.verdicts.accepts)) ==> !invalid
      ensures invalid || chain.vChain == p.path || p.oldTip == NIL ||
              (chain.Tip() in p.store.index && p.store.index[chain.Tip()].nChainWork > p.store.index[p.oldTip].nChainWork)
    {
      hide PathTo, Storage.Ok, Storage.Connects;
      assert p.path[..|p.path|] == p.path;
    }

    /** The first part of ActivateBestChainStep: back to the last block shared with the path to `mostWork`. */
    method BackToFork(mostWork: BlockPtr) returns (ok: bool, nHeight: int)
      requires Inv() && mostWork in store.index
      requires forall b :: b in chain.vChain && b !in PathTo(store.index, mostWork) ==> store.Undoable(b)
      modifies this, chain, tip.Repr
      ensures ok && Inv() && store == old(store) && candidates == old(candidates)
      ensures var path := PathTo(store.index, mostWork);
              nHeight + 1 == Shared(old(chain.vChain), path) && chain.vChain == path[..nHeight + 1]
    {
      hide Replay, SkipsOk, PathTo;
      var fork := chain.FindFork(store.index, mostWork);
      ghost var keep := ForkShared(mostWork, fork);
      forall k | keep <= k < |chain.vChain|
        ensures store.Undoable(chain.vChain[k])
      {
        OffPath(mostWork, keep, k);
      }
      nHeight := if fork == NIL then -1 else store.index[fork].nHeight;
      ok := DisconnectTo(fork, keep);
    }

    lemma PlanSound(p: Plan, mostWork: BlockPtr)
      requires Inv() && p.store == store && p.candidates == candidates && p.oldTip == chain.Tip() && mostWork in store.index
      requires p.path == PathTo(store.index, mostWork) && mostWork in candidates && p.keep <= |p.path|
      requires forall k :: 0 <= k < |p.path| ==> p.path[k] in store.blocks
      ensures p.Ok() && p.Target() == mostWork
    {
      hide PathTo, Replay, SkipsOk;
      forall k | 0 <= k < |p.path|
        ensures p.path[k] in store.index
      {
        PathParent(store.index, mostWork, k);
      }
    }

    /** The outer connection loop of ActivateBestChainStep, at most 32 blocks a round. */
    method ConnectTowards(mostWork: BlockPtr, start: int, oldTip: BlockPtr, verdicts: Verdicts, ghost p: Plan)
        returns (fInvalidFound: bool)
      requires Inv() && p.Ok() && mostWork == p.Target() && oldTip == p.oldTip && verdicts == p.verdicts
      requires start + 1 == |chain.vChain| == p.keep && At(p, p.keep, false)
      modifies this, chain, tip.Repr
      ensures Inv() && At(p, |chain.vChain|, fInvalidFound) && p.EndsAt(|chain.vChain|, fInvalidFound)
    {
      TargetHeight(p);
      hide Chainstate.Inv, Plan.Ok;
      var nHeight := start;
      var fContinue := true;
      fInvalidFound := false;
      while fContinue && nHeight != store.index[mostWork].nHeight
        invariant Inv() && At(p, |chain.vChain|, fInvalidFound) && p.Reaches(|chain.vChain|)
        invariant mostWork in store.index && store.index[mostWork].nHeight == |p.path| - 1
        invariant if fContinue then nHeight == |chain.vChain| - 1 && p.Open(|chain.vChain|) && !fInvalidFound
                  else p.EndsAt(|chain.vChain|, fInvalidFound)
        decreases fContinue, |p.path| - |chain.vChain|
      {
        nHeight, fContinue, fInvalidFound := ConnectRound(mostWork, nHeight, oldTip, verdicts, p);
        SameTarget(p, |chain.vChain|, fInvalidFound);
      }
    }

    /** One round: the next blocks on the path, up to 32 of them. */
    method ConnectRound(mostWork: BlockPtr, start: int, oldTip: BlockPtr, verdicts: Verdicts, ghost p: Plan)
        returns (nHeight: int, fContinue: bool, fInvalidFound: bool)
      requires Inv() && p.Ok() && mostWork == p.Target() && oldTip == p.oldTip && verdicts == p.verdicts
      requires var n := |chain.vChain|; start + 1 == n < |p.path| && At(p, n, false) && p.Reaches(n) && p.Open(n)
      modifies this, chain, tip.Repr
      ensures Inv() && At(p, |chain.vChain|, fInvalidFound) && p.Reaches(|chain.vChain|)
      ensures if fContinue then nHeight == |chain.vChain| - 1 > start && p.Open(|chain.vChain|) && !fInvalidFound
              else p.EndsAt(|chain.vChain|, fInvalidFound)
    {
      hide Replay, SkipsOk, PathTo;
      IndexSound();
      TargetHeight(p);
      hide Chainstate.Inv;
      nHeight := if start + 32 < store.index[mostWork].nHeight then start + 32 else store.index[mostWork].nHeight;
      var list := BlocksToConnect(store.index, mostWork, start, nHeight);
      fContinue, fInvalidFound := ConnectList(list, oldTip, verdicts, p);
    }

    lemma TargetHeight(p: Plan)
      requires p.Ok()
      ensures p.Target() in p.store.index && p.store.index[p.Target()].nHeight == |p.path| - 1
    {
    }

    /** Marking a block changes nothing about the target's height. */
    lemma SameTarget(p: Plan, n: nat, invalid: bool)
      requires p.Ok() && At(p, n, invalid)
      ensures p.Target() in store.index && store.index[p.Target()].nHeight == |p.path| - 1
    {
      TargetHeight(p);
    }

    lemma IndexSound()
      requires Inv()
      ensures TreeOk(store.index) && SkipsOk(store.index) && WorkGrows(store.index)
    {
    }

    /** Chain and candidate path agree up to the fork, which exists unless the chain is empty. */
    lemma ForkShared(mostWork: BlockPtr, fork: BlockPtr) returns (keep: nat)
      requires Inv() && mostWork in store.index
      requires fork != NIL ==>
                 fork in store.index && store.index[fork].nHeight < |chain.vChain|
                 && store.index[fork].nHeight <= store.index[mostWork].nHeight
                 && chain.vChain[store.index[fork].nHeight] == fork == PathTo(store.index, mostWork)[store.index[fork].nHeight]
      requires forall h :: (if fork == NIL then 0 else store.index[fork].nHeight + 1) <= h < |chain.vChain| && h <= store.index[mostWork].nHeight ==>
                 chain.vChain[h] != PathTo(store.index, mostWork)[h]
      ensures keep == if fork == NIL then 0 else store.index[fork].nHeight + 1
      ensures keep <= |chain.vChain| && chain.vChain[..keep] <= PathTo(store.index, mostWork)
      ensures keep == Shared(chain.vChain, PathTo(store.index, mostWork))
      ensures fork == NIL <==> chain.vChain == []
    {
      hide Replay, SkipsOk, PathTo;
      keep := if fork == NIL then 0 else store.index[fork].nHeight + 1;
      if fork != NIL {
        AlreadyInPlace(store.index, chain.vChain, mostWork, keep - 1);
        SharedUnique(chain.vChain, PathTo(store.index, mostWork), keep);
      } else if chain.vChain != [] {
        PathParent(store.index, mostWork, 0);
        PathParent(store.index, chain.Tip(), 0);
        assert false;
      }
    }

    /** Above the fork the chain has nothing in common with the path. */
    lemma OffPath(mostWork: BlockPtr, keep: nat, k: nat)
      requires Inv() && mostWork in store.index && keep <= k < |chain.vChain|
      requires forall h :: keep <= h < |chain.vChain| && h <= store.index[mostWork].nHeight ==>
                 chain.vChain[h] != PathTo(store.index, mostWork)[h]
      ensures chain.vChain[k] in chain.vChain && chain.vChain[k] !in PathTo(store.index, mostWork)
    {
      hide Replay, SkipsOk, PathTo;
      PathParent(store.index, chain.Tip(), k);
      var path := PathTo(store.index, mostWork);
      forall h | 0 <= h < |path|
        ensures path[h] != chain.vChain[k]
      {
        PathParent(store.index, mostWork, h);
      }
    }

    lemma BeforeConnect(b: BlockPtr)
      requires Inv() && b in store.index && b in store.blocks && store.index[b].pprev == chain.Tip()
      ensures store.index[b].nHeight == |chain.vChain| && b != NIL
      ensures b == store.genesis <==> chain.vChain == []
      ensures b == store.genesis ==> tip.View() == map[]
      ensures b != store.genesis ==>
                && store.Connectable(b) && PathTo(store.index, store.index[b].pprev) == chain.vChain
                && store.Connection(b) == ConnectBlock(tip.View(), store.blocks[b], store.index[b].nHeight, b !in store.exempt)
      ensures b in store.exempt && b != store.genesis ==> OnlyCoinbaseOverwrites(tip.View(), store.blocks[b])
    {
      hide ConnectBlock, SkipsOk, OnlyCoinbaseOverwrites;
      assert NodeOk(store.index, b);
      assert store.ExemptionSound(b);
    }
  }

  lemma AfterConnect(s: Storage, path: seq<BlockPtr>, b: BlockPtr)
    requires s.Ok() && IsPath(s.index, path) && Stored(s.blocks, path) && b in s.index && b in s.blocks
    requires s.index[b].pprev == if path == [] then NIL else path[|path| - 1]
    ensures PathTo(s.index, b) == path + [b] && Stored(s.blocks, path + [b])
    ensures Replay(s.blocks, s.exempt, path + [b])
            == if path == [] then Reached(map[])
               else var c := ConnectOn(s.blocks, s.exempt, path, b); if c.Rejected? then Broken else Reached(c.view)
  {
    hide SkipsOk, ConnectBlock;
    assert NodeOk(s.index, b);
    if path != [] {
      ReplayExtends(s.blocks, s.exempt, path, b);
    }
  }

  function Reverse(s: seq<BlockPtr>): (r: seq<BlockPtr>)
    ensures |r| == |s| && forall i :: 0 <= i < |s| ==> r[i] == s[|s| - 1 - i]
  {
    if s == [] then [] else Reverse(s[1..]) + [s[0]]
  }

  lemma ListEntry(list: seq<BlockPtr>, path: seq<BlockPtr>, n: nat, k: nat)
    requires k < |list| && n + |list| <= |path| && Reverse(list) == path[n..n + |list|]
    ensures list[k] == path[n + |list| - 1 - k]
  {
    assert Reverse(list)[|list| - 1 - k] == list[k];
  }

  /** The blocks of the path to `mostWork` above `nHeight` and up to `target`, highest first. */
  method BlocksToConnect(t: Tree, mostWork: BlockPtr, nHeight: int, target: nat) returns (list: seq<BlockPtr>)
    requires TreeOk(t) && SkipsOk(t) && mostWork in t
    requires -1 <= nHeight <= target <= t[mostWork].nHeight
    ensures Reverse(list) == PathTo(t, mostWork)[nHeight + 1..target + 1]
  {
    hide SkipsOk, PathTo, WalkTo, Reverse;
    ghost var path := PathTo(t, mostWork);
    var iter := GetAncestor(t, mostWork, target);
    PathIsWalk(t, mostWork, target);
    list := [];
    ghost var h: int := target;
    ListEmpty(path, target);
    while iter != NIL && t[iter].nHeight != nHeight
      invariant nHeight <= h <= target && (iter == NIL <==> h == -1)
      invariant iter != NIL ==> iter in t && t[iter].nHeight == h && path[h] == iter
      invariant Reverse(list) == path[h + 1..target + 1]
      decreases h
    {
      StepDown(t, mostWork, h);
      hide TreeOk;
      ListMore(list, path, h, target);
      list := list + [iter];
      iter := t[iter].pprev;
      h := h - 1;
    }
  }

  /** One step towards the root of a path. */
  lemma StepDown(t: Tree, b: BlockPtr, h: nat)
    requires TreeOk(t) && b in t && h <= t[b].nHeight
    ensures var path := PathTo(t, b);
            path[h] in t && var p := t[path[h]].pprev;
            if h == 0 then p == NIL else p == path[h - 1] && p != NIL && p in t && t[p].nHeight == h - 1
  {
    hide PathTo;
    PathParent(t, b, h);
    if h > 0 {
      PathParent(t, b, h - 1);
      NilNotInTree(t);
    }
  }

  lemma NilNotInTree(t: Tree)
    requires TreeOk(t)
    ensures NIL !in t
  {
  }

  lemma ListEmpty(path: seq<BlockPtr>, target: nat)
    requires target < |path|
    ensures Reverse([]) == path[target + 1..target + 1]
  {
  }

  /** Appending the next lower block to a list that is kept highest first. */
  lemma ListMore(list: seq<BlockPtr>, path: seq<BlockPtr>, h: nat, target: nat)
    requires h <= target < |path| && Reverse(list) == path[h + 1..target + 1]
    ensures Reverse(list + [path[h]]) == path[h..target + 1]
  {
    ReverseAppend(list, path[h]);
    hide Reverse;
    assert [path[h]] + path[h + 1..target + 1] == path[h..target + 1];
  }

  lemma ReverseAppend(s: seq<BlockPtr>, x: BlockPtr)
    ensures Reverse(s + [x]) == [x] + Reverse(s)
  {}
}
