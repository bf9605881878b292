/**
 * The stack of write-back coin caches (src/coins.h, src/coins.cpp, the batch writer of src/txdb.cpp)
 * and its refinement of a plain map from transaction ids to unspent coins.
 */
module CoinsCache {
  import opened Primitives
  import opened Coins
  import opened Ledger

  datatype CacheEntry = CacheEntry(coins: Coins, isDirty: bool, isFresh: bool)

  type CoinsMap = map<Hash, CacheEntry>

  /** Views hold only unspent, trimmed records. */
  ghost predicate CleanView(v: View) {
    forall h :: h in v ==> !v[h].IsPruned() && v[h].IsClean()
  }

  /** What a reader sees through a cache placed on top of `parent`. */
  ghost function Overlay(parent: View, cache: CoinsMap): View {
    map h | h in parent.Keys + cache.Keys && (h in cache ==> !cache[h].coins.IsPruned())
      :: if h in cache then cache[h].coins else parent[h]
  }

  /** View `v` has exactly the record `c` for `h`, where a pruned record means none. */
  ghost predicate Shows(v: View, h: Hash, c: Coins) {
    if c.IsPruned() then h !in v else h in v && v[h] == c
  }

  /** FRESH: nothing unspent in the parent. Not DIRTY: the same as in the parent. */
  ghost predicate EntryOk(parent: View, h: Hash, e: CacheEntry) {
    && e.coins.IsClean()
    && (e.isFresh ==> h !in parent)
    && (!e.isDirty ==> Shows(parent, h, e.coins))
  }

  ghost predicate CacheOk(parent: View, cache: CoinsMap) {
    forall h :: h in cache ==> EntryOk(parent, h, cache[h])
  }

  /** One round of CCoinsViewCache::BatchWrite: entry `e` of the child is merged into `cache`. */
  function Merged(cache: CoinsMap, h: Hash, e: CacheEntry): CoinsMap {
    if !e.isDirty then cache
    else if h !in cache then
      if e.isFresh && e.coins.IsPruned() then cache
      else cache[h := CacheEntry(e.coins, true, e.isFresh)]
    else
      if cache[h].isFresh && e.coins.IsPruned() then cache - {h}
      else cache[h := CacheEntry(e.coins, true, cache[h].isFresh)]
  }

  /** Coins created above and spent again before the parent is written leave no trace in it. */
  lemma CreatedAndSpent(cache: CoinsMap, h: Hash, created: CacheEntry, spent: CacheEntry)
    requires h !in cache && created.isDirty && created.isFresh && !created.coins.IsPruned()
    requires spent.isDirty && spent.coins.IsPruned()
    ensures Merged(Merged(cache, h, created), h, spent) == cache
  {
    assert cache[h := CacheEntry(created.coins, true, true)] - {h} == cache;
  }

  /** Two caches agree on one id. */
  predicate SameAt(a: CoinsMap, b: CoinsMap, h: Hash) {
    (h in a <==> h in b) && (h in a ==> a[h] == b[h])
  }

  /** The entries of the child outside `rest` have been merged, each into what was there before. */
  ghost predicate MergedSoFar(before: CoinsMap, cache: CoinsMap, child: CoinsMap, rest: CoinsMap) {
    && (forall h :: h in rest ==> h in child && child[h] == rest[h])
    && (forall h :: SameAt(cache, if h in child && h !in rest then Merged(before, h, child[h]) else before, h))
  }

  lemma NothingMerged(cache: CoinsMap, child: CoinsMap)
    ensures MergedSoFar(cache, cache, child, child)
  {
    assert forall h :: SameAt(cache, cache, h);
  }

  lemma MergedMore(before: CoinsMap, cache: CoinsMap, child: CoinsMap, rest: CoinsMap, h: Hash)
    requires MergedSoFar(before, cache, child, rest) && h in rest
    ensures MergedSoFar(before, Merged(cache, h, rest[h]), child, rest - {h})
  {
    assert SameAt(cache, before, h);
    forall k
      ensures SameAt(Merged(cache, h, rest[h]), if k in child && k !in rest - {h} then Merged(before, k, child[k]) else before, k)
    {
      assert SameAt(cache, if k in child && k !in rest then Merged(before, k, child[k]) else before, k);
    }
  }

  lemma OverlayClean(parent: View, cache: CoinsMap)
    requires CleanView(parent) && CacheOk(parent, cache)
    ensures CleanView(Overlay(parent, cache))
  {}

  lemma OverlayPut(parent: View, cache: CoinsMap, h: Hash, e: CacheEntry)
    ensures Overlay(parent, cache[h := e]) == Store(Overlay(parent, cache), h, e.coins)
  {
    hide Coins.IsPruned;
  }

  lemma OverlayAt(parent: View, cache: CoinsMap, h: Hash)
    ensures h in cache ==> Shows(Overlay(parent, cache), h, cache[h].coins)
    ensures h !in cache ==> (h in Overlay(parent, cache) <==> h in parent)
    ensures h !in cache && h in parent ==> Overlay(parent, cache)[h] == parent[h]
  {}

  lemma OverlayDrop(parent: View, cache: CoinsMap, h: Hash)
    requires h !in parent
    ensures Overlay(parent, cache - {h}) == Overlay(parent, cache) - {h}
  {
    hide Coins.IsPruned;
  }

  lemma OverlayUncached(parent: View, cache: CoinsMap, h: Hash)
    requires h in cache && EntryOk(parent, h, cache[h]) && !cache[h].isDirty
    ensures Overlay(parent, cache - {h}) == Overlay(parent, cache)
  {
    hide Coins.IsPruned;
  }

  lemma StoreOfShown(v: View, h: Hash, c: Coins)
    requires Shows(v, h, c)
    ensures Store(v, h, c) == v
  {
    hide Coins.IsPruned;
  }

  /** Merging one entry writes exactly that entry into the merged view. */
  lemma MergedView(parent: View, cache: CoinsMap, h: Hash, e: CacheEntry)
    requires CacheOk(parent, cache) && EntryOk(Overlay(parent, cache), h, e)
    ensures CacheOk(parent, Merged(cache, h, e))
    ensures Overlay(parent, Merged(cache, h, e)) == Store(Overlay(parent, cache), h, e.coins)
  {
    hide Coins.IsPruned, Coins.IsClean;
    var v := Overlay(parent, cache);
    OverlayPut(parent, cache, h, e);
    if !e.isDirty || (h !in cache && e.isFresh && e.coins.IsPruned()) {
      StoreOfShown(v, h, e.coins);
    } else if h in cache && cache[h].isFresh && e.coins.IsPruned() {
      OverlayDrop(parent, cache, h);
    } else {
      OverlayPut(parent, cache, h, Merged(cache, h, e)[h]);
      assert h !in cache && h in parent ==> h in v;
    }
  }

  /** Writing one entry of the child down keeps what the child shows and the child's other entries sound. */
  lemma {:induction false} StoredEntryKeepsOverlay(v: View, child: CoinsMap, h: Hash)
    requires CacheOk(v, child) && h in child
    ensures var v' := Store(v, h, child[h].coins);
            CacheOk(v', child - {h}) && Overlay(v', child - {h}) == Overlay(v, child)
  {
    hide Coins.IsPruned;
  }

  /** An entry that is not dirty need not be written. */
  lemma CleanEntryStored(v: View, child: CoinsMap, h: Hash)
    requires CacheOk(v, child) && h in child
    ensures !child[h].isDirty ==> Store(v, h, child[h].coins) == v
  {
    hide Coins.IsPruned;
    if !child[h].isDirty {
      StoreOfShown(v, h, child[h].coins);
    }
  }

  lemma OverlayOfEmpty(v: View)
    ensures CacheOk(v, map[]) && Overlay(v, map[]) == v
  {}

  /** Marking a blank entry FRESH, as ModifyNewCoins does, is sound exactly when the parent shows nothing unspent. */
  lemma BlankFreshEntrySoundIff(parent: View, cache: CoinsMap, h: Hash)
    requires CacheOk(parent, cache)
    ensures CacheOk(parent, cache[h := CacheEntry(EMPTY_COINS, true, true)]) <==> h !in parent
    ensures h in parent ==> h !in Overlay(parent, cache[h := CacheEntry(EMPTY_COINS, true, true)])
                            && h in Overlay(parent, cache - {h})
  {
    var blank := cache[h := CacheEntry(EMPTY_COINS, true, true)];
    if h in parent {
      assert h in blank && !EntryOk(parent, h, blank[h]);
    }
  }

  /** The coin database at the bottom of the stack. */
  class CoinsViewDB {
    var coins: map<Hash, Coins>
    var best: Hash

    constructor ()
      ensures coins == map[] && best == NULL_HASH
    {
      coins, best := map[], NULL_HASH;
    }

    /** CCoinsViewDB::BatchWrite: pruned records are erased, a null block hash is not written. */
    method BatchWrite(mapCoins: CoinsMap, hashBlock: Hash)
      requires CleanView(coins) && CacheOk(coins, mapCoins)
      modifies this
      ensures coins == old(Overlay(coins, mapCoins)) && CleanView(coins)
      ensures best == if hashBlock == NULL_HASH then old(best) else hashBlock
    {
      OverlayClean(coins, mapCoins);
      hide CleanView, CacheOk, Overlay, Coins.IsPruned;
      var rest := mapCoins;
      while rest != map[]
        invariant CacheOk(coins, rest) && Overlay(coins, rest) == old(Overlay(coins, mapCoins))
        invariant best == old(best)
        decreases |rest|
      {
        var h :| h in rest;
        StoredEntryKeepsOverlay(coins, rest, h);
        CleanEntryStored(coins, rest, h);
        if rest[h].isDirty {
          if rest[h].coins.IsPruned() {
            coins := coins - {h};
          } else {
            coins := coins[h := rest[h].coins];
          }
        }
        rest := rest - {h};
      }
      OverlayOfEmpty(coins);
      if hashBlock != NULL_HASH {
        best := hashBlock;
      }
    }
  }

  datatype Base = Disk(db: CoinsViewDB) | Layer(cache: CoinsViewCache)

  class CoinsViewCache {
    const base: Base
    var cacheCoins: CoinsMap
    var hashBlock: Hash
    var hasModifier: bool
    ghost const Repr: set<object>

    ghost predicate Valid()
      reads this, Repr
      decreases Repr, 1
    {
      && this in Repr
      && (match base
          case Disk(db) => Repr == {this, db} && CleanView(db.coins)
          case Layer(c) => Repr == {this} + c.Repr && this !in c.Repr && c in c.Repr && c.Valid() && !c.hasModifier)
      && CacheOk(BaseView(), cacheCoins)
    }

    /** The view of the layer below. */
    ghost function BaseView(): View
      requires this in Repr
      requires match base
               case Disk(db) => Repr == {this, db}
               case Layer(c) => Repr == {this} + c.Repr && this !in c.Repr && c.Valid()
      reads Repr
      decreases Repr, 0
    {
      match base
      case Disk(db) => db.coins
      case Layer(c) => c.View()
    }

    /** The plain map this cache stands for. */
    ghost function View(): View
      requires Valid()
      reads Repr
      decreases Repr, 2
    {
      Overlay(BaseView(), cacheCoins)
    }

    /** The best block this cache stands for. */
    ghost function Best(): Hash
      requires Valid()
      reads Repr
      decreases Repr, 3
    {
      if hashBlock != NULL_HASH then hashBlock else BaseBest()
    }

    ghost function BaseBest(): Hash
      requires Valid()
      reads Repr
      decreases Repr, 2
    {
      match base
      case Disk(db) => db.best
      case Layer(c) => c.Best()
    }

    lemma ViewClean()
      requires Valid()
      ensures CleanView(View()) && CleanView(BaseView())
      decreases Repr
    {
      match base
      case Disk(db) => OverlayClean(db.coins, cacheCoins);
      case Layer(c) =>
        c.ViewClean();
        OverlayClean(c.View(), cacheCoins);
    }

    constructor OnDisk(db: CoinsViewDB)
      requires CleanView(db.coins)
      ensures Valid() && base == Disk(db) && !hasModifier && Repr == {this, db}
      ensures View() == db.coins == BaseView() && Best() == db.best && hashBlock == NULL_HASH
    {
      base := Disk(db);
      cacheCoins, hashBlock, hasModifier := map[], NULL_HASH, false;
      Repr := {this, db};
      new;
      OverlayOfEmpty(db.coins);
    }

    constructor OnCache(cache: CoinsViewCache)
      requires cache.Valid() && !cache.hasModifier
      ensures Valid() && base == Layer(cache) && !hasModifier && Repr == {this} + cache.Repr
      ensures View() == cache.View() == BaseView() && Best() == cache.Best() && hashBlock == NULL_HASH
    {
      base := Layer(cache);
      cacheCoins, hashBlock, hasModifier := map[], NULL_HASH, false;
      Repr := {this} + cache.Repr;
      new;
      assert cache in cache.Repr;
      OverlayOfEmpty(cache.View());
    }

    /** Every change of the entry map goes through here. */
    method SetEntries(entries: CoinsMap)
      requires Valid() && CacheOk(BaseView(), entries)
      modifies this`cacheCoins
      ensures Valid() && cacheCoins == entries && View() == Overlay(BaseView(), entries)
      ensures BaseView() == old(BaseView()) && BaseBest() == old(BaseBest())
    {
      cacheCoins := entries;
    }

    /** Reading fills caches on the way but changes no view; the entry found is what the view shows. */
    method FetchCoins(txid: Hash) returns (found: bool, coins: Coins)
      requires Valid()
      modifies Repr
      ensures Valid() && View() == old(View()) && BaseView() == old(BaseView())
      ensures Best() == old(Best()) && BaseBest() == old(BaseBest())
      ensures hasModifier == old(hasModifier) && hashBlock == old(hashBlock)
      ensures found ==> Shows(View(), txid, coins) && coins.IsClean()
      ensures !found ==> txid !in View()
      ensures cacheCoins == if !found || txid in old(cacheCoins) then old(cacheCoins)
                            else old(cacheCoins)[txid := CacheEntry(coins, false, coins.IsPruned())]
      decreases Repr
    {
      if txid in cacheCoins {
        return true, cacheCoins[txid].coins;
      }
      found, coins := BaseGetCoins(txid);
      if !found {
        return;
      }
      var entry := CacheEntry(coins, false, coins.IsPruned());
      OverlayPut(BaseView(), cacheCoins, txid, entry);
      StoreOfShown(Overlay(BaseView(), cacheCoins), txid, coins);
      SetEntries(cacheCoins[txid := entry]);
    }

    /** The virtual call base->GetCoins. */
    method BaseGetCoins(txid: Hash) returns (found: bool, coins: Coins)
      requires Valid()
      modifies Repr - {this}
      ensures Valid() && BaseView() == old(BaseView()) && BaseBest() == old(BaseBest())
      ensures found ==> Shows(BaseView(), txid, coins) && coins.IsClean()
      ensures !found ==> txid !in BaseView()
      decreases Repr, 0
    {
      match base
      case Disk(db) =>
        found := txid in db.coins;
        coins := if found then db.coins[txid] else EMPTY_COINS;
      case Layer(c) =>
        found, coins := c.FetchCoins(txid);
    }

    /** HaveCoins tests only for an empty output vector, yet answers exactly "something is unspent". */
    method HaveCoins(txid: Hash) returns (have: bool)
      requires Valid()
      modifies Repr
      ensures Valid() && View() == old(View()) && BaseView() == old(BaseView())
      ensures Best() == old(Best()) && hasModifier == old(hasModifier)
      ensures have <==> txid in View()
    {
      var found, coins := FetchCoins(txid);
      have := found && coins.vout != [];
    }

    method GetBestBlock() returns (hash: Hash)
      requires Valid()
      modifies Repr
      ensures Valid() && View() == old(View()) && BaseView() == old(BaseView())
      ensures hash == Best() == old(Best()) && hashBlock == hash && BaseBest() == old(BaseBest())
      ensures hasModifier == old(hasModifier)
      decreases Repr
    {
      if hashBlock == NULL_HASH {
        match base {
          case Disk(db) => hashBlock := db.best;
          case Layer(c) =>
            var h := c.GetBestBlock();
            hashBlock := h;
        }
      }
      hash := hashBlock;
    }

    method SetBestBlock(hash: Hash)
      requires Valid()
      modifies this
      ensures Valid() && View() == old(View()) && BaseView() == old(BaseView())
      ensures hashBlock == hash && BaseBest() == old(BaseBest()) && hasModifier == old(hasModifier)
    {
      hashBlock := hash;
    }

    /** Opens a modifier: the view stays as it is, the entry is ready to be rewritten. */
    method ModifyCoins(txid: Hash) returns (coins: Coins)
      requires Valid() && !hasModifier
      modifies Repr
      ensures Valid() && hasModifier && View() == old(View()) && BaseView() == old(BaseView())
      ensures hashBlock == old(hashBlock) && BaseBest() == old(BaseBest())
      ensures Shows(View(), txid, coins) && coins.IsClean()
      ensures cacheCoins == old(cacheCoins)[txid := CacheEntry(coins, true, if txid in old(cacheCoins) then old(cacheCoins)[txid].isFresh
                                                                            else txid !in BaseView())]
    {
      hide Overlay;
      var isFresh := false;
      if txid !in cacheCoins {
        var found;
        found, coins := BaseGetCoins(txid);
        if !found {
          coins := EMPTY_COINS;
        }
        isFresh := coins.IsPruned();
        assert Shows(BaseView(), txid, coins);
      } else {
        coins, isFresh := cacheCoins[txid].coins, cacheCoins[txid].isFresh;
      }
      var entry := CacheEntry(coins, true, isFresh);
      assert EntryOk(BaseView(), txid, entry);
      OverlayAt(BaseView(), cacheCoins, txid);
      OverlayPut(BaseView(), cacheCoins, txid, entry);
      StoreOfShown(View(), txid, coins);
      SetEntries(cacheCoins[txid := entry]);
      hasModifier := true;
    }

    /** Opens a modifier on an empty entry without consulting the parent, which must show nothing unspent. */
    method ModifyNewCoins(txid: Hash) returns (coins: Coins)
      requires Valid() && !hasModifier
      requires txid !in BaseView()
      modifies this
      ensures Valid() && hasModifier && View() == old(View()) - {txid} && BaseView() == old(BaseView())
      ensures hashBlock == old(hashBlock) && BaseBest() == old(BaseBest())
      ensures coins == EMPTY_COINS
      ensures cacheCoins == old(cacheCoins)[txid := CacheEntry(EMPTY_COINS, true, true)]
    {
      coins := EMPTY_COINS;
      var entry := CacheEntry(coins, true, true);
      OverlayPut(BaseView(), cacheCoins, txid, entry);
      cacheCoins := cacheCoins[txid := entry];
      hasModifier := true;
    }

    /** The modifier's destructor: trims the record and drops it if it need never reach the parent. */
    method ReleaseModifier(txid: Hash, coins: Coins)
      requires Valid() && hasModifier
      requires txid in cacheCoins && cacheCoins[txid].isDirty
      modifies this
      ensures Valid() && !hasModifier && BaseView() == old(BaseView())
      ensures View() == Store(old(View()), txid, coins.Cleanup())
      ensures cacheCoins == if old(cacheCoins)[txid].isFresh && coins.IsPruned() then old(cacheCoins) - {txid}
                            else old(cacheCoins)[txid := old(cacheCoins)[txid].(coins := coins.Cleanup())]
      ensures hashBlock == old(hashBlock) && BaseBest() == old(BaseBest())
    {
      hide Overlay, Coins.IsClean, Coins.IsPruned;
      hasModifier := false;
      var trimmed := CleanupInPlace(coins.vout);
      var entry := cacheCoins[txid].(coins := coins.(vout := trimmed));
      assert entry.coins == coins.Cleanup();
      if entry.isFresh && entry.coins.IsPruned() {
        OverlayDrop(BaseView(), cacheCoins, txid);
        SetEntries(cacheCoins - {txid});
      } else {
        OverlayPut(BaseView(), cacheCoins, txid, entry);
        SetEntries(cacheCoins[txid := entry]);
      }
    }

    /** CCoinsViewCache::BatchWrite: afterwards this cache shows what its child showed. */
    method BatchWrite(mapCoins: CoinsMap, hashBlockIn: Hash)
      requires Valid() && !hasModifier
      requires CacheOk(View(), mapCoins)
      modifies this
      ensures Valid() && !hasModifier && BaseView() == old(BaseView()) && BaseBest() == old(BaseBest())
      ensures View() == old(Overlay(View(), mapCoins))
      ensures hashBlock == hashBlockIn
      ensures MergedSoFar(old(cacheCoins), cacheCoins, mapCoins, map[])
    {
      hide Overlay, CacheOk, Merged, MergedSoFar, CoinsViewCache.Merging;
      var rest := mapCoins;
      ghost var target := Overlay(View(), mapCoins);
      MergingStarts(mapCoins);
      while rest != map[]
        invariant Valid() && !hasModifier && BaseView() == old(BaseView()) && BaseBest() == old(BaseBest())
        invariant Merging(target, old(cacheCoins), mapCoins, rest)
        decreases |rest|
      {
        var h := MergeEntry(rest, target, old(cacheCoins), mapCoins);
        rest := rest - {h};
      }
      MergingEnds(target, old(cacheCoins), mapCoins);
      hashBlock := hashBlockIn;
    }

    /** Entries still to be merged: together with them the cache shows what the child showed. */
    ghost predicate Merging(target: View, before: CoinsMap, child: CoinsMap, rest: CoinsMap)
      requires Valid()
      reads Repr
    {
      CacheOk(View(), rest) && Overlay(View(), rest) == target && MergedSoFar(before, cacheCoins, child, rest)
    }

    lemma MergingStarts(child: CoinsMap)
      requires Valid() && CacheOk(View(), child)
      ensures Merging(Overlay(View(), child), cacheCoins, child, child)
    {
      NothingMerged(cacheCoins, child);
    }

    lemma MergingEnds(target: View, before: CoinsMap, child: CoinsMap)
      requires Valid() && Merging(target, before, child, map[])
      ensures View() == target && MergedSoFar(before, cacheCoins, child, map[])
    {
      OverlayOfEmpty(View());
    }

    /** The body of the BatchWrite loop. */
    method MergeEntry(rest: CoinsMap, ghost target: View, ghost before: CoinsMap, ghost child: CoinsMap) returns (h: Hash)
      requires Valid() && !hasModifier && rest != map[] && Merging(target, before, child, rest)
      modifies this`cacheCoins
      ensures Valid() && BaseView() == old(BaseView()) && BaseBest() == old(BaseBest())
      ensures h in rest && Merging(target, before, child, rest - {h})
    {
      hide Overlay, Coins.IsPruned, MergedSoFar;
      h :| h in rest;
      var e := rest[h];
      MergedView(BaseView(), cacheCoins, h, e);
      StoredEntryKeepsOverlay(View(), rest, h);
      MergedMore(before, cacheCoins, child, rest, h);
      if e.isDirty {
        if h !in cacheCoins {
          if !(e.isFresh && e.coins.IsPruned()) {
            SetEntries(cacheCoins[h := CacheEntry(e.coins, true, e.isFresh)]);
          }
        } else if cacheCoins[h].isFresh && e.coins.IsPruned() {
          SetEntries(cacheCoins - {h});
        } else {
          SetEntries(cacheCoins[h := CacheEntry(e.coins, true, cacheCoins[h].isFresh)]);
        }
      }
    }

    /**
     * Flush makes the parent show what this cache shows, which itself does not change. The best block
     * survives unless it was never read here and the parent is a cache: then the parent forgets its own.
     */
    method Flush()
      requires Valid() && !hasModifier
      modifies Repr
      ensures Valid() && !hasModifier && cacheCoins == map[] && hashBlock == old(hashBlock)
      ensures View() == old(View()) == BaseView()
      ensures old(hashBlock) != NULL_HASH ==> BaseBest() == old(Best()) == Best()
      ensures old(hashBlock) == NULL_HASH && base.Disk? ==> BaseBest() == old(BaseBest())
      ensures old(hashBlock) == NULL_HASH && base.Layer? ==> BaseBest() == old(base.cache.BaseBest())
    {
      hide Overlay, MergedSoFar, Merged, EntryOk;
      match base {
        case Disk(db) => db.BatchWrite(cacheCoins, hashBlock);
        case Layer(c) => c.BatchWrite(cacheCoins, hashBlock);
      }
      cacheCoins := map[];
      OverlayOfEmpty(BaseView());
    }

    /** Drops an unmodified entry. */
    method Uncache(txid: Hash)
      requires Valid()
      modifies this
      ensures Valid() && View() == old(View()) && BaseView() == old(BaseView())
      ensures hasModifier == old(hasModifier) && hashBlock == old(hashBlock) && BaseBest() == old(BaseBest())
      ensures cacheCoins == if txid in old(cacheCoins) && !old(cacheCoins)[txid].isDirty && !old(cacheCoins)[txid].isFresh
                            then old(cacheCoins) - {txid} else old(cacheCoins)
    {
      hide Overlay;
      if txid in cacheCoins && !cacheCoins[txid].isDirty && !cacheCoins[txid].isFresh {
        OverlayUncached(BaseView(), cacheCoins, txid);
        SetEntries(cacheCoins - {txid});
      }
    }

    /** Flushes the layer `k` below this one, or nothing if the stack is not that deep. */
    method FlushLayer(k: nat)
      requires Valid() && !hasModifier
      modifies Repr
      ensures Valid() && !hasModifier && View() == old(View())
      ensures BaseView() == if k == 0 then View() else old(BaseView())
      decreases Repr
    {
      if k == 0 {
        Flush();
      } else if base.Layer? {
        base.cache.FlushLayer(k - 1);
      }
    }

    /** A whole life of a modifier. */
    method Rewrite(txid: Hash, coins: Coins)
      requires Valid() && !hasModifier
      modifies Repr
      ensures Valid() && !hasModifier && BaseView() == old(BaseView())
      ensures View() == Store(old(View()), txid, coins.Cleanup())
    {
      hide Overlay;
      var _ := ModifyCoins(txid);
      ReleaseModifier(txid, coins);
    }

    /** The same for a modifier on an id the parent shows nothing for. */
    method CreateCoins(txid: Hash, coins: Coins)
      requires Valid() && !hasModifier && txid !in BaseView()
      modifies Repr
      ensures Valid() && !hasModifier && BaseView() == old(BaseView())
      ensures View() == Store(old(View()), txid, coins.Cleanup())
    {
      hide Overlay;
      var _ := ModifyNewCoins(txid);
      ReleaseModifier(txid, coins);
      assert Store(old(View()) - {txid}, txid, coins.Cleanup()) == Store(old(View()), txid, coins.Cleanup());
    }

    /** CCoins::Spend through a modifier. */
    method SpendCoin(out: OutPoint) returns (ok: bool)
      requires Valid() && !hasModifier
      modifies Repr
      ensures Valid() && !hasModifier && BaseView() == old(BaseView())
      ensures ok <==> Available(old(View()), out)
      ensures View() == if ok then SpendInput(old(View()), out) else old(View())
    {
      hide Overlay, Coins.IsClean;
      var coins := ModifyCoins(out.hash);
      StoreOfShown(View(), out.hash, coins);
      CleanupOfClean(coins);
      ok := coins.IsAvailable(out.n);
      if ok {
        var spent := coins.Spend(out.n);
        CleanupOfClean(spent);
        coins := spent;
      }
      ReleaseModifier(out.hash, coins);
    }

    /** HaveInputs for a transaction that is not a coinbase. */
    method HaveAllInputs(vin: seq<TxIn>) returns (have: bool)
      requires Valid()
      modifies Repr
      ensures Valid() && View() == old(View()) && BaseView() == old(BaseView())
      ensures Best() == old(Best()) && hasModifier == old(hasModifier) && hashBlock == old(hashBlock) && BaseBest() == old(BaseBest())
      ensures have <==> HaveInputs(View(), vin)
    {
      hide Overlay;
      for i := 0 to |vin|
        invariant Valid() && View() == old(View()) && BaseView() == old(BaseView())
        invariant Best() == old(Best()) && hasModifier == old(hasModifier) && hashBlock == old(hashBlock) && BaseBest() == old(BaseBest())
        invariant HaveInputs(View(), vin[..i])
      {
        var found, coins := FetchCoins(vin[i].prevout.hash);
        if !found || !coins.IsAvailable(vin[i].prevout.n) {
          assert !Available(View(), vin[i].prevout);
          return false;
        }
        assert vin[..i + 1] == vin[..i] + [vin[i]];
      }
      assert vin[..|vin|] == vin;
      have := true;
    }
  }

  // ------------------------------------------------- arbitrary sequences of operations

  datatype Operation =
    | Fetch(h: Hash)
    | Have(h: Hash)
    | Modify(h: Hash, coins: Coins)
    | Create(h: Hash, coins: Coins)
    | Spend(out: OutPoint)
    | Uncache(h: Hash)
    | Flush(layer: nat)

  /** What a caller learns from an operation; spent records are reported as absent. */
  datatype Observation = Nothing | Unspent(coins: Coins) | Answer(yes: bool)

  /** The reference: two plain maps, for the cache and for the layer below it. */
  datatype Reference = Reference(base: View, top: View) {
    /** The one precondition of the interface: the parent shows nothing unspent for a created id. */
    predicate Legal(op: Operation) {
      op.Create? ==> op.h !in base
    }

    function Step(op: Operation): Reference {
      match op
      case Modify(h, c) => this.(top := Store(top, h, c.Cleanup()))
      case Create(h, c) => this.(top := Store(top, h, c.Cleanup()))
      case Spend(out) => if Available(top, out) then this.(top := SpendInput(top, out)) else this
      case Flush(k) => if k == 0 then this.(base := top) else this
      case _ => this
    }

    function Observe(op: Operation): Observation {
      match op
      case Fetch(h) => if h in top then Unspent(top[h]) else Nothing
      case Have(h) => Answer(h in top)
      case Spend(out) => Answer(Available(top, out))
      case _ => Nothing
    }
  }

  function RunReference(r: Reference, ops: seq<Operation>): Reference {
    if ops == [] then r else RunReference(r, ops[..|ops| - 1]).Step(ops[|ops| - 1])
  }

  ghost predicate LegalRun(r: Reference, ops: seq<Operation>) {
    forall i :: 0 <= i < |ops| ==> RunReference(r, ops[..i]).Legal(ops[i])
  }

  function Observations(r: Reference, ops: seq<Operation>): seq<Observation> {
    if ops == [] then []
    else Observations(r, ops[..|ops| - 1]) + [RunReference(r, ops[..|ops| - 1]).Observe(ops[|ops| - 1])]
  }

  method Perform(cache: CoinsViewCache, op: Operation) returns (seen: Observation)
    requires cache.Valid() && !cache.hasModifier
    requires Reference(cache.BaseView(), cache.View()).Legal(op)
    modifies cache.Repr
    ensures cache.Valid() && !cache.hasModifier
    ensures Reference(cache.BaseView(), cache.View()) == Reference(old(cache.BaseView()), old(cache.View())).Step(op)
    ensures seen == Reference(old(cache.BaseView()), old(cache.View())).Observe(op)
  {
    hide Overlay;
    seen := Nothing;
    match op {
      case Fetch(h) =>
        var found, coins := cache.FetchCoins(h);
        if found && !coins.IsPruned() {
          seen := Unspent(coins);
        }
      case Have(h) =>
        var yes := cache.HaveCoins(h);
        seen := Answer(yes);
      case Modify(h, c) => cache.Rewrite(h, c);
      case Create(h, c) => cache.CreateCoins(h, c);
      case Spend(out) =>
        var yes := cache.SpendCoin(out);
        seen := Answer(yes);
      case Uncache(h) => cache.Uncache(h);
      case Flush(k) => cache.FlushLayer(k);
    }
  }

  /** A stack of caches of any depth behaves like the plain map under every sequence of operations. */
  method Run(cache: CoinsViewCache, ops: seq<Operation>) returns (seen: seq<Observation>)
    requires cache.Valid() && !cache.hasModifier
    requires LegalRun(Reference(cache.BaseView(), cache.View()), ops)
    modifies cache.Repr
    ensures cache.Valid() && !cache.hasModifier
    ensures Reference(cache.BaseView(), cache.View())
            == RunReference(Reference(old(cache.BaseView()), old(cache.View())), ops)
    ensures seen == Observations(Reference(old(cache.BaseView()), old(cache.View())), ops)
  {
    ghost var start := Reference(cache.BaseView(), cache.View());
    seen := [];
    for i := 0 to |ops|
      invariant cache.Valid() && !cache.hasModifier
      invariant Reference(cache.BaseView(), cache.View()) == RunReference(start, ops[..i])
      invariant seen == Observations(start, ops[..i])
    {
      hide Overlay;
      var o := Perform(cache, ops[i]);
      seen := seen + [o];
      assert ops[..i + 1][..i] == ops[..i];
    }
    assert ops[..|ops|] == ops;
  }
}
