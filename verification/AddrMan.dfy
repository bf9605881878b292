/**
 * CAddrMan (src/addrman.h, src/addrman.cpp): every operation keeps the five indexes, the reference counts
 * and the counters consistent, so none of the assertions in the code can fail.
 */
module AddrMan {
  import opened Numbers
  import opened AddrManState

  /** The used slots of a bucket table, where -1 marks an empty one. */
  ghost function TableOf(a: array2<int>): Table
    reads a
  {
    map b, i | 0 <= b < a.Length0 && 0 <= i < a.Length1 && a[b, i] != -1 :: Slot(b, i) := a[b, i]
  }

  /** Entry `gone` (if any) has left; the others changed at most their place in vRandom. */
  ghost predicate OnlyMoved(m: map<int, AddrInfo>, m': map<int, AddrInfo>, gone: set<int>) {
    && m'.Keys == m.Keys - gone
    && forall k :: k in m' ==> m'[k] == m[k].(nRandomPos := m'[k].nRandomPos)
  }

  /** Nothing but positions and reference counts changed, and the tried flag at most of `flipped`. */
  ghost predicate OnlyPlaced(m: map<int, AddrInfo>, m': map<int, AddrInfo>, flipped: set<int>) {
    forall k :: k in m' ==>
      && k in m
      && m'[k] == m[k].(nRandomPos := m'[k].nRandomPos, nRefCount := m'[k].nRefCount, fInTried := m'[k].fInTried)
      && (m'[k].fInTried && k !in flipped ==> m[k].fInTried)
  }

  /** A table without the slots of one entry. */
  ghost function Without(t: Table, id: int): Table {
    map x | x in t && t[x] != id :: t[x]
  }

  lemma WithoutOne(t: Table, id: int, x: Slot)
    requires x in t && t[x] == id
    ensures Without(t - {x}, id) == Without(t, id)
  {}

  /** Whoever is displaced from the tried table takes the new slot of its own source. */
  ghost function AfterEviction(h: Hashing, m: map<int, AddrInfo>, tried: Table, kx: Slot, news: Table): Table {
    if kx in tried && tried[kx] in m then news[NewSlot(h, m[tried[kx]], m[tried[kx]].source) := tried[kx]] else news
  }

  lemma PlacedStep(m: map<int, AddrInfo>, id: int, info: AddrInfo)
    requires id in m && info == m[id].(nRandomPos := info.nRandomPos, nRefCount := info.nRefCount, fInTried := info.fInTried)
    ensures OnlyPlaced(m, m[id := info], if info.fInTried && !m[id].fInTried then {id} else {})
  {}

  lemma NothingPlaced(m: map<int, AddrInfo>)
    ensures OnlyPlaced(m, m, {})
  {}

  lemma MovedIsPlaced(m: map<int, AddrInfo>, m': map<int, AddrInfo>, gone: set<int>)
    requires OnlyMoved(m, m', gone)
    ensures OnlyPlaced(m, m', {})
  {}

  lemma PlacedTwice(m: map<int, AddrInfo>, m': map<int, AddrInfo>, m'': map<int, AddrInfo>, f: set<int>)
    requires OnlyPlaced(m, m', {}) && OnlyPlaced(m', m'', f)
    ensures OnlyPlaced(m, m'', f)
  {}

  lemma MovedThenDropped(m: map<int, AddrInfo>, m': map<int, AddrInfo>, id: int)
    requires OnlyMoved(m, m', {}) && id in m
    ensures id in m' && m'[id] == m[id].(nRandomPos := m'[id].nRandomPos)
    ensures OnlyMoved(m, m' - {id}, {id})
  {}

  lemma MovedIds(m: map<int, AddrInfo>, m': map<int, AddrInfo>, gone: set<int>)
    requires OnlyMoved(m, m', gone)
    ensures NewIds(m') == NewIds(m) - gone && TriedIds(m') == TriedIds(m) - gone
  {
    assert forall k :: k in m && k !in gone ==> k in m' && m'[k].fInTried == m[k].fInTried;
  }

  lemma SameIds(m: map<int, AddrInfo>, id: int, info: AddrInfo)
    requires id in m && info.fInTried == m[id].fInTried
    ensures NewIds(m[id := info]) == NewIds(m) && TriedIds(m[id := info]) == TriedIds(m)
  {}

  lemma AddedIds(m: map<int, AddrInfo>, id: int, info: AddrInfo)
    requires id !in m && !info.fInTried
    ensures |NewIds(m[id := info])| == |NewIds(m)| + 1 && |TriedIds(m[id := info])| == |TriedIds(m)|
  {
    assert NewIds(m[id := info]) == NewIds(m) + {id} && TriedIds(m[id := info]) == TriedIds(m);
  }

  lemma DeletedIds(m: map<int, AddrInfo>, m': map<int, AddrInfo>, id: int)
    requires OnlyMoved(m, m', {id}) && id in m && !m[id].fInTried
    ensures |NewIds(m')| == |NewIds(m)| - 1 && |TriedIds(m')| == |TriedIds(m)|
  {
    MovedIds(m, m', {id});
    assert id in NewIds(m) && id !in TriedIds(m);
  }

  lemma PositionKnown(h: Hashing, s: State, loose: set<int>, id: int)
    requires Core(h, s, loose) && id in s.mapInfo
    ensures 0 <= s.mapInfo[id].nRandomPos < |s.vRandom| && s.vRandom[s.mapInfo[id].nRandomPos] == id
    ensures forall i :: 0 <= i < |s.vRandom| && s.vRandom[i] == id ==> s.mapInfo[id].nRandomPos == i
  {
    assert IdOk(s, id);
  }

  class AddrMan {
    const h: Hashing
    var nIdCount: nat
    var mapInfo: map<int, AddrInfo>
    var mapAddr: map<NetAddr, int>
    var vRandom: seq<int>
    var nTried: int
    const vvTried: array2<int>
    var nNew: int
    const vvNew: array2<int>

    ghost function St(): State
      reads this, vvTried, vvNew
    {
      State(mapInfo, mapAddr, vRandom, TableOf(vvTried), TableOf(vvNew), nIdCount)
    }

    ghost predicate Shape() {
      && vvTried.Length0 == 256 && vvTried.Length1 == 64
      && vvNew.Length0 == 1024 && vvNew.Length1 == 64
      && vvTried != vvNew
    }

    /** The indexes agree, up to entries that are about to be placed or deleted. */
    ghost predicate Linked(loose: set<int>)
      reads this, vvTried, vvNew
    {
      Shape() && Core(h, St(), loose)
    }

    /** The number of entries that nNew does not account for yet. */
    ghost function Unaccounted(): int
      reads this
    {
      |NewIds(mapInfo)| - nNew
    }

    ghost predicate Counted()
      reads this
    {
      nTried == |TriedIds(mapInfo)| && |vRandom| == |TriedIds(mapInfo)| + |NewIds(mapInfo)|
    }

    /** The consistency conditions of Check_. */
    ghost predicate Valid()
      reads this, vvTried, vvNew
    {
      Linked({}) && Counted() && Unaccounted() == 0
    }

    constructor (key: Hashing)
      ensures Valid() && mapInfo == map[] && mapAddr == map[] && vRandom == [] && fresh(vvTried) && fresh(vvNew) && h == key
      ensures TableOf(vvTried) == map[] && TableOf(vvNew) == map[]
    {
      h := key;
      nIdCount, nTried, nNew := 0, 0, 0;
      mapInfo, mapAddr, vRandom := map[], map[], [];
      vvTried := new int[TRIED_BUCKET_COUNT, BUCKET_SIZE]((_, _) => -1);
      vvNew := new int[NEW_BUCKET_COUNT, BUCKET_SIZE]((_, _) => -1);
      new;
      assert TableOf(vvTried) == map[] && TableOf(vvNew) == map[];
    }

    /** Writes one slot of the new table. */
    method SetNew(x: Slot, id: int)
      requires Shape() && x.bucket < NEW_BUCKET_COUNT && x.pos < BUCKET_SIZE
      modifies vvNew
      ensures TableOf(vvNew) == if id == -1 then old(TableOf(vvNew)) - {x} else old(TableOf(vvNew))[x := id]
    {
      vvNew[x.bucket, x.pos] := id;
    }

    method SetTried(x: Slot, id: int)
      requires Shape() && x.bucket < TRIED_BUCKET_COUNT && x.pos < BUCKET_SIZE
      modifies vvTried
      ensures TableOf(vvTried) == if id == -1 then old(TableOf(vvTried)) - {x} else old(TableOf(vvTried))[x := id]
    {
      vvTried[x.bucket, x.pos] := id;
    }

    lemma NewAt(x: Slot)
      requires Shape() && x.bucket < NEW_BUCKET_COUNT && x.pos < BUCKET_SIZE
      ensures x in TableOf(vvNew) <==> vvNew[x.bucket, x.pos] != -1
      ensures x in TableOf(vvNew) ==> TableOf(vvNew)[x] == vvNew[x.bucket, x.pos]
    {}

    lemma TriedAt(x: Slot)
      requires Shape() && x.bucket < TRIED_BUCKET_COUNT && x.pos < BUCKET_SIZE
      ensures x in TableOf(vvTried) <==> vvTried[x.bucket, x.pos] != -1
      ensures x in TableOf(vvTried) ==> TableOf(vvTried)[x] == vvTried[x.bucket, x.pos]
    {}

    /** Finds an entry by network address, ignoring the port; an id is always backed by an entry. */
    method Find(addr: NetAddr) returns (found: bool, id: int)
      requires Valid()
      ensures found <==> addr in mapAddr
      ensures found ==> id == mapAddr[addr] && id in mapInfo && mapInfo[id].addr == addr
    {
      found := addr in mapAddr;
      id := if found then mapAddr[addr] else -1;
      if found && id !in mapInfo {
        found := false;
      }
    }

    method Create(info: AddrInfo) returns (id: int)
      requires Valid() && info.addr !in mapAddr
      modifies this
      ensures Linked({id}) && Counted() && Unaccounted() == 1 && id == old(nIdCount) && id !in old(mapInfo)
      ensures mapInfo == old(mapInfo)[id := info.(nLastSuccess := 0, nLastTry := 0, nAttempts := 0, nRefCount := 0, fInTried := false, nRandomPos := |old(vRandom)|)]
      ensures mapAddr == old(mapAddr)[info.addr := id]
    {
      hide Core, TableOf, NewIds, TriedIds;
      id := nIdCount;
      ghost var s := St();
      var entry := info.(nLastSuccess := 0, nLastTry := 0, nAttempts := 0, nRefCount := 0, fInTried := false, nRandomPos := |vRandom|);
      nIdCount := nIdCount + 1;
      mapInfo := mapInfo[id := entry];
      mapAddr := mapAddr[info.addr := id];
      vRandom := vRandom + [id];
      AddEntry(h, s, St(), entry);
      AddedIds(s.mapInfo, id, entry);
    }

    /** SwapRandom: its assertions hold for any two positions. */
    method SwapRandom(i: nat, j: nat, ghost loose: set<int>)
      requires Linked(loose) && i < |vRandom| && j < |vRandom|
      modifies this`mapInfo, this`vRandom
      ensures Linked(loose) && OnlyMoved(old(mapInfo), mapInfo, {})
      ensures |vRandom| == |old(vRandom)| && vRandom == old(vRandom)[i := old(vRandom)[j]][j := old(vRandom)[i]]
    {
      if i == j {
        return;
      }
      ghost var s := St();
      SwapKeeps(h, s, loose, i, j);
      hide Core, TableOf;
      var id1, id2 := vRandom[i], vRandom[j];
      assert id1 in mapInfo && id2 in mapInfo;
      mapInfo := mapInfo[id1 := mapInfo[id1].(nRandomPos := j)];
      mapInfo := mapInfo[id2 := mapInfo[id2].(nRandomPos := i)];
      vRandom := vRandom[i := id2];
      vRandom := vRandom[j := id1];
      assert St() == Swapped(s, i, j);
    }

    /** Delete: for an entry that is in neither table. */
    method Delete(id: int, ghost loose: set<int>)
      requires Linked(loose + {id}) && Counted() && id in mapInfo && id !in loose
      requires !mapInfo[id].fInTried && mapInfo[id].nRefCount == 0
      modifies this`mapInfo, this`mapAddr, this`vRandom, this`nNew
      ensures Linked(loose) && Counted() && OnlyMoved(old(mapInfo), mapInfo, {id})
      ensures Unaccounted() == old(Unaccounted()) && mapAddr == old(mapAddr) - {old(mapInfo)[id].addr}
      ensures |vRandom| == |old(vRandom)| - 1
    {
      PositionKnown(h, St(), loose + {id}, id);
      hide Core, TableOf, NewIds, TriedIds, OnlyMoved;
      SwapRandom(mapInfo[id].nRandomPos, |vRandom| - 1, loose + {id});
      MovedThenDropped(old(mapInfo), mapInfo, id);
      PositionKnown(h, St(), loose + {id}, id);
      RemoveLast(id, loose);
      DeletedIds(old(mapInfo), mapInfo, id);
    }

    /** Takes the last entry of vRandom out of all indexes. */
    method RemoveLast(id: int, ghost loose: set<int>)
      requires Linked(loose + {id}) && id in mapInfo && !mapInfo[id].fInTried && mapInfo[id].nRefCount == 0
      requires 0 <= mapInfo[id].nRandomPos == |vRandom| - 1
      modifies this`mapInfo, this`mapAddr, this`vRandom, this`nNew
      ensures Linked(loose) && mapInfo == old(mapInfo) - {id} && mapAddr == old(mapAddr) - {old(mapInfo)[id].addr}
      ensures vRandom == old(vRandom)[..|old(vRandom)| - 1] && nNew == old(nNew) - 1
    {
      hide Core, TableOf;
      ghost var s := St();
      vRandom := vRandom[..|vRandom| - 1];
      mapAddr := mapAddr - {mapInfo[id].addr};
      mapInfo := mapInfo - {id};
      nNew := nNew - 1;
      DropLast(h, s, St(), loose, id);
    }

    /** The entry that ClearNew would take a reference from. */
    ghost function Victim(x: Slot): set<int>
      reads this, vvNew
    {
      if x in TableOf(vvNew) then {TableOf(vvNew)[x]} else {}
    }

    /** ClearNew empties a slot; its entry loses a reference, and goes if that was the last. */
    method ClearNew(x: Slot, ghost loose: set<int>)
      requires Linked(loose) && Counted() && x.bucket < NEW_BUCKET_COUNT && x.pos < BUCKET_SIZE
      requires Victim(x) !! loose
      modifies this`mapInfo, this`mapAddr, this`vRandom, this`nNew, vvNew
      ensures Linked(loose) && Counted() && Unaccounted() == old(Unaccounted())
      ensures TableOf(vvNew) == old(TableOf(vvNew)) - {x}
      ensures forall k :: k in old(mapInfo) && k !in old(Victim(x)) ==>
                k in mapInfo && mapInfo[k] == old(mapInfo)[k].(nRandomPos := mapInfo[k].nRandomPos)
      ensures OnlyPlaced(old(mapInfo), mapInfo, {})
    {
      hide Core, TableOf, NewIds, TriedIds;
      NewAt(x);
      if vvNew[x.bucket, x.pos] != -1 {
        var id := vvNew[x.bucket, x.pos];
        ghost var s := St();
        RemoveRef(h, s, loose, x);
        assert mapInfo[id].nRefCount > 0;
        mapInfo := mapInfo[id := mapInfo[id].(nRefCount := mapInfo[id].nRefCount - 1)];
        SetNew(x, -1);
        assert St() == WithRefs(s, s.news - {x}, id, s.mapInfo[id].nRefCount - 1);
        SameIds(s.mapInfo, id, mapInfo[id]);
        if mapInfo[id].nRefCount == 0 {
          Delete(id, loose);
        } else {
          NoLongerLoose(h, St(), loose, id);
        }
      }
    }

    /** MakeTried moves an entry from the new to the tried table; a displaced tried entry goes back to new. */
    method MakeTried(id: int)
      requires Valid() && id in mapInfo && !mapInfo[id].fInTried
      modifies this, vvTried, vvNew
      ensures Valid() && nIdCount == old(nIdCount)
      ensures id in mapInfo && mapInfo[id].fInTried && mapInfo[id].addr == old(mapInfo)[id].addr
      ensures OnlyPlaced(old(mapInfo), mapInfo, {id})
      ensures var kx := TriedSlot(h, old(mapInfo)[id]);
              && TableOf(vvTried) == old(TableOf(vvTried))[kx := id]
              && (kx in old(TableOf(vvTried)) ==> BackInNew(old(TableOf(vvTried))[kx]))
              && TableOf(vvNew) == AfterEviction(h, old(mapInfo), old(TableOf(vvTried)), kx, Without(old(TableOf(vvNew)), id))
    {
      hide Core, TableOf, NewIds, TriedIds, OnlyPlaced;
      PlacedStep(mapInfo, id, mapInfo[id].(nRefCount := 0));
      RemoveAllRefs(id);
      nNew := nNew - 1;
      assert mapInfo[id].nRefCount == 0;
      var kx := TriedSlot(h, mapInfo[id]);
      TriedAt(kx);
      ghost var m := mapInfo;
      if vvTried[kx.bucket, kx.pos] != -1 {
        Evict(kx, id);
        PlacedTwice(old(mapInfo), m, mapInfo, {});
      }
      TriedAt(kx);
      assert vvTried[kx.bucket, kx.pos] == -1;
      ghost var m' := mapInfo;
      PlacedStep(mapInfo, id, mapInfo[id].(fInTried := true));
      TakeTriedSlot(kx, id);
      PlacedTwice(old(mapInfo), m', mapInfo, {id});
    }

    /** An entry without references enters its own, empty slot of the tried table. */
    method TakeTriedSlot(kx: Slot, id: int)
      requires Linked({id}) && Counted() && Unaccounted() == 1 && id in mapInfo
      requires !mapInfo[id].fInTried && mapInfo[id].nRefCount == 0 && kx == TriedSlot(h, mapInfo[id]) && kx !in TableOf(vvTried)
      modifies this`mapInfo, this`nTried, vvTried
      ensures Valid() && mapInfo == old(mapInfo)[id := old(mapInfo)[id].(fInTried := true)]
      ensures TableOf(vvTried) == old(TableOf(vvTried))[kx := id]
    {
      hide Core, TableOf, NewIds, TriedIds;
      ghost var s := St();
      EnterTried(h, s, {id}, id);
      IdIsNatural(h, s, {id}, id);
      SetTried(kx, id);
      nTried := nTried + 1;
      mapInfo := mapInfo[id := mapInfo[id].(fInTried := true)];
      assert St() == WithTried(s, s.tried[kx := id], id, true);
      FlippedIds(s.mapInfo, mapInfo, id);
      assert {id} - {id} == {};
    }

    /** A displaced entry is new again, with a single reference. */
    ghost predicate BackInNew(evicted: int)
      reads this
    {
      evicted in mapInfo && !mapInfo[evicted].fInTried && mapInfo[evicted].nRefCount == 1
    }

    /** The loop of MakeTried over all new buckets. */
    method RemoveAllRefs(id: int)
      requires Valid() && id in mapInfo && !mapInfo[id].fInTried
      modifies this`mapInfo, vvNew
      ensures Linked({id}) && Counted() && Unaccounted() == 0
      ensures mapInfo == old(mapInfo)[id := old(mapInfo)[id].(nRefCount := 0)]
      ensures TableOf(vvNew) == Without(old(TableOf(vvNew)), id)
    {
      hide Core, TableOf, NewIds, TriedIds;
      ghost var info := mapInfo[id];
      Loosen(h, St(), id);
      for bucket := 0 to NEW_BUCKET_COUNT
        invariant Linked({id}) && Counted() && Unaccounted() == 0
        invariant id in mapInfo && mapInfo == old(mapInfo)[id := info.(nRefCount := mapInfo[id].nRefCount)]
        invariant forall x :: x in TableOf(vvNew) && TableOf(vvNew)[x] == id ==> x.bucket >= bucket
        invariant Without(TableOf(vvNew), id) == Without(old(TableOf(vvNew)), id)
      {
        var x := Slot(bucket, Position(h, true, bucket, mapInfo[id]));
        NewAt(x);
        ghost var s := St();
        OneSlotPerBucket(h, s, {id}, id, bucket);
        if vvNew[x.bucket, x.pos] == id {
          IdIsNatural(h, s, {id}, id);
          RemoveRef(h, s, {id}, x);
          SetNew(x, -1);
          WithoutOne(s.news, id, x);
          mapInfo := mapInfo[id := mapInfo[id].(nRefCount := mapInfo[id].nRefCount - 1)];
          assert St() == WithRefs(s, s.news - {x}, id, s.mapInfo[id].nRefCount - 1);
          assert {id} + {id} == {id};
          SameIds(s.mapInfo, id, mapInfo[id]);
        }
      }
      AllSlotsSeen(h, St(), {id}, id);
    }

    /** A tried entry is displaced by `id` and re-enters the new table at the slot of its own source. */
    method Evict(kx: Slot, id: int)
      requires Linked({id}) && Counted() && Unaccounted() == 1 && kx in TableOf(vvTried)
      requires kx.bucket < TRIED_BUCKET_COUNT && kx.pos < BUCKET_SIZE
      requires id in mapInfo && !mapInfo[id].fInTried && mapInfo[id].nRefCount == 0
      modifies this, vvTried, vvNew
      ensures Linked({id}) && Counted() && Unaccounted() == 1 && nIdCount == old(nIdCount)
      ensures TableOf(vvTried) == old(TableOf(vvTried)) - {kx} && OnlyPlaced(old(mapInfo), mapInfo, {})
      ensures old(TableOf(vvTried))[kx] != id && BackInNew(old(TableOf(vvTried))[kx])
      ensures TableOf(vvNew) == AfterEviction(h, old(mapInfo), old(TableOf(vvTried)), kx, old(TableOf(vvNew)))
      ensures id in mapInfo && mapInfo[id] == old(mapInfo)[id].(nRandomPos := mapInfo[id].nRandomPos)
    {
      hide Core, TableOf, NewIds, TriedIds, OnlyPlaced;
      TriedAt(kx);
      var evicted := vvTried[kx.bucket, kx.pos];
      ghost var s := St();
      LeaveTried(h, s, {id}, kx);
      assert evicted in mapInfo && evicted != id;
      PlacedStep(mapInfo, evicted, mapInfo[evicted].(fInTried := false));
      mapInfo := mapInfo[evicted := mapInfo[evicted].(fInTried := false)];
      SetTried(kx, -1);
      nTried := nTried - 1;
      assert St() == WithTried(s, s.tried - {kx}, evicted, false);
      FlippedIds(mapInfo, s.mapInfo, evicted);
      ghost var m := mapInfo;
      ReenterNew(evicted, id);
      PlacedTwice(old(mapInfo), m, mapInfo, {});
    }

    /** A displaced entry takes the new slot of its own source, clearing it first. */
    method ReenterNew(evicted: int, ghost id: int)
      requires Linked({id} + {evicted}) && Counted() && Unaccounted() == 2
      requires evicted in mapInfo && !mapInfo[evicted].fInTried && mapInfo[evicted].nRefCount == 0
      requires id in mapInfo && id != evicted && mapInfo[id].nRefCount == 0
      modifies this`mapInfo, this`mapAddr, this`vRandom, this`nNew, vvNew
      ensures Linked({id}) && Counted() && Unaccounted() == 1 && OnlyPlaced(old(mapInfo), mapInfo, {})
      ensures id in mapInfo && mapInfo[id] == old(mapInfo)[id].(nRandomPos := mapInfo[id].nRandomPos)
      ensures BackInNew(evicted)
      ensures TableOf(vvNew) == old(TableOf(vvNew))[NewSlot(h, old(mapInfo)[evicted], old(mapInfo)[evicted].source) := evicted]
    {
      hide Core, TableOf, OnlyPlaced, NewIds, TriedIds;
      var ux := NewSlot(h, mapInfo[evicted], mapInfo[evicted].source);
      NewAt(ux);
      VictimReferenced(h, St(), {id} + {evicted}, ux);
      ClearNew(ux, {id} + {evicted});
      NewAt(ux);
      assert vvNew[ux.bucket, ux.pos] == -1;
      ghost var s := St();
      AddRef(h, s, {id} + {evicted}, evicted, ux);
      IdIsNatural(h, s, {id} + {evicted}, evicted);
      PlacedStep(mapInfo, evicted, mapInfo[evicted].(nRefCount := 1));
      mapInfo := mapInfo[evicted := mapInfo[evicted].(nRefCount := 1)];
      SetNew(ux, evicted);
      nNew := nNew + 1;
      assert St() == WithRefs(s, s.news[ux := evicted], evicted, 1);
      assert {id} + {evicted} - {evicted} == {id};
      SameIds(s.mapInfo, evicted, mapInfo[evicted]);
      PlacedTwice(old(mapInfo), s.mapInfo, mapInfo, {});
    }

    /** Whether an entry may take slot `x` of the new table from whoever is there. */
    ghost predicate MayTake(x: Slot, id: int, now: int)
      reads this, vvNew
    {
      x in TableOf(vvNew) && TableOf(vvNew)[x] in mapInfo && id in mapInfo ==>
        var existing := mapInfo[TableOf(vvNew)[x]];
        IsTerrible(existing, now) || (existing.nRefCount > 1 && mapInfo[id].nRefCount == 0)
    }

    /** The last part of Add_: one more reference for `id`, or its end if it has none and finds no place. */
    method InsertRef(id: int, source: NetAddr, now: int)
      requires Linked({id}) && Counted() && Unaccounted() == 0 && id in mapInfo
      requires !mapInfo[id].fInTried && mapInfo[id].nRefCount < NEW_BUCKETS_PER_ADDRESS
      modifies this`mapInfo, this`mapAddr, this`vRandom, this`nNew, vvNew
      ensures Valid()
      ensures id in mapInfo <==> old(mapInfo)[id].nRefCount > 0 || old(MayTake(NewSlot(h, mapInfo[id], source), id, now))
      ensures TableOf(vvNew) == if old(MayTake(NewSlot(h, mapInfo[id], source), id, now))
                                then old(TableOf(vvNew))[old(NewSlot(h, mapInfo[id], source)) := id] else old(TableOf(vvNew))
      ensures OnlyPlaced(old(mapInfo), mapInfo, {})
      ensures id !in mapInfo ==> mapAddr == old(mapAddr) - {old(mapInfo)[id].addr}
    {
      hide Core, TableOf, OnlyPlaced;
      var x := NewSlot(h, mapInfo[id], source);
      NewAt(x);
      NothingPlaced(mapInfo);
      ghost var s := St();
      SlotFacts(h, s, {id}, x, id);
      if vvNew[x.bucket, x.pos] != id {
        var fInsert := vvNew[x.bucket, x.pos] == -1;
        if !fInsert {
          var existing := mapInfo[vvNew[x.bucket, x.pos]];
          if IsTerrible(existing, now) || (existing.nRefCount > 1 && mapInfo[id].nRefCount == 0) {
            fInsert := true;
          }
        }
        if fInsert {
          PlaceRef(id, x);
        } else if mapInfo[id].nRefCount == 0 {
          Delete(id, {});
          MovedIsPlaced(s.mapInfo, mapInfo, {id});
        } else {
          NoLongerLoose(h, s, {}, id);
        }
      } else {
        NoLongerLoose(h, s, {}, id);
        assert s.news[x := id] == s.news;
      }
    }

    /** Clears slot `x` and gives it to `id`. */
    method PlaceRef(id: int, x: Slot)
      requires Linked({id}) && Counted() && Unaccounted() == 0 && id in mapInfo
      requires !mapInfo[id].fInTried && mapInfo[id].nRefCount < NEW_BUCKETS_PER_ADDRESS
      requires x.bucket < NEW_BUCKET_COUNT && x.pos == Position(h, true, x.bucket, mapInfo[id]) < BUCKET_SIZE
      requires Victim(x) !! {id}
      modifies this`mapInfo, this`mapAddr, this`vRandom, this`nNew, vvNew
      ensures Valid() && id in mapInfo && mapInfo[id].nRefCount == old(mapInfo)[id].nRefCount + 1
      ensures OnlyPlaced(old(mapInfo), mapInfo, {}) && TableOf(vvNew) == old(TableOf(vvNew))[x := id]
    {
      hide Core, TableOf, OnlyPlaced, NewIds, TriedIds;
      ClearNew(x, {id});
      ghost var s := St();
      PlacedStep(mapInfo, id, mapInfo[id].(nRefCount := mapInfo[id].nRefCount + 1));
      AddRef(h, s, {id}, id, x);
      IdIsNatural(h, s, {id}, id);
      mapInfo := mapInfo[id := mapInfo[id].(nRefCount := mapInfo[id].nRefCount + 1)];
      SetNew(x, id);
      assert St() == WithRefs(s, s.news[x := id], id, s.mapInfo[id].nRefCount + 1);
      assert {id} - {id} == {};
      SameIds(s.mapInfo, id, mapInfo[id]);
      PlacedTwice(old(mapInfo), s.mapInfo, mapInfo, {});
    }

    /** Changes the statistics of one entry. */
    method SetStats(id: int, info: AddrInfo)
      requires Valid() && id in mapInfo && SamePlace(mapInfo[id], info)
      modifies this`mapInfo
      ensures Valid() && mapInfo == old(mapInfo)[id := info]
    {
      hide Core, TableOf;
      UpdateStats(h, St(), {}, id, info);
      mapInfo := mapInfo[id := info];
    }

    /**
     * Add_. An unknown address is always reported as new, but it is stored only if its slot is free or may be taken. A
     * known one is refreshed, and gets one more reference if the news are newer than what is known, it is not tried,
     * has fewer than 8 references, the draw allows it, and its slot for this source is free or held by a terrible entry.
     * The draw out of `n` numbers is `rnd % n`.
     */
    method Add(a: AddrInfo, source: NetAddr, penalty: int, now: int, routable: bool, rnd: nat) returns (fNew: bool)
      requires Valid()
      modifies this, vvNew
      ensures Valid() && TableOf(vvTried) == old(TableOf(vvTried))
      ensures fNew <==> routable && a.addr !in old(mapAddr)
      ensures fNew ==>
                var x := NewSlot(h, a, source);
                && (a.addr in mapAddr <==>
                      (x in old(TableOf(vvNew)) && old(TableOf(vvNew))[x] in old(mapInfo) ==>
                         var holder := old(mapInfo)[old(TableOf(vvNew))[x]]; IsTerrible(holder, now) || holder.nRefCount > 1))
                && TableOf(vvNew) == (if a.addr in mapAddr then old(TableOf(vvNew))[x := old(nIdCount)] else old(TableOf(vvNew)))
                && OnlyPlaced(old(mapInfo)[old(nIdCount) := Fresh(a, source, penalty)], mapInfo, {})
      ensures routable && a.addr in old(mapAddr) ==>
                var id, news := old(mapAddr)[a.addr], old(TableOf(vvNew));
                var p := Refreshed(old(mapInfo)[id], a, penalty, now);
                var x := NewSlot(h, p, source);
                && a.addr in mapAddr && mapAddr[a.addr] == id && id in mapInfo
                && TableOf(vvNew) == (if WorthAdding(p, a, rnd)
                                         && (x in news && news[x] in old(mapInfo) && news[x] != id ==> IsTerrible(old(mapInfo)[news[x]], now))
                                      then news[x := id] else news)
                && mapInfo[id].nRefCount == p.nRefCount + (if TableOf(vvNew) == news then 0 else 1)
                && OnlyPlaced(old(mapInfo)[id := p], mapInfo, {})
      ensures !routable ==> St() == old(St()) && nNew == old(nNew) && nTried == old(nTried)
      ensures old(TimesOk(mapInfo)) ==> TimesOk(mapInfo)
    {
      hide Core, TableOf, IsTerrible, OnlyPlaced, Refreshed, Fresh;
      fNew := false;
      if !routable {
        return;
      }
      var found, id := Find(a.addr);
      if found {
        AddKnown(id, a, source, penalty, now, rnd);
        RefreshedTimes(old(mapInfo), id, a, penalty, now);
        PlacedTimes(old(mapInfo)[id := Refreshed(old(mapInfo)[id], a, penalty, now)], mapInfo);
      } else {
        AddUnknown(a, source, penalty, now);
        FreshTimes(old(mapInfo), old(nIdCount), a, source, penalty);
        PlacedTimes(old(mapInfo)[old(nIdCount) := Fresh(a, source, penalty)], mapInfo);
        fNew := true;
      }
    }

    /** The branch of Add_ for a known address. */
    method AddKnown(id: int, a: AddrInfo, source: NetAddr, penalty: int, now: int, rnd: nat)
      requires Valid() && id in mapInfo && mapInfo[id].addr == a.addr
      modifies this, vvNew
      ensures Valid() && a.addr in mapAddr && mapAddr[a.addr] == id && id in mapInfo
      ensures var news := old(TableOf(vvNew));
              var p := Refreshed(old(mapInfo)[id], a, penalty, now);
              var x := NewSlot(h, p, source);
              && TableOf(vvNew) == (if WorthAdding(p, a, rnd)
                                       && (x in news && news[x] in old(mapInfo) && news[x] != id ==> IsTerrible(old(mapInfo)[news[x]], now))
                                    then news[x := id] else news)
              && mapInfo[id].nRefCount == p.nRefCount + (if TableOf(vvNew) == news then 0 else 1)
              && OnlyPlaced(old(mapInfo)[id := p], mapInfo, {})
    {
      hide Core, TableOf, IsTerrible, OnlyPlaced;
      var p := mapInfo[id];
      var interval := if now - a.nTime < DAY then 60 * 60 else DAY;
      if a.nTime != 0 && (p.nTime == 0 || p.nTime < a.nTime - interval - penalty) {
        p := p.(nTime := if a.nTime - penalty > 0 then a.nTime - penalty else 0);
      }
      p := p.(services := p.services + a.services);
      assert p == Refreshed(mapInfo[id], a, penalty, now);
      NothingPlaced(mapInfo[id := p]);
      SetStats(id, p);
      AddressKnown(h, St(), {}, id);
      if a.nTime == 0 || (p.nTime != 0 && a.nTime <= p.nTime) || p.fInTried || p.nRefCount == NEW_BUCKETS_PER_ADDRESS {
        return;
      }
      var factor := 1;
      for n := 0 to p.nRefCount
        invariant factor == Pow2(n)
      {
        factor := factor * 2;
      }
      if factor > 1 && rnd % factor != 0 {
        return;
      }
      hide Refreshed, Pow2;
      AnotherRef(id, p, source, now);
    }

    /** The end of Add_ for a known address that has references already. */
    method AnotherRef(id: int, p: AddrInfo, source: NetAddr, now: int)
      requires Valid() && id in mapInfo && mapInfo[id] == p && !p.fInTried && p.nRefCount < NEW_BUCKETS_PER_ADDRESS
      modifies this, vvNew
      ensures Valid() && p.addr in mapAddr && mapAddr[p.addr] == id && id in mapInfo && OnlyPlaced(old(mapInfo), mapInfo, {})
      ensures var news := old(TableOf(vvNew));
              var x := NewSlot(h, p, source);
              && TableOf(vvNew) == (if x in news && news[x] in old(mapInfo) && news[x] != id ==> IsTerrible(old(mapInfo)[news[x]], now)
                                    then news[x := id] else news)
              && mapInfo[id].nRefCount == p.nRefCount + (if TableOf(vvNew) == news then 0 else 1)
    {
      hide Core, TableOf, IsTerrible, OnlyPlaced, NewIds, TriedIds;
      AddressKnown(h, St(), {}, id);
      Loosen(h, St(), id);
      ghost var s := St();
      SlotFacts(h, s, {id}, NewSlot(h, p, source), id);
      InsertRef(id, source, now);
      assert mapInfo[id].addr == p.addr by {
        PlacedEntry(s.mapInfo, mapInfo, id);
      }
      AddressKnown(h, St(), {}, id);
      CountsFollow(h, s, {id}, St(), {}, id, NewSlot(h, p, source));
    }

    /** The branch of Add_ for an address seen for the first time. */
    method AddUnknown(a: AddrInfo, source: NetAddr, penalty: int, now: int)
      requires Valid() && a.addr !in mapAddr
      modifies this, vvNew
      ensures Valid()
      ensures var x := NewSlot(h, a, source);
              a.addr in mapAddr <==>
                (x in old(TableOf(vvNew)) && old(TableOf(vvNew))[x] in old(mapInfo) ==>
                   var holder := old(mapInfo)[old(TableOf(vvNew))[x]]; IsTerrible(holder, now) || holder.nRefCount > 1)
      ensures TableOf(vvNew) == if a.addr in mapAddr then old(TableOf(vvNew))[NewSlot(h, a, source) := old(nIdCount)]
                                else old(TableOf(vvNew))
      ensures OnlyPlaced(old(mapInfo)[old(nIdCount) := Fresh(a, source, penalty)], mapInfo, {})
    {
      hide Core, TableOf, IsTerrible, OnlyPlaced, NewIds, TriedIds;
      ghost var x := NewSlot(h, a, source);
      if x in TableOf(vvNew) {
        SlotHolder(h, St(), {}, x);
      }
      var id := Create(a.(source := source));
      ghost var s := St();
      var p := mapInfo[id].(nTime := if mapInfo[id].nTime - penalty > 0 then mapInfo[id].nTime - penalty else 0);
      UpdateStats(h, s, {id}, id, p);
      mapInfo := mapInfo[id := p];
      nNew := nNew + 1;
      PlacedStep(old(mapInfo)[id := Fresh(a, source, penalty)], id, p);
      ghost var m := mapInfo;
      InsertRef(id, source, now);
      PlacedTwice(old(mapInfo)[id := Fresh(a, source, penalty)], m, mapInfo, {});
      if id in mapInfo {
        AddressKnown(h, St(), {}, id);
      }
    }

    /**
     * Good_: a known address (same port) ends up in the tried table with its statistics reset. The search for one of
     * its new buckets, from any starting bucket, cannot come back empty-handed.
     */
    method Good(addr: NetAddr, port: nat, nTime: int, rnd: nat)
      requires Valid() && rnd < NEW_BUCKET_COUNT
      modifies this, vvTried, vvNew
      ensures Valid()
      ensures addr in old(mapAddr) && old(mapInfo)[old(mapAddr)[addr]].port == port ==>
                var id := old(mapAddr)[addr];
                && addr in mapAddr && mapAddr[addr] == id && mapInfo[id].fInTried
                && (var kx := TriedSlot(h, old(mapInfo)[id]);
                    && TableOf(vvTried) == old(TableOf(vvTried))[kx := id]
                    && TableOf(vvNew) == if old(mapInfo)[id].fInTried then old(TableOf(vvNew))
                                         else AfterEviction(h, old(mapInfo), old(TableOf(vvTried)), kx, Without(old(TableOf(vvNew)), id)))
                && OnlyPlaced(old(mapInfo)[id := old(mapInfo)[id].(nLastSuccess := nTime, nLastTry := nTime, nAttempts := 0)], mapInfo, {id})
      ensures !(addr in old(mapAddr) && old(mapInfo)[old(mapAddr)[addr]].port == port) ==> St() == old(St()) && nNew == old(nNew) && nTried == old(nTried)
      ensures old(TimesOk(mapInfo)) ==>
                (TimesOk(mapInfo) <==> nTime > 0 || !(addr in old(mapAddr) && old(mapInfo)[old(mapAddr)[addr]].port == port))
    {
      hide Core, TableOf;
      var found, id := Find(addr);
      if !found || mapInfo[id].port != port {
        return;
      }
      SetStats(id, mapInfo[id].(nLastSuccess := nTime, nLastTry := nTime, nAttempts := 0));
      assert OnlyPlaced(mapInfo, mapInfo, {id});
      if !mapInfo[id].fInTried {
        var bucket := FindBucket(id, rnd);
        if bucket == -1 {
          return;
        }
        MakeTried(id);
      } else {
        TriedEntryPlaced(h, St(), id);
        assert TableOf(vvTried) == TableOf(vvTried)[TriedSlot(h, mapInfo[id]) := id];
      }
      AddressKnown(h, St(), {}, id);
    }

    /** The bucket search of Good_. */
    method FindBucket(id: int, rnd: nat) returns (bucket: int)
      requires Valid() && id in mapInfo && !mapInfo[id].fInTried && rnd < NEW_BUCKET_COUNT
      ensures 0 <= bucket < NEW_BUCKET_COUNT
      ensures vvNew[bucket, Position(h, true, bucket, mapInfo[id])] == id
    {
      hide Core, TableOf;
      ghost var x := SomeSlot(h, St(), id);
      NewAt(x);
      for n := 0 to NEW_BUCKET_COUNT
        invariant n <= (x.bucket - rnd) % NEW_BUCKET_COUNT
      {
        var b := (n + rnd) % NEW_BUCKET_COUNT;
        if vvNew[b, Position(h, true, b, mapInfo[id])] == id {
          return b;
        }
        assert n == (x.bucket - rnd) % NEW_BUCKET_COUNT ==> b == x.bucket;
      }
      assert false;
      bucket := -1;
    }

    method Attempt(addr: NetAddr, port: nat, nTime: int)
      requires Valid()
      modifies this`mapInfo
      ensures Valid() && mapInfo.Keys == old(mapInfo).Keys
      ensures old(TimesOk(mapInfo)) ==>
                (TimesOk(mapInfo) <==> nTime >= 0 || !(addr in old(mapAddr) && old(mapInfo)[old(mapAddr)[addr]].port == port))
      ensures forall k :: k in mapInfo ==>
                if mapInfo[k].addr == addr && mapInfo[k].port == port
                then mapInfo[k] == old(mapInfo)[k].(nLastTry := nTime, nAttempts := old(mapInfo)[k].nAttempts + 1)
                else mapInfo[k] == old(mapInfo)[k]
    {
      hide Core, TableOf;
      AddressesKnown(h, St());
      var found, id := Find(addr);
      if found && mapInfo[id].port == port {
        SetStats(id, mapInfo[id].(nLastTry := nTime, nAttempts := mapInfo[id].nAttempts + 1));
      }
    }

    method Connected(addr: NetAddr, port: nat, nTime: int)
      requires Valid()
      modifies this`mapInfo
      ensures Valid() && mapInfo.Keys == old(mapInfo).Keys
      ensures old(TimesOk(mapInfo)) ==> TimesOk(mapInfo)
      ensures forall k :: k in mapInfo ==>
                if mapInfo[k].addr == addr && mapInfo[k].port == port && nTime - old(mapInfo)[k].nTime > 20 * 60
                then mapInfo[k] == old(mapInfo)[k].(nTime := nTime)
                else mapInfo[k] == old(mapInfo)[k]
    {
      hide Core, TableOf;
      AddressesKnown(h, St());
      var found, id := Find(addr);
      if found && mapInfo[id].port == port && nTime - mapInfo[id].nTime > 20 * 60 {
        SetStats(id, mapInfo[id].(nTime := nTime));
      }
    }

    /**
     * Select_: whenever it turns to a table, that table has a used slot to find. `tryTried` is the coin toss; the
     * weighted random probing is a free choice among the used slots.
     */
    method Select(newOnly: bool, tryTried: bool) returns (found: bool, info: AddrInfo)
      requires Valid()
      ensures found <==> if newOnly then nNew > 0 else mapInfo != map[]
      ensures found ==> (exists id :: id in mapInfo && mapInfo[id] == info)
      ensures found ==> (info.fInTried <==> !newOnly && nTried > 0 && (nNew == 0 || tryTried))
    {
      hide Core, TableOf;
      info := AddrInfo(0, 0, {}, 0, 0, 0, 0, 0, 0, false, -1);
      SizeKnown(h, St());
      if |vRandom| == 0 || (newOnly && nNew == 0) {
        return false, info;
      }
      if !newOnly && nTried > 0 && (nNew == 0 || tryTried) {
        ghost var id := PickOne(TriedIds(mapInfo));
        TriedEntryPlaced(h, St(), id);
        ghost var x := TriedSlot(h, mapInfo[id]);
        TriedAt(x);
        var b, i :| 0 <= b < TRIED_BUCKET_COUNT && 0 <= i < BUCKET_SIZE && vvTried[b, i] != -1;
        TriedAt(Slot(b, i));
        TriedHolder(h, St(), Slot(b, i));
        var id' := vvTried[b, i];
        assert id' in mapInfo;
        return true, mapInfo[id'];
      } else {
        ghost var id := PickOne(NewIds(mapInfo));
        ghost var x := SomeSlot(h, St(), id);
        NewAt(x);
        var b, i :| 0 <= b < NEW_BUCKET_COUNT && 0 <= i < BUCKET_SIZE && vvNew[b, i] != -1;
        NewAt(Slot(b, i));
        NewHolder(h, St(), Slot(b, i));
        var id' := vvNew[b, i];
        assert id' in mapInfo;
        return true, mapInfo[id'];
      }
    }

    /**
     * GetAddr_: at most 23 percent of the entries and at most 2500, none terrible, no address twice. The random
     * choices only permute vRandom.
     */
    method GetAddr(now: int) returns (out: seq<AddrInfo>)
      requires Valid()
      modifies this`mapInfo, this`vRandom
      ensures Valid() && OnlyMoved(old(mapInfo), mapInfo, {})
      ensures |out| <= 2500 && 100 * |out| <= 23 * |vRandom|
      ensures |out| == 2500 || |out| == 23 * |vRandom| / 100 ||
              forall id :: id in mapInfo && !IsTerrible(mapInfo[id], now) ==> exists j :: 0 <= j < |out| && out[j].addr == mapInfo[id].addr
      ensures forall j :: 0 <= j < |out| ==>
                && !IsTerrible(out[j], now) && out[j].addr in mapAddr && mapAddr[out[j].addr] in mapInfo
                && out[j] == mapInfo[mapAddr[out[j].addr]].(nRandomPos := out[j].nRandomPos)
      ensures forall j, k :: 0 <= j < k < |out| ==> out[j].addr != out[k].addr
      ensures old(TimesOk(mapInfo)) ==> TimesOk(mapInfo)
    {
      hide Core, TableOf, NewIds, TriedIds, Picked, OnlyMoved, TimesOk;
      var nodes := 23 * |vRandom| / 100;
      if nodes > 2500 {
        nodes := 2500;
      }
      out := [];
      ghost var ids: seq<int> := [];
      NothingMoved(mapInfo, now);
      assert vRandom[..0] == [];
      var n := 0;
      while n < |vRandom| && |out| < nodes
        invariant 0 <= n <= |vRandom| == |old(vRandom)| && |out| <= nodes
        invariant Linked({}) && OnlyMoved(old(mapInfo), mapInfo, {})
        invariant Picked(mapInfo, vRandom[..n], ids, out, now)
      {
        out, ids := Draw(n, out, ids, now, old(mapInfo));
        n := n + 1;
      }
      MovedIds(old(mapInfo), mapInfo, {});
      MovedTimes(old(mapInfo), mapInfo);
      AllPicked(h, St(), vRandom[..n], ids, out, now);
      if n == |vRandom| {
        assert vRandom[..n] == vRandom;
        NoneLeftOut(h, St(), ids, out, now);
      }
    }

    /** One round of GetAddr_: a random entry is moved to position `n` and taken unless it is terrible. */
    method Draw(n: nat, out0: seq<AddrInfo>, ghost ids0: seq<int>, now: int, ghost m0: map<int, AddrInfo>)
        returns (out: seq<AddrInfo>, ghost ids: seq<int>)
      requires Linked({}) && n < |vRandom| && OnlyMoved(m0, mapInfo, {}) && Picked(mapInfo, vRandom[..n], ids0, out0, now)
      modifies this`mapInfo, this`vRandom
      ensures Linked({}) && |vRandom| == |old(vRandom)| && OnlyMoved(m0, mapInfo, {})
      ensures |out0| <= |out| <= |out0| + 1 && Picked(mapInfo, vRandom[..n + 1], ids, out, now)
    {
      hide Core, TableOf, NewIds, TriedIds, Picked, OnlyMoved;
      out, ids := out0, ids0;
      var r: int :| n <= r < |vRandom|;
      ghost var before, m := vRandom, mapInfo;
      SwapRandom(n, r, {});
      assert vRandom[..n] == before[..n];
      StillPicked(m0, m, mapInfo, vRandom[..n], ids, out, now);
      RandomDistinct(h, St(), n);
      var id := vRandom[n];
      assert vRandom[..n + 1] == vRandom[..n] + [id];
      PickedMore(mapInfo, vRandom[..n], ids, out, now, id);
      if !IsTerrible(mapInfo[id], now) {
        out := out + [mapInfo[id]];
        ids := ids + [id];
      }
    }
  }

  /** Conditions -1, -6 and -8 of Check_. */
  ghost predicate TimesOk(m: map<int, AddrInfo>) {
    forall id :: id in m ==>
      m[id].nLastTry >= 0 && m[id].nLastSuccess >= 0 && (m[id].fInTried ==> m[id].nLastSuccess != 0)
  }

  /** Placing entries without making any of them tried keeps the times in order. */
  lemma PlacedTimes(m: map<int, AddrInfo>, m': map<int, AddrInfo>)
    requires OnlyPlaced(m, m', {})
    ensures TimesOk(m) ==> TimesOk(m')
  {
  }

  lemma RefreshedTimes(m: map<int, AddrInfo>, id: int, a: AddrInfo, penalty: int, now: int)
    requires id in m
    ensures TimesOk(m) ==> TimesOk(m[id := Refreshed(m[id], a, penalty, now)])
  {
  }

  lemma FreshTimes(m: map<int, AddrInfo>, id: int, a: AddrInfo, source: NetAddr, penalty: int)
    ensures TimesOk(m) ==> TimesOk(m[id := Fresh(a, source, penalty)])
  {
  }

  lemma PlacedEntry(m: map<int, AddrInfo>, m': map<int, AddrInfo>, id: int)
    requires OnlyPlaced(m, m', {}) && id in m'
    ensures id in m && m'[id].addr == m[id].addr && m'[id].port == m[id].port
  {
  }

  /** One slot more in the table, one more in the count. */
  lemma CountsFollow(h: Hashing, s: State, loose: set<int>, s': State, loose': set<int>, id: int, x: Slot)
    requires Core(h, s, loose) && Core(h, s', loose') && id in s.mapInfo && id in s'.mapInfo
    requires s'.news == s.news || s'.news == s.news[x := id]
    ensures s'.mapInfo[id].nRefCount == s.mapInfo[id].nRefCount + if s'.news == s.news then 0 else 1
  {
    assert CountOk(s, loose, id) && CountOk(s', loose', id);
    if s'.news != s.news {
      assert Refs(s'.news, id) == Refs(s.news, id) + {x} && x !in Refs(s.news, id);
    }
  }

  lemma MovedTimes(m: map<int, AddrInfo>, m': map<int, AddrInfo>)
    requires OnlyMoved(m, m', {})
    ensures TimesOk(m) ==> TimesOk(m')
  {
  }

  /** A new entry has a slot in the new table. */
  lemma SomeSlot(h: Hashing, s: State, id: int) returns (x: Slot)
    requires Core(h, s, {}) && id in s.mapInfo && !s.mapInfo[id].fInTried
    ensures x in s.news && s.news[x] == id
    ensures x.bucket < NEW_BUCKET_COUNT && x.pos == Position(h, true, x.bucket, s.mapInfo[id]) < BUCKET_SIZE
  {
    assert CountOk(s, {}, id);
    Unreferenced(h, s, {}, id);
    x :| x in s.news && s.news[x] == id;
    assert NewSlotOk(h, s, x);
  }

  lemma TriedEntryPlaced(h: Hashing, s: State, id: int)
    requires Core(h, s, {}) && id in s.mapInfo && s.mapInfo[id].fInTried
    ensures TriedSlot(h, s.mapInfo[id]) in s.tried && s.tried[TriedSlot(h, s.mapInfo[id])] == id
  {
    assert TriedIdOk(h, s, id);
  }

  lemma TriedHolder(h: Hashing, s: State, x: Slot)
    requires Core(h, s, {}) && x in s.tried
    ensures s.tried[x] in s.mapInfo && s.mapInfo[s.tried[x]].fInTried
  {
    assert TriedSlotOk(h, s, x);
  }

  lemma NewHolder(h: Hashing, s: State, x: Slot)
    requires Core(h, s, {}) && x in s.news
    ensures s.news[x] in s.mapInfo && !s.mapInfo[s.news[x]].fInTried
  {
    assert NewSlotOk(h, s, x);
  }

  lemma AddressesKnown(h: Hashing, s: State)
    requires Core(h, s, {})
    ensures forall id :: id in s.mapInfo ==> s.mapInfo[id].addr in s.mapAddr && s.mapAddr[s.mapInfo[id].addr] == id
  {
    assert forall id :: id in s.mapInfo ==> IdOk(s, id);
  }

  /** `out` are the entries `ids`, distinct ones out of `pool` and none terrible. */
  ghost predicate Picked(m: map<int, AddrInfo>, pool: seq<int>, ids: seq<int>, out: seq<AddrInfo>, now: int) {
    && |ids| == |out|
    && (forall j :: 0 <= j < |ids| ==>
          && ids[j] in pool && ids[j] in m && !IsTerrible(out[j], now)
          && out[j] == m[ids[j]].(nRandomPos := out[j].nRandomPos))
    && (forall j, k :: 0 <= j < k < |ids| ==> ids[j] != ids[k])
    && (forall id :: id in pool && id in m && !IsTerrible(m[id], now) ==> id in ids)
  }

  /** Once everything has been drawn, nothing but terrible entries is missing. */
  lemma NoneLeftOut(h: Hashing, s: State, ids: seq<int>, out: seq<AddrInfo>, now: int)
    requires Core(h, s, {}) && Picked(s.mapInfo, s.vRandom, ids, out, now)
    ensures forall id :: id in s.mapInfo && !IsTerrible(s.mapInfo[id], now) ==>
              exists j :: 0 <= j < |out| && out[j].addr == s.mapInfo[id].addr
  {
    hide IsTerrible;
    forall id | id in s.mapInfo && !IsTerrible(s.mapInfo[id], now)
      ensures exists j :: 0 <= j < |out| && out[j].addr == s.mapInfo[id].addr
    {
      PositionKnown(h, s, {}, id);
      var j :| 0 <= j < |ids| && ids[j] == id;
      assert out[j].addr == s.mapInfo[id].addr;
    }
  }

  lemma TerribleSame(a: AddrInfo, now: int, pos: int)
    ensures IsTerrible(a.(nRandomPos := pos), now) == IsTerrible(a, now)
  {
  }

  lemma NothingMoved(m: map<int, AddrInfo>, now: int)
    ensures OnlyMoved(m, m, {}) && Picked(m, [], [], [], now)
  {}

  lemma StillPicked(m0: map<int, AddrInfo>, m: map<int, AddrInfo>, m': map<int, AddrInfo>, pool: seq<int>, ids: seq<int>, out: seq<AddrInfo>, now: int)
    requires Picked(m, pool, ids, out, now) && OnlyMoved(m, m', {}) && OnlyMoved(m0, m, {})
    ensures Picked(m', pool, ids, out, now) && OnlyMoved(m0, m', {})
  {
    hide IsTerrible;
    forall j | 0 <= j < |ids|
      ensures ids[j] in m' && out[j] == m'[ids[j]].(nRandomPos := out[j].nRandomPos)
    {
      var k := ids[j];
      assert m'[k] == m[k].(nRandomPos := m'[k].nRandomPos);
    }
    forall id | id in pool && id in m' && !IsTerrible(m'[id], now)
      ensures id in ids
    {
      TerribleSame(m[id], now, m'[id].nRandomPos);
    }
  }

  lemma PickedMore(m: map<int, AddrInfo>, pool: seq<int>, ids: seq<int>, out: seq<AddrInfo>, now: int, id: int)
    requires Picked(m, pool, ids, out, now) && id !in pool && id in m
    ensures IsTerrible(m[id], now) ==> Picked(m, pool + [id], ids, out, now)
    ensures !IsTerrible(m[id], now) ==> Picked(m, pool + [id], ids + [id], out + [m[id]], now)
  {
    hide IsTerrible;
  }

  lemma AllPicked(h: Hashing, s: State, pool: seq<int>, ids: seq<int>, out: seq<AddrInfo>, now: int)
    requires Core(h, s, {}) && Picked(s.mapInfo, pool, ids, out, now)
    ensures forall j :: 0 <= j < |out| ==>
              && !IsTerrible(out[j], now) && out[j].addr in s.mapAddr && s.mapAddr[out[j].addr] in s.mapInfo
              && out[j] == s.mapInfo[s.mapAddr[out[j].addr]].(nRandomPos := out[j].nRandomPos)
    ensures forall j, k :: 0 <= j < k < |out| ==> out[j].addr != out[k].addr
  {
    hide IsTerrible;
    forall j | 0 <= j < |out|
      ensures out[j].addr in s.mapAddr && s.mapAddr[out[j].addr] == ids[j]
    {
      var k := ids[j];
      AddressKnown(h, s, {}, k);
    }
  }

  lemma RandomDistinct(h: Hashing, s: State, n: nat)
    requires Core(h, s, {}) && n < |s.vRandom|
    ensures s.vRandom[n] in s.mapInfo && s.vRandom[n] !in s.vRandom[..n]
  {
    var id := s.vRandom[n];
    PositionKnown(h, s, {}, id);
  }

  lemma SizeKnown(h: Hashing, s: State)
    requires Core(h, s, {})
    ensures |s.vRandom| == 0 <==> s.mapInfo == map[]
  {
    if |s.vRandom| > 0 {
      var id := s.vRandom[0];
      assert id in s.mapInfo;
    } else if s.mapInfo != map[] {
      var id := PickOne(s.mapInfo.Keys);
      PositionKnown(h, s, {}, id);
    }
  }

  lemma SlotHolder(h: Hashing, s: State, loose: set<int>, x: Slot)
    requires Core(h, s, loose) && x in s.news
    ensures s.news[x] in s.mapInfo && s.news[x] < s.nIdCount
  {
    assert NewSlotOk(h, s, x);
    var id := s.news[x];
    assert IdOk(s, id);
  }

  const DAY := 24 * 60 * 60

  function Max(a: int, b: int): int {
    if a > b then a else b
  }

  /** The entry Add_ makes for an unknown address, before it is placed. */
  function Fresh(a: AddrInfo, source: NetAddr, penalty: int): AddrInfo {
    a.(source := source, nTime := Max(0, a.nTime - penalty), nLastSuccess := 0, nLastTry := 0, nAttempts := 0,
       nRefCount := 0, fInTried := false, nRandomPos := 0)
  }

  /** A known entry after news about its address: a newer time, and all services ever announced. */
  function Refreshed(p: AddrInfo, a: AddrInfo, penalty: int, now: int): AddrInfo {
    var interval := if now - a.nTime < DAY then 60 * 60 else DAY;
    p.(nTime := if a.nTime != 0 && (p.nTime == 0 || p.nTime < a.nTime - interval - penalty) then Max(0, a.nTime - penalty) else p.nTime,
       services := p.services + a.services)
  }

  /** The news about a known address justify one more reference; each one makes the next half as likely. */
  predicate WorthAdding(p: AddrInfo, a: AddrInfo, rnd: nat) {
    && a.nTime != 0 && (p.nTime == 0 || p.nTime < a.nTime) && !p.fInTried
    && 0 <= p.nRefCount < 8 && rnd % Pow2(p.nRefCount) == 0
  }

  /** CAddrInfo::IsTerrible at time `now`. */
  predicate IsTerrible(info: AddrInfo, now: int) {
    !(info.nLastTry != 0 && info.nLastTry >= now - 60) &&
    (|| info.nTime > now + 10 * 60
     || info.nTime == 0 || now - info.nTime > 30 * DAY
     || (info.nLastSuccess == 0 && info.nAttempts >= 3)
     || (now - info.nLastSuccess > 7 * DAY && info.nAttempts >= 10))
  }

  /**
   * The limits in seconds: never within a minute of the last try; otherwise when the time is more than ten minutes ahead,
   * missing or over 30 days old, after three tries without a success ever, or ten after a week without one.
   */
  lemma TerribleIff(info: AddrInfo, now: int)
    ensures IsTerrible(info, now) <==>
            && (info.nLastTry == 0 || info.nLastTry < now - 60)
            && (|| info.nTime > now + 600 || info.nTime == 0 || info.nTime < now - 2_592_000
                || (info.nLastSuccess == 0 && info.nAttempts >= 3)
                || (info.nLastSuccess < now - 604_800 && info.nAttempts >= 10))
  {
  }

  /** What the new table says about an entry and a slot. */
  lemma SlotFacts(h: Hashing, s: State, loose: set<int>, x: Slot, id: int)
    requires Core(h, s, loose) && id in s.mapInfo
    ensures x in s.news ==> s.news[x] in s.mapInfo
    ensures x in s.news && s.news[x] == id ==> s.mapInfo[id].nRefCount > 0
    ensures id != -1 && s.mapInfo[id].nRefCount >= 0 && {} + {id} == {id}
  {
    assert x in s.news ==> NewSlotOk(h, s, x);
    assert CountOk(s, loose, id);
    Unreferenced(h, s, loose, id);
    IdIsNatural(h, s, loose, id);
  }

  lemma AddressKnown(h: Hashing, s: State, loose: set<int>, id: int)
    requires Core(h, s, loose) && id in s.mapInfo
    ensures s.mapInfo[id].addr in s.mapAddr && s.mapAddr[s.mapInfo[id].addr] == id
    ensures s.mapInfo[id].nRefCount <= NEW_BUCKETS_PER_ADDRESS
    ensures !s.mapInfo[id].fInTried && id !in loose ==> s.mapInfo[id].nRefCount > 0
  {
    assert IdOk(s, id) && CountOk(s, loose, id);
  }

  lemma FlippedIds(m: map<int, AddrInfo>, m': map<int, AddrInfo>, id: int)
    requires id in m && !m[id].fInTried && m' == m[id := m[id].(fInTried := true)]
    ensures |NewIds(m')| == |NewIds(m)| - 1 && |TriedIds(m')| == |TriedIds(m)| + 1
  {
    assert NewIds(m') == NewIds(m) - {id} && id in NewIds(m);
    assert TriedIds(m') == TriedIds(m) + {id} && id !in TriedIds(m);
  }

  lemma NoLongerLoose(h: Hashing, s: State, loose: set<int>, id: int)
    requires Core(h, s, loose + {id}) && id in s.mapInfo && s.mapInfo[id].nRefCount > 0
    ensures Core(h, s, loose)
  {
    forall k | k in s.mapInfo
      ensures CountOk(s, loose, k)
    {
      assert CountOk(s, loose + {id}, k);
    }
  }

  lemma Loosen(h: Hashing, s: State, id: int)
    requires Core(h, s, {})
    ensures Core(h, s, {id})
  {
    forall k | k in s.mapInfo
      ensures CountOk(s, {id}, k)
    {
      assert CountOk(s, {}, k);
    }
  }

  /** In each bucket an entry can only be at its computed position. */
  lemma OneSlotPerBucket(h: Hashing, s: State, loose: set<int>, id: int, bucket: nat)
    requires Core(h, s, loose) && id in s.mapInfo
    ensures forall x :: x in s.news && s.news[x] == id && x.bucket == bucket ==>
              x == Slot(bucket, Position(h, true, bucket, s.mapInfo[id]))
  {
    assert forall x :: x in s.news ==> NewSlotOk(h, s, x);
  }

  lemma IdIsNatural(h: Hashing, s: State, loose: set<int>, id: int)
    requires Core(h, s, loose) && id in s.mapInfo
    ensures id != -1
  {
    assert IdOk(s, id);
  }

  lemma AllSlotsSeen(h: Hashing, s: State, loose: set<int>, id: int)
    requires Core(h, s, loose) && id in s.mapInfo
    requires forall x :: x in s.news && s.news[x] == id ==> x.bucket >= NEW_BUCKET_COUNT
    ensures s.mapInfo[id].nRefCount == 0 && Without(s.news, id) == s.news
  {
    assert forall x :: x in s.news ==> NewSlotOk(h, s, x);
    Unreferenced(h, s, loose, id);
  }

  /** Entries without references are not in the new table. */
  lemma VictimReferenced(h: Hashing, s: State, loose: set<int>, x: Slot)
    requires Core(h, s, loose) && forall k :: k in loose && k in s.mapInfo ==> s.mapInfo[k].nRefCount == 0
    ensures x in s.news ==> s.news[x] !in loose
  {
    if x in s.news {
      var id := s.news[x];
      assert NewSlotOk(h, s, x);
      Unreferenced(h, s, loose, id);
    }
  }
}
