/** Writing the address manager to a stream and reading it back (src/addrman.h:280-425). */
module AddrManSerialization {
  import opened AddrManState
  import opened AddrManRenumbering
  import opened AddrMan

  // ------------------------------------------------------------------------ writing

  /** Exactly the entries that are not tried have references. */
  lemma NewMeansReferenced(h: Hashing, s: State, id: int)
    requires Core(h, s, {}) && id in s.mapInfo
    ensures s.mapInfo[id].nRefCount != 0 <==> id in NewIds(s.mapInfo)
  {
    assert CountOk(s, {}, id);
    Unreferenced(h, s, {}, id);
  }

  lemma OrderNext(sel: set<int>, k: nat)
    ensures Order(sel, k + 1) == Order(sel, k) + (if k in sel then [k as int] else [])
  {
  }

  method Serialize(a: AddrMan) returns (r: Stream)
    requires a.Valid()
    ensures r == Written(a.h, a.St()) && r.nVersion == 1 && r.nKeySize == 32 && r.nUBuckets == 0x4000_0400
  {
    ghost var s := a.St();
    OrderSizes(s);
    OrderMembers(NewIds(s.mapInfo), s.nIdCount);
    OrderMembers(TriedIds(s.mapInfo), s.nIdCount);
    var newInfos, mapUnkIds := WriteNew(a);
    var triedInfos := WriteTried(a);
    var buckets := WriteBuckets(a, mapUnkIds);
    r := Stream(1, 32, a.h, a.nNew, a.nTried, FlipBit30(1024), newInfos, triedInfos, buckets);
  }

  /** All new entries in ascending order of ids, and the number of each. */
  method WriteNew(a: AddrMan) returns (infos: seq<AddrInfo>, mapUnkIds: map<int, int>)
    requires a.Valid()
    ensures (forall i :: 0 <= i < |NewOrder(a.St())| ==> NewOrder(a.St())[i] in a.mapInfo) && infos == StoredAll(a.St(), NewOrder(a.St()))
    ensures forall id :: id in NewIds(a.mapInfo) ==> id in mapUnkIds && mapUnkIds[id] == Rank(a.St(), id)
  {
    ghost var s := a.St();
    ghost var sel := NewIds(s.mapInfo);
    OrderSizes(s);
    infos, mapUnkIds := [], map[];
    var nIds := 0;
    assert forall k :: k in s.mapInfo ==> IdOk(s, k);
    for id := 0 to a.nIdCount
      invariant nIds == |Order(sel, id)| && (forall i :: 0 <= i < nIds ==> Order(sel, id)[i] in s.mapInfo)
      invariant infos == StoredAll(s, Order(sel, id))
      invariant forall k :: k in sel && k < id ==> k in mapUnkIds && mapUnkIds[k] == Rank(s, k)
    {
      OrderNext(sel, id);
      if id in a.mapInfo {
        NewMeansReferenced(a.h, s, id);
        mapUnkIds := mapUnkIds[id := nIds];
        if a.mapInfo[id].nRefCount != 0 {
          OrderIndex(sel, s.nIdCount, id);
          assert nIds != a.nNew;
          infos := infos + [Stored(a.mapInfo[id])];
          nIds := nIds + 1;
        }
      }
    }
  }

  method WriteTried(a: AddrMan) returns (infos: seq<AddrInfo>)
    requires a.Valid()
    ensures (forall i :: 0 <= i < |TriedOrder(a.St())| ==> TriedOrder(a.St())[i] in a.mapInfo) && infos == StoredAll(a.St(), TriedOrder(a.St()))
  {
    ghost var s := a.St();
    ghost var sel := TriedIds(s.mapInfo);
    OrderSizes(s);
    infos := [];
    var nIds := 0;
    for id := 0 to a.nIdCount
      invariant nIds == |Order(sel, id)| && (forall i :: 0 <= i < nIds ==> Order(sel, id)[i] in s.mapInfo)
      invariant infos == StoredAll(s, Order(sel, id))
    {
      OrderNext(sel, id);
      if id in a.mapInfo && a.mapInfo[id].fInTried {
        OrderIndex(sel, s.nIdCount, id);
        assert nIds != a.nTried;
        infos := infos + [Stored(a.mapInfo[id])];
        nIds := nIds + 1;
      }
    }
  }

  /** For every bucket of the new table the numbers of its entries, by position. */
  method WriteBuckets(a: AddrMan, mapUnkIds: map<int, int>) returns (buckets: seq<seq<int>>)
    requires a.Valid() && forall id :: id in NewIds(a.mapInfo) ==> id in mapUnkIds && mapUnkIds[id] == Rank(a.St(), id)
    ensures |buckets| == NEW_BUCKET_COUNT && forall b :: 0 <= b < NEW_BUCKET_COUNT ==> buckets[b] == Listed(a.St(), b, BUCKET_SIZE)
  {
    buckets := [];
    for bucket := 0 to NEW_BUCKET_COUNT
      invariant |buckets| == bucket && forall b :: 0 <= b < bucket ==> buckets[b] == Listed(a.St(), b, BUCKET_SIZE)
    {
      var list := WriteBucket(a, mapUnkIds, bucket);
      buckets := buckets + [list];
    }
  }

  method WriteBucket(a: AddrMan, mapUnkIds: map<int, int>, bucket: nat) returns (list: seq<int>)
    requires a.Valid() && bucket < NEW_BUCKET_COUNT
    requires forall id :: id in NewIds(a.mapInfo) ==> id in mapUnkIds && mapUnkIds[id] == Rank(a.St(), id)
    ensures list == Listed(a.St(), bucket, BUCKET_SIZE)
  {
    ghost var s := a.St();
    list := [];
    for i := 0 to BUCKET_SIZE
      invariant list == Listed(s, bucket, i)
    {
      a.NewAt(Slot(bucket, i));
      if a.vvNew[bucket, i] != -1 {
        assert NewSlotOk(a.h, s, Slot(bucket, i));
        ListedNext(s, bucket, i);
        list := list + [mapUnkIds[a.vvNew[bucket, i]]];
      }
    }
  }

  lemma ListedNext(s: State, bucket: nat, i: nat)
    requires Slot(bucket, i) in s.news
    ensures Listed(s, bucket, i + 1) == Listed(s, bucket, i) + [Rank(s, s.news[Slot(bucket, i)])]
  {
    UsedMembers(s.news, bucket, i);
    UsedMembers(s.news, bucket, i + 1);
  }

  // ------------------------------------------------------------------------ reading

  /** The first `k` entries as they are before their references have been counted. */
  ghost function Loaded(s: State, k: nat): map<int, AddrInfo>
    requires IndexOk(s) && k <= Size(s)
  {
    map n | 0 <= n < k :: NthInfo(s, n).(nRefCount := 0)
  }

  /** Addresses of the first `k` entries. */
  ghost function AddrUpTo(s: State, k: nat): map<NetAddr, int> {
    map a | a in s.mapAddr && Rank(s, s.mapAddr[a]) < k :: Rank(s, s.mapAddr[a])
  }

  ghost function TriedUpTo(s: State, k: nat): Table {
    map x | x in s.tried && Rank(s, s.tried[x]) < k :: Rank(s, s.tried[x])
  }

  /** References in the buckets before `bucket`, and the first `n` in that one. */
  ghost function NewsUpTo(s: State, bucket: nat, n: nat): Table
    requires n <= |Used(s.news, bucket, BUCKET_SIZE)|
  {
    map x | x in s.news && (x.bucket < bucket || (x.bucket == bucket && x.pos in Used(s.news, bucket, BUCKET_SIZE)[..n])) ::
      Rank(s, s.news[x])
  }

  /** The entries with the references of a partly filled new table. */
  ghost function InfoWith(s: State, news: Table): map<int, AddrInfo>
    requires IndexOk(s)
  {
    map n | 0 <= n < Size(s) :: NthInfo(s, n).(nRefCount := |Refs(news, n)|)
  }

  lemma AddrNext(s: State, k: nat)
    requires IndexOk(s) && k < Size(s)
    ensures AddrUpTo(s, k + 1) == AddrUpTo(s, k)[NthInfo(s, k).addr := k]
  {
    RankNth(s, k);
    var id := Nth(s, k);
    assert IdOk(s, id);
    forall a | a in s.mapAddr
      ensures Rank(s, s.mapAddr[a]) == k <==> a == s.mapInfo[id].addr
    {
      NthRank(s, s.mapAddr[a]);
    }
  }

  lemma AddrComplete(s: State)
    requires IndexOk(s)
    ensures AddrUpTo(s, Size(s)) == Renumbered(s).mapAddr && AddrUpTo(s, 0) == map[]
  {
    forall a | a in s.mapAddr
      ensures Rank(s, s.mapAddr[a]) < Size(s)
    {
      NthRank(s, s.mapAddr[a]);
    }
  }

  /** The next tried entry finds its slot empty. */
  lemma TriedNext(h: Hashing, s: State, k: nat)
    requires IndexOk(s) && TriedOk(h, s) && |NewOrder(s)| <= k < Size(s)
    ensures var x := TriedSlot(h, NthInfo(s, k)); x !in TriedUpTo(s, k) && TriedUpTo(s, k + 1) == TriedUpTo(s, k)[x := k]
  {
    RankNth(s, k);
    var id := Nth(s, k);
    assert TriedIdOk(h, s, id);
    forall x | x in s.tried
      ensures Rank(s, s.tried[x]) == k <==> x == TriedSlot(h, s.mapInfo[id])
    {
      assert TriedSlotOk(h, s, x);
      NthRank(s, s.tried[x]);
    }
  }

  lemma TriedBounds(h: Hashing, s: State)
    requires IndexOk(s) && TriedOk(h, s)
    ensures TriedUpTo(s, |NewOrder(s)|) == map[] && TriedUpTo(s, Size(s)) == RankTable(s, s.tried)
  {
    forall x | x in s.tried
      ensures |NewOrder(s)| <= Rank(s, s.tried[x]) < Size(s)
    {
      assert TriedSlotOk(h, s, x);
      NthRank(s, s.tried[x]);
    }
  }

  /** The next listed number leads to the slot it was listed for, which is empty and may be filled. */
  lemma NewsNext(h: Hashing, s: State, bucket: nat, n: nat)
    requires IndexOk(s) && NewOk(h, s, {}) && n < |Used(s.news, bucket, BUCKET_SIZE)|
    ensures var index, news := Listed(s, bucket, BUCKET_SIZE)[n], NewsUpTo(s, bucket, n);
            && 0 <= index < |NewOrder(s)| && |NewOrder(s)| <= Size(s) && bucket < NEW_BUCKET_COUNT
            && var x := Slot(bucket, Position(h, true, bucket, NthInfo(s, index)));
               && x !in news && NewsUpTo(s, bucket, n + 1) == news[x := index]
               && |Refs(news, index)| < NEW_BUCKETS_PER_ADDRESS
  {
    var used := Used(s.news, bucket, BUCKET_SIZE);
    UsedMembers(s.news, bucket, BUCKET_SIZE);
    var x := Slot(bucket, used[n]);
    var id := s.news[x];
    assert NewSlotOk(h, s, x);
    NthRank(s, id);
    var news := NewsUpTo(s, bucket, n);
    assert used[..n + 1] == used[..n] + [used[n]];
    assert NewsUpTo(s, bucket, n + 1) == news[x := Rank(s, id)];
    FewReferences(h, s, bucket, n, x);
  }

  lemma FewReferences(h: Hashing, s: State, bucket: nat, n: nat, x: Slot)
    requires IndexOk(s) && NewOk(h, s, {}) && n < |Used(s.news, bucket, BUCKET_SIZE)| && x in s.news && x !in NewsUpTo(s, bucket, n)
    ensures |Refs(NewsUpTo(s, bucket, n), Rank(s, s.news[x]))| < NEW_BUCKETS_PER_ADDRESS
  {
    var id := s.news[x];
    var news := NewsUpTo(s, bucket, n);
    assert forall y :: y in s.news ==> NewSlotOk(h, s, y);
    assert CountOk(s, {}, id);
    RankRefs(s, id);
    var all := Refs(s.news, id);
    assert Refs(news, Rank(s, id)) <= Refs(RankTable(s, s.news), Rank(s, id)) - {x};
    assert x in all;
    SubsetSize(Refs(news, Rank(s, id)), all - {x});
  }

  lemma {:induction false} SubsetSize<T>(a: set<T>, b: set<T>)
    requires a <= b
    ensures |a| <= |b|
  {
    if a != {} {
      var x :| x in a;
      SubsetSize(a - {x}, b - {x});
    }
  }

  lemma NewsBounds(h: Hashing, s: State, bucket: nat)
    requires IndexOk(s) && NewOk(h, s, {})
    ensures NewsUpTo(s, bucket, |Used(s.news, bucket, BUCKET_SIZE)|) == NewsUpTo(s, bucket + 1, 0)
    ensures NewsUpTo(s, 0, 0) == map[] && NewsUpTo(s, NEW_BUCKET_COUNT, 0) == RankTable(s, s.news)
  {
    var used := Used(s.news, bucket, BUCKET_SIZE);
    UsedMembers(s.news, bucket, BUCKET_SIZE);
    hide Used, Rank, IndexOk;
    assert used[..|used|] == used;
    assert forall x :: x in s.news ==> NewSlotOk(h, s, x);
  }

  lemma InfoStart(s: State)
    requires IndexOk(s)
    ensures InfoWith(s, map[]) == Loaded(s, Size(s))
  {
    assert forall n: nat :: Refs(map[], n) == {};
  }

  lemma InfoAt(s: State, news: Table, index: nat)
    requires IndexOk(s) && index < Size(s)
    ensures index in InfoWith(s, news) && InfoWith(s, news)[index] == NthInfo(s, index).(nRefCount := |Refs(news, index)|)
  {
  }

  lemma InfoNext(s: State, news: Table, x: Slot, index: nat)
    requires IndexOk(s) && x !in news && index < Size(s)
    ensures var m := InfoWith(s, news);
            index in m && InfoWith(s, news[x := index]) == m[index := m[index].(nRefCount := m[index].nRefCount + 1)]
  {
    hide IndexOk, Size;
    forall n: nat | n < Size(s)
      ensures |Refs(news[x := index], n)| == |Refs(news, n)| + (if n == index then 1 else 0)
    {
      RefsChange(news, x, index, n);
    }
  }

  lemma InfoComplete(h: Hashing, s: State)
    requires IndexOk(s) && NewOk(h, s, {})
    ensures InfoWith(s, RankTable(s, s.news)) == RestoredInfo(s, Size(s))
  {
    forall n: nat | n < Size(s)
      ensures |Refs(RankTable(s, s.news), n)| == NthInfo(s, n).nRefCount
    {
      RankNth(s, n);
      assert forall x :: x in s.news ==> NewSlotOk(h, s, x);
      assert CountOk(s, {}, Nth(s, n));
      RankRefs(s, Nth(s, n));
    }
  }

  /** What the stream holds for number `n`. */
  lemma StoredNth(h: Hashing, s: State, n: nat)
    requires IndexOk(s) && n < Size(s)
    ensures var st := Written(h, s);
            var info := if n < |NewOrder(s)| then st.newInfos[n] else st.triedInfos[n - |NewOrder(s)|];
            && info == Stored(NthInfo(s, n))
            && NthInfo(s, n).(nRefCount := 0) == info.(nRandomPos := n, fInTried := n >= |NewOrder(s)|)
  {
    RankNth(s, n);
  }

  lemma WrittenShape(h: Hashing, s: State)
    ensures var st := Written(h, s);
            && st.key == h && st.nVersion == 1 && st.nNew == |st.newInfos| == |NewOrder(s)| && st.nTried == |st.triedInfos| == |TriedOrder(s)|
            && FlipBit30(st.nUBuckets) as nat == NEW_BUCKET_COUNT == |st.buckets|
            && forall b :: 0 <= b < NEW_BUCKET_COUNT ==> st.buckets[b] == Listed(s, b, BUCKET_SIZE)
  {
  }

  lemma LoadedNext(s: State, n: nat)
    requires IndexOk(s) && n < Size(s)
    ensures Loaded(s, n + 1) == Loaded(s, n)[n := NthInfo(s, n).(nRefCount := 0)]
    ensures seq(n + 1, i => i) == seq(n, i => i) + [n]
  {
  }

  /** The indexes after the first `n` entries have been read. */
  ghost predicate ReadUpTo(a: AddrMan, s: State, n: nat)
    requires IndexOk(s) && n <= Size(s)
    reads a
  {
    a.mapInfo == Loaded(s, n) && a.mapAddr == AddrUpTo(s, n) && a.vRandom == seq(n, i => i)
  }

  method ReadNew(a: AddrMan, st: Stream, ghost s: State)
    requires Core(st.key, s, {}) && st == Written(st.key, s) && ReadUpTo(a, s, 0) && a.nNew == st.nNew
    modifies a`mapInfo, a`mapAddr, a`vRandom, a`nIdCount
    ensures ReadUpTo(a, s, |NewOrder(s)|) && a.nIdCount == |NewOrder(s)|
  {
    for n := 0 to a.nNew
      invariant ReadUpTo(a, s, n)
    {
      StoredNth(st.key, s, n);
      LoadedNext(s, n);
      AddrNext(s, n);
      hide *;
      var info := st.newInfos[n];
      a.mapAddr := a.mapAddr[info.addr := n];
      info := info.(nRandomPos := |a.vRandom|);
      a.vRandom := a.vRandom + [n];
      a.mapInfo := a.mapInfo[n := info];
    }
    a.nIdCount := a.nNew;
  }

  method ReadTried(a: AddrMan, st: Stream, ghost s: State) returns (nLost: int)
    requires Core(st.key, s, {}) && st == Written(st.key, s) && a.h == st.key && a.Shape()
    requires ReadUpTo(a, s, |NewOrder(s)|) && a.nIdCount == |NewOrder(s)| && a.nTried == st.nTried && TableOf(a.vvTried) == map[]
    modifies a`mapInfo, a`mapAddr, a`vRandom, a`nIdCount, a.vvTried
    ensures ReadUpTo(a, s, Size(s)) && a.nIdCount == Size(s) && nLost == 0 && TableOf(a.vvTried) == RankTable(s, s.tried)
  {
    WrittenShape(st.key, s);
    hide Written, TriedUpTo, AddrUpTo, Loaded, RankTable, IndexOk, TriedOk, NewOk, TableOf, NthInfo, NewOrder, TriedOrder, Listed;
    nLost := 0;
    TriedBounds(st.key, s);
    for n := 0 to a.nTried
      invariant ReadUpTo(a, s, |NewOrder(s)| + n) && a.nIdCount == |NewOrder(s)| + n && nLost == 0
      invariant TableOf(a.vvTried) == TriedUpTo(s, |NewOrder(s)| + n)
    {
      ghost var k := |NewOrder(s)| + n;
      StoredNth(st.key, s, k);
      LoadedNext(s, k);
      AddrNext(s, k);
      TriedNext(st.key, s, k);
      var info := st.triedInfos[n];
      var x := TriedSlot(a.h, info);
      a.TriedAt(x);
      if a.vvTried[x.bucket, x.pos] == -1 {
        info := info.(nRandomPos := |a.vRandom|, fInTried := true);
        a.vRandom := a.vRandom + [a.nIdCount];
        a.mapInfo := a.mapInfo[a.nIdCount := info];
        a.mapAddr := a.mapAddr[info.addr := a.nIdCount];
        a.SetTried(x, a.nIdCount);
        a.nIdCount := a.nIdCount + 1;
      } else {
        nLost := nLost + 1;
      }
    }
  }

  method ReadBuckets(a: AddrMan, st: Stream, nUBuckets: nat, ghost s: State)
    requires Core(st.key, s, {}) && st == Written(st.key, s) && a.h == st.key && a.Shape() && nUBuckets == NEW_BUCKET_COUNT
    requires a.mapInfo == Loaded(s, Size(s)) && TableOf(a.vvNew) == map[] && a.nNew == st.nNew
    modifies a`mapInfo, a.vvNew
    ensures a.mapInfo == RestoredInfo(s, Size(s)) && TableOf(a.vvNew) == RankTable(s, s.news)
  {
    hide Written, NewsUpTo, InfoWith, IndexOk, TriedOk, NewOk, TableOf, RankTable, Loaded, RestoredInfo, NewOrder, TriedOrder, Used;
    InfoStart(s);
    NewsBounds(st.key, s, 0);
    for bucket := 0 to nUBuckets
      invariant TableOf(a.vvNew) == NewsUpTo(s, bucket, 0) && a.mapInfo == InfoWith(s, NewsUpTo(s, bucket, 0))
    {
      ReadBucket(a, st, nUBuckets, bucket, s);
      NewsBounds(st.key, s, bucket);
    }
    InfoComplete(st.key, s);
  }

  method ReadBucket(a: AddrMan, st: Stream, nUBuckets: nat, bucket: nat, ghost s: State)
    requires Core(st.key, s, {}) && st == Written(st.key, s) && a.h == st.key && a.Shape()
    requires bucket < nUBuckets == NEW_BUCKET_COUNT && a.nNew == st.nNew
    requires TableOf(a.vvNew) == NewsUpTo(s, bucket, 0) && a.mapInfo == InfoWith(s, NewsUpTo(s, bucket, 0))
    modifies a`mapInfo, a.vvNew
    ensures var n := |Used(s.news, bucket, BUCKET_SIZE)|;
            TableOf(a.vvNew) == NewsUpTo(s, bucket, n) && a.mapInfo == InfoWith(s, NewsUpTo(s, bucket, n))
  {
    WrittenShape(st.key, s);
    hide Written, NewsUpTo, InfoWith, IndexOk, TriedOk, NewOk, TableOf, NewOrder, TriedOrder, Listed, Used, Refs;
    var list := st.buckets[bucket];
    for n := 0 to |list|
      invariant TableOf(a.vvNew) == NewsUpTo(s, bucket, n) && a.mapInfo == InfoWith(s, NewsUpTo(s, bucket, n))
    {
      NewsNext(st.key, s, bucket, n);
      var nIndex := list[n];
      if 0 <= nIndex < a.nNew {
        InfoAt(s, NewsUpTo(s, bucket, n), nIndex);
        var info := a.mapInfo[nIndex];
        var x := Slot(bucket, Position(a.h, true, bucket, info));
        InfoNext(s, NewsUpTo(s, bucket, n), x, nIndex);
        a.NewAt(x);
        if st.nVersion == 1 && nUBuckets == NEW_BUCKET_COUNT && a.vvNew[x.bucket, x.pos] == -1
           && info.nRefCount < NEW_BUCKETS_PER_ADDRESS {
          a.mapInfo := a.mapInfo[nIndex := info.(nRefCount := info.nRefCount + 1)];
          a.SetNew(x, nIndex);
        }
      }
    }
  }

  /** Reading back what a consistent manager wrote: the same tables up to renumbering, nothing lost. */
  method Unserialize(st: Stream, ghost s: State) returns (a: AddrMan)
    requires Core(st.key, s, {}) && st == Written(st.key, s)
    ensures fresh(a) && fresh(a.vvNew) && fresh(a.vvTried)
    ensures a.h == st.key && a.St() == Renumbered(s) && a.Valid()
  {
    hide Written, Core, TableOf, Renumbered;
    a := new AddrMan(st.key);
    ReadAll(a, st, s);
    PruneNothing(a);
  }

  method ReadAll(a: AddrMan, st: Stream, ghost s: State)
    requires Core(st.key, s, {}) && st == Written(st.key, s) && a.h == st.key && a.Shape()
    requires a.mapInfo == map[] && a.mapAddr == map[] && a.vRandom == [] && TableOf(a.vvTried) == map[] && TableOf(a.vvNew) == map[]
    modifies a, a.vvTried, a.vvNew
    ensures a.St() == Renumbered(s) && a.Valid()
  {
    WrittenShape(st.key, s);
    NothingLoaded(s);
    hide Written, AddrUpTo, Loaded, RestoredInfo, RankTable, TableOf, Renumbered, NewOrder, TriedOrder, FlipBit30, IndexOk, TriedOk, NewOk;
    a.nNew, a.nTried := st.nNew, st.nTried;
    var nUBuckets := st.nUBuckets;
    if st.nVersion != 0 {
      nUBuckets := FlipBit30(nUBuckets);
    }
    ReadNew(a, st, s);
    var nLost := ReadTried(a, st, s);
    a.nTried := a.nTried - nLost;
    ReadBuckets(a, st, nUBuckets as nat, s);
    Assembled(s);
    RenumberedValid(a, s);
  }

  lemma RenumberedValid(a: AddrMan, s: State)
    requires Core(a.h, s, {}) && a.Shape() && a.St() == Renumbered(s) && a.nNew == |NewOrder(s)| && a.nTried == |TriedOrder(s)|
    ensures a.Valid()
  {
    RenumberedCore(a.h, s);
    RenumberedSizes(s);
    hide Core, TableOf, NewIds, TriedIds;
    assert |a.vRandom| == Size(s);
  }

  lemma Assembled(s: State)
    requires IndexOk(s)
    ensures Renumbered(s) == State(RestoredInfo(s, Size(s)), AddrUpTo(s, Size(s)), seq(Size(s), i => i),
                                   RankTable(s, s.tried), RankTable(s, s.news), Size(s))
  {
    AddrComplete(s);
  }

  lemma NothingLoaded(s: State)
    requires IndexOk(s)
    ensures Loaded(s, 0) == map[] && AddrUpTo(s, 0) == map[] && seq(0, i => i) == []
  {
    AddrComplete(s);
  }

  lemma RenumberedSizes(s: State)
    requires IndexOk(s)
    ensures |NewIds(Renumbered(s).mapInfo)| == |NewOrder(s)| && |TriedIds(Renumbered(s).mapInfo)| == |TriedOrder(s)|
  {
    var t, k := Renumbered(s), |NewOrder(s)|;
    forall n: nat | n < Size(s)
      ensures (n in NewIds(t.mapInfo) <==> n < k) && (n in TriedIds(t.mapInfo) <==> n >= k)
    {
      RankNth(s, n);
    }
    IntervalSize(NewIds(t.mapInfo), 0, k);
    IntervalSize(TriedIds(t.mapInfo), k, Size(s));
  }

  lemma {:induction false} IntervalSize(sel: set<int>, lo: int, hi: int)
    requires lo <= hi && forall n :: n in sel <==> lo <= n < hi
    ensures |sel| == hi - lo
    decreases hi - lo
  {
    if lo < hi {
      IntervalSize(sel - {hi - 1}, lo, hi - 1);
    } else if sel != {} {
      var n := PickOne(sel);
    }
  }

  /** Every entry has kept a reference or its place in the tried table, so the final clean-up finds nothing. */
  method PruneNothing(a: AddrMan)
    requires a.Linked({})
    ensures forall id :: id in a.mapInfo ==> a.mapInfo[id].fInTried || a.mapInfo[id].nRefCount > 0
  {
    for id := 0 to a.nIdCount
      invariant forall k :: 0 <= k < id && k in a.mapInfo ==> a.mapInfo[k].fInTried || a.mapInfo[k].nRefCount > 0
    {
      if id in a.mapInfo {
        assert CountOk(a.St(), {}, id);
        if !a.mapInfo[id].fInTried && a.mapInfo[id].nRefCount == 0 {
          assert false;
        }
      }
    }
    assert forall id :: id in a.mapInfo ==> IdOk(a.St(), id);
  }

  /** Every entry survives under its number, with everything but the memory-only statistics. */
  lemma EntriesSurvive(s: State, id: int)
    requires IndexOk(s) && id in s.mapInfo
    ensures var t, n := Renumbered(s), Rank(s, id);
            && n in t.mapInfo && t.mapInfo[n] == s.mapInfo[id].(nLastTry := 0, nRandomPos := n)
            && s.mapInfo[id].addr in t.mapAddr && t.mapAddr[s.mapInfo[id].addr] == n
            && |t.mapInfo| == |s.mapInfo|
  {
    NthRank(s, id);
    assert IdOk(s, id);
    OrderSizes(s);
    var t := Renumbered(s);
    IntervalSize(t.mapInfo.Keys, 0, Size(s));
    assert s.mapInfo.Keys == NewIds(s.mapInfo) + TriedIds(s.mapInfo);
  }

  lemma RenumberedTimes(s: State)
    requires IndexOk(s)
    ensures TimesOk(s.mapInfo) ==> TimesOk(Renumbered(s).mapInfo)
  {
    forall n: nat | n < Size(s)
      ensures Nth(s, n) in s.mapInfo
    {
      RankNth(s, n);
    }
  }

  lemma IndexPart(h: Hashing, s: State)
    requires Core(h, s, {})
    ensures IndexOk(s)
  {
  }

  /** Writing a consistent manager and reading it into a fresh one. */
  method SaveAndLoad(a: AddrMan) returns (b: AddrMan)
    requires a.Valid()
    ensures fresh(b) && b.Valid() && b.h == a.h && b.nNew == a.nNew && b.nTried == a.nTried
    ensures b.St() == Renumbered(a.St())
    ensures TimesOk(a.mapInfo) ==> TimesOk(b.mapInfo)
  {
    hide Core, TableOf, Renumbered, Written, NewIds, TriedIds, TimesOk;
    ghost var s := a.St();
    var st := Serialize(a);
    WrittenShape(a.h, s);
    IndexPart(a.h, s);
    OrderSizes(s);
    RenumberedSizes(s);
    RenumberedTimes(s);
    b := Unserialize(st, s);
  }
}
