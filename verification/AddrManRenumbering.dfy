/**
 * The serialized form of the address manager (src/addrman.h:258-327) and the renumbering of ids that writing and
 * reading it back amounts to: new entries first, then tried ones, each in the order of their old ids.
 */
module AddrManRenumbering {
  import opened AddrManState

  // ------------------------------------------------------------- ids in ascending order

  /** The members of a set of ids below `k`, in ascending order. */
  ghost function Order(sel: set<int>, k: nat): seq<int> {
    if k == 0 then [] else Order(sel, k - 1) + (if k - 1 in sel then [k - 1] else [])
  }

  lemma {:induction false} OrderMembers(sel: set<int>, k: nat)
    ensures forall i :: 0 <= i < |Order(sel, k)| ==> Order(sel, k)[i] in sel && 0 <= Order(sel, k)[i] < k
    ensures forall i, j :: 0 <= i < j < |Order(sel, k)| ==> Order(sel, k)[i] < Order(sel, k)[j]
  {
    if k > 0 {
      OrderMembers(sel, k - 1);
    }
  }

  /** An id's index is the number of members before it. */
  lemma {:induction false} OrderIndex(sel: set<int>, k: nat, id: nat)
    requires id in sel && id < k
    ensures |Order(sel, id)| < |Order(sel, k)| && Order(sel, k)[|Order(sel, id)|] == id
  {
    if id < k - 1 {
      OrderIndex(sel, k - 1, id);
    }
  }

  lemma {:induction false} OrderSize(sel: set<int>, k: nat)
    requires forall id :: id in sel ==> 0 <= id < k
    ensures |Order(sel, k)| == |sel|
  {
    if k == 0 {
      if sel != {} {
        var id := PickOne(sel);
      }
    } else {
      var rest := sel - {k - 1};
      OrderSize(rest, k - 1);
      OrderSame(sel, rest, k - 1);
      if k - 1 in sel {
        assert |sel| == |rest| + 1;
      } else {
        assert sel == rest;
      }
    }
  }

  lemma {:induction false} OrderSame(sel: set<int>, sel': set<int>, k: nat)
    requires forall id :: 0 <= id < k ==> (id in sel <==> id in sel')
    ensures Order(sel, k) == Order(sel', k)
  {
    if k > 0 {
      OrderSame(sel, sel', k - 1);
    }
  }

  // ------------------------------------------------------------------ the renumbering

  ghost function NewOrder(s: State): seq<int> {
    Order(NewIds(s.mapInfo), s.nIdCount)
  }

  ghost function TriedOrder(s: State): seq<int> {
    Order(TriedIds(s.mapInfo), s.nIdCount)
  }

  ghost function Size(s: State): nat {
    |NewOrder(s)| + |TriedOrder(s)|
  }

  /** The entry that gets number `n`. */
  ghost function Nth(s: State, n: nat): int
    requires n < Size(s)
  {
    if n < |NewOrder(s)| then NewOrder(s)[n] else TriedOrder(s)[n - |NewOrder(s)|]
  }

  /** The number an entry gets. */
  ghost function Rank(s: State, id: int): nat {
    if id in NewIds(s.mapInfo) then |Order(NewIds(s.mapInfo), Natural(id))|
    else |NewOrder(s)| + |Order(TriedIds(s.mapInfo), Natural(id))|
  }

  function Natural(id: int): nat {
    if id < 0 then 0 else id
  }

  /** Numbers and entries are in bijection, new entries before tried ones. */
  lemma RankNth(s: State, n: nat)
    requires IndexOk(s) && n < Size(s)
    ensures Nth(s, n) in s.mapInfo && Rank(s, Nth(s, n)) == n && (s.mapInfo[Nth(s, n)].fInTried <==> n >= |NewOrder(s)|)
  {
    var N, T := NewIds(s.mapInfo), TriedIds(s.mapInfo);
    OrderMembers(N, s.nIdCount);
    OrderMembers(T, s.nIdCount);
    var id := Nth(s, n);
    if n < |NewOrder(s)| {
      OrderIndex(N, s.nIdCount, id);
    } else {
      OrderIndex(T, s.nIdCount, id);
    }
  }

  lemma NthRank(s: State, id: int)
    requires IndexOk(s) && id in s.mapInfo
    ensures 0 <= id < s.nIdCount && Rank(s, id) < Size(s) && Nth(s, Rank(s, id)) == id
    ensures s.mapInfo[id].fInTried <==> Rank(s, id) >= |NewOrder(s)|
  {
    assert IdOk(s, id);
    if id in NewIds(s.mapInfo) {
      OrderIndex(NewIds(s.mapInfo), s.nIdCount, id);
    } else {
      assert id in TriedIds(s.mapInfo);
      OrderIndex(TriedIds(s.mapInfo), s.nIdCount, id);
    }
  }

  /** What is stored of an entry, as it is after reading it back under number `n`. */
  function Restored(info: AddrInfo, n: nat): AddrInfo {
    info.(nLastTry := 0, nRandomPos := n)
  }

  /** A table with its ids renumbered. */
  ghost function RankTable(s: State, t: Table): Table {
    map x | x in t :: Rank(s, t[x])
  }

  /** The state after writing and reading back. */
  ghost function Renumbered(s: State): State
    requires IndexOk(s)
  {
    State(RestoredInfo(s, Size(s)), map a | a in s.mapAddr :: Rank(s, s.mapAddr[a]), seq(Size(s), i => i),
          RankTable(s, s.tried), RankTable(s, s.news), Size(s))
  }

  /** The first `k` entries, renumbered. */
  ghost function RestoredInfo(s: State, k: nat): map<int, AddrInfo>
    requires IndexOk(s) && k <= Size(s)
  {
    map n | 0 <= n < k :: NthInfo(s, n)
  }

  ghost function NthInfo(s: State, n: nat): AddrInfo
    requires IndexOk(s) && n < Size(s)
  {
    RankNth(s, n);
    Restored(s.mapInfo[Nth(s, n)], n)
  }

  /** References to an entry are references to its number. */
  lemma RankRefs(s: State, id: int)
    requires IndexOk(s) && id in s.mapInfo && forall x :: x in s.news ==> s.news[x] in s.mapInfo
    ensures Refs(RankTable(s, s.news), Rank(s, id)) == Refs(s.news, id)
  {
    forall x | x in s.news
      ensures RankTable(s, s.news)[x] == Rank(s, id) <==> s.news[x] == id
    {
      NthRank(s, s.news[x]);
      NthRank(s, id);
    }
  }

  /** Renumbering keeps every index consistent. */
  lemma RenumberedCore(h: Hashing, s: State)
    requires Core(h, s, {})
    ensures Core(h, Renumbered(s), {})
  {
    RenumberedIndex(s);
    RenumberedTried(h, s);
    RenumberedNew(h, s);
  }

  lemma RenumberedIndex(s: State)
    requires IndexOk(s)
    ensures IndexOk(Renumbered(s))
  {
    var t := Renumbered(s);
    forall n | n in t.mapInfo
      ensures IdOk(t, n)
    {
      RankNth(s, n);
      assert IdOk(s, Nth(s, n));
    }
    forall a | a in t.mapAddr
      ensures t.mapAddr[a] in t.mapInfo && t.mapInfo[t.mapAddr[a]].addr == a
    {
      NthRank(s, s.mapAddr[a]);
    }
  }

  lemma RenumberedTried(h: Hashing, s: State)
    requires IndexOk(s) && TriedOk(h, s)
    ensures TriedOk(h, Renumbered(s))
  {
    var t := Renumbered(s);
    forall x | x in t.tried
      ensures TriedSlotOk(h, t, x)
    {
      assert TriedSlotOk(h, s, x);
      NthRank(s, s.tried[x]);
    }
    forall n | n in t.mapInfo
      ensures TriedIdOk(h, t, n)
    {
      RankNth(s, n);
      assert TriedIdOk(h, s, Nth(s, n));
    }
  }

  lemma RenumberedNew(h: Hashing, s: State)
    requires IndexOk(s) && NewOk(h, s, {})
    ensures NewOk(h, Renumbered(s), {})
  {
    var t := Renumbered(s);
    forall x | x in t.news
      ensures NewSlotOk(h, t, x)
    {
      assert NewSlotOk(h, s, x);
      NthRank(s, s.news[x]);
    }
    forall n | n in t.mapInfo
      ensures CountOk(t, {}, n)
    {
      RankNth(s, n);
      var id := Nth(s, n);
      assert CountOk(s, {}, id);
      assert forall x :: x in s.news ==> NewSlotOk(h, s, x);
      RankRefs(s, id);
    }
  }

  /** Sizes of the two groups. */
  lemma OrderSizes(s: State)
    requires IndexOk(s)
    ensures |NewOrder(s)| == |NewIds(s.mapInfo)| && |TriedOrder(s)| == |TriedIds(s.mapInfo)|
  {
    assert forall id :: id in s.mapInfo ==> IdOk(s, id);
    OrderSize(NewIds(s.mapInfo), s.nIdCount);
    OrderSize(TriedIds(s.mapInfo), s.nIdCount);
  }

  // -------------------------------------------------------------------- the stream

  /** What is written of an entry. */
  function Stored(info: AddrInfo): AddrInfo {
    info.(nLastTry := 0, nRefCount := 0, fInTried := false, nRandomPos := -1)
  }

  /** The fields in the order they are written; the key stands for the bucket functions it determines. */
  datatype Stream = Stream(
    nVersion: nat,
    nKeySize: nat,
    key: Hashing,
    nNew: int,
    nTried: int,
    nUBuckets: bv32,
    newInfos: seq<AddrInfo>,
    triedInfos: seq<AddrInfo>,
    buckets: seq<seq<int>>)

  function FlipBit30(x: bv32): bv32 {
    x ^ 0x4000_0000
  }

  /** Used positions of a bucket below `k`, ascending. */
  ghost function Used(t: Table, bucket: nat, k: nat): seq<nat> {
    if k == 0 then [] else Used(t, bucket, k - 1) + (if Slot(bucket, k - 1) in t then [k - 1] else [])
  }

  lemma {:induction false} UsedMembers(t: Table, bucket: nat, k: nat)
    ensures forall i :: 0 <= i < |Used(t, bucket, k)| ==> Used(t, bucket, k)[i] < k && Slot(bucket, Used(t, bucket, k)[i]) in t
    ensures forall i, j :: 0 <= i < j < |Used(t, bucket, k)| ==> Used(t, bucket, k)[i] < Used(t, bucket, k)[j]
    ensures forall p :: 0 <= p < k && Slot(bucket, p) in t ==> p in Used(t, bucket, k)
  {
    if k > 0 {
      UsedMembers(t, bucket, k - 1);
    }
  }

  /** The numbers listed for a bucket, up to position `k`. */
  ghost function Listed(s: State, bucket: nat, k: nat): (r: seq<int>)
    ensures |r| == |Used(s.news, bucket, k)|
  {
    UsedMembers(s.news, bucket, k);
    seq(|Used(s.news, bucket, k)|, i requires 0 <= i < |Used(s.news, bucket, k)| => Rank(s, s.news[Slot(bucket, Used(s.news, bucket, k)[i])]))
  }

  ghost function StoredAll(s: State, ids: seq<int>): seq<AddrInfo>
    requires forall i :: 0 <= i < |ids| ==> ids[i] in s.mapInfo
  {
    seq(|ids|, i requires 0 <= i < |ids| => Stored(s.mapInfo[ids[i]]))
  }

  ghost function Written(h: Hashing, s: State): Stream {
    OrderMembers(NewIds(s.mapInfo), s.nIdCount);
    OrderMembers(TriedIds(s.mapInfo), s.nIdCount);
    Stream(1, 32, h, |NewOrder(s)|, |TriedOrder(s)|, FlipBit30(1024),
           StoredAll(s, NewOrder(s)), StoredAll(s, TriedOrder(s)),
           seq(NEW_BUCKET_COUNT, b requires 0 <= b < NEW_BUCKET_COUNT => Listed(s, b, BUCKET_SIZE)))
  }
}
