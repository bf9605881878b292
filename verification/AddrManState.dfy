/**
 * The address manager's indexes as values (src/addrman.h): the consistency conditions of
 * CAddrMan::Check_ and the effect on them of each elementary change.
 */
module AddrManState {

  const NEW_BUCKET_COUNT: nat := 1024
  const TRIED_BUCKET_COUNT: nat := 256
  const BUCKET_SIZE: nat := 64
  const NEW_BUCKETS_PER_ADDRESS: nat := 8
  const TRIED_BUCKETS_PER_GROUP: nat := 8
  const NEW_BUCKETS_PER_SOURCE_GROUP: nat := 64

  /** A network address without its port. */
  type NetAddr = nat

  datatype AddrInfo = AddrInfo(
    addr: NetAddr,
    port: nat,
    services: set<nat>,
    nTime: int,
    source: NetAddr,
    nLastTry: int,
    nLastSuccess: int,
    nAttempts: int,
    nRefCount: int,
    fInTried: bool,
    nRandomPos: int)

  /** The keyed hashes behind the bucket functions, and the network group of an address; nothing about them is assumed. */
  datatype Hashing = Hashing(
    group: NetAddr -> nat,
    ofKey: (NetAddr, nat) -> nat,
    ofGroup: (nat, nat) -> nat,
    ofGroups: (nat, nat) -> nat,
    ofSource: (nat, nat) -> nat,
    position: (bool, nat, NetAddr, nat) -> nat)

  datatype Slot = Slot(bucket: nat, pos: nat)

  /** A bucket table without its empty (-1) slots. */
  type Table = map<Slot, int>

  function Position(h: Hashing, isNew: bool, bucket: nat, info: AddrInfo): nat {
    h.position(isNew, bucket, info.addr, info.port) % BUCKET_SIZE
  }

  /** GetTriedBucket with the position inside it. */
  function TriedSlot(h: Hashing, info: AddrInfo): Slot {
    var bucket := h.ofGroup(h.group(info.addr), h.ofKey(info.addr, info.port) % TRIED_BUCKETS_PER_GROUP) % TRIED_BUCKET_COUNT;
    Slot(bucket, Position(h, false, bucket, info))
  }

  /** GetNewBucket for a source, with the position inside it. */
  function NewSlot(h: Hashing, info: AddrInfo, source: NetAddr): Slot {
    var from := h.group(source);
    var bucket := h.ofSource(from, h.ofGroups(h.group(info.addr), from) % NEW_BUCKETS_PER_SOURCE_GROUP) % NEW_BUCKET_COUNT;
    Slot(bucket, Position(h, true, bucket, info))
  }

  /** Whatever addresses a network group announces, they end up in at most 64 of the 1024 new buckets. */
  lemma SourceGroupReach(h: Hashing, group: nat, reached: set<nat>)
    requires forall b :: b in reached ==> exists info: AddrInfo, source :: h.group(source) == group && NewSlot(h, info, source).bucket == b
    ensures |reached| <= 64 && forall b :: b in reached ==> b < 1024
  {
    var f := (i: nat) => h.ofSource(group, i) % 1024;
    var all := Images(64, f);
    FewImages(64, f);
    forall b | b in reached
      ensures b in all && b < 1024
    {
      var info: AddrInfo, source :| h.group(source) == group && NewSlot(h, info, source).bucket == b;
      var i: nat := h.ofGroups(h.group(info.addr), group) % 64;
      InImages(64, f, i);
      assert b == f(i);
    }
    Subset(reached, all);
  }

  /** The addresses of one network group end up in at most 8 of the 256 tried buckets. */
  lemma GroupReach(h: Hashing, group: nat, reached: set<nat>)
    requires forall b :: b in reached ==> exists info: AddrInfo :: h.group(info.addr) == group && TriedSlot(h, info).bucket == b
    ensures |reached| <= 8 && forall b :: b in reached ==> b < 256
  {
    var f := (i: nat) => h.ofGroup(group, i) % 256;
    var all := Images(8, f);
    FewImages(8, f);
    forall b | b in reached
      ensures b in all && b < 256
    {
      var info: AddrInfo :| h.group(info.addr) == group && TriedSlot(h, info).bucket == b;
      var i: nat := h.ofKey(info.addr, info.port) % 8;
      InImages(8, f, i);
      assert b == f(i);
    }
    Subset(reached, all);
  }

  ghost function Images(n: nat, f: nat -> nat): set<nat> {
    set i: nat | 0 <= i < n :: f(i)
  }

  lemma InImages(n: nat, f: nat -> nat, i: nat)
    requires i < n
    ensures f(i) in Images(n, f)
  {
  }

  lemma {:induction false} FewImages(n: nat, f: nat -> nat)
    ensures |Images(n, f)| <= n
  {
    if n > 0 {
      FewImages(n - 1, f);
      assert Images(n, f) == Images(n - 1, f) + {f(n - 1)};
    }
  }

  lemma {:induction false} Subset(a: set<nat>, b: set<nat>)
    requires a <= b
    ensures |a| <= |b|
    decreases b
  {
    if a != {} {
      var x :| x in a;
      Subset(a - {x}, b - {x});
    }
  }

  datatype State = State(
    mapInfo: map<int, AddrInfo>,
    mapAddr: map<NetAddr, int>,
    vRandom: seq<int>,
    tried: Table,
    news: Table,
    nIdCount: nat)

  lemma PickOne<T>(ids: set<T>) returns (id: T)
    requires ids != {}
    ensures id in ids
  {
    id :| id in ids;
  }

  /** The slots of the new table that refer to `id`. */
  ghost function Refs(news: Table, id: int): set<Slot> {
    set s | s in news && news[s] == id
  }

  ghost function TriedIds(mapInfo: map<int, AddrInfo>): set<int> {
    set id | id in mapInfo && mapInfo[id].fInTried
  }

  ghost function NewIds(mapInfo: map<int, AddrInfo>): set<int> {
    set id | id in mapInfo && !mapInfo[id].fInTried
  }

  /** The address of an entry leads back to it, and its position in vRandom too. */
  ghost predicate IdOk(s: State, id: int)
    requires id in s.mapInfo
  {
    var info := s.mapInfo[id];
    && info.addr in s.mapAddr && s.mapAddr[info.addr] == id
    && 0 <= id < s.nIdCount
    && 0 <= info.nRandomPos < |s.vRandom| && s.vRandom[info.nRandomPos] == id
  }

  /** mapAddr and vRandom are bijections with mapInfo. */
  ghost predicate IndexOk(s: State) {
    && (forall id {:trigger IdOk(s, id)} :: id in s.mapInfo ==> IdOk(s, id))
    && (forall a :: a in s.mapAddr ==> s.mapAddr[a] in s.mapInfo && s.mapInfo[s.mapAddr[a]].addr == a)
    && (forall i :: 0 <= i < |s.vRandom| ==> s.vRandom[i] in s.mapInfo && s.mapInfo[s.vRandom[i]].nRandomPos == i)
  }

  /** A tried slot holds a tried entry whose own slot it is. */
  ghost predicate TriedSlotOk(h: Hashing, s: State, x: Slot)
    requires x in s.tried
  {
    s.tried[x] in s.mapInfo && s.mapInfo[s.tried[x]].fInTried && x == TriedSlot(h, s.mapInfo[s.tried[x]])
  }

  /** A tried entry sits in its slot. */
  ghost predicate TriedIdOk(h: Hashing, s: State, id: int)
    requires id in s.mapInfo
  {
    s.mapInfo[id].fInTried ==> TriedSlot(h, s.mapInfo[id]) in s.tried && s.tried[TriedSlot(h, s.mapInfo[id])] == id
  }

  ghost predicate TriedOk(h: Hashing, s: State) {
    && (forall x {:trigger TriedSlotOk(h, s, x)} :: x in s.tried ==> TriedSlotOk(h, s, x))
    && (forall id {:trigger TriedIdOk(h, s, id)} :: id in s.mapInfo ==> TriedIdOk(h, s, id))
  }

  /** A new slot holds a new entry at its computed position. */
  ghost predicate NewSlotOk(h: Hashing, s: State, x: Slot)
    requires x in s.news
  {
    && s.news[x] in s.mapInfo && !s.mapInfo[s.news[x]].fInTried
    && x.bucket < NEW_BUCKET_COUNT && x.pos == Position(h, true, x.bucket, s.mapInfo[s.news[x]])
  }

  /** The reference count is the number of slots, at most eight, and zero only for tried or loose entries. */
  ghost predicate CountOk(s: State, loose: set<int>, id: int)
    requires id in s.mapInfo
  {
    && s.mapInfo[id].nRefCount == |Refs(s.news, id)| <= NEW_BUCKETS_PER_ADDRESS
    && (!s.mapInfo[id].fInTried && id !in loose ==> s.mapInfo[id].nRefCount > 0)
  }

  ghost predicate NewOk(h: Hashing, s: State, loose: set<int>) {
    && (forall x {:trigger NewSlotOk(h, s, x)} :: x in s.news ==> NewSlotOk(h, s, x))
    && (forall id {:trigger CountOk(s, loose, id)} :: id in s.mapInfo ==> CountOk(s, loose, id))
  }

  /** All indexes agree; only the entries of `loose` may be in neither table. */
  ghost predicate Core(h: Hashing, s: State, loose: set<int>) {
    IndexOk(s) && TriedOk(h, s) && NewOk(h, s, loose)
  }

  /** The part of an entry that decides its slots. */
  predicate SameIdentity(a: AddrInfo, b: AddrInfo) {
    a.addr == b.addr && a.port == b.port
  }

  /** The parts of an entry that the indexes depend on. */
  predicate SamePlace(a: AddrInfo, b: AddrInfo) {
    SameIdentity(a, b) && a.nRefCount == b.nRefCount && a.fInTried == b.fInTried && a.nRandomPos == b.nRandomPos
  }

  lemma Unreferenced(h: Hashing, s: State, loose: set<int>, id: int)
    requires NewOk(h, s, loose) && id in s.mapInfo
    ensures s.mapInfo[id].nRefCount == 0 <==> forall x :: x in s.news ==> s.news[x] != id
    ensures s.mapInfo[id].fInTried ==> s.mapInfo[id].nRefCount == 0
  {
    assert CountOk(s, loose, id);
    assert Refs(s.news, id) == {} <==> forall x :: x in s.news ==> s.news[x] != id by {
      assert forall x :: x in s.news && s.news[x] == id ==> x in Refs(s.news, id);
    }
    assert forall x :: x in s.news ==> NewSlotOk(h, s, x);
  }

  // Each of the three groups survives changes that do not concern it.

  lemma IndexKept(s: State, t: State)
    requires IndexOk(s)
    requires t.mapInfo.Keys == s.mapInfo.Keys && t.mapAddr == s.mapAddr && t.vRandom == s.vRandom && t.nIdCount == s.nIdCount
    requires forall id :: id in s.mapInfo ==>
               t.mapInfo[id].addr == s.mapInfo[id].addr && t.mapInfo[id].nRandomPos == s.mapInfo[id].nRandomPos
    ensures IndexOk(t)
  {
    forall id | id in t.mapInfo
      ensures IdOk(t, id)
    {
      assert IdOk(s, id);
    }
    forall a | a in t.mapAddr
      ensures t.mapAddr[a] in t.mapInfo && t.mapInfo[t.mapAddr[a]].addr == a
    {
      var id := s.mapAddr[a];
      assert t.mapInfo[id].addr == s.mapInfo[id].addr;
    }
    forall i | 0 <= i < |t.vRandom|
      ensures t.vRandom[i] in t.mapInfo && t.mapInfo[t.vRandom[i]].nRandomPos == i
    {
      var id := s.vRandom[i];
      assert t.mapInfo[id].nRandomPos == s.mapInfo[id].nRandomPos;
    }
  }

  lemma TriedKept(h: Hashing, s: State, t: State)
    requires TriedOk(h, s) && t.tried == s.tried && t.mapInfo.Keys == s.mapInfo.Keys
    requires forall id :: id in s.mapInfo ==>
               SameIdentity(t.mapInfo[id], s.mapInfo[id]) && t.mapInfo[id].fInTried == s.mapInfo[id].fInTried
    ensures TriedOk(h, t)
  {
    forall x | x in t.tried
      ensures TriedSlotOk(h, t, x)
    {
      assert TriedSlotOk(h, s, x);
      var id := s.tried[x];
      assert SameIdentity(t.mapInfo[id], s.mapInfo[id]);
    }
    forall id | id in t.mapInfo
      ensures TriedIdOk(h, t, id)
    {
      assert TriedIdOk(h, s, id) && SameIdentity(t.mapInfo[id], s.mapInfo[id]);
    }
  }

  lemma NewKept(h: Hashing, s: State, t: State, loose: set<int>)
    requires NewOk(h, s, loose) && t.news == s.news && t.mapInfo.Keys == s.mapInfo.Keys
    requires forall id :: id in s.mapInfo ==>
               && SameIdentity(t.mapInfo[id], s.mapInfo[id])
               && t.mapInfo[id].fInTried == s.mapInfo[id].fInTried && t.mapInfo[id].nRefCount == s.mapInfo[id].nRefCount
    ensures NewOk(h, t, loose)
  {
    forall x | x in t.news
      ensures NewSlotOk(h, t, x)
    {
      assert NewSlotOk(h, s, x);
      var id := s.news[x];
      assert SameIdentity(t.mapInfo[id], s.mapInfo[id]);
    }
    forall id | id in t.mapInfo
      ensures CountOk(t, loose, id)
    {
      assert CountOk(s, loose, id) && SameIdentity(t.mapInfo[id], s.mapInfo[id]);
    }
  }

  /** Statistics can change freely. */
  lemma UpdateStats(h: Hashing, s: State, loose: set<int>, id: int, info: AddrInfo)
    requires Core(h, s, loose) && id in s.mapInfo && SamePlace(s.mapInfo[id], info)
    ensures Core(h, s.(mapInfo := s.mapInfo[id := info]), loose)
    ensures TriedIds(s.mapInfo[id := info]) == TriedIds(s.mapInfo) && NewIds(s.mapInfo[id := info]) == NewIds(s.mapInfo)
  {
    var t := s.(mapInfo := s.mapInfo[id := info]);
    IndexKept(s, t);
    TriedKept(h, s, t);
    NewKept(h, s, t, loose);
  }

  /** Two entries trade places in vRandom. */
  function Swapped(s: State, i: nat, j: nat): State
    requires i < |s.vRandom| && j < |s.vRandom| && s.vRandom[i] in s.mapInfo && s.vRandom[j] in s.mapInfo
  {
    var (a, b) := (s.vRandom[i], s.vRandom[j]);
    var m := s.mapInfo[a := s.mapInfo[a].(nRandomPos := j)];
    s.(mapInfo := m[b := m[b].(nRandomPos := i)], vRandom := s.vRandom[i := b][j := a])
  }

  lemma SwapKeeps(h: Hashing, s: State, loose: set<int>, i: nat, j: nat)
    requires Core(h, s, loose) && i < |s.vRandom| && j < |s.vRandom| && i != j
    ensures s.vRandom[i] in s.mapInfo && s.vRandom[j] in s.mapInfo && Core(h, Swapped(s, i, j), loose)
    ensures var m := Swapped(s, i, j).mapInfo;
            m.Keys == s.mapInfo.Keys && forall id :: id in m ==> m[id] == s.mapInfo[id].(nRandomPos := m[id].nRandomPos)
  {
    var t := Swapped(s, i, j);
    TriedKept(h, s, t);
    NewKept(h, s, t, loose);
    forall id | id in t.mapInfo
      ensures IdOk(t, id)
    {
      assert IdOk(s, id);
    }
  }

  /** The last entry of vRandom goes away for good. */
  lemma DropLast(h: Hashing, s: State, t: State, loose: set<int>, id: int)
    requires Core(h, s, loose + {id}) && id in s.mapInfo && !s.mapInfo[id].fInTried && s.mapInfo[id].nRefCount == 0
    requires 0 <= s.mapInfo[id].nRandomPos == |s.vRandom| - 1
    requires t == s.(mapInfo := s.mapInfo - {id}, mapAddr := s.mapAddr - {s.mapInfo[id].addr}, vRandom := s.vRandom[..|s.vRandom| - 1])
    ensures Core(h, t, loose)
  {
    Unreferenced(h, s, loose + {id}, id);
    assert IdOk(s, id);
    forall k | k in t.mapInfo
      ensures IdOk(t, k) && TriedIdOk(h, t, k) && CountOk(t, loose, k)
    {
      assert IdOk(s, k) && TriedIdOk(h, s, k) && CountOk(s, loose + {id}, k);
    }
    forall x | x in t.tried
      ensures TriedSlotOk(h, t, x)
    {
      assert TriedSlotOk(h, s, x);
    }
    forall x | x in t.news
      ensures NewSlotOk(h, t, x)
    {
      assert NewSlotOk(h, s, x);
    }
  }

  /** Replacing the new table and the count that goes with it. */
  function WithRefs(s: State, news: Table, id: int, count: int): State
    requires id in s.mapInfo
  {
    s.(news := news, mapInfo := s.mapInfo[id := s.mapInfo[id].(nRefCount := count)])
  }

  lemma RefsChange(news: Table, x: Slot, id: int, k: int)
    ensures x in news ==> Refs(news - {x}, k) == if k == news[x] then Refs(news, k) - {x} else Refs(news, k)
    ensures x !in news ==> Refs(news[x := id], k) == if k == id then Refs(news, k) + {x} else Refs(news, k)
    ensures x !in news ==> x !in Refs(news, k)
    ensures x in news ==> x in Refs(news, news[x])
  {}

  /** A reference is taken out of the new table. */
  lemma RemoveRef(h: Hashing, s: State, loose: set<int>, x: Slot)
    requires Core(h, s, loose) && x in s.news
    ensures var id := s.news[x];
            && id in s.mapInfo && s.mapInfo[id].nRefCount > 0 && !s.mapInfo[id].fInTried
            && Core(h, WithRefs(s, s.news - {x}, id, s.mapInfo[id].nRefCount - 1), loose + {id})
  {
    var id := s.news[x];
    assert NewSlotOk(h, s, x) && CountOk(s, loose, id);
    RefsChange(s.news, x, id, id);
    hide Refs;
    var t := WithRefs(s, s.news - {x}, id, s.mapInfo[id].nRefCount - 1);
    IndexKept(s, t);
    TriedKept(h, s, t);
    forall y | y in t.news
      ensures NewSlotOk(h, t, y)
    {
      assert NewSlotOk(h, s, y);
    }
    forall k | k in t.mapInfo
      ensures CountOk(t, loose + {id}, k)
    {
      assert CountOk(s, loose, k);
      RefsChange(s.news, x, id, k);
    }
  }

  /** A reference is put into an empty slot of the new table. */
  lemma AddRef(h: Hashing, s: State, loose: set<int>, id: int, x: Slot)
    requires Core(h, s, loose) && id in s.mapInfo && !s.mapInfo[id].fInTried && x !in s.news
    requires s.mapInfo[id].nRefCount < NEW_BUCKETS_PER_ADDRESS
    requires x.bucket < NEW_BUCKET_COUNT && x.pos == Position(h, true, x.bucket, s.mapInfo[id])
    ensures Core(h, WithRefs(s, s.news[x := id], id, s.mapInfo[id].nRefCount + 1), loose - {id})
  {
    hide Refs;
    var t := WithRefs(s, s.news[x := id], id, s.mapInfo[id].nRefCount + 1);
    IndexKept(s, t);
    TriedKept(h, s, t);
    forall y | y in t.news
      ensures NewSlotOk(h, t, y)
    {
      assert y in s.news ==> NewSlotOk(h, s, y);
    }
    forall k | k in t.mapInfo
      ensures CountOk(t, loose - {id}, k)
    {
      assert CountOk(s, loose, k);
      RefsChange(s.news, x, id, k);
    }
  }

  /** Replacing the tried table and the flag that goes with it. */
  function WithTried(s: State, tried: Table, id: int, inTried: bool): State
    requires id in s.mapInfo
  {
    s.(tried := tried, mapInfo := s.mapInfo[id := s.mapInfo[id].(fInTried := inTried)])
  }

  /** An entry without references enters its tried slot. */
  lemma EnterTried(h: Hashing, s: State, loose: set<int>, id: int)
    requires Core(h, s, loose) && id in s.mapInfo && !s.mapInfo[id].fInTried && s.mapInfo[id].nRefCount == 0
    requires TriedSlot(h, s.mapInfo[id]) !in s.tried
    ensures Core(h, WithTried(s, s.tried[TriedSlot(h, s.mapInfo[id]) := id], id, true), loose - {id})
  {
    var slot := TriedSlot(h, s.mapInfo[id]);
    var t := WithTried(s, s.tried[slot := id], id, true);
    Unreferenced(h, s, loose, id);
    IndexKept(s, t);
    forall x | x in t.tried
      ensures TriedSlotOk(h, t, x)
    {
      assert x != slot ==> TriedSlotOk(h, s, x);
    }
    forall k | k in t.mapInfo
      ensures TriedIdOk(h, t, k) && CountOk(t, loose - {id}, k)
    {
      assert TriedIdOk(h, s, k) && CountOk(s, loose, k);
      assert SameIdentity(t.mapInfo[k], s.mapInfo[k]);
    }
    forall x | x in t.news
      ensures NewSlotOk(h, t, x)
    {
      assert NewSlotOk(h, s, x);
    }
  }

  /** An entry leaves its tried slot. */
  lemma LeaveTried(h: Hashing, s: State, loose: set<int>, x: Slot)
    requires Core(h, s, loose) && x in s.tried
    ensures var id := s.tried[x];
            && id in s.mapInfo && s.mapInfo[id].fInTried && s.mapInfo[id].nRefCount == 0
            && Core(h, WithTried(s, s.tried - {x}, id, false), loose + {id})
  {
    var id := s.tried[x];
    assert TriedSlotOk(h, s, x);
    var t := WithTried(s, s.tried - {x}, id, false);
    Unreferenced(h, s, loose, id);
    IndexKept(s, t);
    forall y | y in t.tried
      ensures TriedSlotOk(h, t, y)
    {
      assert TriedSlotOk(h, s, y);
    }
    forall k | k in t.mapInfo
      ensures TriedIdOk(h, t, k) && CountOk(t, loose + {id}, k)
    {
      assert TriedIdOk(h, s, k) && CountOk(s, loose, k);
      assert SameIdentity(t.mapInfo[k], s.mapInfo[k]);
    }
    forall y | y in t.news
      ensures NewSlotOk(h, t, y)
    {
      assert NewSlotOk(h, s, y);
    }
  }

  /** A new entry under a fresh id, at the end of vRandom and in neither table. */
  lemma AddEntry(h: Hashing, s: State, t: State, info: AddrInfo)
    requires Core(h, s, {}) && info.addr !in s.mapAddr
    requires info.nRefCount == 0 && !info.fInTried && info.nRandomPos == |s.vRandom|
    requires t == s.(mapInfo := s.mapInfo[s.nIdCount := info], mapAddr := s.mapAddr[info.addr := s.nIdCount],
                     vRandom := s.vRandom + [s.nIdCount], nIdCount := s.nIdCount + 1)
    ensures s.nIdCount !in s.mapInfo && Core(h, t, {s.nIdCount})
  {
    var id := s.nIdCount;
    assert id !in s.mapInfo by {
      assert forall k :: k in s.mapInfo ==> IdOk(s, k);
    }
    forall k | k in t.mapInfo
      ensures IdOk(t, k) && TriedIdOk(h, t, k) && CountOk(t, {id}, k)
    {
      if k != id {
        assert IdOk(s, k) && TriedIdOk(h, s, k) && CountOk(s, {}, k);
      } else {
        assert Refs(t.news, id) == {} by {
          assert forall x :: x in s.news ==> NewSlotOk(h, s, x);
        }
      }
    }
    forall x | x in t.tried
      ensures TriedSlotOk(h, t, x)
    {
      assert TriedSlotOk(h, s, x);
    }
    forall x | x in t.news
      ensures NewSlotOk(h, t, x)
    {
      assert NewSlotOk(h, s, x);
    }
  }
}
