/**
 * The block index as a tree of pointers (src/chain.h, src/chain.cpp): skip pointers and ancestor
 * lookup. Pointers are the keys of the index; NIL is the null pointer.
 */
module BlockTree {
  import opened Numbers
  import opened Primitives

  datatype BlockIndex = BlockIndex(
    pprev: BlockPtr,
    pskip: BlockPtr,
    nHeight: nat,
    nChainWork: nat,
    nTx: nat,
    nChainTx: nat,
    nSequenceId: nat,
    haveData: bool,
    failedValid: bool,
    failedChild: bool)
  {
    predicate Failed() { failedValid || failedChild }
  }

  type Tree = map<BlockPtr, BlockIndex>

  /** A parent is indexed and one lower; only blocks of height zero have none. */
  ghost predicate NodeOk(t: Tree, b: BlockPtr)
    requires b in t
  {
    if t[b].pprev == NIL then t[b].nHeight == 0
    else t[b].pprev in t && t[b].nHeight == t[t[b].pprev].nHeight + 1
  }

  ghost predicate TreeOk(t: Tree) {
    && NIL !in t
    && forall b {:trigger NodeOk(t, b)} :: b in t ==> NodeOk(t, b)
  }

  /** The ancestor at height `h`, found by following parents one at a time. */
  ghost function WalkTo(t: Tree, b: BlockPtr, h: nat): (a: BlockPtr)
    requires TreeOk(t) && b in t && h <= t[b].nHeight
    ensures a in t && t[a].nHeight == h
    decreases t[b].nHeight
  {
    assert NodeOk(t, b);
    if t[b].nHeight == h then b else WalkTo(t, t[b].pprev, h)
  }

  lemma {:induction false} WalkCompose(t: Tree, b: BlockPtr, k: nat, h: nat)
    requires TreeOk(t) && b in t && h <= k <= t[b].nHeight
    ensures WalkTo(t, WalkTo(t, b, k), h) == WalkTo(t, b, h)
    decreases t[b].nHeight
  {
    assert NodeOk(t, b);
    if k < t[b].nHeight {
      WalkCompose(t, t[b].pprev, k, h);
    }
  }

  /** All ancestors from the root to `b`, `b` included. */
  ghost function PathTo(t: Tree, b: BlockPtr): (path: seq<BlockPtr>)
    requires TreeOk(t) && b in t
    ensures |path| == t[b].nHeight + 1 && path[|path| - 1] == b
    decreases t[b].nHeight
  {
    assert NodeOk(t, b);
    (if t[b].pprev == NIL then [] else PathTo(t, t[b].pprev)) + [b]
  }

  /** The path lists the ancestors by height, and each of its prefixes is again a path. */
  lemma {:induction false} PathIsWalk(t: Tree, b: BlockPtr, h: nat)
    requires TreeOk(t) && b in t && h <= t[b].nHeight
    ensures PathTo(t, b)[h] == WalkTo(t, b, h)
    ensures PathTo(t, b)[..h + 1] == PathTo(t, WalkTo(t, b, h))
    decreases t[b].nHeight
  {
    var path := PathTo(t, b);
    assert NodeOk(t, b);
    if h < t[b].nHeight {
      PathIsWalk(t, t[b].pprev, h);
      assert path[..h + 1] == PathTo(t, t[b].pprev)[..h + 1];
    } else {
      assert path[..h + 1] == path;
    }
  }

  /** Neighbours on a path are child and parent, and the heights are the positions. */
  lemma PathParent(t: Tree, b: BlockPtr, h: nat)
    requires TreeOk(t) && b in t && h <= t[b].nHeight
    ensures var path := PathTo(t, b);
            path[h] in t && t[path[h]].nHeight == h && t[path[h]].pprev == if h == 0 then NIL else path[h - 1]
  {
    hide PathTo;
    PathIsWalk(t, b, h);
    if h > 0 {
      PathIsWalk(t, b, h - 1);
      WalkCompose(t, b, h, h - 1);
    }
    assert NodeOk(t, PathTo(t, b)[h]);
  }

  /** Two paths that meet at some height are equal up to there. */
  lemma PathsMeet(t: Tree, a: BlockPtr, b: BlockPtr, h: nat)
    requires TreeOk(t) && a in t && b in t && h <= t[a].nHeight && h <= t[b].nHeight
    requires PathTo(t, a)[h] == PathTo(t, b)[h]
    ensures forall i :: 0 <= i <= h ==> PathTo(t, a)[i] == PathTo(t, b)[i]
  {
    hide PathTo;
    PathIsWalk(t, a, h);
    PathIsWalk(t, b, h);
    var pa, pb := PathTo(t, a), PathTo(t, b);
    assert forall i :: 0 <= i <= h ==> pa[i] == pa[..h + 1][i] && pb[i] == pb[..h + 1][i];
  }

  // ------------------------------------------------------------ skip pointers

  /** Bitwise conjunction of naturals. */
  function And(a: nat, b: nat): (r: nat)
    ensures r <= a && r <= b
  {
    if a == 0 || b == 0 then 0 else 2 * And(a / 2, b / 2) + (a % 2) * (b % 2)
  }

  function InvertLowestOne(n: nat): (r: nat)
    ensures n > 0 ==> r < n
    ensures n == 0 ==> r == 0
  {
    if n == 0 then 0 else And(n, n - 1)
  }

  lemma InvertLowestOneDouble(n: nat)
    requires n > 0
    ensures InvertLowestOne(2 * n) == 2 * InvertLowestOne(n)
  {
    assert (2 * n - 1) / 2 == n - 1 && (2 * n) % 2 == 0 && (2 * n) / 2 == n;
  }

  /** The lowest one bit of `(2 * m + 1) * 2^k` is bit `k`, and exactly that bit is turned off. */
  lemma {:induction false} InvertLowestOneClearsIt(m: nat, k: nat)
    ensures (2 * m + 1) * Pow2(k) > 0
    ensures InvertLowestOne((2 * m + 1) * Pow2(k)) == 2 * m * Pow2(k)
  {
    if k == 0 {
      LowestOneOfOdd(m);
    } else {
      InvertLowestOneClearsIt(m, k - 1);
      LowestOneShifted(m, Pow2(k - 1));
      hide InvertLowestOne;
    }
  }

  lemma LowestOneShifted(m: nat, p: nat)
    requires (2 * m + 1) * p > 0 && InvertLowestOne((2 * m + 1) * p) == 2 * m * p
    ensures (2 * m + 1) * (2 * p) > 0 && InvertLowestOne((2 * m + 1) * (2 * p)) == 2 * m * (2 * p)
  {
    InvertLowestOneDouble((2 * m + 1) * p);
    hide InvertLowestOne;
    Regroup(2, 2 * m + 1, p);
    Regroup(2 * m + 1, 2, p);
    Regroup(2, 2 * m, p);
    Regroup(2 * m, 2, p);
  }

  lemma LowestOneOfOdd(m: nat)
    ensures InvertLowestOne(2 * m + 1) == 2 * m
  {
    AndSelf(m);
    assert (2 * m + 1) / 2 == m == (2 * m) / 2;
  }

  lemma {:induction false} AndSelf(m: nat)
    ensures And(m, m) == m
  {
    if m > 0 {
      AndSelf(m / 2);
    }
  }

  /** The height a skip pointer jumps back to. */
  function GetSkipHeight(height: nat): (r: nat)
    ensures height > 0 ==> r < height
  {
    if height < 2 then 0
    else if height % 2 == 1 then InvertLowestOne(InvertLowestOne(height - 1)) + 1
    else InvertLowestOne(height)
  }

  /** An even height skips to itself without its lowest one bit. */
  lemma SkipHeightEven(m: nat, k: nat)
    requires k > 0
    ensures (2 * m + 1) * Pow2(k) > 0 && GetSkipHeight((2 * m + 1) * Pow2(k)) == 2 * m * Pow2(k)
  {
    EvenMultiple(2 * m + 1, k);
    InvertLowestOneClearsIt(m, k);
    hide InvertLowestOne, Pow2;
  }

  /** An odd height skips to itself without the two lowest one bits above the last bit. */
  lemma SkipHeightOdd(m: nat, d: nat, k: nat)
    requires k > 0
    ensures var x := (2 * ((2 * m + 1) * Pow2(d)) + 1) * Pow2(k); x > 0 && GetSkipHeight(x + 1) == 2 * m * Pow2(d + 1 + k) + 1
    ensures GetSkipHeight(Pow2(k) + 1) == 1
  {
    hide InvertLowestOne, GetSkipHeight, Pow2;
    var a := (2 * m + 1) * Pow2(d);
    EvenMultiple(2 * a + 1, k);
    EvenMultiple(1, k);
    InvertLowestOneClearsIt(a, k);
    InvertLowestOneClearsIt(0, k);
    InvertLowestOneClearsIt(m, d + 1 + k);
    OddProduct(m, Pow2(d), Pow2(k));
    Pow2Add(d, k);
    OddSkip((2 * a + 1) * Pow2(k), 2 * a * Pow2(k), 2 * m * Pow2(d + 1 + k));
    OddSkip(Pow2(k), 0, 0);
  }

  lemma OddSkip(x: nat, y: nat, z: nat)
    requires x >= 2 && x % 2 == 0 && InvertLowestOne(x) == y && InvertLowestOne(y) == z
    ensures GetSkipHeight(x + 1) == z + 1
  {
    hide InvertLowestOne;
  }

  lemma OddProduct(m: nat, p: nat, q: nat)
    ensures 2 * ((2 * m + 1) * p) * q == (2 * m + 1) * (2 * p * q)
  {
    Regroup(2, (2 * m + 1) * p, q);
    Regroup(2 * m + 1, p, q);
    Regroup(2 * m + 1, 2, p * q);
    Regroup(2, 2 * m + 1, p * q);
    Regroup(2, p, q);
  }

  lemma EvenMultiple(a: nat, k: nat)
    requires a > 0 && k > 0
    ensures a * Pow2(k) >= 2 && a * Pow2(k) % 2 == 0 && (a * Pow2(k) + 1) % 2 == 1
  {
    assert a * Pow2(k) == 2 * (a * Pow2(k - 1));
    MulGrows(1, a, Pow2(k - 1));
  }

  lemma DoubleProduct(p: nat, q: nat)
    ensures p * (2 * q) == 2 * (p * q)
  {
  }

  lemma {:induction false} Pow2Add(d: nat, k: nat)
    ensures Pow2(d + 1 + k) == 2 * Pow2(d) * Pow2(k)
  {
    if k > 0 {
      Pow2Add(d, k - 1);
      var p, q := 2 * Pow2(d), Pow2(k - 1);
      assert Pow2(d + 1 + k) == 2 * Pow2(d + 1 + (k - 1)) && Pow2(k) == 2 * q;
      hide Pow2;
      DoubleProduct(p, q);
    }
  }

  /** Every skip pointer that is set leads to the ancestor at the skip height. */
  ghost predicate SkipsOk(t: Tree)
    requires TreeOk(t)
  {
    forall b :: b in t && t[b].pskip != NIL ==>
      t[b].nHeight > 0 && t[b].pskip == WalkTo(t, b, GetSkipHeight(t[b].nHeight))
  }

  /** GetAncestor agrees with the parent walk and never follows a null pointer. */
  method GetAncestor(t: Tree, b: BlockPtr, height: int) returns (a: BlockPtr)
    requires TreeOk(t) && SkipsOk(t) && b in t
    ensures a == if 0 <= height <= t[b].nHeight then WalkTo(t, b, height) else NIL
  {
    if height > t[b].nHeight || height < 0 {
      return NIL;
    }
    a := b;
    var heightWalk := t[b].nHeight;
    while heightWalk > height
      invariant a in t && heightWalk == t[a].nHeight >= height
      invariant WalkTo(t, a, height) == WalkTo(t, b, height)
    {
      var heightSkip := GetSkipHeight(heightWalk);
      var heightSkipPrev := GetSkipHeight(heightWalk - 1);
      if t[a].pskip != NIL &&
         (heightSkip == height ||
          (heightSkip > height && !(heightSkipPrev < heightSkip - 2 && heightSkipPrev >= height)))
      {
        WalkCompose(t, a, heightSkip, height);
        a := t[a].pskip;
        heightWalk := heightSkip;
      } else {
        assert NodeOk(t, a);
        a := t[a].pprev;
        heightWalk := heightWalk - 1;
      }
    }
  }

  /** Adding a leaf changes no ancestor of the blocks already there. */
  lemma {:induction false} WalkInExtension(t: Tree, t': Tree, b: BlockPtr, h: nat)
    requires TreeOk(t) && TreeOk(t') && b in t && h <= t[b].nHeight
    requires forall k :: k in t ==> k in t' && t'[k].pprev == t[k].pprev && t'[k].nHeight == t[k].nHeight
    ensures WalkTo(t', b, h) == WalkTo(t, b, h)
    decreases t[b].nHeight
  {
    assert NodeOk(t, b);
    if h < t[b].nHeight {
      WalkInExtension(t, t', t[b].pprev, h);
    }
  }

  /** The same holds for whole paths. */
  lemma {:induction false} PathInExtension(t: Tree, t': Tree, b: BlockPtr)
    requires TreeOk(t) && TreeOk(t') && b in t
    requires forall k :: k in t ==> k in t' && t'[k].pprev == t[k].pprev && t'[k].nHeight == t[k].nHeight
    ensures PathTo(t', b) == PathTo(t, b)
    decreases t[b].nHeight
  {
    assert NodeOk(t, b);
    if t[b].pprev != NIL {
      PathInExtension(t, t', t[b].pprev);
    }
  }

  /** Two indexes that differ only in status, counters and sequence numbers. */
  ghost predicate SameShape(t: Tree, t': Tree) {
    t.Keys == t'.Keys &&
    forall k :: k in t ==> t'[k].pprev == t[k].pprev && t'[k].nHeight == t[k].nHeight
                           && t'[k].pskip == t[k].pskip && t'[k].nChainWork == t[k].nChainWork
  }

  lemma SameShapeOk(t: Tree, t': Tree)
    requires TreeOk(t) && SkipsOk(t) && SameShape(t, t')
    ensures TreeOk(t') && SkipsOk(t')
    ensures forall b :: b in t ==> PathTo(t', b) == PathTo(t, b)
  {
    forall b | b in t'
      ensures NodeOk(t', b)
    {
      assert NodeOk(t, b);
    }
    forall b | b in t && t'[b].pskip != NIL
      ensures t'[b].nHeight > 0 && t'[b].pskip == WalkTo(t', b, GetSkipHeight(t'[b].nHeight))
    {
      WalkInExtension(t, t', b, GetSkipHeight(t[b].nHeight));
    }
    forall b | b in t
      ensures PathTo(t', b) == PathTo(t, b)
    {
      PathInExtension(t, t', b);
    }
  }

  /** AddToBlockIndex: the new header is linked to its parent and given its skip pointer. */
  method AddToBlockIndex(t: Tree, b: BlockPtr, prev: BlockPtr, proof: nat) returns (t': Tree)
    requires TreeOk(t) && SkipsOk(t)
    requires b != NIL && (prev == NIL || prev in t)
    ensures b in t ==> t' == t
    ensures TreeOk(t') && SkipsOk(t') && t'.Keys == t.Keys + {b}
    ensures forall k :: k in t ==> t'[k] == t[k]
    ensures b !in t ==>
              t'[b] == BlockIndex(prev, if prev == NIL then NIL else WalkTo(t, prev, GetSkipHeight(t[prev].nHeight + 1)),
                                  if prev == NIL then 0 else t[prev].nHeight + 1,
                                  (if prev == NIL then 0 else t[prev].nChainWork) + proof,
                                  0, 0, 0, false, false, false)
  {
    if b in t {
      return t;
    }
    var node := BlockIndex(NIL, NIL, 0, 0, 0, 0, 0, false, false, false);
    if prev != NIL {
      node := node.(pprev := prev, nHeight := t[prev].nHeight + 1);
      var skip := GetAncestor(t, prev, GetSkipHeight(node.nHeight));
      node := node.(pskip := skip);
    }
    node := node.(nChainWork := (if prev == NIL then 0 else t[prev].nChainWork) + proof);
    t' := t[b := node];
    assert forall k {:trigger NodeOk(t', k)} :: k in t' ==> NodeOk(t', k) by {
      assert forall k :: k in t ==> NodeOk(t, k);
    }
    forall k | k in t' && t'[k].pskip != NIL
      ensures t'[k].nHeight > 0 && t'[k].pskip == WalkTo(t', k, GetSkipHeight(t'[k].nHeight))
    {
      var from := if k == b then prev else k;
      WalkInExtension(t, t', from, GetSkipHeight(t'[k].nHeight));
    }
  }
}
