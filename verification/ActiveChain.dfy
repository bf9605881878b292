/** The indexed active chain (class CChain of src/chain.h and src/chain.cpp). */
module ActiveChain {
  import opened Primitives
  import opened BlockTree

  predicate ContainsBlock(t: Tree, chain: seq<BlockPtr>, b: BlockPtr)
    requires b in t
  {
    t[b].nHeight < |chain| && chain[t[b].nHeight] == b
  }

  /** The vector is empty or the path from the root to its last element. */
  ghost predicate IsPath(t: Tree, chain: seq<BlockPtr>)
    requires TreeOk(t)
  {
    chain == [] || (chain[|chain| - 1] in t && chain == PathTo(t, chain[|chain| - 1]))
  }

  /** std::vector::resize with null pointers. */
  function Resized(s: seq<BlockPtr>, n: nat): (r: seq<BlockPtr>)
    ensures |r| == n && forall i :: 0 <= i < n ==> r[i] == if i < |s| then s[i] else NIL
  {
    if n <= |s| then s[..n] else s + seq(n - |s|, _ => NIL)
  }

  /** A chain vector that holds the right block at one height holds the right blocks below it too. */
  lemma AlreadyInPlace(t: Tree, chain: seq<BlockPtr>, b: BlockPtr, h: nat)
    requires TreeOk(t) && IsPath(t, chain) && b in t
    requires h < |chain| && h <= t[b].nHeight && chain[h] == PathTo(t, b)[h]
    ensures chain[..h + 1] == PathTo(t, b)[..h + 1]
  {
    hide PathTo;
    PathsMeet(t, chain[|chain| - 1], b, h);
  }

  /** What SetTip writes, together with what was in place already, is the path to the new tip. */
  lemma FilledIn(t: Tree, chain: seq<BlockPtr>, b: BlockPtr, h: int)
    requires TreeOk(t) && IsPath(t, chain) && b in t && -1 <= h <= t[b].nHeight
    requires h >= 0 ==> Resized(chain, t[b].nHeight + 1)[h] == PathTo(t, b)[h]
    ensures Resized(chain, t[b].nHeight + 1)[..h + 1] + PathTo(t, b)[h + 1..] == PathTo(t, b) && IsPath(t, PathTo(t, b))
  {
    hide PathTo;
    var resized, path := Resized(chain, t[b].nHeight + 1), PathTo(t, b);
    assert resized[..h + 1] == path[..h + 1] by {
      if h >= 0 {
        PathParent(t, b, h);
        AlreadyInPlace(t, chain, b, h);
        hide IsPath, TreeOk;
        assert resized[..h + 1] == chain[..h + 1];
      }
    }
    assert path[..h + 1] + path[h + 1..] == path;
  }

  class Chain {
    var vChain: seq<BlockPtr>

    constructor ()
      ensures vChain == []
    {
      vChain := [];
    }

    function Tip(): BlockPtr
      reads this
    {
      if |vChain| > 0 then vChain[|vChain| - 1] else NIL
    }

    function Height(): int
      reads this
    {
      |vChain| - 1
    }

    /** SetTip stops at the first block already in place, and still leaves exactly the new tip's path. */
    method SetTip(t: Tree, b: BlockPtr)
      requires TreeOk(t) && IsPath(t, vChain) && (b == NIL || b in t)
      modifies this
      ensures vChain == if b == NIL then [] else PathTo(t, b)
      ensures IsPath(t, vChain) && Tip() == b
    {
      if b == NIL {
        vChain := [];
        return;
      }
      hide PathTo, IsPath;
      var resized := Resized(vChain, t[b].nHeight + 1);
      vChain := resized;
      ghost var h := FillDown(t, b);
      FilledIn(t, old(vChain), b, h);
    }

    /** The loop of SetTip: writes the path down to the first height `h` that already held the right block. */
    method FillDown(t: Tree, b: BlockPtr) returns (ghost h: int)
      requires TreeOk(t) && b in t && |vChain| == t[b].nHeight + 1
      modifies this
      ensures -1 <= h <= t[b].nHeight
      ensures vChain == old(vChain)[..h + 1] + PathTo(t, b)[h + 1..]
      ensures h >= 0 ==> old(vChain)[h] == PathTo(t, b)[h]
    {
      hide PathTo;
      ghost var path := PathTo(t, b);
      h := t[b].nHeight;
      var p := b;
      while p != NIL && vChain[t[p].nHeight] != p
        invariant -1 <= h < |path| && (p == NIL <==> h == -1)
        invariant p != NIL ==> p in t && t[p].nHeight == h && path[h] == p
        invariant vChain == old(vChain)[..h + 1] + path[h + 1..]
        decreases h
      {
        PathParent(t, b, h);
        assert NodeOk(t, p);
        vChain := vChain[t[p].nHeight := p];
        p := t[p].pprev;
        h := h - 1;
      }
    }

    /** FindFork returns the last block that this chain and the path to `b` have in common. */
    method FindFork(t: Tree, b: BlockPtr) returns (fork: BlockPtr)
      requires TreeOk(t) && SkipsOk(t) && IsPath(t, vChain) && (b == NIL || b in t)
      ensures b == NIL ==> fork == NIL
      ensures b != NIL && fork != NIL ==>
                fork in t && t[fork].nHeight < |vChain| && t[fork].nHeight <= t[b].nHeight
                && vChain[t[fork].nHeight] == fork == PathTo(t, b)[t[fork].nHeight]
      ensures b != NIL ==>
                forall h :: (if fork == NIL then 0 else t[fork].nHeight + 1) <= h < |vChain| && h <= t[b].nHeight ==>
                  vChain[h] != PathTo(t, b)[h]
    {
      if b == NIL {
        return NIL;
      }
      hide PathTo, WalkTo;
      ghost var path := PathTo(t, b);
      fork := b;
      if t[b].nHeight > Height() {
        fork := GetAncestor(t, b, Height());
        if Height() >= 0 {
          PathIsWalk(t, b, Height());
        }
      }
      while fork != NIL && !ContainsBlock(t, vChain, fork)
        invariant fork != NIL ==> fork in t && t[fork].nHeight <= t[b].nHeight && path[t[fork].nHeight] == fork
        invariant forall h :: (if fork == NIL then 0 else t[fork].nHeight + 1) <= h < |vChain| && h <= t[b].nHeight ==>
                    vChain[h] != path[h]
        decreases if fork == NIL then 0 else t[fork].nHeight + 1
      {
        PathParent(t, b, t[fork].nHeight);
        assert NodeOk(t, fork);
        fork := t[fork].pprev;
      }
    }
  }
}
