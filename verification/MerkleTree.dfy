/**
 * The Merkle tree over the transaction ids of a block, addressed by height and position: node `pos` at height `h`
 * covers the leaves from `pos * 2^h` up to the next node's first leaf, or the last transaction.
 */
module MerkleTree {
  import opened Numbers
  import opened Primitives

  /** The hash of two concatenated hashes. */
  type PairHash = (Hash, Hash) -> Hash

  /** Collision freedom, the assumption under which a Merkle root stands for its leaves. */
  ghost predicate Injective(hash: PairHash) {
    forall a, b, c, d :: hash(a, b) == hash(c, d) ==> a == c && b == d
  }

  ghost predicate Distinct(txids: seq<Hash>) {
    forall i, j :: 0 <= i < j < |txids| ==> txids[i] != txids[j]
  }

  // ------------------------------------------------------------------- positions

  /** CalcTreeWidth: how many nodes there are at a height. */
  function TreeWidth(n: nat, h: nat): nat {
    (n + Pow2(h) - 1) / Pow2(h)
  }

  /** The first leaf of a node. */
  function First(h: nat, pos: nat): nat {
    pos * Pow2(h)
  }

  /** The leaf after the last one of a node. */
  function Limit(n: nat, h: nat, pos: nat): nat {
    if First(h, pos + 1) < n then First(h, pos + 1) else n
  }

  lemma QuotientIff(x: nat, p: nat, q: nat)
    requires p > 0
    ensures q <= x / p <==> q * p <= x
  {
    var d := x / p;
    assert d * p <= x < (d + 1) * p;
    if q <= d {
      MulGrows(q, d, p);
    } else {
      MulGrows(d + 1, q, p);
    }
  }

  /** A position is inside the tree exactly when its first leaf is a transaction. */
  lemma WidthIff(n: nat, h: nat, pos: nat)
    ensures pos < TreeWidth(n, h) <==> First(h, pos) < n
  {
    var p := Pow2(h);
    QuotientIff(n + p - 1, p, pos + 1);
    assert (pos + 1) * p == pos * p + p;
  }

  /** How the leaves of a node split over its children. */
  lemma ChildRanges(n: nat, h: nat, pos: nat)
    requires h > 0
    ensures First(h, pos) == First(h - 1, 2 * pos)
    ensures First(h - 1, 2 * pos) < First(h - 1, 2 * pos + 1) < First(h, pos + 1)
    ensures First(h, pos + 1) == First(h - 1, 2 * pos + 2)
    ensures 2 * pos + 1 < TreeWidth(n, h - 1) <==> First(h - 1, 2 * pos + 1) < n
  {
    var p := Pow2(h - 1);
    assert pos * (2 * p) == (2 * pos) * p;
    assert (pos + 1) * (2 * p) == (2 * pos + 2) * p;
    assert (2 * pos + 1) * p == (2 * pos) * p + p && (2 * pos + 2) * p == (2 * pos + 1) * p + p;
    WidthIff(n, h - 1, 2 * pos + 1);
  }

  lemma Leaf(pos: nat)
    ensures First(0, pos) == pos
  {
  }

  // -------------------------------------------------------------------- the hash

  /** CalcHash: the hash of a node; a missing right child counts as a copy of the left one. */
  function CalcHash(hash: PairHash, txids: seq<Hash>, h: nat, pos: nat): Hash
    requires First(h, pos) < |txids|
    decreases h
  {
    if h == 0 then Leaf(pos); txids[pos]
    else
      ChildRanges(|txids|, h, pos);
      var left := CalcHash(hash, txids, h - 1, 2 * pos);
      var right := if 2 * pos + 1 < TreeWidth(|txids|, h - 1) then CalcHash(hash, txids, h - 1, 2 * pos + 1) else left;
      hash(left, right)
  }

  /** Nodes at the same height have different hashes. */
  lemma {:induction false} NodesDiffer(hash: PairHash, txids: seq<Hash>, h: nat, pos: nat, pos': nat)
    requires Injective(hash) && Distinct(txids) && pos != pos' && First(h, pos) < |txids| && First(h, pos') < |txids|
    ensures CalcHash(hash, txids, h, pos) != CalcHash(hash, txids, h, pos')
  {
    if h == 0 {
      Leaf(pos);
      Leaf(pos');
    } else {
      ChildRanges(|txids|, h, pos);
      ChildRanges(|txids|, h, pos');
      NodesDiffer(hash, txids, h - 1, 2 * pos, 2 * pos');
    }
  }

  // ------------------------------------------------------------------ the height

  lemma {:induction false} Pow2Grows(n: nat)
    ensures n < Pow2(n)
  {
    if n > 0 {
      Pow2Grows(n - 1);
    }
  }

  /** The lowest height from `h` on at which there is at most one node. */
  function HeightFrom(n: nat, h: nat): (r: nat)
    ensures h <= r && TreeWidth(n, r) <= 1 && forall k :: h <= k < r ==> TreeWidth(n, k) > 1
    decreases n - h
  {
    if TreeWidth(n, h) <= 1 then h
    else
      assert n > h by {
        WidthIff(n, h, 1);
        Pow2Grows(h);
      }
      HeightFrom(n, h + 1)
  }

  function TreeHeight(n: nat): nat {
    HeightFrom(n, 0)
  }

  /** The node at the top covers every transaction. */
  lemma RootRange(n: nat)
    ensures First(TreeHeight(n), 0) == 0 && Limit(n, TreeHeight(n), 0) == n
  {
    WidthIff(n, TreeHeight(n), 1);
  }

  function MerkleRoot(hash: PairHash, txids: seq<Hash>): Hash
    requires txids != []
  {
    CalcHash(hash, txids, TreeHeight(|txids|), 0)
  }

  // ---------------------------------------------------------- selected leaves

  /** The transaction ids in a range that a mask selects, in order. */
  function Selected(txids: seq<Hash>, mask: seq<bool>, lo: nat, hi: nat): seq<Hash>
    requires lo <= hi <= |txids| == |mask|
    decreases hi - lo
  {
    if lo == hi then []
    else Selected(txids, mask, lo, hi - 1) + (if mask[hi - 1] then [txids[hi - 1]] else [])
  }

  ghost predicate AnyMatch(mask: seq<bool>, lo: nat, hi: nat)
    requires lo <= hi <= |mask|
  {
    exists p :: lo <= p < hi && mask[p]
  }

  lemma {:induction false} SelectedSplit(txids: seq<Hash>, mask: seq<bool>, lo: nat, mid: nat, hi: nat)
    requires lo <= mid <= hi <= |txids| == |mask|
    ensures Selected(txids, mask, lo, hi) == Selected(txids, mask, lo, mid) + Selected(txids, mask, mid, hi)
    decreases hi - mid
  {
    if mid < hi {
      SelectedSplit(txids, mask, lo, mid, hi - 1);
    }
  }

  lemma {:induction false} SelectedNone(txids: seq<Hash>, mask: seq<bool>, lo: nat, hi: nat)
    requires lo <= hi <= |txids| == |mask|
    ensures Selected(txids, mask, lo, hi) == [] <==> !AnyMatch(mask, lo, hi)
    decreases hi - lo
  {
    if lo < hi {
      SelectedNone(txids, mask, lo, hi - 1);
    }
  }

  /** Only the mask inside the range matters. */
  lemma {:induction false} SelectedLocal(txids: seq<Hash>, mask: seq<bool>, mask': seq<bool>, lo: nat, hi: nat)
    requires lo <= hi <= |txids| == |mask| == |mask'| && forall p :: lo <= p < hi ==> mask[p] == mask'[p]
    ensures Selected(txids, mask, lo, hi) == Selected(txids, mask', lo, hi)
    decreases hi - lo
  {
    if lo < hi {
      SelectedLocal(txids, mask, mask', lo, hi - 1);
    }
  }
}
