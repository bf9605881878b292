/**
 * The constant-space Merkle root computation (src/consensus/merkle.cpp): it computes the root that the recursive
 * definition gives, and detects the duplications under which different transaction lists share a root.
 */
module MerkleRootComputation {
  import opened Numbers
  import opened Primitives
  import opened MerkleTree

  /** The counter is a 32-bit number and there are 32 levels. */
  const MAX_LEAVES: nat := 0x8000_0000

  // ------------------------------------------------------------------ duplicated pairs

  /** The number of leaves after which both children of node `k` at level `l + 1` are complete. */
  function PairEnd(l: nat, k: nat): nat {
    First(l + 1, k + 1)
  }

  /** Two complete sibling subtrees with equal hashes. */
  ghost predicate Duplicate(hash: PairHash, leaves: seq<Hash>, l: nat, k: nat) {
    PairEnd(l, k) <= |leaves| &&
    (Siblings(|leaves|, l, k); CalcHash(hash, leaves, l, 2 * k) == CalcHash(hash, leaves, l, 2 * k + 1))
  }

  lemma Siblings(n: nat, l: nat, k: nat)
    requires PairEnd(l, k) <= n
    ensures First(l, 2 * k) < First(l, 2 * k + 1) < n
  {
    ChildRanges(n, l + 1, k);
  }

  ghost predicate MutatedUpTo(hash: PairHash, leaves: seq<Hash>, c: nat) {
    exists l: nat, k: nat :: Duplicate(hash, leaves, l, k) && PairEnd(l, k) <= c
  }

  ghost predicate Mutated(hash: PairHash, leaves: seq<Hash>) {
    exists l: nat, k: nat :: Duplicate(hash, leaves, l, k)
  }

  /** Distinct transactions never look mutated. */
  lemma DistinctNotMutated(hash: PairHash, leaves: seq<Hash>)
    requires Injective(hash) && Distinct(leaves)
    ensures !Mutated(hash, leaves)
  {
    forall l: nat, k: nat
      ensures !Duplicate(hash, leaves, l, k)
    {
      if PairEnd(l, k) <= |leaves| {
        Siblings(|leaves|, l, k);
        NodesDiffer(hash, leaves, l, 2 * k, 2 * k + 1);
      }
    }
  }

  // -------------------------------------------------------------------------- binding

  /** A complete node with the hash of an incomplete one contains a duplicated pair. */
  lemma {:induction false} IncompleteTwin(hash: PairHash, leaves: seq<Hash>, h: nat, pos: nat, pos': nat)
    requires Injective(hash) && First(h, pos + 1) <= |leaves| && First(h, pos) < |leaves|
    requires First(h, pos') < |leaves| < First(h, pos' + 1)
    requires CalcHash(hash, leaves, h, pos) == CalcHash(hash, leaves, h, pos')
    ensures Mutated(hash, leaves)
    decreases h
  {
    if h > 0 {
      ChildRanges(|leaves|, h, pos);
      ChildRanges(|leaves|, h, pos');
      if 2 * pos' + 1 < TreeWidth(|leaves|, h - 1) {
        IncompleteTwin(hash, leaves, h - 1, 2 * pos + 1, 2 * pos' + 1);
      } else {
        assert Duplicate(hash, leaves, h - 1, pos);
      }
    }
  }

  /** A node that duplicates its left child looks mutated, whether or not its right child is complete. */
  lemma EqualChildren(hash: PairHash, leaves: seq<Hash>, h: nat, pos: nat)
    requires Injective(hash) && h > 0 && First(h - 1, 2 * pos) < |leaves| && First(h - 1, 2 * pos + 1) < |leaves|
    requires CalcHash(hash, leaves, h - 1, 2 * pos) == CalcHash(hash, leaves, h - 1, 2 * pos + 1)
    ensures Mutated(hash, leaves)
  {
    ChildRanges(|leaves|, h, pos);
    if First(h, pos + 1) <= |leaves| {
      assert Duplicate(hash, leaves, h - 1, pos);
    } else {
      IncompleteTwin(hash, leaves, h - 1, 2 * pos, 2 * pos + 1);
    }
  }

  /** Unmutated lists that agree on a node's hash agree on its transactions. */
  lemma {:induction false} NodeBinding(hash: PairHash, a: seq<Hash>, b: seq<Hash>, h: nat, pos: nat)
    requires Injective(hash) && !Mutated(hash, a) && !Mutated(hash, b)
    requires First(h, pos) < |a| && First(h, pos) < |b| && CalcHash(hash, a, h, pos) == CalcHash(hash, b, h, pos)
    ensures First(h, pos) < Limit(|a|, h, pos) == Limit(|b|, h, pos)
    ensures forall i :: First(h, pos) <= i < Limit(|a|, h, pos) ==> a[i] == b[i]
    decreases h
  {
    hide *;
    if h == 0 {
      LeafBinding(hash, a, b, pos);
    } else {
      SameShape(hash, a, b, h, pos);
      LimitOfChildren(|a|, h, pos);
      LimitOfChildren(|b|, h, pos);
      NodeBinding(hash, a, b, h - 1, 2 * pos);
      if First(h - 1, 2 * pos + 1) < |a| {
        NodeBinding(hash, a, b, h - 1, 2 * pos + 1);
      }
    }
  }

  lemma LeafBinding(hash: PairHash, a: seq<Hash>, b: seq<Hash>, pos: nat)
    requires First(0, pos) < |a| && First(0, pos) < |b| && CalcHash(hash, a, 0, pos) == CalcHash(hash, b, 0, pos)
    ensures First(0, pos) == pos && Limit(|a|, 0, pos) == Limit(|b|, 0, pos) == pos + 1
    ensures a[pos] == b[pos]
  {
    Leaf(pos);
    Leaf(pos + 1);
  }

  lemma LimitOfChildren(n: nat, h: nat, pos: nat)
    requires h > 0
    ensures First(h - 1, 2 * pos) == First(h, pos)
    ensures First(h - 1, 2 * pos + 1) < n ==>
              Limit(n, h - 1, 2 * pos) == First(h - 1, 2 * pos + 1) && Limit(n, h, pos) == Limit(n, h - 1, 2 * pos + 1)
    ensures First(h - 1, 2 * pos + 1) >= n ==> Limit(n, h - 1, 2 * pos) == n == Limit(n, h, pos)
  {
    ChildRanges(n, h, pos);
    assert 2 * pos + 1 + 1 == 2 * (pos + 1);
  }

  /** Equal hashes mean equal children, and the same number of them. */
  lemma SameShape(hash: PairHash, a: seq<Hash>, b: seq<Hash>, h: nat, pos: nat)
    requires Injective(hash) && !Mutated(hash, a) && !Mutated(hash, b) && h > 0
    requires First(h, pos) < |a| && First(h, pos) < |b| && CalcHash(hash, a, h, pos) == CalcHash(hash, b, h, pos)
    ensures First(h - 1, 2 * pos) < |a| && First(h - 1, 2 * pos) < |b|
    ensures CalcHash(hash, a, h - 1, 2 * pos) == CalcHash(hash, b, h - 1, 2 * pos)
    ensures First(h - 1, 2 * pos + 1) < |a| <==> First(h - 1, 2 * pos + 1) < |b|
    ensures First(h - 1, 2 * pos + 1) < |a| ==> CalcHash(hash, a, h - 1, 2 * pos + 1) == CalcHash(hash, b, h - 1, 2 * pos + 1)
  {
    ChildRanges(|a|, h, pos);
    ChildRanges(|b|, h, pos);
    hide First, TreeWidth, Mutated;
    var mid := First(h - 1, 2 * pos + 1);
    if mid < |a| && mid >= |b| {
      EqualChildren(hash, a, h, pos);
    } else if mid < |b| && mid >= |a| {
      EqualChildren(hash, b, h, pos);
    }
  }

  /**
   * The root commits to the transactions: without hash collisions, two lists of the same tree height with the same root
   * are equal unless one of them looks mutated.
   */
  lemma RootBinding(hash: PairHash, a: seq<Hash>, b: seq<Hash>)
    requires Injective(hash) && a != [] && b != [] && TreeHeight(|a|) == TreeHeight(|b|)
    requires MerkleRoot(hash, a) == MerkleRoot(hash, b) && !Mutated(hash, a) && !Mutated(hash, b)
    ensures a == b
  {
    RootRange(|a|);
    RootRange(|b|);
    NodeBinding(hash, a, b, TreeHeight(|a|), 0);
  }

  /** The left edges of two trees with the same root, followed down until one of them ends. */
  lemma {:induction false} LeftEdge(hash: PairHash, a: seq<Hash>, b: seq<Hash>, h: nat, h': nat)
    requires Injective(hash) && a != [] && b != [] && h < h'
    requires First(h, 0) < |a| && First(h', 0) < |b| && CalcHash(hash, a, h, 0) == CalcHash(hash, b, h', 0)
    ensures IsPairHash(hash, a[0])
    decreases h
  {
    ChildRanges(|b|, h', 0);
    if h == 0 {
      Leaf(0);
    } else {
      ChildRanges(|a|, h, 0);
      hide First, TreeWidth, IsPairHash;
      LeftEdge(hash, a, b, h - 1, h' - 1);
    }
  }

  ghost predicate IsPairHash(hash: PairHash, x: Hash) {
    exists l, r :: hash(l, r) == x
  }

  /**
   * Across tree heights: unmutated lists with the same root are equal, unless the first transaction id of one of them is
   * itself the hash of a pair.
   */
  lemma RootBindingAnyHeight(hash: PairHash, a: seq<Hash>, b: seq<Hash>)
    requires Injective(hash) && a != [] && b != [] && MerkleRoot(hash, a) == MerkleRoot(hash, b)
    requires !Mutated(hash, a) && !Mutated(hash, b)
    ensures a == b || (TreeHeight(|a|) < TreeHeight(|b|) && IsPairHash(hash, a[0]))
                   || (TreeHeight(|b|) < TreeHeight(|a|) && IsPairHash(hash, b[0]))
  {
    RootRange(|a|);
    RootRange(|b|);
    hide Mutated, IsPairHash;
    if TreeHeight(|a|) == TreeHeight(|b|) {
      RootBinding(hash, a, b);
    } else if TreeHeight(|a|) < TreeHeight(|b|) {
      LeftEdge(hash, a, b, TreeHeight(|a|), TreeHeight(|b|));
    } else {
      LeftEdge(hash, b, a, TreeHeight(|b|), TreeHeight(|a|));
    }
  }

  /** The exception is real: a pair and the list of just its hash have the same root. */
  lemma RootOfPair(hash: PairHash, x: Hash, y: Hash)
    ensures MerkleRoot(hash, [x, y]) == MerkleRoot(hash, [hash(x, y)])
  {
    SmallTrees();
    ChildRanges(2, 1, 0);
    Leaf(0);
    Leaf(1);
    hide First, TreeWidth;
  }

  lemma SmallTrees()
    ensures TreeHeight(1) == 0 && TreeHeight(2) == 1 && First(1, 0) == 0
  {
    assert First(0, 1) == 1 && First(1, 1) == 2 && First(1, 0) == 0;
    WidthIff(1, 0, 1);
    WidthIff(2, 0, 1);
    WidthIff(2, 1, 1);
    hide TreeWidth, First;
  }

  // ------------------------------------------------------------------- binary counters

  /** count >> l */
  function Shift(count: nat, l: nat): nat {
    if l == 0 then count else Shift(count, l - 1) / 2
  }

  predicate BitSet(count: nat, l: nat) {
    Shift(count, l) % 2 == 1
  }

  /** Shifting right finds the node whose range a number falls into. */
  lemma {:induction false} ShiftRange(n: nat, l: nat)
    ensures First(l, Shift(n, l)) <= n < First(l, Shift(n, l) + 1)
  {
    if l == 0 {
      Leaf(n);
      Leaf(n + 1);
    } else {
      ShiftRange(n, l - 1);
      var x := Shift(n, l - 1);
      ChildRanges(n, l, x / 2);
      assert x == 2 * (x / 2) || x == 2 * (x / 2) + 1;
      hide First;
    }
  }

  lemma ShiftIs(n: nat, l: nat, x: nat)
    requires First(l, x) <= n < First(l, x + 1)
    ensures Shift(n, l) == x
  {
    ShiftRange(n, l);
    var y := Shift(n, l);
    ProductStrict(x + 1, y + 1, Pow2(l));
    ProductStrict(y + 1, x + 1, Pow2(l));
    ProductStrict(x, x + 1, Pow2(l));
    ProductStrict(y, y + 1, Pow2(l));
    assert (x + 1) * Pow2(l) == x * Pow2(l) + Pow2(l) && (y + 1) * Pow2(l) == y * Pow2(l) + Pow2(l);
  }

  /** Shifting the predecessor: all bits up to the lowest set one change, those above do not. */
  lemma {:induction false} ShiftOfPredecessor(c: nat, level: nat, l: nat)
    requires c > 0 && forall j :: 0 <= j < level ==> !BitSet(c, j)
    ensures l <= level ==> Shift(c, l) > 0 && Shift(c - 1, l) == Shift(c, l) - 1 && First(l, Shift(c, l)) == c
    ensures l > level && BitSet(c, level) ==> Shift(c - 1, l) == Shift(c, l)
  {
    if l == 0 {
      Leaf(c);
    } else {
      ShiftOfPredecessor(c, level, l - 1);
      if l <= level {
        assert !BitSet(c, l - 1);
        ChildRanges(c, l, Shift(c, l));
      }
      hide First;
    }
  }

  // --------------------------------------------------------------------- adding leaves

  /** The hashes of the complete subtrees that the bits of `count` stand for. */
  ghost predicate InnerOk(hash: PairHash, leaves: seq<Hash>, inner: seq<Hash>, count: nat)
    requires count <= |leaves|
  {
    forall l: nat {:trigger InnerAt(hash, leaves, inner, count, l)} :: InnerAt(hash, leaves, inner, count, l)
  }

  ghost predicate InnerAt(hash: PairHash, leaves: seq<Hash>, inner: seq<Hash>, count: nat, l: nat)
    requires count <= |leaves|
  {
    BitSet(count, l) ==>
      && l < |inner| && First(l, Shift(count, l) - 1) < |leaves|
      && inner[l] == CalcHash(hash, leaves, l, Shift(count, l) - 1)
  }

  /** Pairs completed by leaf number `c` at levels below `level`. */
  ghost predicate CompletedBelow(hash: PairHash, leaves: seq<Hash>, c: nat, level: nat) {
    exists l: nat, k: nat :: l < level && PairEnd(l, k) == c && Duplicate(hash, leaves, l, k)
  }

  /** Joining two complete siblings. */
  lemma JoinSiblings(hash: PairHash, leaves: seq<Hash>, l: nat, k: nat)
    requires PairEnd(l, k) <= |leaves|
    ensures First(l, 2 * k) < First(l, 2 * k + 1) < |leaves| && First(l + 1, k) < |leaves|
    ensures CalcHash(hash, leaves, l + 1, k)
         == hash(CalcHash(hash, leaves, l, 2 * k), CalcHash(hash, leaves, l, 2 * k + 1))
  {
    Siblings(|leaves|, l, k);
    ChildRanges(|leaves|, l + 1, k);
  }

  method AddLeaf(hash: PairHash, leaves: seq<Hash>, inner: array<Hash>, count: nat, wasMutated: bool) returns (mutated: bool)
    requires 0 < count <= |leaves| <= MAX_LEAVES && inner.Length == 32
    requires InnerOk(hash, leaves, inner[..], count - 1) && wasMutated == MutatedUpTo(hash, leaves, count - 1)
    modifies inner
    ensures InnerOk(hash, leaves, inner[..], count) && mutated == MutatedUpTo(hash, leaves, count)
  {
    hide InnerOk, MutatedUpTo, CalcHash, First;
    var h := leaves[count - 1];
    mutated := wasMutated;
    var level := 0;
    FirstLeaf(hash, leaves, count);
    while !BitSet(count, level)
      invariant inner[..] == old(inner[..])
      invariant (forall j :: 0 <= j < level ==> !BitSet(count, j)) && Shift(count, level) > 0
      invariant First(level, Shift(count, level) - 1) < |leaves|
      invariant h == CalcHash(hash, leaves, level, Shift(count, level) - 1)
      invariant mutated == (wasMutated || CompletedBelow(hash, leaves, count, level))
      decreases Shift(count, level)
    {
      PairCompleted(hash, leaves, inner[..], count, level, h);
      mutated := mutated || inner[level] == h;
      h := hash(inner[level], h);
      level := level + 1;
    }
    LeafStored(hash, leaves, inner[..], count, level, h);
    inner[level] := h;
    AllCompleted(hash, leaves, count, level);
  }

  lemma FirstLeaf(hash: PairHash, leaves: seq<Hash>, count: nat)
    requires 0 < count <= |leaves|
    ensures First(0, count - 1) < |leaves| && CalcHash(hash, leaves, 0, count - 1) == leaves[count - 1]
    ensures !CompletedBelow(hash, leaves, count, 0)
  {
    Leaf(count - 1);
  }

  /** The new hash and the one waiting at its level are siblings. */
  lemma PairCompleted(hash: PairHash, leaves: seq<Hash>, inner: seq<Hash>, count: nat, level: nat, h: Hash)
    requires 0 < count <= |leaves| && InnerOk(hash, leaves, inner, count - 1)
    requires (forall j :: 0 <= j < level ==> !BitSet(count, j)) && Shift(count, level) > 0 && !BitSet(count, level)
    requires First(level, Shift(count, level) - 1) < |leaves| && h == CalcHash(hash, leaves, level, Shift(count, level) - 1)
    ensures level < |inner| && 0 < Shift(count, level + 1) < Shift(count, level)
    ensures First(level + 1, Shift(count, level + 1) - 1) < |leaves|
    ensures hash(inner[level], h) == CalcHash(hash, leaves, level + 1, Shift(count, level + 1) - 1)
    ensures CompletedBelow(hash, leaves, count, level + 1) <==> CompletedBelow(hash, leaves, count, level) || inner[level] == h
  {
    var k := Shift(count, level + 1) - 1;
    ShiftOfPredecessor(count, level, level);
    assert Shift(count, level) == 2 * (k + 1);
    assert InnerAt(hash, leaves, inner, count - 1, level);
    PairEndsAt(level, k, count);
    hide First, CalcHash, Shift, InnerOk;
    JoinSiblings(hash, leaves, level, k);
    assert Duplicate(hash, leaves, level, k) <==> inner[level] == h;
    OneMoreLevel(hash, leaves, count, level, k);
  }

  lemma PairEndsAt(level: nat, k: nat, count: nat)
    requires First(level, 2 * (k + 1)) == count
    ensures PairEnd(level, k) == count
  {
    ChildRanges(count, level + 1, k + 1);
  }

  lemma OneMoreLevel(hash: PairHash, leaves: seq<Hash>, count: nat, level: nat, k: nat)
    requires PairEnd(level, k) == count
    ensures CompletedBelow(hash, leaves, count, level + 1)
       <==> CompletedBelow(hash, leaves, count, level) || Duplicate(hash, leaves, level, k)
  {
    SamePair(level, k, count);
    hide PairEnd, Duplicate;
  }

  lemma SameMultiple(x: nat, y: nat, p: nat)
    requires p > 0 && x * p == y * p
    ensures x == y
  {
    ProductStrict(x, y, p);
    ProductStrict(y, x, p);
  }

  lemma ProductStrict(x: nat, y: nat, p: nat)
    requires p > 0
    ensures x < y ==> x * p + p <= y * p
  {
    if x < y {
      MulGrows(x + 1, y, p);
      assert (x + 1) * p == x * p + p;
    }
  }

  /** Only one pair at a level ends at a given leaf. */
  lemma SamePair(l: nat, k: nat, c: nat)
    requires PairEnd(l, k) == c
    ensures forall k': nat :: PairEnd(l, k') == c ==> k' == k
  {
    forall k': nat | PairEnd(l, k') == c
      ensures k' == k
    {
      SameMultiple(k + 1, k' + 1, Pow2(l + 1));
    }
  }

  lemma LeafStored(hash: PairHash, leaves: seq<Hash>, inner: seq<Hash>, count: nat, level: nat, h: Hash)
    requires 0 < count <= |leaves| <= MAX_LEAVES && |inner| == 32 && InnerOk(hash, leaves, inner, count - 1)
    requires (forall j :: 0 <= j < level ==> !BitSet(count, j)) && BitSet(count, level)
    requires First(level, Shift(count, level) - 1) < |leaves| && h == CalcHash(hash, leaves, level, Shift(count, level) - 1)
    ensures level < 32 && InnerOk(hash, leaves, inner[level := h], count)
  {
    LevelFits(count, level);
    hide First, CalcHash, Shift;
    var inner' := inner[level := h];
    forall l: nat
      ensures InnerAt(hash, leaves, inner', count, l)
    {
      assert InnerAt(hash, leaves, inner, count - 1, l);
      if l == level {
        assert inner'[l] == h;
      } else if l < level {
        assert !BitSet(count, l);
      } else {
        ShiftOfPredecessor(count, level, l);
        StoredBefore(hash, leaves, inner, inner', count, l);
      }
    }
  }

  lemma StoredBefore(hash: PairHash, leaves: seq<Hash>, inner: seq<Hash>, inner': seq<Hash>, count: nat, l: nat)
    requires 0 < count <= |leaves| && |inner'| == |inner| && InnerAt(hash, leaves, inner, count - 1, l)
    requires Shift(count, l) == Shift(count - 1, l) && (l < |inner| ==> inner'[l] == inner[l])
    ensures InnerAt(hash, leaves, inner', count, l)
  {
    hide First, CalcHash, Shift;
  }

  lemma LevelFits(count: nat, level: nat)
    requires 0 < count <= MAX_LEAVES && Shift(count, level) > 0
    ensures level < 32
  {
    ShiftRange(count, level);
    MulGrows(1, Shift(count, level), Pow2(level));
    Pow2Of32();
    if level >= 32 {
      Pow2Monotonic(32, level);
    }
  }

  lemma Pow2Of32()
    ensures Pow2(31) == MAX_LEAVES && Pow2(32) == 2 * MAX_LEAVES
  {
    assert Pow2(8) == 256 && Pow2(16) == 65536 && Pow2(24) == 16777216;
  }

  lemma {:induction false} Pow2Monotonic(a: nat, b: nat)
    requires a <= b
    ensures Pow2(a) <= Pow2(b)
  {
    if a < b {
      Pow2Monotonic(a, b - 1);
    }
  }

  /** Every pair that ends at leaf `c` lies below the lowest set bit of `c`. */
  lemma AllCompleted(hash: PairHash, leaves: seq<Hash>, c: nat, level: nat)
    requires 0 < c <= |leaves| && BitSet(c, level) && forall j :: 0 <= j < level ==> !BitSet(c, j)
    ensures MutatedUpTo(hash, leaves, c) <==> MutatedUpTo(hash, leaves, c - 1) || CompletedBelow(hash, leaves, c, level)
  {
    forall l: nat, k: nat | PairEnd(l, k) == c
      ensures l < level
    {
      ShiftIsMultiple(c, l, k);
    }
  }

  lemma ShiftIsMultiple(c: nat, l: nat, k: nat)
    requires PairEnd(l, k) == c
    ensures forall j :: 0 <= j <= l ==> !BitSet(c, j)
    decreases l
  {
    ChildRanges(c, l + 1, k + 1);
    assert First(l, 2 * (k + 1)) == c;
    assert (2 * (k + 1) + 1) * Pow2(l) == 2 * (k + 1) * Pow2(l) + Pow2(l);
    ShiftIs(c, l, 2 * (k + 1));
    if l > 0 {
      ShiftIsMultiple(c, l - 1, 2 * k + 1);
    }
  }

  // ------------------------------------------------------------------------ the sweep

  /** The last node of a level: its position, and what the counter says about it. */
  ghost predicate LastNode(n: nat, level: nat, q: nat) {
    q > 0 && First(level, q - 1) < n <= First(level, q) && (forall j :: 0 <= j < level ==> First(j, 1) < n)
  }

  lemma LowerThanLast(n: nat, level: nat, q: nat)
    requires LastNode(n, level, q) && q > 1
    ensures First(level, 1) < n
  {
    MulGrows(1, q - 1, Pow2(level));
  }

  /** At an odd level the last node is alone and is hashed with itself. */
  lemma SingleLast(hash: PairHash, leaves: seq<Hash>, level: nat, q: nat)
    requires LastNode(|leaves|, level, q) && q % 2 == 1 && q > 1
    ensures First(level + 1, (q + 1) / 2) == First(level, q) + Pow2(level)
    ensures LastNode(|leaves|, level + 1, (q + 1) / 2) && |leaves| < First(level + 1, (q + 1) / 2)
    ensures CalcHash(hash, leaves, level + 1, (q + 1) / 2 - 1)
         == hash(CalcHash(hash, leaves, level, q - 1), CalcHash(hash, leaves, level, q - 1))
  {
    var n, k := |leaves|, (q - 1) / 2;
    assert q - 1 == 2 * k;
    ChildRanges(n, level + 1, k);
    assert First(level, q + 1) == First(level, q) + Pow2(level) by {
      assert (q + 1) * Pow2(level) == q * Pow2(level) + Pow2(level);
    }
    LowerThanLast(n, level, q);
    hide First, TreeWidth;
  }

  /** At an even level the last node joins the complete one before it. */
  lemma PairLast(hash: PairHash, leaves: seq<Hash>, inner: seq<Hash>, level: nat, q: nat)
    requires LastNode(|leaves|, level, q) && q % 2 == 0 && |leaves| < First(level, q) && InnerOk(hash, leaves, inner, |leaves|)
    ensures level < |inner| && First(level + 1, q / 2) == First(level, q) && LastNode(|leaves|, level + 1, q / 2)
    ensures CalcHash(hash, leaves, level + 1, q / 2 - 1) == hash(inner[level], CalcHash(hash, leaves, level, q - 1))
  {
    var n, k := |leaves|, q / 2 - 1;
    assert q == 2 * (k + 1);
    ShiftIs(n, level, q - 1);
    assert InnerAt(hash, leaves, inner, n, level);
    ChildRanges(n, level + 1, k);
    LowerThanLast(n, level, q);
    hide First, TreeWidth, Shift;
  }

  /** The counter stays within 32 bits. */
  lemma CounterFits(n: nat, level: nat, q: nat)
    requires 0 < n <= MAX_LEAVES && LastNode(n, level, q)
    ensures First(level, q) <= MAX_LEAVES && level < 32
  {
    Pow2Of32();
    if level > 0 {
      assert First(level - 1, 1) < n;
    }
    if level >= 32 {
      Pow2Monotonic(31, level - 1);
    }
    RoundUp(n, level, q);
  }

  /** The last node of a level ends within the next power of two. */
  lemma {:induction false} RoundUp(n: nat, level: nat, q: nat)
    requires 0 < n <= Pow2(31) && LastNode(n, level, q) && level <= 31
    ensures First(level, q) <= Pow2(31)
    decreases 31 - level
  {
    if level < 31 && q > 1 {
      var q' := (q + 1) / 2;
      ChildRanges(n, level + 1, q');
      assert First(level, q) <= First(level + 1, q') by {
        MulGrows(q, 2 * q', Pow2(level));
      }
      assert LastNode(n, level + 1, q') by {
        LowerThanLast(n, level, q);
        ChildRanges(n, level + 1, q' - 1);
        MulGrows(2 * (q' - 1), q - 1, Pow2(level));
      }
      RoundUp(n, level + 1, q');
    } else if q == 1 {
      Pow2Monotonic(level, 31);
    } else {
      MulGrows(1, q - 1, Pow2(31));
    }
  }

  /** A level with a single node is the top. */
  lemma TopLevel(n: nat, level: nat)
    requires LastNode(n, level, 1)
    ensures TreeHeight(n) == level
  {
    var t := TreeHeight(n);
    WidthIff(n, level, 1);
    if t < level {
      WidthIff(n, t, 1);
    }
  }

  /** The Merkle root of a list of transactions, and whether it contains a duplicated pair; an empty list has a null root. */
  method ComputeMerkleRoot(hash: PairHash, leaves: seq<Hash>) returns (root: Hash, mutated: bool)
    requires |leaves| <= MAX_LEAVES
    ensures root == if leaves == [] then NULL_HASH else MerkleRoot(hash, leaves)
    ensures mutated == Mutated(hash, leaves)
  {
    if |leaves| == 0 {
      StartEmpty(hash, leaves, []);
      return NULL_HASH, false;
    }
    hide InnerOk, CalcHash, First;
    var inner := new Hash[32](i => NULL_HASH);
    mutated := false;
    var count := 0;
    StartEmpty(hash, leaves, inner[..]);
    while count < |leaves|
      invariant 0 <= count <= |leaves| && InnerOk(hash, leaves, inner[..], count)
      invariant mutated == MutatedUpTo(hash, leaves, count)
    {
      count := count + 1;
      mutated := AddLeaf(hash, leaves, inner, count, mutated);
    }
    root := Sweep(hash, leaves, inner);
  }

  method Sweep(hash: PairHash, leaves: seq<Hash>, inner: array<Hash>) returns (h: Hash)
    requires 0 < |leaves| <= MAX_LEAVES && inner.Length == 32 && InnerOk(hash, leaves, inner[..], |leaves|)
    ensures h == MerkleRoot(hash, leaves)
  {
    hide InnerOk, CalcHash, First, LastNode;
    var count := |leaves|;
    var level: nat := LowestBit(count);
    ghost var q: nat := Shift(count, level);
    SweepStart(hash, leaves, inner[..], level);
    h := inner[level];
    while count != Pow2(level)
      invariant LastNode(|leaves|, level, q) && count == First(level, q) && q % 2 == 1
      invariant First(level, q - 1) < |leaves| && h == CalcHash(hash, leaves, level, q - 1)
      decreases q
    {
      OneNode(level, q);
      SingleLast(hash, leaves, level, q);
      h := hash(h, h);
      count := count + Pow2(level);
      level := level + 1;
      q := (q + 1) / 2;
      CounterFits(|leaves|, level, q);
      BitOfLast(|leaves|, level, q);
      h, level, q := Propagate(hash, leaves, inner, count, level, h, q);
    }
    OneNode(level, q);
    TopLevel(|leaves|, level);
  }

  /** While nothing is left at a level, the pending hash is joined with the one stored there. */
  method Propagate(hash: PairHash, leaves: seq<Hash>, inner: array<Hash>, count: nat, level0: nat, h0: Hash, ghost q0: nat)
      returns (h: Hash, level: nat, ghost q: nat)
    requires 0 < |leaves| <= MAX_LEAVES && inner.Length == 32 && InnerOk(hash, leaves, inner[..], |leaves|)
    requires LastNode(|leaves|, level0, q0) && |leaves| < count == First(level0, q0)
    requires First(level0, q0 - 1) < |leaves| && h0 == CalcHash(hash, leaves, level0, q0 - 1)
    ensures LastNode(|leaves|, level, q) && count == First(level, q) && q % 2 == 1 && q <= q0
    ensures First(level, q - 1) < |leaves| && h == CalcHash(hash, leaves, level, q - 1)
  {
    hide InnerOk, CalcHash, First, LastNode, Shift;
    h, level, q := h0, level0, q0;
    BitOfLast(|leaves|, level, q);
    while !BitSet(count, level)
      invariant LastNode(|leaves|, level, q) && count == First(level, q) && 0 < q <= q0 && (BitSet(count, level) <==> q % 2 == 1)
      invariant First(level, q - 1) < |leaves| && h == CalcHash(hash, leaves, level, q - 1)
      decreases q
    {
      PairLast(hash, leaves, inner[..], level, q);
      h := hash(inner[level], h);
      level := level + 1;
      q := q / 2;
      BitOfLast(|leaves|, level, q);
    }
  }

  lemma BitOfLast(n: nat, level: nat, q: nat)
    requires LastNode(n, level, q)
    ensures q > 0 && First(level, q - 1) < n && (BitSet(First(level, q), level) <==> q % 2 == 1)
  {
    assert (q + 1) * Pow2(level) == q * Pow2(level) + Pow2(level);
    ShiftIs(First(level, q), level, q);
  }

  lemma OneNode(level: nat, q: nat)
    ensures First(level, q) == Pow2(level) <==> q == 1
  {
    if q > 1 {
      MulGrows(2, q, Pow2(level));
    }
  }

  method LowestBit(count: nat) returns (level: nat)
    requires 0 < count
    ensures BitSet(count, level) && forall j :: 0 <= j < level ==> !BitSet(count, j)
  {
    level := 0;
    while !BitSet(count, level)
      invariant (forall j :: 0 <= j < level ==> !BitSet(count, j)) && Shift(count, level) > 0
      decreases Shift(count, level)
    {
      level := level + 1;
    }
  }

  lemma SweepStart(hash: PairHash, leaves: seq<Hash>, inner: seq<Hash>, level: nat)
    requires leaves != [] && InnerOk(hash, leaves, inner, |leaves|)
    requires BitSet(|leaves|, level) && forall j :: 0 <= j < level ==> !BitSet(|leaves|, j)
    ensures var q := Shift(|leaves|, level);
            && q % 2 == 1 && |leaves| == First(level, q) && LastNode(|leaves|, level, q)
            && level < |inner| && First(level, q - 1) < |leaves| && inner[level] == CalcHash(hash, leaves, level, q - 1)
  {
    hide Shift, CalcHash;
    var n, q := |leaves|, Shift(|leaves|, level);
    ShiftOfPredecessor(n, level, level);
    assert InnerAt(hash, leaves, inner, n, level);
    LowestIsLast(n, level, q);
    hide First;
  }

  lemma LowestIsLast(n: nat, level: nat, q: nat)
    requires q > 0 && n == First(level, q)
    ensures LastNode(n, level, q)
  {
    MulGrows(1, q, Pow2(level));
    forall j | 0 <= j < level
      ensures First(j, 1) < n
    {
      Pow2Monotonic(j + 1, level);
    }
    assert (q - 1) * Pow2(level) + Pow2(level) == q * Pow2(level);
  }

  lemma StartEmpty(hash: PairHash, leaves: seq<Hash>, inner: seq<Hash>)
    ensures InnerOk(hash, leaves, inner, 0) && !MutatedUpTo(hash, leaves, 0)
    ensures MutatedUpTo(hash, leaves, |leaves|) <==> Mutated(hash, leaves)
  {
    forall l: nat
      ensures InnerAt(hash, leaves, inner, 0, l)
    {
      ShiftRange(0, l);
      if Shift(0, l) > 0 {
        MulGrows(1, Shift(0, l), Pow2(l));
      }
    }
    forall l: nat, k: nat
      ensures PairEnd(l, k) > 0
    {
      MulGrows(1, k + 1, Pow2(l + 1));
    }
  }
}
