/** Partial Merkle trees (src/merkleblock.cpp, src/merkleblock.h). */
module PartialMerkleTree {
  import opened Numbers
  import opened Primitives
  import opened MerkleTree

  const MAX_BLOCK_SIZE: nat := 1000000

  /** How many bytes hold a number of bits. */
  function Bytes(bits: nat): nat {
    (bits + 7) / 8
  }

  /** Flag bits and hashes in depth-first order. */
  datatype Encoding = Encoding(bits: seq<bool>, hashes: seq<Hash>)

  /** The outcome of one traversal: cursors behind the consumed data and the matched ids found. */
  datatype Extraction = Extraction(hash: Hash, bad: bool, nBits: nat, nHashes: nat, matches: seq<Hash>)

  // ----------------------------------------------------------- the two traversals

  /** The encoding of a node. */
  ghost function Encode(hash: PairHash, txids: seq<Hash>, mask: seq<bool>, h: nat, pos: nat): (r: Encoding)
    requires First(h, pos) < |txids| == |mask|
    decreases h
  {
    NodeRange(|txids|, h, pos);
    if !AnyMatch(mask, First(h, pos), Limit(|txids|, h, pos)) || h == 0 then
      Encoding([AnyMatch(mask, First(h, pos), Limit(|txids|, h, pos))], [CalcHash(hash, txids, h, pos)])
    else
      ChildRanges(|txids|, h, pos);
      var left := Encode(hash, txids, mask, h - 1, 2 * pos);
      if 2 * pos + 1 < TreeWidth(|txids|, h - 1) then
        var right := Encode(hash, txids, mask, h - 1, 2 * pos + 1);
        Encoding([true] + left.bits + right.bits, left.hashes + right.hashes)
      else
        Encoding([true] + left.bits, left.hashes)
  }

  /** What decoding reads for a node, starting from the given cursors. */
  ghost function Decode(hash: PairHash, n: nat, e: Encoding, h: nat, pos: nat, nBits: nat, nHashes: nat): (r: Extraction)
    decreases h
  {
    if nBits >= |e.bits| then Extraction(NULL_HASH, true, nBits, nHashes, [])
    else if h == 0 || !e.bits[nBits] then
      if nHashes >= |e.hashes| then Extraction(NULL_HASH, true, nBits + 1, nHashes, [])
      else
        var x := e.hashes[nHashes];
        Extraction(x, false, nBits + 1, nHashes + 1, if e.bits[nBits] then [x] else [])
    else
      var left := Decode(hash, n, e, h - 1, 2 * pos, nBits + 1, nHashes);
      if 2 * pos + 1 < TreeWidth(n, h - 1) then
        var right := Decode(hash, n, e, h - 1, 2 * pos + 1, left.nBits, left.nHashes);
        Extraction(hash(left.hash, right.hash), left.bad || right.bad || left.hash == right.hash,
                   right.nBits, right.nHashes, left.matches + right.matches)
      else
        left.(hash := hash(left.hash, left.hash))
  }

  /** Decoding a node with a set bit decodes its children. */
  lemma DecodeInner(hash: PairHash, n: nat, e: Encoding, h: nat, pos: nat, nBits: nat, nHashes: nat)
    requires h > 0 && nBits < |e.bits| && e.bits[nBits]
    ensures var d := Decode(hash, n, e, h, pos, nBits, nHashes);
            var left := Decode(hash, n, e, h - 1, 2 * pos, nBits + 1, nHashes);
            if 2 * pos + 1 < TreeWidth(n, h - 1) then
              var right := Decode(hash, n, e, h - 1, 2 * pos + 1, left.nBits, left.nHashes);
              d == Extraction(hash(left.hash, right.hash), left.bad || right.bad || left.hash == right.hash,
                              right.nBits, right.nHashes, left.matches + right.matches)
            else d == left.(hash := hash(left.hash, left.hash))
  {
  }

  lemma NodeRange(n: nat, h: nat, pos: nat)
    requires First(h, pos) < n
    ensures First(h, pos) < Limit(n, h, pos) <= n
  {
    assert (pos + 1) * Pow2(h) == pos * Pow2(h) + Pow2(h);
  }

  // ----------------------------------------------------------------- completeness

  /** The part `part` of `whole` that starts at `at`. */
  ghost predicate Within<T>(part: seq<T>, whole: seq<T>, at: nat) {
    at + |part| <= |whole| && forall i {:trigger part[i]} :: 0 <= i < |part| ==> whole[at + i] == part[i]
  }

  lemma WithinConcat<T>(a: seq<T>, b: seq<T>, whole: seq<T>, at: nat)
    requires Within(a + b, whole, at)
    ensures Within(a, whole, at) && Within(b, whole, at + |a|)
  {
    forall i | 0 <= i < |a|
      ensures whole[at + i] == a[i]
    {
      assert (a + b)[i] == a[i];
    }
    forall i | 0 <= i < |b|
      ensures whole[at + |a| + i] == b[i]
    {
      assert (a + b)[|a| + i] == b[i];
    }
  }

  /** On the way to some matched transaction there is a node with two children of the same hash. */
  ghost predicate Twins(hash: PairHash, txids: seq<Hash>, mask: seq<bool>, h: nat, pos: nat)
    requires First(h, pos) < |txids| == |mask|
    decreases h
  {
    NodeRange(|txids|, h, pos);
    h > 0 && AnyMatch(mask, First(h, pos), Limit(|txids|, h, pos)) &&
    (ChildRanges(|txids|, h, pos);
     || Twins(hash, txids, mask, h - 1, 2 * pos)
     || (First(h - 1, 2 * pos + 1) < |txids| &&
         (|| CalcHash(hash, txids, h - 1, 2 * pos) == CalcHash(hash, txids, h - 1, 2 * pos + 1)
          || Twins(hash, txids, mask, h - 1, 2 * pos + 1))))
  }

  lemma {:induction false} DistinctHasNoTwins(hash: PairHash, txids: seq<Hash>, mask: seq<bool>, h: nat, pos: nat)
    requires First(h, pos) < |txids| == |mask| && Injective(hash) && Distinct(txids)
    ensures !Twins(hash, txids, mask, h, pos)
    decreases h
  {
    hide First, Pow2, TreeWidth, CalcHash, AnyMatch;
    if h > 0 {
      ChildRanges(|txids|, h, pos);
      DistinctHasNoTwins(hash, txids, mask, h - 1, 2 * pos);
      if First(h - 1, 2 * pos + 1) < |txids| {
        DistinctHasNoTwins(hash, txids, mask, h - 1, 2 * pos + 1);
        NodesDiffer(hash, txids, h - 1, 2 * pos, 2 * pos + 1);
      }
    }
  }

  /** What decoding a well-formed encoding of a node should give. */
  ghost function Expected(hash: PairHash, txids: seq<Hash>, mask: seq<bool>, h: nat, pos: nat, nBits: nat, nHashes: nat): (r: Extraction)
    requires First(h, pos) < |txids| == |mask|
    ensures r.nBits == nBits + |Encode(hash, txids, mask, h, pos).bits|
    ensures r.nHashes == nHashes + |Encode(hash, txids, mask, h, pos).hashes|
  {
    NodeRange(|txids|, h, pos);
    var own := Encode(hash, txids, mask, h, pos);
    Extraction(CalcHash(hash, txids, h, pos), Twins(hash, txids, mask, h, pos), nBits + |own.bits|, nHashes + |own.hashes|,
               Selected(txids, mask, First(h, pos), Limit(|txids|, h, pos)))
  }

  /** Expectations compose the way decoding does. */
  lemma ExpectedFork(hash: PairHash, txids: seq<Hash>, mask: seq<bool>, h: nat, pos: nat, nBits: nat, nHashes: nat)
    requires h > 0 && First(h - 1, 2 * pos) < |txids| == |mask| && First(h, pos) < |txids|
    requires First(h - 1, 2 * pos + 1) < |txids| && Matches(txids, mask, h, pos) > 0
    ensures var left := Expected(hash, txids, mask, h - 1, 2 * pos, nBits + 1, nHashes);
            var right := Expected(hash, txids, mask, h - 1, 2 * pos + 1, left.nBits, left.nHashes);
            Expected(hash, txids, mask, h, pos, nBits, nHashes) ==
              Extraction(hash(left.hash, right.hash), left.bad || right.bad || left.hash == right.hash,
                         right.nBits, right.nHashes, left.matches + right.matches)
  {
    hide First, Pow2, TreeWidth, Selected, AnyMatch;
    ChildRanges(|txids|, h, pos);
    NodeRange(|txids|, h, pos);
    SelectedNone(txids, mask, First(h, pos), Limit(|txids|, h, pos));
    SelectedSplit(txids, mask, First(h, pos), First(h - 1, 2 * pos + 1), Limit(|txids|, h, pos));
  }

  /** Decoding the encoding of a node yields its hash and its matched transactions, and consumes exactly the encoding. */
  lemma {:induction false} DecodeEncode(
      hash: PairHash, txids: seq<Hash>, mask: seq<bool>, e: Encoding, h: nat, pos: nat, nBits: nat, nHashes: nat)
    requires First(h, pos) < |txids| == |mask|
    requires Within(Encode(hash, txids, mask, h, pos).bits, e.bits, nBits)
    requires Within(Encode(hash, txids, mask, h, pos).hashes, e.hashes, nHashes)
    ensures Decode(hash, |txids|, e, h, pos, nBits, nHashes) == Expected(hash, txids, mask, h, pos, nBits, nHashes)
    decreases h
  {
    hide *;
    if h == 0 || Matches(txids, mask, h, pos) == 0 {
      DecodeStop(hash, txids, mask, e, h, pos, nBits, nHashes);
    } else {
      ChildRanges(|txids|, h, pos);
      var left := Encode(hash, txids, mask, h - 1, 2 * pos);
      if First(h - 1, 2 * pos + 1) < |txids| {
        ForkWithin(hash, txids, mask, e, h, pos, nBits, nHashes);
        DecodeEncode(hash, txids, mask, e, h - 1, 2 * pos, nBits + 1, nHashes);
        DecodeEncode(hash, txids, mask, e, h - 1, 2 * pos + 1, nBits + 1 + |left.bits|, nHashes + |left.hashes|);
        DecodeFork(hash, txids, mask, e, h, pos, nBits, nHashes);
      } else {
        SingleWithin(hash, txids, mask, e, h, pos, nBits, nHashes);
        DecodeEncode(hash, txids, mask, e, h - 1, 2 * pos, nBits + 1, nHashes);
        DecodeSingle(hash, txids, mask, e, h, pos, nBits, nHashes);
      }
    }
  }

  lemma DecodeStop(hash: PairHash, txids: seq<Hash>, mask: seq<bool>, e: Encoding, h: nat, pos: nat, nBits: nat, nHashes: nat)
    requires First(h, pos) < |txids| == |mask| && (h == 0 || Matches(txids, mask, h, pos) == 0)
    requires Within(Encode(hash, txids, mask, h, pos).bits, e.bits, nBits)
    requires Within(Encode(hash, txids, mask, h, pos).hashes, e.hashes, nHashes)
    ensures Decode(hash, |txids|, e, h, pos, nBits, nHashes) == Expected(hash, txids, mask, h, pos, nBits, nHashes)
  {
    ExpectedStop(hash, txids, mask, h, pos, nBits, nHashes);
    var own := Encode(hash, txids, mask, h, pos);
    assert e.bits[nBits] == own.bits[0] && e.hashes[nHashes] == own.hashes[0];
    hide First, Pow2, Limit, AnyMatch, Selected, TreeWidth, CalcHash, Within, Encode, Expected;
  }

  /** Where nothing matches, and at the leaves, the encoding is one bit and one hash. */
  lemma ExpectedStop(hash: PairHash, txids: seq<Hash>, mask: seq<bool>, h: nat, pos: nat, nBits: nat, nHashes: nat)
    requires First(h, pos) < |txids| == |mask| && (h == 0 || Matches(txids, mask, h, pos) == 0)
    ensures var own, x := Encode(hash, txids, mask, h, pos), CalcHash(hash, txids, h, pos);
            && |own.bits| == 1 && own.hashes == [x] && (own.bits[0] ==> h == 0)
            && Expected(hash, txids, mask, h, pos, nBits, nHashes)
               == Extraction(x, false, nBits + 1, nHashes + 1, if own.bits[0] then [x] else [])
  {
    NodeRange(|txids|, h, pos);
    SelectedNone(txids, mask, First(h, pos), Limit(|txids|, h, pos));
    if h == 0 {
      Leaf(pos);
      LeafMatch(txids, mask, pos);
    }
    hide First, Pow2, Limit, TreeWidth;
  }

  lemma DecodeFork(hash: PairHash, txids: seq<Hash>, mask: seq<bool>, e: Encoding, h: nat, pos: nat, nBits: nat, nHashes: nat)
    requires h > 0 && First(h - 1, 2 * pos) < |txids| == |mask| && First(h, pos) < |txids|
    requires First(h - 1, 2 * pos + 1) < |txids| && Matches(txids, mask, h, pos) > 0 && nBits < |e.bits| && e.bits[nBits]
    requires var left := Expected(hash, txids, mask, h - 1, 2 * pos, nBits + 1, nHashes);
             && Decode(hash, |txids|, e, h - 1, 2 * pos, nBits + 1, nHashes) == left
             && Decode(hash, |txids|, e, h - 1, 2 * pos + 1, left.nBits, left.nHashes)
                == Expected(hash, txids, mask, h - 1, 2 * pos + 1, left.nBits, left.nHashes)
    ensures Decode(hash, |txids|, e, h, pos, nBits, nHashes) == Expected(hash, txids, mask, h, pos, nBits, nHashes)
  {
    hide Encode, CalcHash, Matches, Selected, First, Pow2, TreeWidth, Limit, AnyMatch, Twins;
    ChildRanges(|txids|, h, pos);
    ExpectedFork(hash, txids, mask, h, pos, nBits, nHashes);
  }

  lemma DecodeSingle(hash: PairHash, txids: seq<Hash>, mask: seq<bool>, e: Encoding, h: nat, pos: nat, nBits: nat, nHashes: nat)
    requires h > 0 && First(h - 1, 2 * pos) < |txids| == |mask| && First(h, pos) < |txids|
    requires First(h - 1, 2 * pos + 1) >= |txids| && Matches(txids, mask, h, pos) > 0 && nBits < |e.bits| && e.bits[nBits]
    requires Decode(hash, |txids|, e, h - 1, 2 * pos, nBits + 1, nHashes)
          == Expected(hash, txids, mask, h - 1, 2 * pos, nBits + 1, nHashes)
    ensures Decode(hash, |txids|, e, h, pos, nBits, nHashes) == Expected(hash, txids, mask, h, pos, nBits, nHashes)
  {
    hide Selected, First, Pow2, TreeWidth, AnyMatch;
    ChildRanges(|txids|, h, pos);
    NodeRange(|txids|, h, pos);
    SelectedNone(txids, mask, First(h, pos), Limit(|txids|, h, pos));
  }

  /** The encoding of a node with one child: a set bit, then the child. */
  lemma SingleWithin(hash: PairHash, txids: seq<Hash>, mask: seq<bool>, e: Encoding, h: nat, pos: nat, nBits: nat, nHashes: nat)
    requires h > 0 && First(h - 1, 2 * pos) < |txids| == |mask| && First(h, pos) < |txids|
    requires First(h - 1, 2 * pos + 1) >= |txids| && Matches(txids, mask, h, pos) > 0
    requires Within(Encode(hash, txids, mask, h, pos).bits, e.bits, nBits)
    requires Within(Encode(hash, txids, mask, h, pos).hashes, e.hashes, nHashes)
    ensures var left := Encode(hash, txids, mask, h - 1, 2 * pos);
            && nBits < |e.bits| && e.bits[nBits]
            && Within(left.bits, e.bits, nBits + 1) && Within(left.hashes, e.hashes, nHashes)
  {
    hide First, Pow2, TreeWidth, AnyMatch, Selected;
    ChildRanges(|txids|, h, pos);
    NodeRange(|txids|, h, pos);
    SelectedNone(txids, mask, First(h, pos), Limit(|txids|, h, pos));
    var left := Encode(hash, txids, mask, h - 1, 2 * pos);
    WithinConcat([true], left.bits, e.bits, nBits);
    assert e.bits[nBits] == ([true] + left.bits)[0];
  }

  /** The encoding of a node with two children: a set bit, then the children. */
  lemma ForkWithin(hash: PairHash, txids: seq<Hash>, mask: seq<bool>, e: Encoding, h: nat, pos: nat, nBits: nat, nHashes: nat)
    requires h > 0 && First(h - 1, 2 * pos) < |txids| == |mask| && First(h, pos) < |txids|
    requires First(h - 1, 2 * pos + 1) < |txids| && Matches(txids, mask, h, pos) > 0
    requires Within(Encode(hash, txids, mask, h, pos).bits, e.bits, nBits)
    requires Within(Encode(hash, txids, mask, h, pos).hashes, e.hashes, nHashes)
    ensures var left, right := Encode(hash, txids, mask, h - 1, 2 * pos), Encode(hash, txids, mask, h - 1, 2 * pos + 1);
            && nBits < |e.bits| && e.bits[nBits]
            && Within(left.bits, e.bits, nBits + 1) && Within(right.bits, e.bits, nBits + 1 + |left.bits|)
            && Within(left.hashes, e.hashes, nHashes) && Within(right.hashes, e.hashes, nHashes + |left.hashes|)
  {
    ChildRanges(|txids|, h, pos);
    NodeRange(|txids|, h, pos);
    SelectedNone(txids, mask, First(h, pos), Limit(|txids|, h, pos));
    var left := Encode(hash, txids, mask, h - 1, 2 * pos);
    var right := Encode(hash, txids, mask, h - 1, 2 * pos + 1);
    WithinConcat([true] + left.bits, right.bits, e.bits, nBits);
    WithinConcat([true], left.bits, e.bits, nBits);
    WithinConcat(left.hashes, right.hashes, e.hashes, nHashes);
    assert e.bits[nBits] == ([true] + left.bits)[0];
  }

  lemma LeafMatch(txids: seq<Hash>, mask: seq<bool>, pos: nat)
    requires pos < |txids| == |mask|
    ensures First(0, pos) == pos && Limit(|txids|, 0, pos) == pos + 1
    ensures AnyMatch(mask, pos, pos + 1) == mask[pos]
    ensures Selected(txids, mask, pos, pos + 1) == if mask[pos] then [txids[pos]] else []
  {
    assert Selected(txids, mask, pos, pos) == [];
  }

  // ------------------------------------------------------------------ size bounds

  /** At most one hash per transaction below the node, and at most one per flag bit. */
  lemma {:induction false} HashesFit(hash: PairHash, txids: seq<Hash>, mask: seq<bool>, h: nat, pos: nat)
    requires First(h, pos) < |txids| == |mask|
    ensures |Encode(hash, txids, mask, h, pos).hashes| <= Limit(|txids|, h, pos) - First(h, pos)
    ensures |Encode(hash, txids, mask, h, pos).hashes| <= |Encode(hash, txids, mask, h, pos).bits|
    decreases h
  {
    hide First, Pow2, TreeWidth;
    NodeRange(|txids|, h, pos);
    if h > 0 {
      ChildRanges(|txids|, h, pos);
      HashesFit(hash, txids, mask, h - 1, 2 * pos);
      if 2 * pos + 1 < TreeWidth(|txids|, h - 1) {
        HashesFit(hash, txids, mask, h - 1, 2 * pos + 1);
      }
    }
  }

  ghost function Matches(txids: seq<Hash>, mask: seq<bool>, h: nat, pos: nat): nat
    requires First(h, pos) < |txids| == |mask|
  {
    NodeRange(|txids|, h, pos);
    |Selected(txids, mask, First(h, pos), Limit(|txids|, h, pos))|
  }

  lemma MatchesSplit(txids: seq<Hash>, mask: seq<bool>, h: nat, pos: nat)
    requires First(h, pos) < |txids| == |mask| && h > 0
    ensures First(h - 1, 2 * pos) < |txids|
    ensures Matches(txids, mask, h, pos) == Matches(txids, mask, h - 1, 2 * pos)
          + (if First(h - 1, 2 * pos + 1) < |txids| then Matches(txids, mask, h - 1, 2 * pos + 1) else 0)
  {
    hide First, Pow2, TreeWidth, Selected;
    ChildRanges(|txids|, h, pos);
    NodeRange(|txids|, h, pos);
    var mid := First(h - 1, 2 * pos + 1);
    if mid < |txids| {
      SelectedSplit(txids, mask, First(h, pos), mid, Limit(|txids|, h, pos));
    }
  }

  /** At most one hash more than the number of matches times the height. */
  lemma {:induction false} HashesByMatches(hash: PairHash, txids: seq<Hash>, mask: seq<bool>, h: nat, pos: nat)
    requires First(h, pos) < |txids| == |mask|
    ensures |Encode(hash, txids, mask, h, pos).hashes| <= 1 + Matches(txids, mask, h, pos) * h
    decreases h
  {
    hide *;
    var m := Matches(txids, mask, h, pos);
    HashesOfNode(hash, txids, mask, h, pos);
    if h > 0 && m > 0 {
      MatchesSplit(txids, mask, h, pos);
      HashesByMatches(hash, txids, mask, h - 1, 2 * pos);
      var m1 := Matches(txids, mask, h - 1, 2 * pos);
      if First(h - 1, 2 * pos + 1) < |txids| {
        HashesByMatches(hash, txids, mask, h - 1, 2 * pos + 1);
        Distribute(m1, Matches(txids, mask, h - 1, 2 * pos + 1), h);
      } else {
        Distribute(m1, 0, h);
      }
    } else {
      assert m * h == 0;
    }
  }

  lemma HashesOfNode(hash: PairHash, txids: seq<Hash>, mask: seq<bool>, h: nat, pos: nat)
    requires First(h, pos) < |txids| == |mask|
    ensures h > 0 ==> First(h - 1, 2 * pos) < |txids|
    ensures h == 0 || Matches(txids, mask, h, pos) == 0 ==> |Encode(hash, txids, mask, h, pos).hashes| == 1
    ensures h > 0 && Matches(txids, mask, h, pos) > 0 ==>
              |Encode(hash, txids, mask, h, pos).hashes| == |Encode(hash, txids, mask, h - 1, 2 * pos).hashes|
                + (if First(h - 1, 2 * pos + 1) < |txids| then |Encode(hash, txids, mask, h - 1, 2 * pos + 1).hashes| else 0)
  {
    hide First, Pow2, TreeWidth, Selected, AnyMatch;
    NodeRange(|txids|, h, pos);
    SelectedNone(txids, mask, First(h, pos), Limit(|txids|, h, pos));
    if h > 0 {
      ChildRanges(|txids|, h, pos);
    }
  }

  lemma Distribute(a: nat, b: nat, h: nat)
    requires h > 0
    ensures (a + b) * h == a * (h - 1) + b * (h - 1) + a + b
  {
  }

  /** Nodes with one child that the traversal descends through. */
  ghost function SingleChildren(mask: seq<bool>, h: nat, pos: nat): nat
    requires First(h, pos) < |mask|
    decreases h
  {
    NodeRange(|mask|, h, pos);
    if h == 0 || !AnyMatch(mask, First(h, pos), Limit(|mask|, h, pos)) then 0
    else
      ChildRanges(|mask|, h, pos);
      if 2 * pos + 1 < TreeWidth(|mask|, h - 1) then
        SingleChildren(mask, h - 1, 2 * pos) + SingleChildren(mask, h - 1, 2 * pos + 1)
      else 1 + SingleChildren(mask, h - 1, 2 * pos)
  }

  lemma {:induction false} BitCount(hash: PairHash, txids: seq<Hash>, mask: seq<bool>, h: nat, pos: nat)
    requires First(h, pos) < |txids| == |mask|
    ensures |Encode(hash, txids, mask, h, pos).bits|
         == 2 * |Encode(hash, txids, mask, h, pos).hashes| - 1 + SingleChildren(mask, h, pos)
    decreases h
  {
    NodeRange(|txids|, h, pos);
    if h > 0 && AnyMatch(mask, First(h, pos), Limit(|txids|, h, pos)) {
      ChildRanges(|txids|, h, pos);
      BitCount(hash, txids, mask, h - 1, 2 * pos);
      if 2 * pos + 1 < TreeWidth(|txids|, h - 1) {
        BitCount(hash, txids, mask, h - 1, 2 * pos + 1);
      }
    }
  }

  /** The last node at height `k` has one child, and a matched transaction below it. */
  ghost predicate MatchUnderSingleChild(mask: seq<bool>, k: nat, last: nat)
    requires mask != []
  {
    && 0 < k && First(k, last) < |mask| <= First(k - 1, 2 * last + 1)
    && AnyMatch(mask, First(k, last), |mask|)
  }

  /** Single-child nodes exist only along the right edge of the tree. */
  lemma {:induction false} InnerNodesHaveTwoChildren(mask: seq<bool>, h: nat, pos: nat)
    requires First(h, pos + 1) < |mask| && First(h, pos) < |mask|
    ensures SingleChildren(mask, h, pos) == 0
    decreases h
  {
    NodeRange(|mask|, h, pos);
    if h > 0 {
      ChildRanges(|mask|, h, pos);
      ChildRanges(|mask|, h, pos + 1);
      NodeRange(|mask|, h - 1, 2 * pos);
      InnerNodesHaveTwoChildren(mask, h - 1, 2 * pos);
      InnerNodesHaveTwoChildren(mask, h - 1, 2 * pos + 1);
    }
  }

  lemma {:induction false} RightEdge(mask: seq<bool>, h: nat, pos: nat)
    requires First(h, pos) < |mask| <= First(h, pos + 1)
    ensures SingleChildren(mask, h, pos) > 0 <==> exists k: nat, last: nat :: k <= h && MatchUnderSingleChild(mask, k, last)
    decreases h
  {
    NodeRange(|mask|, h, pos);
    forall k: nat, last: nat | k <= h && MatchUnderSingleChild(mask, k, last)
      ensures AnyMatch(mask, First(h, pos), |mask|) && (k == h ==> last == pos)
    {
      EdgeNested(|mask|, h, pos, k, last);
    }
    if h > 0 && AnyMatch(mask, First(h, pos), |mask|) {
      ChildRanges(|mask|, h, pos);
      if 2 * pos + 1 < TreeWidth(|mask|, h - 1) {
        InnerNodesHaveTwoChildren(mask, h - 1, 2 * pos);
        RightEdge(mask, h - 1, 2 * pos + 1);
      } else {
        assert MatchUnderSingleChild(mask, h, pos);
      }
    }
  }

  /** Of two nodes on the right edge, the higher one covers the lower one. */
  lemma {:induction false} EdgeNested(n: nat, h: nat, pos: nat, k: nat, last: nat)
    requires 0 < k <= h && First(h, pos) < n <= First(h, pos + 1) && First(k, last) < n <= First(k - 1, 2 * last + 1)
    ensures First(h, pos) <= First(k, last) && (k == h ==> last == pos)
    decreases h - k
  {
    ChildRanges(n, k, last);
    EdgeOrder(n, h, pos, k, last);
  }

  lemma {:induction false} EdgeOrder(n: nat, h: nat, pos: nat, k: nat, last: nat)
    requires k <= h && First(h, pos) < n <= First(h, pos + 1) && First(k, last) < n <= First(k, last + 1)
    ensures First(h, pos) <= First(k, last) && (k == h ==> last == pos)
    decreases h - k
  {
    if k == h {
      if last < pos {
        MulGrows(last + 1, pos, Pow2(k));
      } else if pos < last {
        MulGrows(pos + 1, last, Pow2(k));
      }
    } else {
      ChildRanges(n, h, pos);
      if First(h - 1, 2 * pos + 1) < n {
        EdgeOrder(n, h - 1, 2 * pos + 1, k, last);
      } else {
        EdgeOrder(n, h - 1, 2 * pos, k, last);
      }
    }
  }

  /** The documented bound of two flag bits per hash minus one holds exactly when no match lies under a single-child node. */
  lemma FlagBitBoundIff(hash: PairHash, txids: seq<Hash>, mask: seq<bool>)
    requires 0 < |txids| == |mask|
    ensures var e := Encode(hash, txids, mask, TreeHeight(|txids|), 0);
            (|e.bits| <= 2 * |e.hashes| - 1 <==>
              !exists k: nat, last: nat :: k <= TreeHeight(|txids|) && MatchUnderSingleChild(mask, k, last))
  {
    RootRange(|txids|);
    BitCount(hash, txids, mask, TreeHeight(|txids|), 0);
    RightEdge(mask, TreeHeight(|txids|), 0);
  }

  /** Three transactions of which the last is matched break the documented bound. */
  lemma FlagBitBoundFails(hash: PairHash, a: Hash, b: Hash, c: Hash)
    ensures var e := Encode(hash, [a, b, c], [false, false, true], TreeHeight(3), 0);
            |e.bits| > 2 * |e.hashes| - 1
  {
    var mask := [false, false, true];
    RootRange(3);
    assert Pow2(0) == 1 && Pow2(1) == 2 && Pow2(2) == 4;
    assert TreeWidth(3, 0) == 3 && TreeWidth(3, 1) == 2 && TreeWidth(3, 2) == 1;
    assert TreeHeight(3) == 2;
    assert mask[2];
    assert MatchUnderSingleChild(mask, 1, 1);
    FlagBitBoundIff(hash, [a, b, c], mask);
  }

  // -------------------------------------------------------------------- soundness

  /** If decoding yields the true hash of a node, what it found is a selection of the node's transactions. */
  lemma {:induction false} DecodeSound(hash: PairHash, txids: seq<Hash>, e: Encoding, h: nat, pos: nat, nBits: nat, nHashes: nat)
      returns (mask: seq<bool>)
    requires First(h, pos) < |txids| && Injective(hash)
    requires var d := Decode(hash, |txids|, e, h, pos, nBits, nHashes); !d.bad && d.hash == CalcHash(hash, txids, h, pos)
    ensures |mask| == |txids| && First(h, pos) < Limit(|txids|, h, pos) <= |txids|
    ensures Decode(hash, |txids|, e, h, pos, nBits, nHashes).matches
         == Selected(txids, mask, First(h, pos), Limit(|txids|, h, pos))
    decreases h
  {
    hide First, Pow2, TreeWidth;
    var n := |txids|;
    NodeRange(n, h, pos);
    var lo, hi := First(h, pos), Limit(n, h, pos);
    if h == 0 || !e.bits[nBits] {
      mask := seq(n, i => e.bits[nBits]);
      if h == 0 {
        Leaf(pos);
        LeafMatch(txids, mask, pos);
      } else {
        SelectedNone(txids, mask, lo, hi);
      }
    } else {
      ChildRanges(n, h, pos);
      mask := DecodeSound(hash, txids, e, h - 1, 2 * pos, nBits + 1, nHashes);
      if First(h - 1, 2 * pos + 1) < n {
        var l := Decode(hash, n, e, h - 1, 2 * pos, nBits + 1, nHashes);
        var right := DecodeSound(hash, txids, e, h - 1, 2 * pos + 1, l.nBits, l.nHashes);
        mask := JoinMasks(txids, mask, right, lo, First(h - 1, 2 * pos + 1), hi);
      }
      hide AnyMatch, Selected, First, Pow2, TreeWidth;
    }
  }

  /** Selections of two adjacent ranges make a selection of both. */
  lemma JoinMasks(txids: seq<Hash>, left: seq<bool>, right: seq<bool>, lo: nat, mid: nat, hi: nat) returns (mask: seq<bool>)
    requires lo <= mid <= hi <= |txids| == |left| == |right|
    ensures |mask| == |txids|
    ensures Selected(txids, mask, lo, hi) == Selected(txids, left, lo, mid) + Selected(txids, right, mid, hi)
  {
    mask := left[..mid] + right[mid..];
    SelectedLocal(txids, left, mask, lo, mid);
    SelectedLocal(txids, right, mask, mid, hi);
    SelectedSplit(txids, mask, lo, mid, hi);
  }

  /** With the same flag bits, two lists of hashes that decode to the same hash agree on everything consumed. */
  lemma {:induction false} HashesDetermined(hash: PairHash, n: nat, e: Encoding, e': Encoding, h: nat, pos: nat, nBits: nat, nHashes: nat)
    requires Injective(hash) && e.bits == e'.bits
    requires var d, d' := Decode(hash, n, e, h, pos, nBits, nHashes), Decode(hash, n, e', h, pos, nBits, nHashes);
             !d.bad && !d'.bad && d.hash == d'.hash
    ensures Decode(hash, n, e, h, pos, nBits, nHashes) == Decode(hash, n, e', h, pos, nBits, nHashes)
    ensures var end := Decode(hash, n, e, h, pos, nBits, nHashes).nHashes;
            nHashes <= end <= |e.hashes| && end <= |e'.hashes| && e.hashes[nHashes..end] == e'.hashes[nHashes..end]
    decreases h
  {
    hide First, Pow2, TreeWidth;
    if h > 0 && e.bits[nBits] {
      HashesDetermined(hash, n, e, e', h - 1, 2 * pos, nBits + 1, nHashes);
      if 2 * pos + 1 < TreeWidth(n, h - 1) {
        var l := Decode(hash, n, e, h - 1, 2 * pos, nBits + 1, nHashes);
        HashesDetermined(hash, n, e, e', h - 1, 2 * pos + 1, l.nBits, l.nHashes);
        SliceJoin(e.hashes, e'.hashes, nHashes, l.nHashes, Decode(hash, n, e, h, pos, nBits, nHashes).nHashes);
      }
    }
  }

  lemma SliceJoin<T>(s: seq<T>, s': seq<T>, a: nat, b: nat, c: nat)
    requires a <= b <= c <= |s| && c <= |s'| && s[a..b] == s'[a..b] && s[b..c] == s'[b..c]
    ensures s[a..c] == s'[a..c]
  {
    assert s[a..c] == s[a..b] + s[b..c];
    assert s'[a..c] == s'[a..b] + s'[b..c];
  }

  // ------------------------------------------------------------- the whole message

  /** The checks before the traversal. */
  ghost predicate Plausible(n: nat, e: Encoding) {
    0 < n <= MAX_BLOCK_SIZE / 60 && |e.hashes| <= n && |e.hashes| <= |e.bits|
  }

  ghost function DecodeAll(hash: PairHash, n: nat, e: Encoding): Extraction {
    Decode(hash, n, e, TreeHeight(n), 0, 0, 0)
  }

  /** What ExtractMatches returns on an undamaged object; `NULL_HASH` stands for failure. */
  ghost function ExtractedRoot(hash: PairHash, n: nat, e: Encoding): Hash {
    var d := DecodeAll(hash, n, e);
    if Plausible(n, e) && !d.bad && Bytes(d.nBits) == Bytes(|e.bits|) && d.nHashes == |e.hashes| then d.hash else NULL_HASH
  }

  /** The encoding of a whole block. */
  ghost function EncodeAll(hash: PairHash, txids: seq<Hash>, mask: seq<bool>): Encoding
    requires 0 < |txids| == |mask|
  {
    Encode(hash, txids, mask, TreeHeight(|txids|), 0)
  }

  /** Bounds on the number of hashes, as documented. */
  lemma EncodingSize(hash: PairHash, txids: seq<Hash>, mask: seq<bool>)
    requires 0 < |txids| == |mask|
    ensures var e := EncodeAll(hash, txids, mask);
            |e.hashes| <= |txids| && |e.hashes| <= |e.bits|
            && |e.hashes| <= 1 + |Selected(txids, mask, 0, |txids|)| * TreeHeight(|txids|)
  {
    var h := TreeHeight(|txids|);
    RootRange(|txids|);
    HashesFit(hash, txids, mask, h, 0);
    HashesByMatches(hash, txids, mask, h, 0);
  }

  /**
   * Completeness: from the encoding, with or without padding bits up to the next byte, extraction recovers the Merkle
   * root of all transactions and exactly the matched ones in order, unless there are more than 16666 transactions or
   * two siblings of the same hash on the way to a match. Then it fails.
   */
  lemma ExtractEncoded(hash: PairHash, txids: seq<Hash>, mask: seq<bool>, e: Encoding)
    requires 0 < |txids| == |mask|
    requires var own := EncodeAll(hash, txids, mask);
             e.hashes == own.hashes && Within(own.bits, e.bits, 0) && Bytes(|e.bits|) == Bytes(|own.bits|)
    ensures First(TreeHeight(|txids|), 0) < |txids|
    ensures ExtractedRoot(hash, |txids|, e)
            == if |txids| <= 16666 && !Twins(hash, txids, mask, TreeHeight(|txids|), 0) then MerkleRoot(hash, txids) else NULL_HASH
    ensures DecodeAll(hash, |txids|, e) ==
              Extraction(MerkleRoot(hash, txids), Twins(hash, txids, mask, TreeHeight(|txids|), 0),
                         |EncodeAll(hash, txids, mask).bits|, |e.hashes|, Selected(txids, mask, 0, |txids|))
  {
    hide Encode, Decode, Twins;
    RootRange(|txids|);
    EncodingSize(hash, txids, mask);
    DecodeEncode(hash, txids, mask, e, TreeHeight(|txids|), 0, 0, 0);
  }

  /** A root is returned only if every hash was used, and every flag bit but the padding of the last byte. */
  lemma NothingLeftOver(hash: PairHash, n: nat, e: Encoding)
    requires ExtractedRoot(hash, n, e) != NULL_HASH
    ensures 0 < n <= 16666 && DecodeAll(hash, n, e).nHashes == |e.hashes| <= n
    ensures var used := DecodeAll(hash, n, e).nBits; used <= |e.bits| < used + 8 && |e.bits| <= (used + 7) / 8 * 8
  {
    hide TreeWidth, Pow2, Decode;
    BitsWithin(hash, n, e, TreeHeight(n), 0, 0, 0);
  }

  /** Decoding does not read past the end of the bits. */
  lemma {:induction false} BitsWithin(hash: PairHash, n: nat, e: Encoding, h: nat, pos: nat, nBits: nat, nHashes: nat)
    requires nBits <= |e.bits|
    ensures nBits <= Decode(hash, n, e, h, pos, nBits, nHashes).nBits <= |e.bits|
    decreases h
  {
    hide TreeWidth, Pow2;
    if nBits < |e.bits| && h > 0 && e.bits[nBits] {
      DecodeInner(hash, n, e, h, pos, nBits, nHashes);
      hide Decode;
      BitsWithin(hash, n, e, h - 1, 2 * pos, nBits + 1, nHashes);
      var left := Decode(hash, n, e, h - 1, 2 * pos, nBits + 1, nHashes);
      BitsWithin(hash, n, e, h - 1, 2 * pos + 1, left.nBits, left.nHashes);
    }
  }

  /** Soundness: if extraction returns the root of a block, the matches it found are a selection of its transactions. */
  lemma ExtractSound(hash: PairHash, txids: seq<Hash>, e: Encoding)
    requires txids != [] && Injective(hash) && MerkleRoot(hash, txids) != NULL_HASH
    requires ExtractedRoot(hash, |txids|, e) == MerkleRoot(hash, txids)
    ensures exists mask: seq<bool> ::
              |mask| == |txids| && DecodeAll(hash, |txids|, e).matches == Selected(txids, mask, 0, |txids|)
  {
    RootRange(|txids|);
    var mask := DecodeSound(hash, txids, e, TreeHeight(|txids|), 0, 0, 0);
  }

  /** Authentication: with given flag bits, only one list of hashes leads to a given root. */
  lemma ExtractAuthentic(hash: PairHash, n: nat, e: Encoding, e': Encoding)
    requires Injective(hash) && e.bits == e'.bits
    requires ExtractedRoot(hash, n, e) == ExtractedRoot(hash, n, e') != NULL_HASH
    ensures e == e'
  {
    HashesDetermined(hash, n, e, e', TreeHeight(n), 0, 0, 0);
    assert e.hashes[0..|e.hashes|] == e.hashes && e'.hashes[0..|e'.hashes|] == e'.hashes;
  }
}
