/** CPartialMerkleTree, its construction, its bit packing and ExtractMatches (src/merkleblock.cpp, src/merkleblock.h). */
module MerkleBlock {
  import opened Numbers
  import opened Primitives
  import opened MerkleTree
  import opened PartialMerkleTree

  // ---------------------------------------------------------------- packing of bits

  predicate BitSet(b: bv8, k: nat)
    requires k < 8
  {
    b & (1 << k) != 0
  }

  /** Setting one bit of a byte leaves the others. */
  lemma SetBit(b: bv8, k: nat, j: nat)
    requires k < 8 && j < 8
    ensures BitSet(b | (1 << k), j) <==> j == k || BitSet(b, j)
    ensures !BitSet(0, j) && b | (0 << k) == b
  {
    var one: bv8 := 1;
    assert one << 0 == 1 && one << 1 == 2 && one << 2 == 4 && one << 3 == 8;
    assert one << 4 == 16 && one << 5 == 32 && one << 6 == 64 && one << 7 == 128;
    var x := one << k;
    var y := one << j;
    assert j != k ==> x & y == 0 by {
      if k == 0 {} else if k == 1 {} else if k == 2 {} else if k == 3 {} else if k == 4 {} else if k == 5 {} else if k == 6 {} else {}
    }
    assert x & x != 0;
  }

  /** A byte with one more bit, or the same byte. */
  function WithBit(b: bv8, k: nat, x: bool): bv8
    requires k < 8
  {
    b | ((if x then 1 else 0) << k)
  }

  lemma BitAdded(b: bv8, k: nat, x: bool, j: nat)
    requires k < 8 && j < 8
    ensures BitSet(WithBit(b, k, x), j) <==> BitSet(b, j) || (x && j == k)
  {
    SetBit(b, k, j);
  }

  /** The byte form of flag bits: least significant bit first, padded with zeros. */
  ghost predicate PackedAs(bits: seq<bool>, bytes: seq<bv8>) {
    |bytes| == Bytes(|bits|) && forall p :: 0 <= p < 8 * |bytes| ==> BitSet(bytes[p / 8], p % 8) == (p < |bits| && bits[p])
  }

  ghost predicate UnpackedAs(bytes: seq<bv8>, bits: seq<bool>) {
    |bits| == 8 * |bytes| && forall p :: 0 <= p < |bits| ==> bits[p] == BitSet(bytes[p / 8], p % 8)
  }

  /** Unpacking what was packed gives the bits back, followed by padding within the last byte. */
  lemma {:induction false} PackingRoundTrip(bits: seq<bool>, bytes: seq<bv8>, bits': seq<bool>)
    requires PackedAs(bits, bytes) && UnpackedAs(bytes, bits')
    ensures Within(bits, bits', 0) && Bytes(|bits'|) == Bytes(|bits|)
    ensures bits' == bits + seq(|bits'| - |bits|, i => false)
  {
    forall i | 0 <= i < |bits|
      ensures bits'[i] == bits[i]
    {
      assert BitSet(bytes[i / 8], i % 8) == bits[i];
    }
  }

  method PackBits(bits: seq<bool>) returns (bytes: seq<bv8>)
    ensures PackedAs(bits, bytes)
  {
    bytes := seq(Bytes(|bits|), i => 0);
    assert forall p :: 0 <= p < 8 * |bytes| ==> !BitSet(bytes[p / 8], p % 8) by {
      forall p | 0 <= p < 8 * |bytes|
        ensures !BitSet(bytes[p / 8], p % 8)
      {
        SetBit(0, 0, p % 8);
      }
    }
    for p := 0 to |bits|
      invariant |bytes| == Bytes(|bits|)
      invariant forall q :: 0 <= q < 8 * |bytes| ==> BitSet(bytes[q / 8], q % 8) == (q < p && bits[q])
    {
      var was := bytes;
      bytes := bytes[p / 8 := WithBit(bytes[p / 8], p % 8, bits[p])];
      OneMorePacked(bits, p, was, bytes);
    }
  }

  /** Or-ing in the next bit. */
  lemma OneMorePacked(bits: seq<bool>, p: nat, was: seq<bv8>, bytes: seq<bv8>)
    requires p < |bits| && |was| == Bytes(|bits|) && p / 8 < |was|
    requires forall q :: 0 <= q < 8 * |was| ==> BitSet(was[q / 8], q % 8) == (q < p && bits[q])
    requires bytes == was[p / 8 := WithBit(was[p / 8], p % 8, bits[p])]
    ensures forall q :: 0 <= q < 8 * |bytes| ==> BitSet(bytes[q / 8], q % 8) == (q < p + 1 && bits[q])
  {
    hide Bytes, BitSet, WithBit;
    forall q | 0 <= q < 8 * |bytes|
      ensures BitSet(bytes[q / 8], q % 8) == (q < p + 1 && bits[q])
    {
      assert BitSet(was[q / 8], q % 8) == (q < p && bits[q]);
      BitAdded(was[q / 8], p % 8, bits[p], q % 8);
      SamePlace(p, q);
    }
  }

  lemma SamePlace(p: nat, q: nat)
    ensures p == q <==> p / 8 == q / 8 && p % 8 == q % 8
  {
  }

  method UnpackBits(bytes: seq<bv8>) returns (bits: seq<bool>)
    ensures UnpackedAs(bytes, bits)
  {
    bits := [];
    for p := 0 to 8 * |bytes|
      invariant |bits| == p && forall q :: 0 <= q < p ==> bits[q] == BitSet(bytes[q / 8], q % 8)
    {
      bits := bits + [bytes[p / 8] & (1 << (p % 8)) != 0];
    }
  }

  /** An extraction that follows on what was found before. */
  ghost function Continue(bad: bool, matches: seq<Hash>, d: Extraction): Extraction {
    d.(bad := bad || d.bad, matches := matches + d.matches)
  }

  lemma Appended<T>(a: seq<T>, b: seq<T>, c: seq<T>, d: seq<T>)
    ensures a + b + c == a + (b + c) && a + b + c + d == a + (b + c + d)
  {
  }

  /** The serialized form. */
  datatype Message = Message(nTransactions: nat, vHash: seq<Hash>, vBytes: seq<bv8>)

  class CPartialMerkleTree {
    const hash: PairHash
    var nTransactions: nat
    var vBits: seq<bool>
    var vHash: seq<Hash>
    var fBad: bool

    ghost function Content(): Encoding
      reads this`vBits, this`vHash
    {
      Encoding(vBits, vHash)
    }

    /** A partial tree for a block, revealing the transactions the mask selects. */
    constructor (hash: PairHash, vTxid: seq<Hash>, vMatch: seq<bool>)
      requires 0 < |vTxid| == |vMatch|
      ensures this.hash == hash && nTransactions == |vTxid| && !fBad
      ensures Content() == EncodeAll(hash, vTxid, vMatch)
    {
      this.hash := hash;
      nTransactions := |vTxid|;
      fBad := false;
      vBits := [];
      vHash := [];
      new;
      var nHeight := FindHeight();
      TraverseAndBuild(nHeight, 0, vTxid, vMatch);
    }

    /** Read from a stream. */
    constructor Unserialize(hash: PairHash, m: Message)
      ensures this.hash == hash && nTransactions == m.nTransactions && vHash == m.vHash && !fBad
      ensures UnpackedAs(m.vBytes, vBits)
    {
      this.hash := hash;
      nTransactions := m.nTransactions;
      vHash := m.vHash;
      var bits := UnpackBits(m.vBytes);
      vBits := bits;
      fBad := false;
    }

    method Serialize() returns (m: Message)
      ensures m.nTransactions == nTransactions && m.vHash == vHash && PackedAs(vBits, m.vBytes)
    {
      var vBytes := PackBits(vBits);
      m := Message(nTransactions, vHash, vBytes);
    }

    method FindHeight() returns (nHeight: nat)
      ensures nHeight == TreeHeight(nTransactions)
    {
      nHeight := 0;
      while TreeWidth(nTransactions, nHeight) > 1
        invariant HeightFrom(nTransactions, nHeight) == TreeHeight(nTransactions)
        decreases TreeHeight(nTransactions) - nHeight
      {
        nHeight := nHeight + 1;
      }
    }

    /** Whether a matched transaction lies below a node. */
    method IsParentOfMatch(height: nat, pos: nat, vMatch: seq<bool>) returns (fParentOfMatch: bool)
      requires First(height, pos) < |vMatch| == nTransactions && First(height, pos) <= Limit(nTransactions, height, pos)
      ensures fParentOfMatch == AnyMatch(vMatch, First(height, pos), Limit(nTransactions, height, pos))
    {
      fParentOfMatch := false;
      var p := pos * Pow2(height);
      while p < (pos + 1) * Pow2(height) && p < nTransactions
        invariant First(height, pos) <= p <= Limit(nTransactions, height, pos)
        invariant fParentOfMatch == AnyMatch(vMatch, First(height, pos), p)
      {
        fParentOfMatch := fParentOfMatch || vMatch[p];
        p := p + 1;
      }
    }

    method TraverseAndBuild(height: nat, pos: nat, vTxid: seq<Hash>, vMatch: seq<bool>)
      requires First(height, pos) < |vTxid| == |vMatch| == nTransactions
      modifies this`vBits, this`vHash
      ensures vBits == old(vBits) + Encode(hash, vTxid, vMatch, height, pos).bits
      ensures vHash == old(vHash) + Encode(hash, vTxid, vMatch, height, pos).hashes
      decreases height
    {
      hide First, Pow2, TreeWidth, AnyMatch;
      NodeRange(|vTxid|, height, pos);
      var fParentOfMatch := IsParentOfMatch(height, pos, vMatch);
      vBits := vBits + [fParentOfMatch];
      if height == 0 || !fParentOfMatch {
        vHash := vHash + [CalcHash(hash, vTxid, height, pos)];
      } else {
        ChildRanges(|vTxid|, height, pos);
        ghost var left := Encode(hash, vTxid, vMatch, height - 1, pos * 2);
        TraverseAndBuild(height - 1, pos * 2, vTxid, vMatch);
        Appended(old(vBits), [true], left.bits, []);
        if pos * 2 + 1 < TreeWidth(nTransactions, height - 1) {
          ghost var right := Encode(hash, vTxid, vMatch, height - 1, pos * 2 + 1);
          TraverseAndBuild(height - 1, pos * 2 + 1, vTxid, vMatch);
          Appended(old(vBits), [true], left.bits, right.bits);
          Appended(old(vHash), left.hashes, right.hashes, []);
        }
      }
    }

    method TraverseAndExtract(height: nat, pos: nat, nBitsUsed0: nat, nHashUsed0: nat, vMatch0: seq<Hash>)
        returns (h: Hash, nBitsUsed: nat, nHashUsed: nat, vMatch: seq<Hash>)
      modifies this`fBad
      ensures Extraction(h, fBad, nBitsUsed, nHashUsed, vMatch)
           == Continue(old(fBad), vMatch0, Decode(hash, nTransactions, Content(), height, pos, nBitsUsed0, nHashUsed0))
      decreases height, 1
    {
      hide TreeWidth, Pow2;
      nBitsUsed, nHashUsed, vMatch := nBitsUsed0, nHashUsed0, vMatch0;
      if nBitsUsed >= |vBits| {
        fBad := true;
        return NULL_HASH, nBitsUsed, nHashUsed, vMatch;
      }
      var fParentOfMatch := vBits[nBitsUsed];
      nBitsUsed := nBitsUsed + 1;
      if height == 0 || !fParentOfMatch {
        if nHashUsed >= |vHash| {
          fBad := true;
          return NULL_HASH, nBitsUsed, nHashUsed, vMatch;
        }
        h := vHash[nHashUsed];
        nHashUsed := nHashUsed + 1;
        if height == 0 && fParentOfMatch {
          vMatch := vMatch + [h];
        }
      } else {
        h, nBitsUsed, nHashUsed, vMatch := ExtractChildren(height, pos, nBitsUsed, nHashUsed, vMatch);
      }
    }

    /** Decodes the children of a node whose bit is set. */
    method ExtractChildren(height: nat, pos: nat, nBitsUsed0: nat, nHashUsed0: nat, vMatch0: seq<Hash>)
        returns (h: Hash, nBitsUsed: nat, nHashUsed: nat, vMatch: seq<Hash>)
      requires height > 0 && 0 < nBitsUsed0 <= |vBits| && vBits[nBitsUsed0 - 1]
      modifies this`fBad
      ensures Extraction(h, fBad, nBitsUsed, nHashUsed, vMatch)
           == Continue(old(fBad), vMatch0, Decode(hash, nTransactions, Content(), height, pos, nBitsUsed0 - 1, nHashUsed0))
      decreases height, 0
    {
      hide Decode, TreeWidth;
      ghost var e := Content();
      ghost var l := Decode(hash, nTransactions, e, height - 1, pos * 2, nBitsUsed0, nHashUsed0);
      DecodeInner(hash, nTransactions, e, height, pos, nBitsUsed0 - 1, nHashUsed0);
      var left, right;
      left, nBitsUsed, nHashUsed, vMatch := TraverseAndExtract(height - 1, pos * 2, nBitsUsed0, nHashUsed0, vMatch0);
      assert Content() == e;
      if pos * 2 + 1 < TreeWidth(nTransactions, height - 1) {
        right, nBitsUsed, nHashUsed, vMatch := TraverseAndExtract(height - 1, pos * 2 + 1, nBitsUsed, nHashUsed, vMatch);
        Appended(vMatch0, l.matches, Decode(hash, nTransactions, e, height - 1, pos * 2 + 1, l.nBits, l.nHashes).matches, []);
        if right == left {
          fBad := true;
        }
        assert Content() == e;
      } else {
        right := left;
      }
      h := hash(left, right);
    }

    /** The Merkle root, or NULL_HASH if the object is damaged; a failed traversal leaves it marked bad for good. */
    method ExtractMatches() returns (root: Hash, vMatch: seq<Hash>)
      modifies this`fBad
      ensures root == if old(fBad) then NULL_HASH else ExtractedRoot(hash, nTransactions, Content())
      ensures vMatch == if Plausible(nTransactions, Content()) then DecodeAll(hash, nTransactions, Content()).matches else []
      ensures fBad == (old(fBad) || (Plausible(nTransactions, Content()) && DecodeAll(hash, nTransactions, Content()).bad))
    {
      vMatch := [];
      if nTransactions == 0 {
        return NULL_HASH, vMatch;
      }
      if nTransactions > MAX_BLOCK_SIZE / 60 {
        return NULL_HASH, vMatch;
      }
      if |vHash| > nTransactions {
        return NULL_HASH, vMatch;
      }
      if |vBits| < |vHash| {
        return NULL_HASH, vMatch;
      }
      var nHeight := FindHeight();
      var nBitsUsed, nHashUsed;
      root, nBitsUsed, nHashUsed, vMatch := TraverseAndExtract(nHeight, 0, 0, 0, vMatch);
      if fBad {
        return NULL_HASH, vMatch;
      }
      if Bytes(nBitsUsed) != Bytes(|vBits|) {
        return NULL_HASH, vMatch;
      }
      if nHashUsed != |vHash| {
        return NULL_HASH, vMatch;
      }
    }
  }

  /**
   * Building, serializing, reading back and extracting: the receiver gets the root and exactly the matched ids, unless
   * there are too many transactions or equal siblings on the way to a match; distinct ids never give those.
   */
  method RelayMatches(hash: PairHash, vTxid: seq<Hash>, vMatch: seq<bool>) returns (root: Hash, matched: seq<Hash>)
    requires 0 < |vTxid| == |vMatch|
    ensures First(TreeHeight(|vTxid|), 0) < |vTxid|
    ensures root == if |vTxid| <= 16666 && !Twins(hash, vTxid, vMatch, TreeHeight(|vTxid|), 0) then MerkleRoot(hash, vTxid) else NULL_HASH
    ensures Injective(hash) && Distinct(vTxid) && |vTxid| <= 16666 ==> root == MerkleRoot(hash, vTxid)
    ensures matched == if |vTxid| <= 16666 then Selected(vTxid, vMatch, 0, |vTxid|) else []
  {
    hide Twins;
    var sender := new CPartialMerkleTree(hash, vTxid, vMatch);
    var message := sender.Serialize();
    var receiver := new CPartialMerkleTree.Unserialize(hash, message);
    PackingRoundTrip(sender.vBits, message.vBytes, receiver.vBits);
    ExtractEncoded(hash, vTxid, vMatch, receiver.Content());
    EncodingSize(hash, vTxid, vMatch);
    root, matched := receiver.ExtractMatches();
    if Injective(hash) && Distinct(vTxid) {
      DistinctHasNoTwins(hash, vTxid, vMatch, TreeHeight(|vTxid|), 0);
    }
  }
}
