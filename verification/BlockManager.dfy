/**
 * The candidate tips of src/main.cpp: ReceivedBlockTransactions and FindMostWorkChain over the shared block index.
 */
module BlockManager {
  import opened Primitives
  import opened BlockTree
  import opened ActiveChain
  import opened BlockLinking
  import opened Candidates

  /** Walking down to the active chain meets only blocks with data and without failure flags. */
  ghost predicate Usable(t: Tree, chain: seq<BlockPtr>, b: BlockPtr)
    requires TreeOk(t) && b in t
    decreases t[b].nHeight
  {
    assert NodeOk(t, b);
    ContainsBlock(t, chain, b) ||
    (!t[b].Failed() && t[b].haveData && (t[b].pprev == NIL || Usable(t, chain, t[b].pprev)))
  }

  /** Linked blocks have linked parents, and candidates are linked. */
  ghost predicate CandidatesOk(t: Tree, candidates: set<BlockPtr>) {
    && TreeOk(t) && candidates <= t.Keys
    && (forall c :: c in candidates ==> t[c].nChainTx != 0)
    && (forall b {:trigger ParentLinked(t, b)} :: b in t && t[b].nChainTx != 0 ==> ParentLinked(t, b))
  }

  /** Walking down to the active chain, the first block that stops the walk is a failed one. */
  ghost predicate Spoiled(t: Tree, chain: seq<BlockPtr>, b: BlockPtr)
    requires TreeOk(t) && b in t
    decreases t[b].nHeight
  {
    assert NodeOk(t, b);
    !ContainsBlock(t, chain, b) &&
    (t[b].Failed() || (t[b].haveData && t[b].pprev != NIL && Spoiled(t, chain, t[b].pprev)))
  }

  /** `t'` differs from `t` only in FAILED_CHILD marks on blocks that were spoiled before. */
  ghost predicate OnlyMarkedSpoiled(t: Tree, t': Tree, chain: seq<BlockPtr>)
    requires TreeOk(t)
  {
    && t'.Keys == t.Keys
    && forall b :: b in t ==>
         t'[b] == t[b] || (t'[b] == t[b].(failedChild := true) && Spoiled(t, chain, b))
  }

  lemma {:induction false} MarksChangeNothing(t: Tree, t': Tree, chain: seq<BlockPtr>, b: BlockPtr)
    requires TreeOk(t) && TreeOk(t') && OnlyMarkedSpoiled(t, t', chain) && b in t
    ensures Usable(t', chain, b) <==> Usable(t, chain, b)
    ensures Spoiled(t', chain, b) <==> Spoiled(t, chain, b)
    ensures Spoiled(t, chain, b) ==> !Usable(t, chain, b)
    decreases t[b].nHeight
  {
    assert NodeOk(t, b);
    if t[b].pprev != NIL {
      MarksChangeNothing(t, t', chain, t[b].pprev);
    }
  }

  /** `a` is `b` or an ancestor of it, and all from `b` down to above `a` is in order and not on the active chain. */
  ghost predicate Reaches(t: Tree, chain: seq<BlockPtr>, b: BlockPtr, a: BlockPtr)
    requires TreeOk(t) && b in t
    decreases t[b].nHeight
  {
    assert NodeOk(t, b);
    b == a || (!ContainsBlock(t, chain, b) && !t[b].Failed() && t[b].haveData
               && t[b].pprev != NIL && Reaches(t, chain, t[b].pprev, a))
  }

  /** `bad` is the block at which the walk down from `b` has to stop. */
  ghost predicate StopsAt(t: Tree, chain: seq<BlockPtr>, b: BlockPtr, bad: BlockPtr)
    requires TreeOk(t) && b in t
  {
    bad in t && Reaches(t, chain, b, bad) && !ContainsBlock(t, chain, bad) && (t[bad].Failed() || !t[bad].haveData)
  }

  lemma {:induction false} ReachesParent(t: Tree, chain: seq<BlockPtr>, b: BlockPtr, a: BlockPtr)
    requires TreeOk(t) && b in t && a in t && Reaches(t, chain, b, a) && t[a].pprev != NIL
    requires !ContainsBlock(t, chain, a) && !t[a].Failed() && t[a].haveData
    ensures Reaches(t, chain, b, t[a].pprev)
    decreases t[b].nHeight
  {
    assert NodeOk(t, b) && NodeOk(t, a);
    if b != a {
      ReachesParent(t, chain, t[b].pprev, a);
    } else {
      assert Reaches(t, chain, t[b].pprev, t[a].pprev);
    }
  }

  /** The blocks from `b` down to above `bad`. */
  ghost function Segment(t: Tree, chain: seq<BlockPtr>, b: BlockPtr, bad: BlockPtr): set<BlockPtr>
    requires TreeOk(t) && b in t && Reaches(t, chain, b, bad)
    decreases t[b].nHeight
  {
    assert NodeOk(t, b);
    if b == bad then {} else {b} + Segment(t, chain, t[b].pprev, bad)
  }

  /** Every block of the segment, and `bad` itself, is unusable, and spoiled exactly if `bad` is failed. */
  lemma {:induction false} SegmentUnusable(t: Tree, chain: seq<BlockPtr>, b: BlockPtr, bad: BlockPtr)
    requires TreeOk(t) && b in t && StopsAt(t, chain, b, bad)
    ensures b in Segment(t, chain, b, bad) + {bad}
    ensures forall k :: k in Segment(t, chain, b, bad) + {bad} ==>
              k in t && !Usable(t, chain, k) && (Spoiled(t, chain, k) <==> t[bad].Failed())
    ensures forall k :: k in Segment(t, chain, b, bad) ==> t[k].pprev != NIL
    decreases t[b].nHeight
  {
    assert NodeOk(t, b);
    if b != bad {
      SegmentUnusable(t, chain, t[b].pprev, bad);
      assert t[b].pprev in Segment(t, chain, t[b].pprev, bad) + {bad};
    }
  }

  ghost function Marked(t: Tree, marks: set<BlockPtr>): Tree {
    map k | k in t :: if k in marks then t[k].(failedChild := true) else t[k]
  }

  /** The entries added to the unlinked map are exactly for the blocks of `aside`, each under its parent. */
  ghost predicate PutAside(t: Tree, aside: set<BlockPtr>, u: Unlinked, u': Unlinked)
    requires aside <= t.Keys
  {
    && (forall p :: p in u ==> p in u' && u[p] <= u'[p])
    && (forall p, i :: p in u' && (if p in u then |u[p]| else 0) <= i < |u'[p]| ==> u'[p][i] in aside && t[u'[p][i]].pprev == p)
    && (forall k :: k in aside ==> t[k].pprev in u' && k in u'[t[k].pprev])
  }

  /** A candidate that is given up is marked failed, or waits for its parent again, or is itself without data. */
  ghost predicate Handled(start: Tree, chain: seq<BlockPtr>, t: Tree, u: Unlinked, c: BlockPtr)
    requires TreeOk(start) && c in start && c in t
  {
    if Spoiled(start, chain, c) then t[c].Failed()
    else !start[c].haveData || (start[c].pprev in u && c in u[start[c].pprev])
  }

  /** What a search for the best candidate may leave behind. */
  ghost predicate Sifted(start: Tree, chain: seq<BlockPtr>, c0: set<BlockPtr>, u0: Unlinked, i0: BlockPtr,
                         t: Tree, c: set<BlockPtr>, u: Unlinked, i: BlockPtr)
  {
    && CandidatesOk(start, c0) && CandidatesOk(t, c) && OnlyMarkedSpoiled(start, t, chain) && c <= c0
    && (forall k :: k in c0 - c ==> !Usable(start, chain, k) && Handled(start, chain, t, u, k))
    && SiftedAside(start, chain, u0, u)
    && (i0 == NIL || i0 in start) && BestInvalidOk(start, chain, c0 - c, i0, i)
  }

  /** Only blocks that wait for data are put aside. */
  ghost predicate SiftedAside(start: Tree, chain: seq<BlockPtr>, u0: Unlinked, u: Unlinked)
    requires TreeOk(start)
  {
    && (forall p :: p in u0 ==> p in u && u0[p] <= u[p])
    && (forall p, i :: p in u && (if p in u0 then |u0[p]| else 0) <= i < |u[p]| ==>
          var b := u[p][i]; b in start && start[b].pprev == p && !Usable(start, chain, b) && !Spoiled(start, chain, b))
  }

  /** The best-invalid marker: of the old one and the candidates that were given up as failed, one of most work. */
  ghost predicate BestInvalidOk(t: Tree, chain: seq<BlockPtr>, dropped: set<BlockPtr>, was: BlockPtr, now: BlockPtr)
    requires TreeOk(t) && dropped <= t.Keys && (was == NIL || was in t)
  {
    && (now == NIL || now in t)
    && (now == was || (now in dropped && Spoiled(t, chain, now) && (was == NIL || t[now].nChainWork > t[was].nChainWork)))
    && forall k :: k in dropped && Spoiled(t, chain, k) ==> now != NIL && t[now].nChainWork >= t[k].nChainWork
  }

  class BlockManager {
    var index: Tree
    var chainActive: seq<BlockPtr>
    var unlinked: Unlinked
    var candidates: set<BlockPtr>
    var nBlockSequenceId: nat
    var bestInvalid: BlockPtr

    constructor (t: Tree)
      requires TreeOk(t) && forall b :: b in t ==> !t[b].haveData && t[b].nTx == t[b].nChainTx == 0
      ensures index == t && chainActive == [] && unlinked == map[] && candidates == {} && nBlockSequenceId == 1 && bestInvalid == NIL
    {
      index, chainActive, unlinked, candidates := t, [], map[], {};
      nBlockSequenceId, bestInvalid := 1, NIL;
    }

    function Tip(): BlockPtr
      reads this
    {
      if chainActive == [] then NIL else chainActive[|chainActive| - 1]
    }

    /**
     * ReceivedBlockTransactions for a block whose data was missing. The invariant of BlockLinking holds again when
     * the queue is empty, and exactly the newly linked blocks that are no worse than the tip become candidates.
     */
    method ReceivedBlockTransactions(b: BlockPtr, nTx: nat)
      requires LinkInv(index, unlinked) && b in index && !index[b].haveData && nTx > 0
      requires TreeOk(Received(index, b, nTx)) && CountsOk(Received(index, b, nTx))
      requires forall k :: k in index ==> !index[k].Failed()
      requires Tip() == NIL || (Tip() in index && index[Tip()].nChainTx != 0)
      modifies this`index, this`unlinked, this`candidates, this`nBlockSequenceId
      ensures LinkInv(index, unlinked) && SameShape(old(index), index)
      ensures forall k :: k in index ==>
                && index[k].haveData == (old(index)[k].haveData || k == b)
                && index[k].nTx == (if k == b then nTx else old(index)[k].nTx)
                && index[k].failedValid == old(index)[k].failedValid && index[k].failedChild == old(index)[k].failedChild
      ensures candidates == old(candidates) + NewCandidates(old(index), index, Tip())
      ensures forall k :: k in index && old(index)[k].nChainTx != 0 ==> index[k] == old(index)[k]
      ensures Numbered(old(index), index, old(nBlockSequenceId), nBlockSequenceId)
    {
      hide QueueInv, CountsOk, Linking;
      ghost var before := index;
      ArrivalFacts(index, unlinked, b, nTx, Tip());
      index := Received(index, b, nTx);
      NothingLinkedYet(index, candidates, nBlockSequenceId, Tip());
      if index[b].pprev == NIL || index[index[b].pprev].nChainTx != 0 {
        ArrivalLinks(before, unlinked, b, nTx);
        LinkQueue(b);
      } else {
        var p := index[b].pprev;
        ArrivalWaits(before, unlinked, b, nTx);
        if !index[p].Failed() {
          unlinked := unlinked[p := (if p in unlinked then unlinked[p] else []) + [b]];
        }
      }
      Arrived(before, b, nTx, old(candidates), old(nBlockSequenceId), index, candidates, nBlockSequenceId, Tip());
    }

    /**
     * The blocks of `order` received one after the other, whatever the order: in the end, as after every prefix, a
     * block has a count exactly when it and all its ancestors have arrived, it is then a candidate, and blocks that
     * were complete earlier have smaller sequence numbers. `sizes` gives the transactions of each block; no path may
     * hold 2^32 of them.
     */
    method ReceiveAll(order: seq<BlockPtr>, sizes: map<BlockPtr, nat>)
      requires NothingArrived(index) && Deliverable(index, order, sizes) && unlinked == map[] && chainActive == []
      modifies this`index, this`unlinked, this`candidates, this`nBlockSequenceId
      ensures LinkInv(index, unlinked) && SameShape(old(index), index)
      ensures forall k :: k in index ==> (index[k].haveData <==> k in order) && !index[k].Failed()
      ensures forall k :: k in index ==> (index[k].nChainTx != 0 <==> CompleteBy(old(index), order, |order|, k))
      ensures forall k :: k in index && index[k].nChainTx != 0 ==> index[k].nChainTx == PathTx(index, k)
      ensures candidates == old(candidates) + set k | k in index && index[k].nChainTx != 0
      ensures FirstComeFirst(old(index), index, order, |order|)
    {
      hide PathTx, CountsOk, Numbered, NewCandidates, CompleteBy, FirstComeFirst, UnlinkedOk, ArrivedSoFar;
      NothingReceived(index);
      NothingComplete(index, order);
      for n := 0 to |order|
        invariant LinkInv(index, unlinked) && SameShape(old(index), index)
        invariant forall k :: k in index ==> !index[k].Failed() && index[k].nTx == if index[k].haveData then sizes[k] else 0
        invariant forall k :: k in index ==> (index[k].haveData <==> k in order[..n])
        invariant ArrivedSoFar(old(index), index, order, n, nBlockSequenceId, old(candidates), candidates)
      {
        var b := order[n];
        assert order[..n + 1] == order[..n] + [b];
        assert b !in order[..n];
        NextArrivalFits(index, old(index), sizes, b);
        ghost var t, c, lo := index, candidates, nBlockSequenceId;
        ReceivedBlockTransactions(b, sizes[b]);
        OneMoreReceived(old(index), t, index, unlinked, order, n, lo, nBlockSequenceId, old(candidates), c, candidates);
      }
      assert order[..|order|] == order;
      AllArrived(old(index), index, unlinked, order, nBlockSequenceId, old(candidates), candidates);
    }

    /**
     * Blocks received in any order, and then a search for the best chain: the block found is complete, no complete block
     * has more work, and one of the same work was not complete any earlier.
     */
    method ReceiveAllAndFind(order: seq<BlockPtr>, sizes: map<BlockPtr, nat>) returns (best: BlockPtr)
      requires NothingArrived(index) && Deliverable(index, order, sizes) && unlinked == map[] && chainActive == []
      requires candidates == {} && bestInvalid == NIL
      modifies this`index, this`unlinked, this`candidates, this`nBlockSequenceId, this`bestInvalid
      ensures best == NIL ==> forall k :: k in old(index) ==> !CompleteBy(old(index), order, |order|, k)
      ensures best != NIL ==> best in old(index) && CompleteBy(old(index), order, |order|, best)
      ensures best != NIL ==>
                forall k :: k in old(index) && CompleteBy(old(index), order, |order|, k) ==>
                  old(index)[k].nChainWork <= old(index)[best].nChainWork
      ensures best != NIL ==>
                forall k, i :: k in old(index) && 0 <= i <= |order| && CompleteBy(old(index), order, i, k) ==>
                  old(index)[k].nChainWork < old(index)[best].nChainWork || CompleteBy(old(index), order, i, best)
    {
      hide Deliverable, CompleteBy, Usable, Spoiled, Sifted, FirstComeFirst, PathTx;
      ReceiveAll(order, sizes);
      ghost var t := index;
      assert candidates == set k | k in t && t[k].nChainTx != 0;
      AllUsable(old(index), t, unlinked, order);
      hide LinkInv;
      best := FindMostWorkChain();
      if best != NIL {
        EarliestComplete(old(index), t, order, best);
      }
    }

    /** The linking queue; every round links one more block. */
    method LinkQueue(b: BlockPtr)
      requires QueueInv(index, unlinked, [b])
      requires Tip() == NIL || (Tip() in index && index[Tip()].nChainTx != 0)
      modifies this`index, this`unlinked, this`candidates, this`nBlockSequenceId
      ensures LinkInv(index, unlinked)
      ensures Linking(old(index), old(candidates), old(nBlockSequenceId), index, candidates, nBlockSequenceId, Tip())
    {
      hide QueueInv, Linking, Worse, ParentLinked, PathTx, Uncounted;
      var queue := [b];
      var tip := Tip();
      NothingLinkedYet(index, candidates, nBlockSequenceId, tip);
      while queue != []
        invariant QueueInv(index, unlinked, queue)
        invariant tip == NIL || (tip in index && index[tip].nChainTx != 0)
        invariant Linking(old(index), old(candidates), old(nBlockSequenceId), index, candidates, nBlockSequenceId, tip)
        decreases Uncounted(index)
      {
        var q := queue[0];
        FrontCount(index, unlinked, queue);
        var node := index[q];
        var before := if node.pprev == NIL then 0 else index[node.pprev].nChainTx;
        ghost var t, was := index, candidates;
        index := index[q := node.(nChainTx := (before + node.nTx) % UINT32, nSequenceId := nBlockSequenceId)];
        nBlockSequenceId := nBlockSequenceId + 1;
        if tip == NIL || !Worse(index, q, tip) {
          candidates := candidates + {q};
        }
        LinkFront(t, index, nBlockSequenceId - 1, unlinked, queue);
        LinkingMore(old(index), old(candidates), old(nBlockSequenceId), t, was, unlinked, queue, index, nBlockSequenceId - 1, tip);
        queue := queue[1..] + (if q in unlinked then unlinked[q] else []);
        unlinked := unlinked - {q};
      }
    }

    /**
     * FindMostWorkChain returns the best candidate whose path down to the active chain is unfailed and has data, or
     * NIL if there is none: of most work, among equals the one linked first. All it gives up is unusable and handled
     * as the comments in the code promise; a tip that is a candidate stays one.
     */
    method FindMostWorkChain() returns (best: BlockPtr)
      requires CandidatesOk(index, candidates) && (bestInvalid == NIL || bestInvalid in index)
      modifies this`index, this`candidates, this`unlinked, this`bestInvalid
      ensures Sifted(old(index), chainActive, old(candidates), old(unlinked), old(bestInvalid),
                     index, candidates, unlinked, bestInvalid)
      ensures best != NIL ==> best in candidates && best in old(candidates) && Usable(old(index), chainActive, best)
      ensures best != NIL ==>
                forall c :: c in old(candidates) && c != best && Usable(old(index), chainActive, c) ==>
                  var x, y := old(index)[c], old(index)[best];
                  || x.nChainWork < y.nChainWork
                  || (x.nChainWork == y.nChainWork && x.nSequenceId > y.nSequenceId)
                  || (x.nChainWork == y.nChainWork && x.nSequenceId == y.nSequenceId && c > best)
      ensures best == NIL ==> forall c :: c in old(candidates) ==> !Usable(old(index), chainActive, c)
      ensures Tip() in old(candidates) && ContainsBlock(old(index), chainActive, Tip()) ==>
                Tip() in candidates && best != NIL && !Worse(old(index), best, Tip())
    {
      if Tip() in index {
        ActiveUsable(index, chainActive, Tip());
      }
      hide Usable, Spoiled, Sifted, Reaches;
      NothingSifted(index, chainActive, candidates, unlinked, bestInvalid);
      while true
        invariant Sifted(old(index), chainActive, old(candidates), old(unlinked), old(bestInvalid),
                         index, candidates, unlinked, bestInvalid)
        decreases candidates
      {
        SiftedFacts(old(index), chainActive, old(candidates), old(unlinked), old(bestInvalid),
                    index, candidates, unlinked, bestInvalid);
        if candidates == {} {
          return NIL;
        }
        BestExists(index, candidates);
        best :| IsBest(index, candidates, best);
        var bad := FirstUnusable(best);
        if bad == NIL {
          return;
        }
        ghost var t, c, u, i := index, candidates, unlinked, bestInvalid;
        DropCandidate(best, bad);
        SiftMore(old(index), chainActive, old(candidates), old(unlinked), old(bestInvalid), t, c, u, i, best, bad,
                 index, candidates, unlinked, bestInvalid);
      }
    }

    /** The inner walk: the first block below `b` and off the active chain that is failed or lacks data. */
    method FirstUnusable(b: BlockPtr) returns (bad: BlockPtr)
      requires CandidatesOk(index, candidates) && b in index && index[b].nChainTx != 0
      ensures bad == NIL <==> Usable(index, chainActive, b)
      ensures bad != NIL ==> StopsAt(index, chainActive, b, bad)
    {
      bad := b;
      while bad != NIL && !ContainsBlock(index, chainActive, bad)
        invariant bad != NIL ==> bad in index && index[bad].nChainTx != 0
        invariant bad != NIL ==> (Usable(index, chainActive, b) <==> Usable(index, chainActive, bad))
        invariant bad == NIL ==> Usable(index, chainActive, b)
        invariant bad != NIL ==> Reaches(index, chainActive, b, bad)
        decreases if bad == NIL then 0 else index[bad].nHeight + 1
      {
        assert NodeOk(index, bad) && ParentLinked(index, bad);
        assert index[bad].nChainTx != 0; // the assertion of the original
        if index[bad].Failed() || !index[bad].haveData {
          return;
        }
        if index[bad].pprev != NIL {
          ReachesParent(index, chainActive, b, bad);
        }
        bad := index[bad].pprev;
      }
      bad := NIL;
    }

    /** Gives up a candidate with an unusable ancestor, and every block in between. */
    method DropCandidate(b: BlockPtr, bad: BlockPtr)
      requires CandidatesOk(index, candidates) && b in candidates && StopsAt(index, chainActive, b, bad)
      requires bestInvalid == NIL || bestInvalid in index
      modifies this`index, this`candidates, this`unlinked, this`bestInvalid
      ensures Dropped(old(index), chainActive, b, bad, old(candidates), old(unlinked), index, candidates, unlinked)
      ensures bestInvalid == if old(index)[bad].Failed() &&
                                (old(bestInvalid) == NIL || old(index)[b].nChainWork > old(index)[old(bestInvalid)].nChainWork)
                             then b else old(bestInvalid)
    {
      var failedChain := index[bad].Failed();
      if failedChain && (bestInvalid == NIL || index[b].nChainWork > index[bestInvalid].nChainWork) {
        bestInvalid := b;
      }
      DropPath(b, bad, failedChain);
    }

    /** Takes every block from `b` down to `bad` off the candidates, and marks it failed or puts it aside. */
    method DropPath(b: BlockPtr, bad: BlockPtr, failedChain: bool)
      requires TreeOk(index) && b in index && StopsAt(index, chainActive, b, bad) && failedChain == index[bad].Failed()
      modifies this`index, this`candidates, this`unlinked
      ensures Dropped(old(index), chainActive, b, bad, old(candidates), old(unlinked), index, candidates, unlinked)
    {
      hide PutAside, Usable, Spoiled, Marked;
      ghost var all := Segment(index, chainActive, b, bad);
      ghost var done := {};
      var k := b;
      SegmentUnusable(index, chainActive, b, bad);
      NothingAside(index, unlinked);
      while k != bad
        invariant k in old(index) && Reaches(old(index), chainActive, k, bad)
        invariant done + Segment(old(index), chainActive, k, bad) == all
        invariant candidates == old(candidates) - done
        invariant index == Marked(old(index), if failedChain then done else {})
        invariant PutAside(old(index), if failedChain then {} else done, old(unlinked), unlinked)
        decreases old(index)[k].nHeight
      {
        assert NodeOk(old(index), k);
        MarkedEntry(old(index), if failedChain then done else {}, k);
        var next := index[k].pprev;
        if failedChain {
          MarkedMore(old(index), done, k);
          index := index[k := index[k].(failedChild := true)];
        } else {
          AsideMore(old(index), done, old(unlinked), unlinked, k);
          unlinked := unlinked[next := (if next in unlinked then unlinked[next] else []) + [k]];
        }
        candidates := candidates - {k};
        done := done + {k};
        k := next;
      }
      candidates := candidates - {bad};
      assert old(candidates) - all - {bad} == old(candidates) - (all + {bad});
    }
  }

  /** The effect of giving up everything from `b` down to `bad`. */
  ghost predicate Dropped(t: Tree, chain: seq<BlockPtr>, b: BlockPtr, bad: BlockPtr, c: set<BlockPtr>, u: Unlinked,
                          t': Tree, c': set<BlockPtr>, u': Unlinked)
    requires TreeOk(t) && b in t && StopsAt(t, chain, b, bad)
  {
    var all := Segment(t, chain, b, bad);
    && all <= t.Keys
    && c' == c - (all + {bad})
    && t' == Marked(t, if t[bad].Failed() then all else {})
    && PutAside(t, if t[bad].Failed() then {} else all, u, u')
  }

  lemma NothingAside(t: Tree, u: Unlinked)
    ensures PutAside(t, {}, u, u) && Marked(t, {}) == t
  {
  }

  lemma MarkedEntry(t: Tree, marks: set<BlockPtr>, k: BlockPtr)
    requires k in t
    ensures k in Marked(t, marks) && Marked(t, marks)[k].pprev == t[k].pprev
  {
  }

  lemma MarkedMore(t: Tree, marks: set<BlockPtr>, k: BlockPtr)
    requires k in t
    ensures var m := Marked(t, marks); k in m && m[k := m[k].(failedChild := true)] == Marked(t, marks + {k})
  {
  }

  lemma AsideMore(t: Tree, aside: set<BlockPtr>, u: Unlinked, u': Unlinked, b: BlockPtr)
    requires aside <= t.Keys && PutAside(t, aside, u, u') && b in t
    ensures var p := t[b].pprev; PutAside(t, aside + {b}, u, u'[p := (if p in u' then u'[p] else []) + [b]])
  {
  }

  lemma NothingSifted(t: Tree, chain: seq<BlockPtr>, c: set<BlockPtr>, u: Unlinked, i: BlockPtr)
    requires CandidatesOk(t, c) && (i == NIL || i in t)
    ensures Sifted(t, chain, c, u, i, t, c, u, i)
  {
    hide Usable, Spoiled;
  }

  lemma SiftedFacts(start: Tree, chain: seq<BlockPtr>, c0: set<BlockPtr>, u0: Unlinked, i0: BlockPtr,
                    t: Tree, c: set<BlockPtr>, u: Unlinked, i: BlockPtr)
    requires Sifted(start, chain, c0, u0, i0, t, c, u, i)
    ensures CandidatesOk(t, c) && c <= c0 && (i == NIL || i in t) && start.Keys == t.Keys
    ensures forall k :: k in c0 - c ==> !Usable(start, chain, k)
    ensures forall k :: k in start ==> (Usable(t, chain, k) <==> Usable(start, chain, k))
    ensures forall k :: k in start ==> t[k].nChainWork == start[k].nChainWork && t[k].nSequenceId == start[k].nSequenceId
  {
    hide Usable, Spoiled;
    forall k | k in start
      ensures Usable(t, chain, k) <==> Usable(start, chain, k)
    {
      MarksChangeNothing(start, t, chain, k);
    }
  }

  /** Giving up one more candidate. */
  lemma SiftMore(start: Tree, chain: seq<BlockPtr>, c0: set<BlockPtr>, u0: Unlinked, i0: BlockPtr,
                 t: Tree, c: set<BlockPtr>, u: Unlinked, i: BlockPtr, b: BlockPtr, bad: BlockPtr,
                 t': Tree, c': set<BlockPtr>, u': Unlinked, i': BlockPtr)
    requires Sifted(start, chain, c0, u0, i0, t, c, u, i) && TreeOk(t) && c <= t.Keys && IsBest(t, c, b)
    requires StopsAt(t, chain, b, bad) && Dropped(t, chain, b, bad, c, u, t', c', u')
    requires i' == if t[bad].Failed() && (i == NIL || (i in t && t[b].nChainWork > t[i].nChainWork)) then b else i
    ensures Sifted(start, chain, c0, u0, i0, t', c', u', i') && c' < c
  {
    hide Usable, Spoiled, Reaches;
    var all := Segment(t, chain, b, bad);
    assert (forall k :: k in all + {bad} ==> k in start && !Usable(start, chain, k) && (Spoiled(start, chain, k) <==> t[bad].Failed()))
        && b in all + {bad} by {
      SegmentUnusable(t, chain, b, bad);
      forall k | k in all + {bad}
        ensures k in start && !Usable(start, chain, k) && (Spoiled(start, chain, k) <==> t[bad].Failed())
      {
        MarksChangeNothing(start, t, chain, k);
      }
    }
    SiftedMarks(start, chain, t, c, all, bad, t', c');
    SiftedUnlinked(start, chain, u0, t, all, bad, u, u');
    SiftedHandled(start, chain, c0, t, c, u, all, bad, t', c', u');
    SiftedInvalid(start, chain, c0, t, c, i0, i, b, all, bad, c', i');
  }

  lemma SiftedMarks(start: Tree, chain: seq<BlockPtr>, t: Tree, c: set<BlockPtr>, all: set<BlockPtr>, bad: BlockPtr,
                    t': Tree, c': set<BlockPtr>)
    requires TreeOk(start) && OnlyMarkedSpoiled(start, t, chain) && CandidatesOk(t, c) && bad in t && all <= t.Keys
    requires forall k :: k in all ==> (Spoiled(start, chain, k) <==> t[bad].Failed())
    requires t' == Marked(t, if t[bad].Failed() then all else {}) && c' <= c
    ensures OnlyMarkedSpoiled(start, t', chain) && CandidatesOk(t', c')
  {
    hide Usable, Spoiled;
    LinkedTreeOk(t, t');
    forall b | b in t' && t'[b].nChainTx != 0
      ensures ParentLinked(t', b)
    {
      assert ParentLinked(t, b);
    }
  }

  lemma SiftedUnlinked(start: Tree, chain: seq<BlockPtr>, u0: Unlinked, t: Tree, all: set<BlockPtr>, bad: BlockPtr,
                       u: Unlinked, u': Unlinked)
    requires TreeOk(start) && OnlyMarkedSpoiled(start, t, chain) && bad in t && all <= t.Keys && SiftedAside(start, chain, u0, u)
    requires forall k :: k in all ==> !Usable(start, chain, k) && (Spoiled(start, chain, k) <==> t[bad].Failed())
    requires PutAside(t, if t[bad].Failed() then {} else all, u, u')
    ensures SiftedAside(start, chain, u0, u')
  {
    hide Usable, Spoiled;
    forall p, j | p in u' && (if p in u0 then |u0[p]| else 0) <= j < |u'[p]|
      ensures var b := u'[p][j]; b in start && start[b].pprev == p && !Usable(start, chain, b) && !Spoiled(start, chain, b)
    {
      if p in u && j < |u[p]| {
        assert u'[p][j] == u[p][j];
      }
    }
  }

  lemma SiftedHandled(start: Tree, chain: seq<BlockPtr>, c0: set<BlockPtr>, t: Tree, c: set<BlockPtr>, u: Unlinked,
                      all: set<BlockPtr>, bad: BlockPtr, t': Tree, c': set<BlockPtr>, u': Unlinked)
    requires TreeOk(start) && OnlyMarkedSpoiled(start, t, chain) && bad in t && all <= t.Keys && c0 <= start.Keys
    requires t[bad].Failed() || !t[bad].haveData
    requires forall k :: k in c0 - c ==> !Usable(start, chain, k) && Handled(start, chain, t, u, k)
    requires forall k :: k in all + {bad} ==> !Usable(start, chain, k) && (Spoiled(start, chain, k) <==> t[bad].Failed())
    requires t' == Marked(t, if t[bad].Failed() then all else {}) && c' == c - (all + {bad})
    requires PutAside(t, if t[bad].Failed() then {} else all, u, u')
    ensures forall k :: k in c0 - c' ==> k in t' && !Usable(start, chain, k) && Handled(start, chain, t', u', k)
  {
    hide Usable, Spoiled;
    forall k | k in c0 - c'
      ensures k in t' && !Usable(start, chain, k) && Handled(start, chain, t', u', k)
    {
      if k !in all + {bad} {
        assert k in c0 - c;
      }
    }
  }

  lemma SiftedInvalid(start: Tree, chain: seq<BlockPtr>, c0: set<BlockPtr>, t: Tree, c: set<BlockPtr>, i0: BlockPtr, i: BlockPtr,
                      b: BlockPtr, all: set<BlockPtr>, bad: BlockPtr, c': set<BlockPtr>, i': BlockPtr)
    requires TreeOk(start) && OnlyMarkedSpoiled(start, t, chain) && c <= c0 <= start.Keys && IsBest(t, c, b)
    requires (i0 == NIL || i0 in start) && BestInvalidOk(start, chain, c0 - c, i0, i)
    requires bad in t && b in all + {bad} && c' == c - (all + {bad})
    requires forall k :: k in all + {bad} ==> k in start && (Spoiled(start, chain, k) <==> t[bad].Failed())
    requires i' == if t[bad].Failed() && (i == NIL || (i in t && t[b].nChainWork > t[i].nChainWork)) then b else i
    ensures BestInvalidOk(start, chain, c0 - c', i0, i')
  {
    hide Usable, Spoiled;
    assert forall k :: k in c0 - c' ==> k in c0 - c || k in all + {bad};
    assert forall k :: k in c ==> t[k].nChainWork <= t[b].nChainWork;
    assert forall k :: k in start ==> t[k].nChainWork == start[k].nChainWork;
  }

  /** Blocks of the active chain are usable. */
  lemma ActiveUsable(t: Tree, chain: seq<BlockPtr>, b: BlockPtr)
    requires TreeOk(t) && b in t
    ensures ContainsBlock(t, chain, b) ==> Usable(t, chain, b)
  {
  }

  // ------------------------------------------------------------ arrival in any order

  /** An index of headers only. */
  ghost predicate NothingArrived(t: Tree) {
    TreeOk(t) && forall k :: k in t ==> !t[k].Failed() && !t[k].haveData && t[k].nTx == t[k].nChainTx == 0
  }

  /** Known blocks, each at most once, with at least one transaction each and fewer than 2^32 on any path. */
  ghost predicate Deliverable(t: Tree, order: seq<BlockPtr>, sizes: map<BlockPtr, nat>) {
    && (forall i :: 0 <= i < |order| ==> order[i] in t) && NoRepeats(order)
    && sizes.Keys == t.Keys && (forall k :: k in sizes ==> sizes[k] > 0)
    && TreeOk(Filled(t, sizes)) && (forall k :: k in t ==> PathTx(Filled(t, sizes), k) < UINT32)
  }

  /** The block and all its ancestors are among the first `n` arrivals. */
  ghost predicate CompleteBy(t: Tree, order: seq<BlockPtr>, n: nat, b: BlockPtr)
    requires TreeOk(t) && b in t && n <= |order|
  {
    forall a :: a in PathTo(t, b) ==> a in order[..n]
  }

  lemma CompleteStays(t: Tree, order: seq<BlockPtr>, n: nat, m: nat, b: BlockPtr)
    requires TreeOk(t) && b in t && n <= m <= |order| && CompleteBy(t, order, n, b)
    ensures CompleteBy(t, order, m, b)
  {
    hide PathTo;
    assert forall a :: a in order[..n] ==> a in order[..m];
  }

  lemma {:induction false} AllReceivedIff(t: Tree, t': Tree, order: seq<BlockPtr>, n: nat, b: BlockPtr)
    requires TreeOk(t) && TreeOk(t') && SameShape(t, t') && b in t && n <= |order|
    requires forall k :: k in t' ==> (t'[k].haveData <==> k in order[..n])
    ensures AllReceived(t', b) <==> CompleteBy(t, order, n, b)
    decreases t[b].nHeight
  {
    assert NodeOk(t, b);
    if t[b].pprev != NIL {
      AllReceivedIff(t, t', order, n, t[b].pprev);
      var path := PathTo(t, t[b].pprev);
      assert forall a :: a in PathTo(t, b) <==> a in path || a == b;
    }
  }

  /** Of two blocks that are complete, one that was complete at a time when the other was not has the smaller number. */
  ghost predicate FirstComeFirst(t: Tree, t': Tree, order: seq<BlockPtr>, n: nat)
    requires TreeOk(t) && n <= |order| && t.Keys == t'.Keys
  {
    forall i, j, k {:trigger CompleteBy(t, order, i, j), CompleteBy(t, order, i, k)} ::
      0 <= i <= n && j in t && k in t && CompleteBy(t, order, i, j) && !CompleteBy(t, order, i, k) && CompleteBy(t, order, n, k) ==>
        t'[j].nSequenceId < t'[k].nSequenceId
  }

  /** The state after the first `n` arrivals. */
  ghost predicate ArrivedSoFar(t0: Tree, t: Tree, order: seq<BlockPtr>, n: nat, next: nat, c0: set<BlockPtr>, c: set<BlockPtr>)
    requires TreeOk(t0) && n <= |order| && t0.Keys == t.Keys
  {
    && (forall k :: k in t ==> (t[k].nChainTx != 0 <==> CompleteBy(t0, order, n, k)))
    && (forall k :: k in t && t[k].nChainTx != 0 ==> t[k].nSequenceId < next)
    && c == c0 + (set k | k in t && t[k].nChainTx != 0)
    && FirstComeFirst(t0, t, order, n)
  }

  lemma NothingComplete(t: Tree, order: seq<BlockPtr>)
    requires TreeOk(t) && forall k :: k in t ==> t[k].nChainTx == 0
    ensures forall next, c :: ArrivedSoFar(t, t, order, 0, next, c, c)
  {
    forall k | k in t
      ensures !CompleteBy(t, order, 0, k)
    {
      assert k in PathTo(t, k);
    }
  }

  lemma OneMoreReceived(t0: Tree, t: Tree, t': Tree, unlinked: Unlinked, order: seq<BlockPtr>, n: nat, lo: nat, hi: nat,
                        c0: set<BlockPtr>, c: set<BlockPtr>, c': set<BlockPtr>)
    requires TreeOk(t0) && n < |order| && SameShape(t0, t) && SameShape(t, t') && LinkInv(t', unlinked)
    requires ArrivedSoFar(t0, t, order, n, lo, c0, c) && c' == c + NewCandidates(t, t', NIL)
    requires forall k :: k in t' ==> (t'[k].haveData <==> k in order[..n + 1])
    requires forall k :: k in t' && t[k].nChainTx != 0 ==> t'[k] == t[k]
    requires Numbered(t, t', lo, hi)
    ensures ArrivedSoFar(t0, t', order, n + 1, hi, c0, c')
  {
    hide LinkInv, CompleteBy, PathTo, FirstComeFirst;
    LinkedIffComplete(t0, t', unlinked, order, n + 1);
    OneMoreInOrder(t0, t, t', order, n, lo, hi);
    assert (set k | k in t' && t'[k].nChainTx != 0) == (set k | k in t && t[k].nChainTx != 0) + NewCandidates(t, t', NIL);
    forall k | k in t' && t'[k].nChainTx != 0
      ensures t'[k].nSequenceId < hi
    {
      assert t[k].nChainTx == 0 ==> k in NewlyLinked(t, t');
    }
  }

  lemma LinkedIffComplete(t0: Tree, t: Tree, unlinked: Unlinked, order: seq<BlockPtr>, n: nat)
    requires TreeOk(t0) && n <= |order| && SameShape(t0, t) && LinkInv(t, unlinked)
    requires forall k :: k in t ==> (t[k].haveData <==> k in order[..n])
    ensures forall k :: k in t ==> (t[k].nChainTx != 0 <==> CompleteBy(t0, order, n, k))
  {
    hide CompleteBy, PathTx;
    forall k | k in t
      ensures t[k].nChainTx != 0 <==> CompleteBy(t0, order, n, k)
    {
      LinkedIffAllReceived(t, unlinked, k);
      AllReceivedIff(t0, t, order, n, k);
    }
  }

  lemma AllArrived(t0: Tree, t: Tree, unlinked: Unlinked, order: seq<BlockPtr>, next: nat, c0: set<BlockPtr>, c: set<BlockPtr>)
    requires TreeOk(t0) && t0.Keys == t.Keys && LinkInv(t, unlinked) && ArrivedSoFar(t0, t, order, |order|, next, c0, c)
    ensures forall k :: k in t ==> (t[k].nChainTx != 0 <==> CompleteBy(t0, order, |order|, k))
    ensures forall k :: k in t && t[k].nChainTx != 0 ==> t[k].nChainTx == PathTx(t, k)
    ensures c == c0 + set k | k in t && t[k].nChainTx != 0
    ensures FirstComeFirst(t0, t, order, |order|)
  {
    hide CompleteBy, PathTx, FirstComeFirst;
    forall k | k in t && t[k].nChainTx != 0
      ensures t[k].nChainTx == PathTx(t, k)
    {
      LinkedIffAllReceived(t, unlinked, k);
    }
  }

  /** Among complete blocks of equal work the one with the smallest number was complete first. */
  lemma EarliestComplete(t0: Tree, t: Tree, order: seq<BlockPtr>, best: BlockPtr)
    requires TreeOk(t0) && t0.Keys == t.Keys && FirstComeFirst(t0, t, order, |order|)
    requires best in t && CompleteBy(t0, order, |order|, best)
    requires forall k :: k in t && CompleteBy(t0, order, |order|, k) && t[k].nChainWork >= t[best].nChainWork ==>
               t[k].nSequenceId >= t[best].nSequenceId
    ensures forall k, i :: k in t && 0 <= i <= |order| && CompleteBy(t0, order, i, k) ==>
              t[k].nChainWork < t[best].nChainWork || CompleteBy(t0, order, i, best)
  {
    hide CompleteBy;
    forall k, i | k in t && 0 <= i <= |order| && CompleteBy(t0, order, i, k)
      ensures t[k].nChainWork < t[best].nChainWork || CompleteBy(t0, order, i, best)
    {
      CompleteStays(t0, order, i, |order|, k);
    }
  }

  lemma OneMoreInOrder(t0: Tree, t: Tree, t': Tree, order: seq<BlockPtr>, n: nat, lo: nat, hi: nat)
    requires TreeOk(t0) && n < |order| && t0.Keys == t.Keys == t'.Keys && FirstComeFirst(t0, t, order, n)
    requires forall k :: k in t ==> (t[k].nChainTx != 0 <==> CompleteBy(t0, order, n, k))
    requires forall k :: k in t' ==> (t'[k].nChainTx != 0 <==> CompleteBy(t0, order, n + 1, k))
    requires forall k :: k in t && t[k].nChainTx != 0 ==> t[k].nSequenceId < lo && t'[k] == t[k]
    requires Numbered(t, t', lo, hi)
    ensures FirstComeFirst(t0, t', order, n + 1)
  {
    hide CompleteBy, PathTo;
    forall i, j, k | 0 <= i <= n + 1 && j in t0 && k in t0 && CompleteBy(t0, order, i, j) && !CompleteBy(t0, order, i, k)
                     && CompleteBy(t0, order, n + 1, k)
      ensures t'[j].nSequenceId < t'[k].nSequenceId
    {
      CompleteStays(t0, order, i, n, j);
      assert t[k].nChainTx == 0 ==> k in NewlyLinked(t, t');
    }
  }

  /** Without failures every complete block is a usable candidate. */
  lemma AllUsable(t0: Tree, t: Tree, unlinked: Unlinked, order: seq<BlockPtr>)
    requires TreeOk(t0) && SameShape(t0, t) && LinkInv(t, unlinked)
    requires forall k :: k in t ==> (t[k].haveData <==> k in order) && !t[k].Failed()
    ensures CandidatesOk(t, set k | k in t && t[k].nChainTx != 0)
    ensures forall k :: k in t && t[k].nChainTx != 0 ==> Usable(t, [], k)
  {
    forall k | k in t && t[k].nChainTx != 0
      ensures ParentLinked(t, k) && Usable(t, [], k)
    {
      assert LinkedOk(t, k);
      LinkedUsable(t, unlinked, k);
    }
  }

  lemma {:induction false} LinkedUsable(t: Tree, unlinked: Unlinked, b: BlockPtr)
    requires LinkInv(t, unlinked) && b in t && t[b].nChainTx != 0 && forall k :: k in t ==> !t[k].Failed()
    ensures Usable(t, [], b)
    decreases t[b].nHeight
  {
    assert NodeOk(t, b) && LinkedOk(t, b);
    if t[b].pprev != NIL {
      LinkedUsable(t, unlinked, t[b].pprev);
    }
  }

  /** The transaction counts once every block has arrived. */
  function Filled(t: Tree, sizes: map<BlockPtr, nat>): Tree
    requires sizes.Keys == t.Keys
  {
    map k | k in t :: t[k].(nTx := sizes[k])
  }

  lemma {:induction false} PathTxMonotone(t: Tree, t': Tree, b: BlockPtr)
    requires TreeOk(t) && TreeOk(t') && SameShape(t, t') && b in t
    requires forall k :: k in t ==> t[k].nTx <= t'[k].nTx
    ensures PathTx(t, b) <= PathTx(t', b)
    decreases t[b].nHeight
  {
    assert NodeOk(t, b);
    if t[b].pprev != NIL {
      PathTxMonotone(t, t', t[b].pprev);
    }
  }

  lemma NothingReceived(t: Tree)
    requires TreeOk(t) && forall k :: k in t ==> !t[k].haveData && t[k].nTx == t[k].nChainTx == 0
    ensures LinkInv(t, map[])
  {
    forall b | b in t
      ensures PathTx(t, b) == 0
    {
      NoTransactions(t, b);
    }
  }

  lemma {:induction false} NoTransactions(t: Tree, b: BlockPtr)
    requires TreeOk(t) && b in t && forall k :: k in t ==> t[k].nTx == 0
    ensures PathTx(t, b) == 0
    decreases t[b].nHeight
  {
    assert NodeOk(t, b);
    if t[b].pprev != NIL {
      NoTransactions(t, t[b].pprev);
    }
  }

  /** If the counts fit once everything has arrived, they fit on the way. */
  lemma NextArrivalFits(t: Tree, t0: Tree, sizes: map<BlockPtr, nat>, b: BlockPtr)
    requires TreeOk(t0) && TreeOk(t) && SameShape(t0, t) && b in t
    requires sizes.Keys == t0.Keys && forall k :: k in sizes ==> sizes[k] > 0
    requires forall k :: k in t ==> t[k].nTx == if t[k].haveData then sizes[k] else 0
    requires TreeOk(Filled(t0, sizes)) && forall k :: k in t0 ==> PathTx(Filled(t0, sizes), k) < UINT32
    ensures TreeOk(Received(t, b, sizes[b])) && CountsOk(Received(t, b, sizes[b]))
  {
    hide PathTx;
    var t', full := Received(t, b, sizes[b]), Filled(t0, sizes);
    ReceivedTreeOk(t, b, sizes[b]);
    forall k | k in t'
      ensures PathTx(t', k) < UINT32
    {
      PathTxMonotone(t', full, k);
    }
  }

  ghost function Uncounted(t: Tree): set<BlockPtr> {
    set k | k in t && t[k].nChainTx == 0
  }

  lemma ArrivalFacts(t: Tree, unlinked: Unlinked, b: BlockPtr, n: nat, tip: BlockPtr)
    requires LinkInv(t, unlinked) && b in t && !t[b].haveData && (tip == NIL || (tip in t && t[tip].nChainTx != 0))
    ensures t[b].nChainTx == 0 && tip != b && (t[b].pprev == NIL || t[b].pprev in t) && t[b].pprev != b
    ensures SameShape(t, Received(t, b, n))
  {
    assert LinkedOk(t, b) && NodeOk(t, b);
  }

  /** What linking has done so far: new counts, new candidates, new sequence numbers. */
  ghost predicate Linking(t0: Tree, c0: set<BlockPtr>, lo: nat, t: Tree, c: set<BlockPtr>, hi: nat, tip: BlockPtr) {
    && OnlyLinked(t0, t) && (tip == NIL || tip in t)
    && c == c0 + NewCandidates(t0, t, tip)
    && Numbered(t0, t, lo, hi)
  }

  lemma NothingLinkedYet(t: Tree, c: set<BlockPtr>, lo: nat, tip: BlockPtr)
    requires tip == NIL || tip in t
    ensures Linking(t, c, lo, t, c, lo, tip)
  {
    NoneNumbered(t, lo);
    hide Numbered;
    assert NewCandidates(t, t, tip) == {};
  }

  lemma LinkingMore(t0: Tree, c0: set<BlockPtr>, lo: nat, t: Tree, c: set<BlockPtr>, unlinked: Unlinked, queue: seq<BlockPtr>,
                    t': Tree, hi: nat, tip: BlockPtr)
    requires QueueInv(t, unlinked, queue) && queue != [] && Linking(t0, c0, lo, t, c, hi, tip)
    requires tip == NIL || (tip in t && t[tip].nChainTx != 0)
    requires var q := queue[0];
             && q in t && t[q].nChainTx == 0
             && q in t' && t' == t[q := t[q].(nChainTx := t'[q].nChainTx, nSequenceId := hi)] && t'[q].nChainTx != 0
    ensures tip == NIL || (tip in t' && t'[tip].nChainTx != 0)
    ensures Uncounted(t') == Uncounted(t) - {queue[0]} && queue[0] in Uncounted(t)
    ensures Linking(t0, c0, lo, t', if tip == NIL || !Worse(t', queue[0], tip) then c + {queue[0]} else c, hi + 1, tip)
  {
    hide QueueInv, Numbered, Worse;
    OneMoreLinked(t0, t, t', queue[0], tip);
    OneMoreNumbered(t0, t, t', unlinked, queue, lo, hi);
    hide OnlyLinked, NewCandidates;
  }

  /** What linking means for the index as it was before the block arrived. */
  lemma Arrived(t: Tree, b: BlockPtr, n: nat, c0: set<BlockPtr>, lo: nat, t': Tree, c: set<BlockPtr>, hi: nat, tip: BlockPtr)
    requires b in t && t[b].nChainTx == 0 && Linking(Received(t, b, n), c0, lo, t', c, hi, tip)
    ensures SameShape(t, t') && (tip == NIL || tip in t')
    ensures c == c0 + NewCandidates(t, t', tip)
    ensures Numbered(t, t', lo, hi)
    ensures forall k :: k in t' ==>
              && t'[k].haveData == (t[k].haveData || k == b) && t'[k].nTx == (if k == b then n else t[k].nTx)
              && t'[k].failedValid == t[k].failedValid && t'[k].failedChild == t[k].failedChild
    ensures forall k :: k in t' && t[k].nChainTx != 0 ==> t'[k] == t[k]
  {
    hide OnlyLinked, NewCandidates, Numbered, NewlyLinked, Received, SameShape;
    ArrivedEntries(t, b, n, t', tip);
    ArrivedNumbered(t, b, n, t', lo, hi);
  }

  lemma ArrivedEntries(t: Tree, b: BlockPtr, n: nat, t': Tree, tip: BlockPtr)
    requires b in t && t[b].nChainTx == 0 && OnlyLinked(Received(t, b, n), t') && (tip == NIL || tip in t')
    ensures SameShape(t, t') && NewCandidates(t, t', tip) == NewCandidates(Received(t, b, n), t', tip)
    ensures forall k :: k in t' ==>
              && t'[k].haveData == (t[k].haveData || k == b) && t'[k].nTx == (if k == b then n else t[k].nTx)
              && t'[k].failedValid == t[k].failedValid && t'[k].failedChild == t[k].failedChild
    ensures forall k :: k in t' && t[k].nChainTx != 0 ==> t'[k] == t[k]
  {
  }

  lemma ArrivedNumbered(t: Tree, b: BlockPtr, n: nat, t': Tree, lo: nat, hi: nat)
    requires b in t && t[b].nChainTx == 0 && t'.Keys == t.Keys && Numbered(Received(t, b, n), t', lo, hi)
    ensures Numbered(t, t', lo, hi)
  {
    assert NewlyLinked(t, t') == NewlyLinked(Received(t, b, n), t');
    hide NewlyLinked;
  }

  lemma OneMoreLinked(t0: Tree, t: Tree, t': Tree, q: BlockPtr, tip: BlockPtr)
    requires OnlyLinked(t0, t) && q in t && t[q].nChainTx == 0
    requires q in t' && t' == t[q := t[q].(nChainTx := t'[q].nChainTx, nSequenceId := t'[q].nSequenceId)] && t'[q].nChainTx != 0
    requires tip == NIL || (tip in t && t[tip].nChainTx != 0)
    ensures OnlyLinked(t0, t') && Uncounted(t') == Uncounted(t) - {q} && q in Uncounted(t) && t0[q].nChainTx == 0
    ensures NewCandidates(t0, t', tip)
            == NewCandidates(t0, t, tip) + (if tip == NIL || !Worse(t', q, tip) then {q} else {})
  {
    assert forall k :: k in t && k != q ==> t'[k] == t[k];
    assert t0[q].nChainTx == 0;
    assert q !in NewCandidates(t0, t, tip);
  }

  ghost function NewlyLinked(t: Tree, t': Tree): set<BlockPtr>
    requires t.Keys == t'.Keys
  {
    set k | k in t' && t[k].nChainTx == 0 && t'[k].nChainTx != 0
  }

  /**
   * The blocks linked between `t` and `t'` are numbered from `lo` up to `hi`: no two alike, none left out, parents
   * before their children.
   */
  ghost predicate Numbered(t: Tree, t': Tree, lo: nat, hi: nat) {
    && t.Keys == t'.Keys && hi == lo + |NewlyLinked(t, t')|
    && (forall k :: k in NewlyLinked(t, t') ==> lo <= t'[k].nSequenceId < hi)
    && (forall j, k :: j in NewlyLinked(t, t') && k in NewlyLinked(t, t') && j != k ==> t'[j].nSequenceId != t'[k].nSequenceId)
    && ParentsFirst(t', NewlyLinked(t, t'))
  }

  ghost predicate ParentsFirst(t: Tree, linked: set<BlockPtr>)
    requires linked <= t.Keys
  {
    forall k :: k in linked && t[k].pprev in linked ==> t[t[k].pprev].nSequenceId < t[k].nSequenceId
  }

  lemma NoneNumbered(t: Tree, lo: nat)
    ensures Numbered(t, t, lo, lo)
  {
    assert NewlyLinked(t, t) == {};
  }

  lemma OneMoreNumbered(t0: Tree, t: Tree, t': Tree, unlinked: Unlinked, queue: seq<BlockPtr>, lo: nat, hi: nat)
    requires QueueInv(t, unlinked, queue) && queue != [] && Numbered(t0, t, lo, hi)
    requires var q := queue[0];
             && q in t && t[q].nChainTx == 0 && t0[q].nChainTx == 0
             && q in t' && t' == t[q := t[q].(nChainTx := t'[q].nChainTx, nSequenceId := hi)] && t'[q].nChainTx != 0
    ensures Numbered(t0, t', lo, hi + 1)
  {
    hide QueueInv, ParentsFirst, NewlyLinked;
    var q, was := queue[0], NewlyLinked(t0, t);
    OneMoreNew(t0, t, t', q);
    ChildrenLater(t, t', unlinked, queue, was, hi);
  }

  lemma OneMoreNew(t0: Tree, t: Tree, t': Tree, q: BlockPtr)
    requires t0.Keys == t.Keys && q in t && t[q].nChainTx == 0 == t0[q].nChainTx
    requires q in t' && t' == t[q := t'[q]] && t'[q].nChainTx != 0
    ensures NewlyLinked(t0, t') == NewlyLinked(t0, t) + {q} && q !in NewlyLinked(t0, t)
    ensures NewlyLinked(t0, t) <= t.Keys && forall k :: k in NewlyLinked(t0, t) ==> t'[k] == t[k] && t[k].nChainTx != 0
  {
  }

  lemma ChildrenLater(t: Tree, t': Tree, unlinked: Unlinked, queue: seq<BlockPtr>, was: set<BlockPtr>, hi: nat)
    requires QueueInv(t, unlinked, queue) && queue != [] && was <= t.Keys && ParentsFirst(t, was)
    requires forall k :: k in was ==> t[k].nChainTx != 0 && t[k].nSequenceId < hi
    requires var q := queue[0];
             && q in t && t[q].nChainTx == 0
             && q in t' && t' == t[q := t[q].(nChainTx := t'[q].nChainTx, nSequenceId := hi)]
    ensures ParentsFirst(t', was + {queue[0]})
  {
    hide CountsOk, UnlinkedOk, PathTx, Ready, NoRepeats;
    forall k | k in was + {queue[0]} && t'[k].pprev in was + {queue[0]}
      ensures t'[t'[k].pprev].nSequenceId < t'[k].nSequenceId
    {
      assert LinkedOk(t, k) && NodeOk(t, k);
    }
  }

  /** Linking sets counts that were zero and the sequence numbers that go with them. */
  ghost predicate OnlyLinked(t: Tree, t': Tree) {
    && t'.Keys == t.Keys
    && forall k :: k in t ==>
         t'[k] == t[k] || (t[k].nChainTx == 0 && t'[k] == t[k].(nChainTx := t'[k].nChainTx, nSequenceId := t'[k].nSequenceId))
  }

  ghost function NewCandidates(t: Tree, t': Tree, tip: BlockPtr): set<BlockPtr>
    requires t'.Keys == t.Keys && (tip == NIL || tip in t')
  {
    set k | k in t' && t[k].nChainTx == 0 && t'[k].nChainTx != 0 && (tip == NIL || !Worse(t', k, tip))
  }
}
