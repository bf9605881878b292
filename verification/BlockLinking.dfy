/**
 * Blocks that arrive in any order (ReceivedBlockTransactions of src/main.cpp): cumulative transaction
 * counts, the map of blocks still waiting for an ancestor, and the linking queue.
 */
module BlockLinking {
  import opened Primitives
  import opened BlockTree

  /** The range of the 32-bit counters nTx and nChainTx. */
  const UINT32: nat := 0x1_0000_0000

  /** The block and all its ancestors have been received. */
  ghost predicate AllReceived(t: Tree, b: BlockPtr)
    requires TreeOk(t) && b in t
    decreases t[b].nHeight
  {
    assert NodeOk(t, b);
    t[b].haveData && (t[b].pprev == NIL || AllReceived(t, t[b].pprev))
  }

  /** Transactions on the path from the root to the block. */
  ghost function PathTx(t: Tree, b: BlockPtr): nat
    requires TreeOk(t) && b in t
    decreases t[b].nHeight
  {
    assert NodeOk(t, b);
    t[b].nTx + if t[b].pprev == NIL then 0 else PathTx(t, t[b].pprev)
  }

  /** Headers have no transactions, received blocks have some, and no path overflows the counter. */
  ghost predicate CountsOk(t: Tree)
    requires TreeOk(t)
  {
    && (forall b :: b in t ==> (t[b].haveData <==> t[b].nTx > 0))
    && (forall b :: b in t ==> PathTx(t, b) < UINT32)
  }

  ghost predicate ParentLinked(t: Tree, b: BlockPtr)
    requires b in t
  {
    t[b].pprev == NIL || (t[b].pprev in t && t[t[b].pprev].nChainTx != 0)
  }

  /** A received block whose parent is linked but which is not linked itself yet. */
  ghost predicate Ready(t: Tree, b: BlockPtr)
    requires b in t
  {
    t[b].haveData && t[b].nChainTx == 0 && ParentLinked(t, b)
  }

  /** A received block that waits for an ancestor. */
  ghost predicate Waiting(t: Tree, b: BlockPtr) {
    b in t && t[b].haveData && t[b].nChainTx == 0 && !ParentLinked(t, b)
  }

  /** A linked block has data, a linked parent, and the exact count. */
  ghost predicate LinkedOk(t: Tree, b: BlockPtr)
    requires TreeOk(t) && b in t
  {
    t[b].nChainTx != 0 ==> t[b].haveData && ParentLinked(t, b) && t[b].nChainTx == PathTx(t, b)
  }

  type Unlinked = map<BlockPtr, seq<BlockPtr>>

  ghost predicate NoRepeats(s: seq<BlockPtr>) {
    forall i, j :: 0 <= i < j < |s| ==> s[i] != s[j]
  }

  /** mapBlocksUnlinked holds exactly the waiting blocks, each once, under its parent. */
  ghost predicate UnlinkedOk(t: Tree, unlinked: Unlinked) {
    && (forall p, b :: p in unlinked && b in unlinked[p] ==> Waiting(t, b) && t[b].pprev == p)
    && (forall b {:trigger Waiting(t, b)} :: Waiting(t, b) ==> t[b].pprev in unlinked && b in unlinked[t[b].pprev])
    && (forall p :: p in unlinked ==> NoRepeats(unlinked[p]))
  }

  /** The invariant while the blocks of `queue` are on their way to being linked. */
  ghost predicate QueueInv(t: Tree, unlinked: Unlinked, queue: seq<BlockPtr>) {
    && TreeOk(t) && CountsOk(t) && UnlinkedOk(t, unlinked)
    && (forall b {:trigger LinkedOk(t, b)} :: b in t ==> LinkedOk(t, b))
    && NoRepeats(queue)
    && (forall b :: b in queue <==> b in t && Ready(t, b))
  }

  /** The invariant between calls. */
  ghost predicate LinkInv(t: Tree, unlinked: Unlinked) {
    QueueInv(t, unlinked, [])
  }

  /**
   * Whatever the order of arrival, the count is non-zero exactly when the block and all its ancestors
   * have been received, and is then the number of transactions on the path.
   */
  lemma {:induction false} LinkedIffAllReceived(t: Tree, unlinked: Unlinked, b: BlockPtr)
    requires LinkInv(t, unlinked) && b in t
    ensures t[b].nChainTx != 0 <==> AllReceived(t, b)
    ensures AllReceived(t, b) ==> t[b].nChainTx == PathTx(t, b)
    ensures t[b].haveData && !AllReceived(t, b) <==> t[b].pprev in unlinked && b in unlinked[t[b].pprev]
    decreases t[b].nHeight
  {
    assert NodeOk(t, b) && LinkedOk(t, b);
    if t[b].pprev != NIL {
      LinkedIffAllReceived(t, unlinked, t[b].pprev);
    }
    assert !Ready(t, b);
    assert t[b].haveData && t[b].nChainTx == 0 ==> Waiting(t, b);
  }

  lemma {:induction false} PathTxSame(t: Tree, t': Tree, b: BlockPtr)
    requires TreeOk(t) && TreeOk(t') && SameShape(t, t') && b in t
    requires forall k :: k in t ==> t'[k].nTx == t[k].nTx
    ensures PathTx(t', b) == PathTx(t, b)
    decreases t[b].nHeight
  {
    assert NodeOk(t, b);
    if t[b].pprev != NIL {
      PathTxSame(t, t', t[b].pprev);
    }
  }

  lemma LinkedTreeOk(t: Tree, t': Tree)
    requires TreeOk(t) && SameShape(t, t')
    ensures TreeOk(t')
  {
    forall b | b in t'
      ensures NodeOk(t', b)
    {
      assert NodeOk(t, b);
    }
  }

  /** Linking a ready block makes its waiting children ready and changes nothing else. */
  lemma StatusAfterLink(t: Tree, t': Tree, q: BlockPtr, n: nat, id: nat, b: BlockPtr)
    requires TreeOk(t) && q in t && Ready(t, q) && n > 0 && t' == t[q := t[q].(nChainTx := n, nSequenceId := id)]
    requires b in t
    ensures Ready(t', b) <==> b != q && (Ready(t, b) || (Waiting(t, b) && t[b].pprev == q))
    ensures Waiting(t', b) <==> Waiting(t, b) && t[b].pprev != q
    ensures ParentLinked(t, b) ==> ParentLinked(t', b)
  {
    assert NodeOk(t, b) && NodeOk(t, q);
  }

  /** Taking the front block off the queue and linking it. */
  lemma LinkFront(t: Tree, t': Tree, id: nat, unlinked: Unlinked, queue: seq<BlockPtr>)
    requires QueueInv(t, unlinked, queue) && queue != []
    requires queue[0] in t && t' == t[queue[0] := t[queue[0]].(nChainTx := PathTx(t, queue[0]), nSequenceId := id)]
    ensures QueueInv(t', unlinked - {queue[0]},
                     queue[1..] + (if queue[0] in unlinked then unlinked[queue[0]] else []))
  {
    var q := queue[0];
    assert NodeOk(t, q) && Ready(t, q);
    LinkedTreeOk(t, t');
    assert forall b :: b in t ==> PathTx(t', b) == PathTx(t, b) by {
      forall b | b in t ensures PathTx(t', b) == PathTx(t, b) { PathTxSame(t, t', b); }
    }
    assert PathTx(t, q) > 0;
    forall b | b in t'
      ensures LinkedOk(t', b)
    {
      assert LinkedOk(t, b);
      StatusAfterLink(t, t', q, PathTx(t, q), id, b);
    }
    assert StatusMoved(t, t', q) by {
      forall b | b in t { StatusAfterLink(t, t', q, PathTx(t, q), id, b); }
    }
    UnlinkedAfterLink(t, t', unlinked, q);
    QueueAfterLink(t, t', unlinked, queue);
  }

  /** The count the loop computes for the front block is the exact one and fits its 32 bits. */
  lemma FrontCount(t: Tree, unlinked: Unlinked, queue: seq<BlockPtr>)
    requires QueueInv(t, unlinked, queue) && queue != []
    ensures var q := queue[0];
            && q in t && Ready(t, q) && (t[q].pprev == NIL || t[q].pprev in t)
            && var before := if t[q].pprev == NIL then 0 else t[t[q].pprev].nChainTx;
               0 < PathTx(t, q) == before + t[q].nTx == (before + t[q].nTx) % UINT32
  {
    var q := queue[0];
    assert q in queue;
    assert NodeOk(t, q);
    assert t[q].pprev != NIL ==> LinkedOk(t, t[q].pprev);
  }

  ghost predicate StatusMoved(t: Tree, t': Tree, q: BlockPtr) {
    && t.Keys == t'.Keys
    && (forall b :: b in t ==>
      && t'[b].pprev == t[b].pprev
      && (Ready(t', b) <==> b != q && (Ready(t, b) || (Waiting(t, b) && t[b].pprev == q)))
      && (Waiting(t', b) <==> Waiting(t, b) && t[b].pprev != q))
  }

  lemma UnlinkedAfterLink(t: Tree, t': Tree, unlinked: Unlinked, q: BlockPtr)
    requires UnlinkedOk(t, unlinked) && StatusMoved(t, t', q)
    ensures UnlinkedOk(t', unlinked - {q})
  {
    hide Ready;
    var u := unlinked - {q};
    forall p, b | p in u && b in u[p]
      ensures Waiting(t', b) && t'[b].pprev == p
    {
      assert Waiting(t, b);
    }
    forall b | Waiting(t', b)
      ensures t'[b].pprev in u && b in u[t'[b].pprev]
    {
      assert b in t && Waiting(t, b);
    }
  }

  lemma QueueAfterLink(t: Tree, t': Tree, unlinked: Unlinked, queue: seq<BlockPtr>)
    requires UnlinkedOk(t, unlinked) && queue != [] && StatusMoved(t, t', queue[0])
    requires NoRepeats(queue) && forall b :: b in queue <==> b in t && Ready(t, b)
    ensures var q := queue[0];
            var queue' := queue[1..] + (if q in unlinked then unlinked[q] else []);
            NoRepeats(queue') && forall b :: b in queue' <==> b in t' && Ready(t', b)
  {
    var q := queue[0];
    var children := if q in unlinked then unlinked[q] else [];
    assert forall b :: b in children <==> Waiting(t, b) && t[b].pprev == q;
    assert forall b :: b in queue[1..] <==> b in queue && b != q;
    assert forall b :: Waiting(t, b) ==> !Ready(t, b);
    assert forall b :: b in children ==> b !in queue[1..];
    var queue' := queue[1..] + children;
    forall b
      ensures b in queue' <==> b in t' && Ready(t', b)
    {
      assert b in queue' <==> b in queue[1..] || b in children;
    }
    forall i, j | 0 <= i < j < |queue'|
      ensures queue'[i] != queue'[j]
    {
      if i < |queue| - 1 <= j {
        assert queue'[i] in queue[1..] && queue'[j] in children;
      }
    }
  }

  /** The index entry of `b` once its `n` transactions have been received. */
  function Received(t: Tree, b: BlockPtr, n: nat): Tree
    requires b in t
  {
    t[b := t[b].(nTx := n, nChainTx := 0, haveData := true)]
  }

  /** Linked blocks do not descend from a block without data, so their counts are not affected by its arrival. */
  lemma {:induction false} LinkedPathTxSame(t: Tree, b: BlockPtr, n: nat, k: BlockPtr)
    requires b in t && !t[b].haveData && k in t && TreeOk(t) && TreeOk(Received(t, b, n))
    requires forall x {:trigger LinkedOk(t, x)} :: x in t ==> LinkedOk(t, x)
    requires t[k].nChainTx != 0
    ensures PathTx(Received(t, b, n), k) == PathTx(t, k)
    decreases t[k].nHeight
  {
    assert NodeOk(t, k) && LinkedOk(t, k);
    if t[k].pprev != NIL {
      LinkedPathTxSame(t, b, n, t[k].pprev);
    }
  }

  lemma ReceivedTreeOk(t: Tree, b: BlockPtr, n: nat)
    requires TreeOk(t) && b in t
    ensures TreeOk(Received(t, b, n))
  {
    LinkedTreeOk(t, Received(t, b, n));
  }

  lemma ReceivedLinkedOk(t: Tree, b: BlockPtr, n: nat, k: BlockPtr)
    requires b in t && !t[b].haveData && k in t && TreeOk(t) && TreeOk(Received(t, b, n))
    requires forall x {:trigger LinkedOk(t, x)} :: x in t ==> LinkedOk(t, x)
    ensures LinkedOk(Received(t, b, n), k)
    ensures ParentLinked(Received(t, b, n), k) <==> ParentLinked(t, k)
  {
    assert LinkedOk(t, b) && LinkedOk(t, k);
    if t[k].nChainTx != 0 {
      LinkedPathTxSame(t, b, n, k);
    }
  }

  /** A block whose ancestors are all linked starts the linking queue. */
  lemma ArrivalLinks(t: Tree, unlinked: Unlinked, b: BlockPtr, n: nat)
    requires LinkInv(t, unlinked) && b in t && !t[b].haveData && n > 0
    requires TreeOk(Received(t, b, n)) && CountsOk(Received(t, b, n)) && ParentLinked(t, b)
    ensures QueueInv(Received(t, b, n), unlinked, [b])
  {
    var t' := Received(t, b, n);
    forall k | k in t
      ensures LinkedOk(t', k) && (ParentLinked(t', k) <==> ParentLinked(t, k))
    {
      ReceivedLinkedOk(t, b, n, k);
    }
    assert LinkedOk(t, b);
    assert forall k :: k in t ==> !Ready(t, k) by {
      assert forall k :: k in [] <==> k in t && Ready(t, k);
    }
    assert forall k :: k in t ==> (Ready(t', k) <==> k == b);
    assert forall k :: Waiting(t', k) <==> Waiting(t, k);
  }

  /** Any other block is entered into the map of waiting blocks. */
  lemma ArrivalWaits(t: Tree, unlinked: Unlinked, b: BlockPtr, n: nat)
    requires LinkInv(t, unlinked) && b in t && !t[b].haveData && n > 0
    requires TreeOk(Received(t, b, n)) && CountsOk(Received(t, b, n)) && !ParentLinked(t, b)
    ensures var p := t[b].pprev;
            LinkInv(Received(t, b, n), unlinked[p := (if p in unlinked then unlinked[p] else []) + [b]])
  {
    var t' := Received(t, b, n);
    forall k | k in t
      ensures LinkedOk(t', k) && (ParentLinked(t', k) <==> ParentLinked(t, k))
    {
      ReceivedLinkedOk(t, b, n, k);
    }
    assert LinkedOk(t, b) && !Waiting(t, b);
    assert forall k :: k in t ==> !Ready(t, k) by {
      assert forall k :: k in [] <==> k in t && Ready(t, k);
    }
    assert forall k :: k in t ==> !Ready(t', k);
    assert forall k :: Waiting(t', k) <==> Waiting(t, k) || k == b;
    UnlinkedWithNew(t, t', unlinked, b);
  }

  lemma UnlinkedWithNew(t: Tree, t': Tree, unlinked: Unlinked, b: BlockPtr)
    requires UnlinkedOk(t, unlinked) && t.Keys == t'.Keys && b in t && !Waiting(t, b)
    requires forall k :: k in t ==> t'[k].pprev == t[k].pprev
    requires forall k :: Waiting(t', k) <==> Waiting(t, k) || k == b
    ensures var p := t[b].pprev;
            UnlinkedOk(t', unlinked[p := (if p in unlinked then unlinked[p] else []) + [b]])
  {
    hide Ready, ParentLinked;
    var p := t[b].pprev;
    var others := if p in unlinked then unlinked[p] else [];
    var u := unlinked[p := others + [b]];
    assert b !in others;
    assert forall k :: k in u[p] <==> k == b || k in others;
    assert NoRepeats(u[p]);
    forall k | Waiting(t', k)
      ensures k in t' && t'[k].pprev in u && k in u[t'[k].pprev]
    {
      assert k != b ==> Waiting(t, k);
    }
  }
}
