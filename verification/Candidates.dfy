/** The order on candidate tips (CBlockIndexWorkComparator) and their pruning (src/main.cpp). */
module Candidates {
  import opened Primitives
  import opened BlockTree

  /** CBlockIndexWorkComparator: `a` sorts before `b`. */
  predicate Worse(t: Tree, a: BlockPtr, b: BlockPtr)
    requires a in t && b in t
  {
    if t[a].nChainWork != t[b].nChainWork then t[a].nChainWork < t[b].nChainWork
    else if t[a].nSequenceId != t[b].nSequenceId then t[a].nSequenceId > t[b].nSequenceId
    else a > b
  }

  predicate IsBest(t: Tree, s: set<BlockPtr>, m: BlockPtr)
    requires s <= t.Keys
  {
    m in s && forall x :: x in s && x != m ==> Worse(t, x, m)
  }

  lemma {:induction false} BestExists(t: Tree, s: set<BlockPtr>)
    requires s <= t.Keys && s != {}
    ensures exists m :: IsBest(t, s, m)
    decreases |s|
  {
    var x :| x in s;
    if s == {x} {
      assert IsBest(t, s, x);
    } else {
      var rest := s - {x};
      assert rest != {};
      BestExists(t, rest);
      var m :| IsBest(t, rest, m);
      var best := if Worse(t, m, x) then x else m;
      forall y | y in s && y != best
        ensures Worse(t, y, best)
      {
        assert y == x || y == m || Worse(t, y, m);
      }
      assert IsBest(t, s, best);
    }
  }

  predicate IsWorst(t: Tree, s: set<BlockPtr>, m: BlockPtr)
    requires s <= t.Keys
  {
    m in s && forall x :: x in s && x != m ==> Worse(t, m, x)
  }

  lemma {:induction false} WorstExists(t: Tree, s: set<BlockPtr>)
    requires s <= t.Keys && s != {}
    ensures exists m :: IsWorst(t, s, m)
    decreases |s|
  {
    var x :| x in s;
    if s == {x} {
      assert IsWorst(t, s, x);
    } else {
      var rest := s - {x};
      assert rest != {};
      WorstExists(t, rest);
      var m :| IsWorst(t, rest, m);
      var worst := if Worse(t, x, m) then x else m;
      forall y | y in s && y != worst
        ensures Worse(t, worst, y)
      {
        assert y == x || y == m || Worse(t, m, y);
      }
      assert IsWorst(t, s, worst);
    }
  }

  /** PruneBlockIndexCandidates drops from the worse end, which removes exactly what is worse than the tip. */
  method PruneBlockIndexCandidates(t: Tree, candidates: set<BlockPtr>, tip: BlockPtr) returns (kept: set<BlockPtr>)
    requires candidates <= t.Keys && tip in t
    ensures kept == set c | c in candidates && !Worse(t, c, tip)
  {
    kept := candidates;
    while kept != {}
      invariant kept <= candidates
      invariant forall c :: c in candidates - kept ==> Worse(t, c, tip)
      decreases kept
    {
      WorstExists(t, kept);
      var w :| IsWorst(t, kept, w);
      if !Worse(t, w, tip) {
        assert forall c :: c in kept ==> !Worse(t, c, tip);
        break;
      }
      kept := kept - {w};
    }
  }

  /** Every block adds work to its parent's: its target passed the proof-of-work check. */
  ghost predicate WorkGrows(t: Tree)
    requires TreeOk(t)
  {
    forall b {:trigger ParentWork(t, b)} :: b in t ==> ParentWork(t, b) < t[b].nChainWork
  }

  ghost function ParentWork(t: Tree, b: BlockPtr): int
    requires TreeOk(t) && b in t
  {
    assert NodeOk(t, b);
    if t[b].pprev == NIL then -1 else t[t[b].pprev].nChainWork
  }

  /** Work grows along every path: the ends of two prefixes. */
  lemma TipsOnPath(t: Tree, b: BlockPtr, n: nat, m: nat)
    requires TreeOk(t) && WorkGrows(t) && b in t && 0 < n < m <= t[b].nHeight + 1
    ensures PathTo(t, b)[n - 1] in t && PathTo(t, b)[m - 1] in t
    ensures t[PathTo(t, b)[n - 1]].nChainWork < t[PathTo(t, b)[m - 1]].nChainWork
    decreases m
  {
    hide PathTo;
    PathParent(t, b, m - 1);
    PathParent(t, b, m - 2);
    var last := PathTo(t, b)[m - 1];
    assert ParentWork(t, last) < t[last].nChainWork;
    if n < m - 1 {
      TipsOnPath(t, b, n, m - 1);
    }
  }

  /** A block never sorts before one of its ancestors, nor before itself. */
  lemma NotWorseThanAncestor(t: Tree, b: BlockPtr, h: nat)
    requires TreeOk(t) && WorkGrows(t) && b in t && h <= t[b].nHeight
    ensures PathTo(t, b)[h] in t && !Worse(t, b, PathTo(t, b)[h])
  {
    hide PathTo;
    PathParent(t, b, t[b].nHeight);
    if h < t[b].nHeight {
      TipsOnPath(t, b, h + 1, t[b].nHeight + 1);
    }
  }

  lemma WorkGrowsSame(t: Tree, t': Tree)
    requires TreeOk(t) && TreeOk(t') && WorkGrows(t) && SameShape(t, t')
    ensures WorkGrows(t')
  {
    forall b | b in t'
      ensures ParentWork(t', b) < t'[b].nChainWork
    {
      assert NodeOk(t, b) && ParentWork(t, b) < t[b].nChainWork;
    }
  }

  /** Pruning against a block of more work removes at least what pruning against its predecessor did. */
  lemma PrunedAgain(t: Tree, before: set<BlockPtr>, between: set<BlockPtr>, last: BlockPtr, b: BlockPtr)
    requires before <= t.Keys && b in t && (last == NIL ==> between == before)
    requires last != NIL ==> last in t && t[last].nChainWork < t[b].nChainWork && between == set c | c in before && !Worse(t, c, last)
    ensures (set c | c in between && !Worse(t, c, b)) == set c | c in before && !Worse(t, c, b)
  {
  }
}
