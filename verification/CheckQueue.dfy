/**
 * The parallel verification queue (src/checkqueue.h) as a state machine: each critical section is one atomic
 * step, checks run one at a time outside the lock, and condition variables may wake up spuriously.
 */
module CheckQueue {
  import opened Numbers
  import opened Sums

  /** A queued verification and the answer running it gives. */
  datatype Check = Check(id: nat, ok: bool)

  type Tid = nat

  /** Where a thread is in Loop; the first `done` checks of a batch have been executed or skipped. */
  datatype Thread =
    | Outside
    | Arriving
    | Blocked
    | Woken
    | Working(batch: seq<Check>, done: nat, fOk: bool)

  datatype State = State(
    master: Tid,
    nBatchSize: nat,
    queue: seq<Check>,
    nIdle: int,
    nTotal: int,
    fAllOk: bool,
    nTodo: int,
    threads: map<Tid, Thread>,
    added: multiset<Check>,   // since the last return from Wait
    ran: multiset<Check>,
    skipped: multiset<Check>)

  datatype Action =
    | Start(t: Tid)                            // a thread calls Thread() or Wait()
    | Critical(t: Tid)                         // one critical section of Loop
    | Run(t: Tid)                              // the next check of the thread's batch
    | Spurious(t: Tid)                         // a wake-up without notification
    | Add(checks: seq<Check>, notified: Tid)   // the master adds checks; notify_one picks `notified`

  /** Threads counted by nIdle, by nTotal - nIdle, and the two combined. */
  predicate Idling(t: Thread) { t.Blocked? || t.Woken? }

  // ------------------------------------------------------------------ the steps

  function SetThread(s: State, t: Tid, th: Thread): State {
    s.(threads := s.threads[t := th])
  }

  /** notify_one on the master's condition variable. */
  function NotifyMaster(s: State): State {
    if s.master in s.threads && s.threads[s.master].Blocked? then SetThread(s, s.master, Woken) else s
  }

  function BatchSize(s: State): nat
    requires s.nTotal + s.nIdle + 1 > 0
  {
    var share := |s.queue| / (s.nTotal + s.nIdle + 1);
    var n := if s.nBatchSize < share then s.nBatchSize else share;
    if n < 1 then 1 else n
  }

  /** The last `n` checks of the queue, last first. */
  function TakeBack(queue: seq<Check>, n: nat): (r: seq<Check>)
    requires n <= |queue|
    ensures |r| == n
  {
    seq(n, i requires 0 <= i < n => queue[|queue| - 1 - i])
  }

  /** A batch of the size the code computes can be taken. */
  predicate CanTake(s: State) {
    s.queue != [] ==> 0 < s.nTotal + s.nIdle + 1 && 1 <= BatchSize(s) <= |s.queue|
  }

  /** The rest of the critical section, from `while (queue.empty())` on. */
  function TryTake(s: State, t: Tid): State
    requires CanTake(s)
  {
    if s.queue != [] then
      var n := BatchSize(s);
      SetThread(s.(queue := s.queue[..|s.queue| - n]), t, Working(TakeBack(s.queue, n), 0, s.fAllOk))
    else if t == s.master && s.nTodo == 0 then
      SetThread(s.(nTotal := s.nTotal - 1, fAllOk := true,
                   added := multiset{}, ran := multiset{}, skipped := multiset{}), t, Outside)
    else
      SetThread(s.(nIdle := s.nIdle + 1), t, Blocked)
  }

  /** The first part of the critical section: clean-up of the previous batch, registration, or waking up. */
  function Settle(s: State, t: Tid): State
    requires t in s.threads
  {
    match s.threads[t]
    case Arriving => s.(nTotal := s.nTotal + 1)
    case Woken => s.(nIdle := s.nIdle - 1)
    case Working(batch, _, fOk) =>
      var s1 := s.(fAllOk := s.fAllOk && fOk, nTodo := s.nTodo - |batch|);
      if s1.nTodo == 0 && t != s.master then NotifyMaster(s1) else s1
    case _ => s
  }

  predicate CanEnter(s: State, t: Tid) {
    t in s.threads &&
    match s.threads[t]
    case Arriving => true
    case Woken => true
    case Working(batch, done, _) => done == |batch|
    case _ => false
  }

  predicate Enabled(s: State, a: Action) {
    match a
    case Start(t) => t in s.threads && s.threads[t].Outside?
    case Critical(t) => CanEnter(s, t)
    case Run(t) => t in s.threads && s.threads[t].Working? && s.threads[t].done < |s.threads[t].batch|
    case Spurious(t) => t in s.threads && s.threads[t].Blocked?
    case Add(_, w) => s.master in s.threads && s.threads[s.master].Outside?
  }

  /** A critical section in which Wait returns, and what it returns. */
  predicate Returns(s: State, a: Action)
    requires Enabled(s, a)
  {
    a.Critical? && a.t == s.master && s.queue == [] && Settle(s, a.t).nTodo == 0
  }

  function Result(s: State, a: Action): bool
    requires Enabled(s, a) && Returns(s, a)
  {
    Settle(s, a.t).fAllOk
  }

  /** condWorker wakes one waiting worker for a single check and all of them for more. */
  function NotifyWorkers(s: State, n: nat, w: Tid): State {
    s.(threads := map t | t in s.threads ::
         if s.threads[t].Blocked? && t != s.master && (n > 1 || (n == 1 && t == w)) then Woken else s.threads[t])
  }

  /** Run one check unless a failure is known. */
  function RunOne(s: State, t: Tid): State
    requires Enabled(s, Run(t))
  {
    var Working(batch, done, fOk) := s.threads[t];
    var c := batch[done];
    if fOk then SetThread(s.(ran := s.ran + multiset{c}), t, Working(batch, done + 1, c.ok))
    else SetThread(s.(skipped := s.skipped + multiset{c}), t, Working(batch, done + 1, fOk))
  }

  function AddChecks(s: State, checks: seq<Check>, w: Tid): State {
    NotifyWorkers(s.(queue := s.queue + checks, nTodo := s.nTodo + |checks|, added := s.added + multiset(checks)), |checks|, w)
  }

  function Step(s: State, a: Action): State
    requires Inv(s) && Enabled(s, a)
  {
    match a
    case Start(t) => SetThread(s, t, Arriving)
    case Critical(t) => SettleBalances(s, t); SettleFits(s, t); TryTake(Settle(s, t), t)
    case Run(t) => RunOne(s, t)
    case Spurious(t) => SetThread(s, t, Woken)
    case Add(checks, w) => AddChecks(s, checks, w)
  }

  // ------------------------------------------------------------- the invariant

  ghost function BatchSizes(threads: map<Tid, Thread>): map<Tid, int> {
    map t | t in threads :: if threads[t].Working? then |threads[t].batch| else 0
  }

  /** Checks of a batch that have not had their turn. */
  function Remaining(th: Thread): seq<Check> {
    if th.Working? && th.done <= |th.batch| then th.batch[th.done..] else []
  }

  function Occurs(checks: seq<Check>, c: Check): nat {
    multiset(checks)[c]
  }

  /** How often a check sits, untouched, in the batch of each thread. */
  ghost function Pending(threads: map<Tid, Thread>, c: Check): map<Tid, int> {
    map t | t in threads :: Occurs(Remaining(threads[t]), c)
  }

  ghost function IdleThreads(threads: map<Tid, Thread>): set<Tid> {
    set t | t in threads && Idling(threads[t])
  }

  /** Threads that hold a batch, which is never empty. */
  ghost function Holders(threads: map<Tid, Thread>): set<Tid> {
    set t | t in threads && threads[t].Working?
  }

  /** Some check has been run and has failed since the last return from Wait. */
  ghost predicate Failed(s: State) {
    exists c :: c in s.ran && !c.ok
  }

  ghost predicate ThreadOk(s: State, t: Tid)
    requires t in s.threads
  {
    var th := s.threads[t];
    th.Working? ==>
      && th.batch != [] && th.done <= |th.batch|
      && (!th.fOk ==> Failed(s))
      && (th.done > 0 ==> exists c :: c in s.ran)
  }

  /** A master that is blocked without notification waits for work that others hold. */
  ghost predicate MasterOk(s: State, threads: map<Tid, Thread>) {
    s.master in threads && threads[s.master].Blocked? ==> s.queue == [] && s.nTodo > 0
  }

  /** nIdle and nTotal, with `active` threads inside a critical section. */
  ghost predicate CountersOk(s: State, threads: map<Tid, Thread>, active: int) {
    s.nIdle == |IdleThreads(threads)| && s.nTotal - s.nIdle == |Holders(threads)| + active
  }

  /** nTodo is the queued checks plus those in held batches. */
  ghost predicate TodoOk(s: State, threads: map<Tid, Thread>) {
    s.nTodo == |s.queue| + Sum(BatchSizes(threads))
  }

  /** Every check added is queued, pending in a batch, run, or skipped. */
  ghost predicate Conserved(s: State, threads: map<Tid, Thread>) {
    forall c :: Accounted(s, threads, c)
  }

  ghost predicate Accounted(s: State, threads: map<Tid, Thread>, c: Check) {
    s.added[c] == Occurs(s.queue, c) + Sum(Pending(threads, c)) + s.ran[c] + s.skipped[c]
  }

  /** The flags know about a failure exactly when there was one. */
  ghost predicate FlagsOk(s: State, threads: map<Tid, Thread>) {
    && threads.Keys <= s.threads.Keys
    && (forall t {:trigger ThreadOk(s, t)} :: t in threads ==> ThreadOk(s, t))
    && (!s.fAllOk ==> Failed(s))
    && (s.skipped != multiset{} ==> Failed(s))
    && (Failed(s) ==> !s.fAllOk || exists t :: t in threads && s.threads[t].Working? && !s.threads[t].fOk)
  }

  ghost predicate Balanced(s: State, threads: map<Tid, Thread>, active: int) {
    CountersOk(s, threads, active) && TodoOk(s, threads) && Conserved(s, threads) && FlagsOk(s, threads)
  }

  /** What holds whenever the mutex is free. */
  ghost predicate Inv(s: State) {
    s.master in s.threads && Balanced(s, s.threads, 0) && MasterOk(s, s.threads)
  }

  // ------------------------------------------------------- sums over the threads

  /** How the aggregates over all threads split into one thread and the others. */
  lemma SplitOff(threads: map<Tid, Thread>, t: Tid)
    requires t in threads
    ensures |IdleThreads(threads)| == |IdleThreads(threads - {t})| + (if Idling(threads[t]) then 1 else 0)
    ensures |Holders(threads)| == |Holders(threads - {t})| + (if threads[t].Working? then 1 else 0)
    ensures Sum(BatchSizes(threads)) == Sum(BatchSizes(threads - {t})) + (if threads[t].Working? then |threads[t].batch| else 0)
    ensures forall c :: Sum(Pending(threads, c)) == Sum(Pending(threads - {t}, c)) + Occurs(Remaining(threads[t]), c)
  {
    assert IdleThreads(threads - {t}) == IdleThreads(threads) - {t};
    assert Holders(threads - {t}) == Holders(threads) - {t};
    assert BatchSizes(threads - {t}) == BatchSizes(threads) - {t};
    SumRemove(BatchSizes(threads), t);
    forall c
      ensures Sum(Pending(threads, c)) == Sum(Pending(threads - {t}, c)) + Occurs(Remaining(threads[t]), c)
    {
      SplitPending(threads, t, c);
    }
  }

  lemma SplitPending(threads: map<Tid, Thread>, t: Tid, c: Check)
    requires t in threads
    ensures Sum(Pending(threads, c)) == Sum(Pending(threads - {t}, c)) + Occurs(Remaining(threads[t]), c)
  {
    assert Pending(threads - {t}, c) == Pending(threads, c) - {t};
    SumRemove(Pending(threads, c), t);
  }

  /** Without work left to do, no thread holds a batch. */
  lemma NothingHeld(s: State, threads: map<Tid, Thread>, active: int)
    requires Balanced(s, threads, active) && forall t :: t in threads ==> threads[t] == s.threads[t]
    ensures s.nTodo >= |s.queue|
    ensures s.nTodo == 0 ==> Holders(threads) == {} && forall c :: Sum(Pending(threads, c)) == 0
  {
    SumNonNegative(BatchSizes(threads));
    if s.nTodo == 0 {
      forall t | t in threads
        ensures !threads[t].Working?
      {
        assert ThreadOk(s, t);
        assert BatchSizes(threads)[t] <= 0;
      }
      forall c
        ensures Sum(Pending(threads, c)) == 0
      {
        SumZero(Pending(threads, c));
      }
    }
  }

  lemma {:induction false} TakeBackElements(queue: seq<Check>, n: nat)
    requires n <= |queue|
    ensures forall c :: Occurs(queue, c) == Occurs(queue[..|queue| - n], c) + Occurs(TakeBack(queue, n), c)
  {
    if n == 0 {
      assert queue[..|queue|] == queue && TakeBack(queue, 0) == [];
    } else {
      TakeBackElements(queue, n - 1);
      var k := |queue| - n;
      assert TakeBack(queue, n) == TakeBack(queue, n - 1) + [queue[k]];
      assert queue[..k + 1] == queue[..k] + [queue[k]];
    }
  }

  // ------------------------------------------------------------ critical sections

  lemma BatchFits(s: State)
    requires s.queue != [] && s.nTotal + s.nIdle >= 0
    ensures 1 <= BatchSize(s) <= |s.queue|
  {
    ShareFits(|s.queue|, s.nTotal + s.nIdle + 1);
  }

  lemma ShareFits(a: nat, b: nat)
    requires b > 0
    ensures a / b <= a
  {
    MulGrows(1, b, a / b);
  }

  lemma SettleFits(s: State, t: Tid)
    requires t in s.threads
    requires Balanced(Settle(s, t), Settle(s, t).threads - {t}, 1)
    ensures CanTake(Settle(s, t))
  {
    var s1 := Settle(s, t);
    if s1.queue != [] {
      BatchFits(s1);
    }
  }

  /** Entering: the counters balance over the other threads, with this one active. */
  lemma SettleBalances(s: State, t: Tid)
    requires Inv(s) && CanEnter(s, t)
    ensures var s1 := Settle(s, t);
            Balanced(s1, s1.threads - {t}, 1) && MasterOk(s1, s1.threads - {t}) && t in s1.threads && s.master in s1.threads
  {
    if s.threads[t].Working? {
      SettleHolder(s, t);
    } else {
      SplitOff(s.threads, t);
      FlagsKept(s, Settle(s, t), t);
      hide FlagsOk, Pending, BatchSizes, IdleThreads, Holders;
      forall c
        ensures Accounted(Settle(s, t), s.threads - {t}, c)
      {
        assert Accounted(s, s.threads, c);
      }
    }
  }

  /** The clean-up after a batch. */
  lemma SettleHolder(s: State, t: Tid)
    requires Inv(s) && CanEnter(s, t) && s.threads[t].Working?
    ensures var s1 := Settle(s, t);
            Balanced(s1, s1.threads - {t}, 1) && MasterOk(s1, s1.threads - {t}) && t in s1.threads && s.master in s1.threads
  {
    var Working(batch, done, fOk) := s.threads[t];
    var rest := s.threads - {t};
    var s0 := s.(fAllOk := s.fAllOk && fOk, nTodo := s.nTodo - |batch|);
    CleanedUp(s, s0, t);
    hide Balanced;
    NothingHeld(s0, rest, 1);
    if s0.nTodo == 0 && t != s.master {
      NotifyBalanced(s0, t);
    }
  }

  lemma CleanedUp(s: State, s0: State, t: Tid)
    requires Inv(s) && CanEnter(s, t) && s.threads[t].Working?
    requires s0 == s.(fAllOk := s.fAllOk && s.threads[t].fOk, nTodo := s.nTodo - |s.threads[t].batch|)
    ensures Balanced(s0, s.threads - {t}, 1)
  {
    var th := s.threads[t];
    SplitOff(s.threads, t);
    FlagsKept(s, s0, t);
    assert Remaining(th) == [];
    hide FlagsOk, Pending, BatchSizes, IdleThreads, Holders, Remaining;
    forall c
      ensures Accounted(s0, s.threads - {t}, c)
    {
      assert Accounted(s, s.threads, c);
    }
  }

  /** The leaving thread's verdict is merged into fAllOk. */
  lemma FlagsKept(s: State, s': State, t: Tid)
    requires FlagsOk(s, s.threads) && t in s.threads && s'.threads == s.threads && s'.ran == s.ran && s'.skipped == s.skipped
    requires s'.fAllOk == (s.fAllOk && (s.threads[t].Working? ==> s.threads[t].fOk))
    ensures FlagsOk(s', s.threads - {t})
  {
    assert ThreadOk(s, t);
    forall u | u in s.threads - {t}
      ensures ThreadOk(s', u)
    {
      assert ThreadOk(s, u);
    }
  }

  /** Waking the master moves it from one idle state to another. */
  lemma NotifyBalanced(s: State, t: Tid)
    requires Balanced(s, s.threads - {t}, 1) && t != s.master && t in s.threads && s.master in s.threads
    ensures var s1 := NotifyMaster(s);
            Balanced(s1, s1.threads - {t}, 1) && MasterOk(s1, s1.threads - {t}) && t in s1.threads && s.master in s1.threads
  {
    var s1 := NotifyMaster(s);
    if s1 != s {
      ReplaceIdle(s, s.threads - {t}, s.master, 1);
      assert s1.threads - {t} == (s.threads - {t})[s.master := Woken];
    }
  }

  /** A blocked thread that is woken up stays accounted for. */
  lemma ReplaceIdle(s: State, threads: map<Tid, Thread>, u: Tid, active: int)
    requires Balanced(s, threads, active) && u in threads && u in s.threads && s.threads[u] == threads[u] == Blocked
    ensures Balanced(SetThread(s, u, Woken), threads[u := Woken], active)
  {
    var s1, threads1 := SetThread(s, u, Woken), threads[u := Woken];
    assert threads1 - {u} == threads - {u};
    SplitOff(threads, u);
    SplitOff(threads1, u);
    WokenFlags(s, threads, u);
    hide FlagsOk, Pending, BatchSizes, IdleThreads, Holders;
    forall c
      ensures Accounted(s1, threads1, c)
    {
      assert Accounted(s, threads, c);
    }
  }

  lemma WokenFlags(s: State, threads: map<Tid, Thread>, u: Tid)
    requires FlagsOk(s, threads) && u in threads && u in s.threads && s.threads[u] == Blocked
    ensures FlagsOk(SetThread(s, u, Woken), threads[u := Woken])
  {
    var s1, threads1 := SetThread(s, u, Woken), threads[u := Woken];
    forall k | k in threads1
      ensures ThreadOk(s1, k)
    {
      assert ThreadOk(s, k);
    }
    if Failed(s) && s.fAllOk {
      var k :| k in threads && s.threads[k].Working? && !s.threads[k].fOk;
      assert k in threads1 && s1.threads[k].Working? && !s1.threads[k].fOk;
    }
  }

  /** Leaving the critical section, in whichever way, restores the invariant. */
  lemma TakeBalances(s: State, t: Tid)
    requires t in s.threads && s.master in s.threads && Balanced(s, s.threads - {t}, 1) && MasterOk(s, s.threads - {t})
    requires CanTake(s)
    ensures Inv(TryTake(s, t))
  {
    var s' := TryTake(s, t);
    NothingHeld(s, s.threads - {t}, 1);
    TakeFlags(s, t);
    TakeCounts(s, t);
    assert MasterOk(s', s'.threads);
    hide FlagsOk, CountersOk, TodoOk, Conserved, MasterOk;
  }

  lemma TakeCounts(s: State, t: Tid)
    requires t in s.threads && Balanced(s, s.threads - {t}, 1)
    requires CanTake(s)
    requires s.nTodo == 0 ==> forall c :: Sum(Pending(s.threads - {t}, c)) == 0
    ensures var s' := TryTake(s, t); CountersOk(s', s'.threads, 0) && TodoOk(s', s'.threads) && Conserved(s', s'.threads)
  {
    var s' := TryTake(s, t);
    assert s'.threads - {t} == s.threads - {t};
    SplitOff(s'.threads, t);
    hide FlagsOk, Pending, BatchSizes, IdleThreads, Holders, TakeBack, BatchSize, Remaining, CanTake;
    assert CountersOk(s', s'.threads, 0) && TodoOk(s', s'.threads) by {
      hide Conserved;
    }
    hide CountersOk, TodoOk;
    TakeConserves(s, t);
  }

  lemma TakeConserves(s: State, t: Tid)
    requires t in s.threads && Conserved(s, s.threads - {t}) && CanTake(s)
    requires s.nTodo == 0 ==> forall c :: Sum(Pending(s.threads - {t}, c)) == 0
    ensures Conserved(TryTake(s, t), TryTake(s, t).threads)
  {
    var s' := TryTake(s, t);
    assert s'.threads - {t} == s.threads - {t};
    SplitOff(s'.threads, t);
    hide Pending;
    if s.queue != [] {
      TakenConserves(s, t);
    } else {
      assert Remaining(s'.threads[t]) == [] && Occurs([], Check(0, true)) == 0;
      hide CanTake, BatchSize, TakeBack, Remaining;
      forall c
        ensures Accounted(s', s'.threads, c)
      {
        assert Accounted(s, s.threads - {t}, c);
      }
    }
  }

  lemma TakenConserves(s: State, t: Tid)
    requires t in s.threads && Conserved(s, s.threads - {t}) && CanTake(s) && s.queue != []
    ensures Conserved(TryTake(s, t), TryTake(s, t).threads)
  {
    forall c
      ensures Accounted(TryTake(s, t), TryTake(s, t).threads, c)
    {
      assert Accounted(s, s.threads - {t}, c);
      TakenAccounts(s, t, c);
    }
  }

  lemma TakenAccounts(s: State, t: Tid, c: Check)
    requires t in s.threads && Accounted(s, s.threads - {t}, c) && CanTake(s) && s.queue != []
    ensures Accounted(TryTake(s, t), TryTake(s, t).threads, c)
  {
    TakeMoves(s, t, c);
    var s' := TryTake(s, t);
    hide *;
    SplitPending(s'.threads, t, c);
    AccountedIff(s, s.threads - {t}, c);
    AccountedIff(s', s'.threads, c);
  }

  /** Taking a batch moves checks from the queue to the pending ones. */
  lemma TakeMoves(s: State, t: Tid, c: Check)
    requires t in s.threads && CanTake(s) && s.queue != []
    ensures var s' := TryTake(s, t);
            && t in s'.threads && s'.threads - {t} == s.threads - {t}
            && s'.added == s.added && s'.ran == s.ran && s'.skipped == s.skipped
            && Occurs(s.queue, c) == Occurs(s'.queue, c) + Occurs(Remaining(s'.threads[t]), c)
  {
    var n := BatchSize(s);
    TakeBackElements(s.queue, n);
    assert TakeBack(s.queue, n)[0..] == TakeBack(s.queue, n);
    hide BatchSize, TakeBack, CanTake, Occurs;
  }

  lemma TakeFlags(s: State, t: Tid)
    requires t in s.threads && s.master in s.threads && FlagsOk(s, s.threads - {t})
    requires CanTake(s)
    requires s.nTodo == 0 ==> Holders(s.threads - {t}) == {}
    ensures FlagsOk(TryTake(s, t), TryTake(s, t).threads)
  {
    var s' := TryTake(s, t);
    hide BatchSize, TakeBack;
    if s.queue == [] && t == s.master && s.nTodo == 0 {
      forall u | u in s'.threads
        ensures ThreadOk(s', u)
      {
        assert u != t ==> u !in Holders(s.threads - {t});
      }
    } else {
      forall u | u in s'.threads
        ensures ThreadOk(s', u)
      {
        assert u != t ==> ThreadOk(s, u);
      }
      if Failed(s') && s'.fAllOk {
        var u :| u in s.threads - {t} && s.threads[u].Working? && !s.threads[u].fOk;
        assert u in s'.threads && s'.threads[u].Working? && !s'.threads[u].fOk;
      }
    }
  }

  // ------------------------------------------------------------------ every step

  /** A thread moves between states that no counter distinguishes. */
  lemma MoveFree(s: State, t: Tid, th: Thread)
    requires Inv(s) && t in s.threads && !s.threads[t].Working? && !th.Working? && !th.Blocked?
    requires Idling(s.threads[t]) == Idling(th)
    ensures Inv(SetThread(s, t, th))
  {
    var s' := SetThread(s, t, th);
    assert s'.threads - {t} == s.threads - {t};
    SplitOff(s.threads, t);
    SplitOff(s'.threads, t);
    assert FlagsOk(s', s'.threads) by {
      forall k | k in s'.threads
        ensures ThreadOk(s', k)
      {
        assert ThreadOk(s, k);
      }
      if Failed(s) && s.fAllOk {
        var k :| k in s.threads && s.threads[k].Working? && !s.threads[k].fOk;
        assert k in s'.threads && s'.threads[k].Working? && !s'.threads[k].fOk;
      }
    }
    hide FlagsOk, Pending, BatchSizes, IdleThreads, Holders;
    forall c
      ensures Accounted(s', s'.threads, c)
    {
      assert Accounted(s, s.threads, c);
    }
  }

  lemma RunKeeps(s: State, t: Tid)
    requires Inv(s) && Enabled(s, Run(t))
    ensures Inv(RunOne(s, t))
  {
    RunFlags(s, t);
    RunConserves(s, t);
    RunCounts(s, t);
    hide FlagsOk, Conserved, TodoOk, CountersOk;
  }

  lemma RunCounts(s: State, t: Tid)
    requires CountersOk(s, s.threads, 0) && TodoOk(s, s.threads) && Enabled(s, Run(t))
    ensures CountersOk(RunOne(s, t), RunOne(s, t).threads, 0) && TodoOk(RunOne(s, t), RunOne(s, t).threads)
  {
    var s' := RunOne(s, t);
    assert s'.threads - {t} == s.threads - {t};
    SplitOff(s.threads, t);
    SplitOff(s'.threads, t);
    hide Pending, BatchSizes, IdleThreads, Holders, Remaining, Occurs;
  }

  lemma HeadAndRest(c0: Check, left: seq<Check>, c: Check)
    ensures Occurs([c0] + left, c) == Occurs(left, c) + (if c == c0 then 1 else 0)
  {
  }

  lemma RunConserves(s: State, t: Tid)
    requires Conserved(s, s.threads) && Enabled(s, Run(t))
    ensures Conserved(RunOne(s, t), RunOne(s, t).threads)
  {
    forall c
      ensures Accounted(RunOne(s, t), RunOne(s, t).threads, c)
    {
      assert Accounted(s, s.threads, c);
      RunAccounts(s, t, c);
    }
  }

  lemma RunAccounts(s: State, t: Tid, c: Check)
    requires Accounted(s, s.threads, c) && Enabled(s, Run(t))
    ensures Accounted(RunOne(s, t), RunOne(s, t).threads, c)
  {
    var s' := RunOne(s, t);
    RunMoves(s, t, c);
    hide *;
    SplitPending(s.threads, t, c);
    SplitPending(s'.threads, t, c);
    AccountedIff(s, s.threads, c);
    AccountedIff(s', s'.threads, c);
  }

  lemma AccountedIff(s: State, threads: map<Tid, Thread>, c: Check)
    ensures Accounted(s, threads, c) <==>
              s.added[c] == Occurs(s.queue, c) + Sum(Pending(threads, c)) + s.ran[c] + s.skipped[c]
  {
  }

  /** Running a check moves it from the pending ones to those run or skipped. */
  lemma RunMoves(s: State, t: Tid, c: Check)
    requires Enabled(s, Run(t))
    ensures var s' := RunOne(s, t);
            && t in s.threads && t in s'.threads && s'.threads - {t} == s.threads - {t}
            && s'.added == s.added && s'.queue == s.queue
            && s'.ran[c] + s'.skipped[c] + Occurs(Remaining(s'.threads[t]), c)
               == s.ran[c] + s.skipped[c] + Occurs(Remaining(s.threads[t]), c)
  {
    var s' := RunOne(s, t);
    var th, c0 := s.threads[t], s.threads[t].batch[s.threads[t].done];
    NextRemaining(th, s'.threads[t], c);
    hide Remaining, Occurs;
  }

  lemma NextRemaining(th: Thread, th': Thread, c: Check)
    requires th.Working? && th.done < |th.batch| && th'.Working? && th'.batch == th.batch && th'.done == th.done + 1
    ensures Occurs(Remaining(th), c) == Occurs(Remaining(th'), c) + (if c == th.batch[th.done] then 1 else 0)
  {
    assert Remaining(th) == [th.batch[th.done]] + Remaining(th');
    HeadAndRest(th.batch[th.done], Remaining(th'), c);
  }

  lemma RunFlags(s: State, t: Tid)
    requires Inv(s) && Enabled(s, Run(t))
    ensures FlagsOk(RunOne(s, t), RunOne(s, t).threads)
  {
    hide CountersOk, TodoOk, Conserved;
    var s' := RunOne(s, t);
    var th, c0 := s.threads[t], s.threads[t].batch[s.threads[t].done];
    assert ThreadOk(s, t);
    assert th.fOk ==> c0 in s'.ran;
    assert forall c :: c in s.ran ==> c in s'.ran;
    forall k | k in s'.threads
      ensures ThreadOk(s', k)
    {
      assert ThreadOk(s, k);
    }
    if Failed(s') && s'.fAllOk {
      if !th.fOk || !c0.ok {
        assert t in s'.threads && s'.threads[t].Working? && !s'.threads[t].fOk;
      } else {
        var c :| c in s'.ran && !c.ok;
        assert c in s.ran;
        var k :| k in s.threads && s.threads[k].Working? && !s.threads[k].fOk;
        assert k in s'.threads && s'.threads[k].Working? && !s'.threads[k].fOk;
      }
    }
  }

  lemma AddKeeps(s: State, checks: seq<Check>, w: Tid)
    requires Inv(s) && Enabled(s, Add(checks, w))
    ensures Inv(AddChecks(s, checks, w))
  {
    var s1 := s.(queue := s.queue + checks, nTodo := s.nTodo + |checks|, added := s.added + multiset(checks));
    var s' := AddChecks(s, checks, w);
    assert Inv(s1) by {
      forall c
        ensures Accounted(s1, s1.threads, c)
      {
        assert Accounted(s, s.threads, c);
      }
      forall k | k in s1.threads
        ensures ThreadOk(s1, k)
      {
        assert ThreadOk(s, k);
      }
    }
    NotifyKeeps(s1, s');
  }

  /** Waking any set of blocked workers. */
  lemma NotifyKeeps(s: State, s': State)
    requires Inv(s) && s' == s.(threads := s'.threads) && s'.threads.Keys == s.threads.Keys
    requires forall t :: t in s.threads ==> s'.threads[t] == s.threads[t] || (s.threads[t] == Blocked && s'.threads[t] == Woken)
    ensures Inv(s')
  {
    NotifyCounts(s.threads, s'.threads);
    NotifyFlags(s, s');
    hide FlagsOk, Pending, BatchSizes, IdleThreads, Holders;
    forall c
      ensures Accounted(s', s'.threads, c)
    {
      assert Accounted(s, s.threads, c);
    }
  }

  lemma NotifyCounts(threads: map<Tid, Thread>, threads': map<Tid, Thread>)
    requires threads'.Keys == threads.Keys
    requires forall t :: t in threads ==> threads'[t] == threads[t] || (threads[t] == Blocked && threads'[t] == Woken)
    ensures IdleThreads(threads') == IdleThreads(threads) && Holders(threads') == Holders(threads)
    ensures BatchSizes(threads') == BatchSizes(threads) && forall c :: Pending(threads', c) == Pending(threads, c)
  {
    assert forall t :: t in threads ==> Remaining(threads'[t]) == Remaining(threads[t]);
    hide Remaining;
  }

  lemma NotifyFlags(s: State, s': State)
    requires FlagsOk(s, s.threads) && s' == s.(threads := s'.threads) && s'.threads.Keys == s.threads.Keys
    requires forall t :: t in s.threads ==> s'.threads[t] == s.threads[t] || (s.threads[t] == Blocked && s'.threads[t] == Woken)
    ensures FlagsOk(s', s'.threads)
  {
    forall k | k in s'.threads
      ensures ThreadOk(s', k)
    {
      assert ThreadOk(s, k);
    }
    if Failed(s) && s.fAllOk {
      var k :| k in s.threads && s.threads[k].Working? && !s.threads[k].fOk;
      assert k in s'.threads && s'.threads[k].Working? && !s'.threads[k].fOk;
    }
  }

  /** Every step of every thread keeps the invariant. */
  lemma StepKeepsInv(s: State, a: Action)
    requires Inv(s) && Enabled(s, a)
    ensures Inv(Step(s, a))
  {
    hide Inv, Balanced;
    match a {
      case Start(t) => MoveFree(s, t, Arriving);
      case Critical(t) =>
        SettleBalances(s, t);
        SettleFits(s, t);
        TakeBalances(Settle(s, t), t);
      case Run(t) => RunKeeps(s, t);
      case Spurious(t) => MoveFree(s, t, Woken);
      case Add(checks, w) => AddKeeps(s, checks, w);
    }
  }

  /** A freshly constructed queue with some threads that have not entered it. */
  function Initial(master: Tid, nBatchSize: nat, tids: set<Tid>): State {
    State(master, nBatchSize, [], 0, 0, true, 0, map t | t in tids + {master} :: Outside,
          multiset{}, multiset{}, multiset{})
  }

  lemma InitialInv(master: Tid, nBatchSize: nat, tids: set<Tid>)
    ensures Inv(Initial(master, nBatchSize, tids))
  {
    var s := Initial(master, nBatchSize, tids);
    assert IdleThreads(s.threads) == {} && Holders(s.threads) == {};
    SumZero(BatchSizes(s.threads));
    forall c
      ensures Accounted(s, s.threads, c)
    {
      SumZero(Pending(s.threads, c));
    }
    assert forall k :: k in s.threads ==> ThreadOk(s, k);
  }

  /** A run: every action is enabled when its turn comes. */
  ghost predicate IsRun(s: State, actions: seq<Action>)
    requires Inv(s)
    decreases |actions|
  {
    actions == [] ||
    (Enabled(s, actions[0]) && (StepKeepsInv(s, actions[0]); IsRun(Step(s, actions[0]), actions[1..])))
  }

  /** The state a run leads to; the invariant holds there too. */
  ghost function After(s: State, actions: seq<Action>): (r: State)
    requires Inv(s) && IsRun(s, actions)
    ensures Inv(r)
    decreases |actions|
  {
    if actions == [] then s
    else
      StepKeepsInv(s, actions[0]);
      After(Step(s, actions[0]), actions[1..])
  }

  // --------------------------------------------------------------------- theorems

  /** Wait returns true exactly when every check added since its last return was run, once each, and succeeded. */
  lemma WaitResult(s: State, a: Action)
    requires Inv(s) && Enabled(s, a) && Returns(s, a)
    ensures Result(s, a) <==> s.ran == s.added && forall c :: c in s.added ==> c.ok
  {
    var t := a.t;
    var s1 := Settle(s, t);
    var rest := s1.threads - {t};
    SettleBalances(s, t);
    NothingHeld(s1, rest, 1);
    hide Inv, CountersOk, TodoOk;
    forall c
      ensures s.added[c] == s.ran[c] + s.skipped[c]
    {
      assert Accounted(s1, rest, c);
    }
    assert s1.fAllOk <==> !Failed(s1) by {
      assert forall u :: u in rest ==> u !in Holders(rest);
    }
    if s1.fAllOk {
      assert s.skipped == multiset{};
      assert s.ran == s.added;
    } else {
      var c :| c in s.ran && !c.ok;
      assert s.added[c] > 0;
    }
  }

  lemma HeadOccurs(checks: seq<Check>)
    requires checks != []
    ensures Occurs(checks, checks[0]) > 0
  {
    assert checks[0] in multiset(checks);
  }

  lemma PendingAtMost(threads: map<Tid, Thread>, t: Tid, c: Check)
    requires t in threads
    ensures Occurs(Remaining(threads[t]), c) <= Sum(Pending(threads, c))
  {
    SumNonNegative(Pending(threads, c));
    assert Pending(threads, c)[t] == Occurs(Remaining(threads[t]), c);
  }

  predicate IsIdle(s: State) {
    s.nTotal == s.nIdle && s.nTodo == 0 && s.fAllOk
  }

  /** Right after Wait returns the queue is idle. */
  lemma IdleAfterWait(s: State, a: Action)
    requires Inv(s) && Enabled(s, a) && Returns(s, a)
    ensures IsIdle(Step(s, a)) && Step(s, a).added == multiset{}
  {
    SettleBalances(s, a.t);
    NothingHeld(Settle(s, a.t), Settle(s, a.t).threads - {a.t}, 1);
  }

  /** It stays idle, whatever the workers do, until something is added: the controller's assertion holds. */
  lemma IdleUntilAdd(s: State)
    requires Inv(s) && s.added == multiset{} && s.threads[s.master].Outside?
    ensures IsIdle(s)
  {
    SumNonNegative(BatchSizes(s.threads));
    forall c
      ensures Occurs(s.queue, c) == 0 && s.ran[c] == 0 && s.skipped[c] == 0 && Sum(Pending(s.threads, c)) == 0
    {
      assert Accounted(s, s.threads, c);
      SumNonNegative(Pending(s.threads, c));
    }
    if s.queue != [] {
      HeadOccurs(s.queue);
    }
    forall t | t in s.threads
      ensures !s.threads[t].Working?
    {
      assert ThreadOk(s, t);
      var th := s.threads[t];
      if th.Working? {
        assert th.done == 0 && Remaining(th) == th.batch;
        HeadOccurs(th.batch);
        PendingAtMost(s.threads, t, th.batch[0]);
      }
    }
    assert Holders(s.threads) == {};
    SumZero(BatchSizes(s.threads));
  }

  /** A blocked master without a pending notification: some worker holds a batch. */
  lemma BlockedMasterHasHelp(s: State)
    requires Inv(s) && s.threads[s.master].Blocked?
    ensures exists t :: t in s.threads && t != s.master && s.threads[t].Working?
  {
    if forall t :: t in s.threads ==> !s.threads[t].Working? {
      SumZero(BatchSizes(s.threads));
    }
  }

  /** While the master is inside Wait, some thread can go on without a spurious wake-up. */
  lemma NoDeadlock(s: State) returns (a: Action)
    requires Inv(s) && !s.threads[s.master].Outside?
    ensures (a.Critical? || a.Run?) && Enabled(s, a)
  {
    var t := s.master;
    if s.threads[t].Blocked? {
      BlockedMasterHasHelp(s);
      t :| t in s.threads && t != s.master && s.threads[t].Working?;
    }
    assert ThreadOk(s, t);
    a := if s.threads[t].Working? && s.threads[t].done < |s.threads[t].batch| then Run(t) else Critical(t);
  }

  /**
   * A critical section that finds checks takes them from the end of the queue: no more than configured, otherwise as
   * many as leave every thread an equal share, and at least one. Once a failure is known the batch is only skipped.
   */
  lemma BatchWithinLimits(s: State, t: Tid)
    requires Inv(s) && CanEnter(s, t) && s.queue != []
    ensures var s1, s' := Settle(s, t), Step(s, Critical(t));
            && t in s'.threads && s'.threads[t].Working?
            && var n, threads := |s'.threads[t].batch|, s1.nTotal + s1.nIdle + 1;
               && 1 <= n <= |s.queue| && s'.queue == s.queue[..|s.queue| - n]
               && (forall i :: 0 <= i < n ==> s'.threads[t].batch[i] == s.queue[|s.queue| - 1 - i])
               && (n > 1 ==> n <= s.nBatchSize && n * threads <= |s.queue|)
               && (n < s.nBatchSize ==> |s.queue| < (n + 1) * threads)
               && s'.threads[t].done == 0 && s'.threads[t].fOk == s1.fAllOk
  {
    hide Inv, Balanced;
    SettleBalances(s, t);
    SettleFits(s, t);
    BatchIsShare(Settle(s, t));
    hide BatchSize;
  }

  lemma BatchIsShare(s: State)
    requires s.nTotal + s.nIdle + 1 > 0
    ensures var n, threads := BatchSize(s), s.nTotal + s.nIdle + 1;
            (n > 1 ==> n <= s.nBatchSize && n * threads <= |s.queue|) && (n < s.nBatchSize ==> |s.queue| < (n + 1) * threads)
  {
    FairShare(|s.queue|, s.nTotal + s.nIdle + 1, s.nBatchSize);
  }

  lemma FairShare(a: nat, b: nat, limit: nat)
    requires b > 0
    ensures var n := if limit < a / b then limit else a / b;
            var m := if n < 1 then 1 else n;
            (m > 1 ==> m <= limit && m * b <= a) && (m < limit ==> a < (m + 1) * b)
  {
    var q := a / b;
    assert q * b <= a < (q + 1) * b;
    if limit < q {
      MulGrows(limit, q, b);
    }
    if q < 1 {
      MulGrows(q + 1, 2, b);
    }
  }

  /** Adding checks wakes workers, never the master: all of them for several checks, one for a single check. */
  lemma AddWakes(s: State, checks: seq<Check>, w: Tid)
    requires Inv(s) && Enabled(s, Add(checks, w))
    ensures var s' := Step(s, Add(checks, w));
            && s'.threads.Keys == s.threads.Keys && s'.queue == s.queue + checks && s'.threads[s.master] == s.threads[s.master]
            && (|checks| == 0 ==> s'.threads == s.threads)
            && (|checks| == 1 && w in s.threads && w != s.master ==> !s'.threads[w].Blocked?)
            && (|checks| == 1 ==> forall t :: t in s.threads && t != w ==> s'.threads[t] == s.threads[t])
            && (|checks| > 1 ==> forall t :: t in s.threads && t != s.master ==> !s'.threads[t].Blocked?)
            && forall t :: t in s.threads && !s.threads[t].Blocked? ==> s'.threads[t] == s.threads[t]
  {
    hide Inv, Balanced;
  }

  // ---------------------------------------------------------------- termination

  ghost function Weight(th: Thread): nat {
    match th
    case Arriving => 1
    case Woken => 1
    case Working(batch, done, _) => 2 + 3 * (if done <= |batch| then |batch| - done else 0)
    case _ => 0
  }

  ghost function Weights(threads: map<Tid, Thread>): map<Tid, int> {
    map t | t in threads :: Weight(threads[t])
  }

  /** Work left: queued checks weigh more than checks in a batch, and every thread that can move adds its share. */
  ghost function Work(s: State): int {
    5 * |s.queue| + Sum(Weights(s.threads))
  }

  lemma WorkOfSet(s: State, t: Tid, th: Thread)
    requires t in s.threads
    ensures Work(SetThread(s, t, th)) == Work(s) - Weight(s.threads[t]) + Weight(th)
  {
    SumUpdate(Weights(s.threads), t, Weight(th));
    assert Weights(s.threads[t := th]) == Weights(s.threads)[t := Weight(th)];
  }

  /**
   * Every critical section and every check run uses up work, so between two additions, thread starts and spurious
   * wake-ups there are finitely many.
   */
  lemma WorkDecreases(s: State, a: Action)
    requires Inv(s) && Enabled(s, a) && (a.Critical? || a.Run?)
    ensures 0 <= Work(Step(s, a)) < Work(s)
  {
    SumNonNegative(Weights(Step(s, a).threads));
    if a.Run? {
      RunWork(s, a.t);
    } else {
      CriticalWork(s, a.t);
    }
    hide Inv, Settle, TryTake, RunOne;
  }

  /** A run in which nobody adds checks, starts, or wakes up by chance. */
  predicate Undisturbed(actions: seq<Action>) {
    forall i :: 0 <= i < |actions| ==> actions[i].Critical? || actions[i].Run?
  }

  /** Such a run is no longer than the work there was to begin with. */
  lemma {:induction false} UndisturbedRunsEnd(s: State, actions: seq<Action>)
    requires Inv(s) && IsRun(s, actions) && Undisturbed(actions)
    ensures 0 <= Work(After(s, actions)) && |actions| + Work(After(s, actions)) <= Work(s)
    decreases |actions|
  {
    hide Inv, Work, Step;
    if actions == [] {
      WorkNonNegative(s);
    } else {
      StepKeepsInv(s, actions[0]);
      WorkDecreases(s, actions[0]);
      UndisturbedRunsEnd(Step(s, actions[0]), actions[1..]);
    }
  }

  lemma WorkNonNegative(s: State)
    ensures 0 <= Work(s)
  {
    SumNonNegative(Weights(s.threads));
  }

  /** Nobody can go on. */
  ghost predicate Stuck(s: State) {
    forall a: Action :: a.Critical? || a.Run? ==> !Enabled(s, a)
  }

  /** The master leaves Loop in no other way than by returning from Wait. */
  lemma LeavesByReturning(s: State, a: Action)
    requires Inv(s) && Enabled(s, a) && s.master in s.threads && s.threads[s.master] != Outside
    ensures Step(s, a).master == s.master && s.master in Step(s, a).threads
    ensures Step(s, a).threads[s.master].Outside? <==> Returns(s, a)
  {
    hide Inv, Settle, TryTake, CanTake;
    match a {
      case Critical(t) => CriticalLeaves(s, t);
      case Start(t) => assert Step(s, a) == SetThread(s, t, Arriving);
      case Run(t) => assert Step(s, a) == RunOne(s, t);
      case Spurious(t) => assert Step(s, a) == SetThread(s, t, Woken);
      case Add(_, _) =>
    }
  }

  lemma CriticalLeaves(s: State, t: Tid)
    requires Inv(s) && Enabled(s, Critical(t)) && s.threads[s.master] != Outside
    ensures CanTake(Settle(s, t))
    ensures var s' := TryTake(Settle(s, t), t);
            && s'.master == s.master && s.master in s'.threads
            && (s'.threads[s.master].Outside? <==> t == s.master && s.queue == [] && Settle(s, t).nTodo == 0)
  {
    SettleBalances(s, t);
    SettleFits(s, t);
    hide Balanced, CanTake, TryTake;
    SettleShape(s, t);
    TakeShape(Settle(s, t), t);
  }

  lemma SettleShape(s: State, t: Tid)
    requires t in s.threads && s.master in s.threads && !s.threads[s.master].Outside?
    ensures var s1 := Settle(s, t);
            && s1.master == s.master && s1.queue == s.queue && t in s1.threads && s.master in s1.threads
            && !s1.threads[s.master].Outside?
  {
  }

  lemma TakeShape(s: State, t: Tid)
    requires CanTake(s) && s.master in s.threads && !s.threads[s.master].Outside?
    ensures TryTake(s, t).master == s.master && s.master in TryTake(s, t).threads
    ensures TryTake(s, t).threads[s.master].Outside? <==> t == s.master && s.queue == [] && s.nTodo == 0
  {
    hide BatchSize, TakeBack;
  }

  /** When nobody can go on, the master is not waiting. */
  lemma StuckMeansOutside(s: State)
    requires Inv(s) && Stuck(s)
    ensures s.threads[s.master].Outside?
  {
    hide Balanced;
    if !s.threads[s.master].Outside? {
      var a := NoDeadlock(s);
    }
  }

  /**
   * Wait returns: every undisturbed run that cannot be continued has come to the step in which the master returns, and
   * ends with the master outside. By UndisturbedRunsEnd no such run is endless.
   */
  lemma {:induction false} WaitReturns(s: State, actions: seq<Action>) returns (k: nat)
    requires Inv(s) && !s.threads[s.master].Outside? && IsRun(s, actions) && Undisturbed(actions)
    requires Stuck(After(s, actions))
    ensures k < |actions| && IsRun(s, actions[..k]) && Inv(After(s, actions[..k]))
    ensures Enabled(After(s, actions[..k]), actions[k]) && Returns(After(s, actions[..k]), actions[k])
    ensures After(s, actions).threads[After(s, actions).master].Outside?
    decreases |actions|
  {
    StuckMeansOutside(After(s, actions));
    hide Inv, Step, Returns, Enabled;
    if actions != [] {
      var a := actions[0];
      StepKeepsInv(s, a);
      LeavesByReturning(s, a);
      if Returns(s, a) {
        k := 0;
        assert actions[..0] == [];
      } else {
        var rest := WaitReturns(Step(s, a), actions[1..]);
        k := rest + 1;
        assert actions[..k][0] == a && actions[..k][1..] == actions[1..][..rest];
      }
    }
  }

  lemma RunWork(s: State, t: Tid)
    requires Inv(s) && Enabled(s, Run(t))
    ensures Work(Step(s, Run(t))) < Work(s)
  {
    hide Inv;
    var s1 := s.(ran := Step(s, Run(t)).ran, skipped := Step(s, Run(t)).skipped);
    assert Work(s1) == Work(s);
    WorkOfSet(s1, t, Step(s, Run(t)).threads[t]);
  }

  lemma CriticalWork(s: State, t: Tid)
    requires Inv(s) && Enabled(s, Critical(t))
    ensures Work(Step(s, Critical(t))) < Work(s)
  {
    hide Work, Inv, Balanced, TryTake;
    SettleBalances(s, t);
    SettleFits(s, t);
    SettleWork(s, t);
    TakeWork(Settle(s, t), t);
  }

  lemma SettleWork(s: State, t: Tid)
    requires Inv(s) && CanEnter(s, t)
    ensures t in Settle(s, t).threads && Settle(s, t).threads[t] == s.threads[t]
    ensures Work(Settle(s, t)) <= Work(s) + (if s.threads[t].Working? then 1 else 0)
  {
    hide Balanced;
    if s.threads[t].Working? {
      WorkOfSet(s, s.master, Woken);
    }
  }

  lemma TakeWork(s: State, t: Tid)
    requires t in s.threads && CanEnter(s, t) && CanTake(s)
    ensures Work(TryTake(s, t)) + (if s.threads[t].Working? then 1 else 0) < Work(s)
  {
    if s.queue != [] {
      var n := BatchSize(s);
      var s1 := s.(queue := s.queue[..|s.queue| - n]);
      WorkOfSet(s1, t, TryTake(s, t).threads[t]);
      assert Work(s1) == Work(s) - 5 * n;
    } else {
      WorkOfSet(s, t, TryTake(s, t).threads[t]);
    }
  }
}
