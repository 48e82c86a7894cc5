/** What the scheduler's steps add up to: who runs next, who gets a unit or a lock, when a sleeper is ready again. */
module SchedulerRuns {
  import opened Sequences
  import opened SchedulerState
  import opened SchedulerSteps

  /** The running thread is in ordinary code. */
  ghost predicate AtWork(k: State) {
    && Inv(k) && k.current != k.idle && k.threads[k.current].pc == Free && k.threads[k.current].child == None
  }

  /** t is the waiter that an up of s wakes, and it comes before all ready threads and the running one. */
  ghost predicate Foremost(k: State, s: nat, t: nat) {
    && s in k.semas && (exists i :: TopWaiter(k.semas[s].waiters, t, k.threads, i))
    && k.current in k.threads && t in k.threads && k.threads[t].priority > k.threads[k.current].priority
    && forall x | x in k.ready :: x in k.threads && k.threads[x].priority < k.threads[t].priority
  }

  // ---------------------------------------------------------------- yielding

  /** A thread joins the queue in front if it outranks its first. */
  lemma QueuedFront(list: seq<nat>, list': seq<nat>, t: nat, threads: map<nat, Thread>)
    requires Queued(list, list', t, threads) && forall x | x in list :: x in threads
    requires list != [] ==> threads[list[0]].priority < threads[t].priority
    ensures list' == [t] + list
  {
    var at :| QueuedAt(list, list', t, threads, at);
    assert list[..0] == [] && list[0..] == list;
  }

  /** And behind its first otherwise. */
  lemma QueuedBehindFirst(list: seq<nat>, list': seq<nat>, t: nat, threads: map<nat, Thread>)
    requires Queued(list, list', t, threads) && (forall x | x in list :: x in threads) && list != []
    requires threads[list[0]].priority >= threads[t].priority
    ensures list' != [] && list'[0] == list[0]
  {
    var at :| QueuedAt(list, list', t, threads, at);
  }

  /** The ready threads are there and stay, and the running one is not among them. */
  ghost predicate ReadySane(k: State) {
    && k.current in k.threads && k.current !in k.ready && k.current !in k.doomed
    && forall x | x in k.ready :: x in k.threads && x !in k.doomed
  }

  /** A thread that yields runs on exactly if no ready thread is at least as important; otherwise the first of them
      runs. */
  lemma YieldRuns(k: State, k': State)
    requires ReadySane(k) && k.current != k.idle && YieldStep(k, k')
    ensures k'.current == if k.ready != [] && k.threads[k.ready[0]].priority >= k.threads[k.current].priority then k.ready[0]
                          else k.current
    ensures k'.semas == k.semas && k'.locks == k.locks && k'.sleep == k.sleep
    ensures forall t | t in k'.threads && t != k.current && t != k'.current ::
              t in k.threads && k'.threads[t] == k.threads[t]
    ensures k'.current in k.threads && k'.current in k'.threads && k.current in k'.threads
    ensures k'.current != k.current ==> k'.threads[k.current] == k.threads[k.current].(status := Ready)
    ensures k'.threads[k'.current] == k.threads[k'.current].(status := Running)
  {
    var y :| GaveUp(k, y) && Dispatched(y, k');
    if k.ready != [] && k.threads[k.ready[0]].priority >= k.threads[k.current].priority {
      QueuedBehindFirst(k.ready, y.ready, k.current, k.threads);
    } else {
      QueuedFront(k.ready, y.ready, k.current, k.threads);
    }
    hide Queued;
  }

  lemma SaneIs(k: State)
    requires Inv(k)
    ensures ReadySane(k)
  {
    CurrentFacts(k);
  }

  // ---------------------------------------------------------------- semaphores

  /** An up that wakes a thread more important than all others hands the processor to it at once. */
  lemma UpRunsWoken(k: State, m: State, k': State, s: nat, t: nat)
    requires Inv(k) && k.current != k.idle && Foremost(k, s, t) && UpStep(k, m, s)
    ensures m.ready == [t] + k.ready && t != k.current && WaitsFor(k, t, s) && t in m.threads && k.current in m.threads
    ensures m.threads[t] == k.threads[t].(status := Ready) && m.threads[k.current] == k.threads[k.current]
    ensures m.current == k.current && m.locks == k.locks && s in m.semas && m.semas[s].value == k.semas[s].value + 1
    ensures ReadySane(m) && m.idle == k.idle
  {
    hide Inv, UpStep, WaitsFor;
    SaneIs(k);
    ForemostWaits(k, s, t);
    ForemostWakes(k, m, s, t);
    WaiterElsewhere(k, s, t);
    QueuedFront(k.ready, m.ready, t, k.threads);
    hide Queued, Foremost;
  }

  lemma WaiterElsewhere(k: State, s: nat, t: nat)
    requires Inv(k) && WaitsFor(k, t, s)
    ensures t != k.current && t !in k.doomed
  { }

  lemma ForemostWakes(k: State, m: State, s: nat, t: nat)
    requires Foremost(k, s, t) && UpStep(k, m, s)
    ensures t in k.threads && OneThread(k, m, t, k.threads[t].(status := Ready))
    ensures Queued(k.ready, m.ready, t, k.threads)
    ensures s in m.semas && m.semas[s].value == k.semas[s].value + 1 && m.locks == k.locks
  {
    var i :| TopWaiter(k.semas[s].waiters, t, k.threads, i);
    var u, j :| Woke(k, m, s, u, j);
    OnlyFirst(k.semas[s].waiters, k.threads, t, i, u, j);
    hide Queued, TopWaiter;
  }

  lemma OnlyFirst(list: seq<nat>, threads: map<nat, Thread>, t: nat, i: int, u: nat, j: int)
    requires TopWaiter(list, t, threads, i) && TopWaiter(list, u, threads, j)
    ensures t == u
  { }

  /** An up and the comparison of priorities after it: the woken thread runs, and the unit is there for it. */
  lemma UpRuns(k: State, m: State, k1: State, s: nat, t: nat)
    requires Inv(k) && k.current != k.idle && Foremost(k, s, t) && UpStep(k, m, s) && CompareStep(m, k1)
    ensures k1.current == t && t in k1.threads && t != k.current && s in k1.semas && k1.locks == k.locks
    ensures t in k.threads
    ensures k1.semas[s].value == k.semas[s].value + 1 && k1.threads[t] == k.threads[t].(status := Running)
    ensures k1.idle == k.idle
  {
    hide Inv, UpStep;
    UpRunsWoken(k, m, k1, s, t);
    assert YieldStep(m, k1);
    YieldRuns(m, k1);
    YieldFrame(m, k1);
    hide YieldStep, CompareStep;
  }

  lemma YieldFrame(k: State, k': State)
    requires YieldStep(k, k')
    ensures k'.idle == k.idle && k'.initial == k.initial
  { }

  /** A thread that has been woken and finds a unit takes it. */
  lemma WokenTakes(k1: State, k2: State, s: nat, goal: Then, a: Action)
    requires Next(k1, Go(a), k2) && k1.current != k1.idle && k1.threads[k1.current].pc == Downing(s, goal)
    requires s in k1.semas && k1.semas[s].value > 0
    ensures TookUnit(k1, k2, s, goal)
  { }

  /** The up of a semaphore, and the step after it: the most important waiter runs, and it has the unit. */
  lemma UpHandsOver(k: State, k1: State, k2: State, s: nat, t: nat, a: Action)
    requires AtWork(k) && Usable(k, s) && Foremost(k, s, t)
    requires Next(k, Go(Up(s)), k1) && Next(k1, Go(a), k2)
    ensures k1.current == t && k2.current == t && t in k2.threads && s in k2.semas
    ensures k2.semas[s].value == k.semas[s].value && k2.threads[t].pc == Free
  {
    hide Inv, UpStep, CompareStep, Foremost;
    var m :| UpStep(k, m, s) && CompareStep(m, k1);
    UpRuns(k, m, k1, s, t);
    ForemostWaits(k, s, t);
    PlainWaiter(k, s, t);
    WokenTakes(k1, k2, s, Plain, a);
    hide Next;
  }

  lemma ForemostWaits(k: State, s: nat, t: nat)
    requires Inv(k) && Foremost(k, s, t)
    ensures WaitsFor(k, t, s) && t != k.idle
  {
    var i :| TopWaiter(k.semas[s].waiters, t, k.threads, i);
    assert t in k.semas[s].waiters;
  }

  /** A semaphore that belongs to no lock is downed for itself. */
  lemma PlainWaiter(k: State, s: nat, t: nat)
    requires Inv(k) && Usable(k, s) && WaitsFor(k, t, s)
    ensures k.threads[t].pc == Downing(s, Plain)
  { }

  // ---------------------------------------------------------------- locks

  /** Acquiring a lock that is free: two steps later the thread holds it. */
  lemma AcquireFree(k: State, k1: State, k2: State, l: nat, a: Action)
    requires AtWork(k) && l in k.locks && k.locks[l].owner == None
    requires Next(k, Go(Acquire(l)), k1) && Next(k1, Go(a), k2)
    ensures k2.current == k.current && l in k2.locks && k2.locks[l].holder == Some(k.current)
    ensures k.current in k2.threads && k2.threads[k.current].pc == Free
  {
    assert LockOk(k, l);
    hide Inv;
    var s := k.locks[l].sema;
    assert TookUnit(k, k1, s, TakeLock(l));
    hide Queued, Dispatched;
  }

  /** Releasing a lock for which a thread more important than all others waits: three steps of the two threads later
      it holds the lock, and nobody else can have had it in between. */
  lemma LockHandover(k: State, k1: State, k2: State, k3: State, k4: State, l: nat, t: nat, a: seq<Action>)
    requires AtWork(k) && l in k.locks && k.locks[l].holder == Some(k.current) && Foremost(k, k.locks[l].sema, t)
    requires |a| == 3
    requires Next(k, Go(Release(l)), k1) && Inv(k1) && Next(k1, Go(a[0]), k2) && Next(k2, Go(a[1]), k3)
    requires Next(k3, Go(a[2]), k4)
    ensures k1.current == k.current && k2.current == t && k3.current == t && k4.current == t
    ensures l in k1.locks && l in k2.locks && l in k3.locks && l in k4.locks
    ensures k1.locks[l].holder == None && k2.locks[l].holder == None && k3.locks[l].holder == None
    ensures k4.locks[l].holder == Some(t)
  {
    ReleaseRuns(k, k1, k2, l, t, a[0]);
    hide Inv, Foremost, AtWork, TookUnit, DownStep;
    TakesLock(k2, k3, l, a[1]);
    BecomesHolder(k3, k4, l, a[2]);
    hide Next;
  }

  lemma ReleaseRuns(k: State, k1: State, k2: State, l: nat, t: nat, a: Action)
    requires AtWork(k) && l in k.locks && k.locks[l].holder == Some(k.current) && Foremost(k, k.locks[l].sema, t)
    requires Next(k, Go(Release(l)), k1) && Inv(k1) && Next(k1, Go(a), k2)
    ensures k1.current == k.current && k2.current == t && t != k2.idle && t in k2.threads
    ensures l in k1.locks && l in k2.locks && k1.locks[l].holder == None && k2.locks[l].holder == None
    ensures k2.threads[t].pc == Downing(k2.locks[l].sema, TakeLock(l))
    ensures k2.locks[l].sema in k2.semas && k2.semas[k2.locks[l].sema].value > 0
  {
    hide Inv, Foremost, Next;
    var s := k.locks[l].sema;
    ForemostWaits(k, s, t);
    LockWaiter(k, l, t);
    ReleaseIs(k, k1, l);
    ForemostSame(k, k1, s, t);
    FinishRuns(k1, k2, l, t, a);
    ForemostThere(k, s, t);
  }

  lemma ForemostThere(k: State, s: nat, t: nat)
    requires Foremost(k, s, t)
    ensures s in k.semas && t in k.threads && t != k.current
  { }

  lemma LockWaiter(k: State, l: nat, t: nat)
    requires Inv(k) && l in k.locks && WaitsFor(k, t, k.locks[l].sema)
    ensures k.threads[t].pc == Downing(k.locks[l].sema, TakeLock(l))
  { }

  lemma ReleaseIs(k: State, k1: State, l: nat)
    requires AtWork(k) && l in k.locks && k.locks[l].holder == Some(k.current) && Next(k, Go(Release(l)), k1)
    ensures k1 == k.(threads := k1.threads, locks := k1.locks) && l in k1.locks && k.current in k.threads
    ensures k1.threads == k.threads[k.current := k.threads[k.current].(pc := Releasing(l))]
    ensures k1.locks[l].sema == k.locks[l].sema && k1.locks[l].holder == None
  {
    hide Inv;
  }

  lemma ForemostSame(k: State, k1: State, s: nat, t: nat)
    requires Foremost(k, s, t) && k.current in k.threads && k1 == k.(threads := k1.threads, locks := k1.locks)
    requires k1.threads.Keys == k.threads.Keys
    requires forall x | x in k.threads :: k1.threads[x].priority == k.threads[x].priority
    ensures Foremost(k1, s, t)
  {
    var i :| TopWaiter(k.semas[s].waiters, t, k.threads, i);
    assert TopWaiter(k1.semas[s].waiters, t, k1.threads, i);
  }

  /** The rest of the release: the lock has no owner, and the woken thread runs. */
  lemma FinishRuns(k: State, k2: State, l: nat, t: nat, a: Action)
    requires Inv(k) && k.current != k.idle && k.threads[k.current].pc == Releasing(l) && l in k.locks
    requires k.locks[l].holder == None && Foremost(k, k.locks[l].sema, t) && Next(k, Go(a), k2)
    ensures k2.current == t && t in k2.threads && t in k.threads && k2.threads[t] == k.threads[t].(status := Running)
    ensures k2.idle == k.idle && l in k2.locks && k2.locks[l].sema == k.locks[l].sema && k2.locks[l].holder == None
    ensures k.locks[l].sema in k2.semas && k2.semas[k.locks[l].sema].value == 1
  {
    hide Inv, UpStep, Unlocked, CompareStep;
    var s := k.locks[l].sema;
    ReleasingFacts(k, l);
    var u, m :| Unlocked(k, u, m, l) && CompareStep(m, k2);
    UnlockIs(k, u, m, l);
    UpRunsWoken(k, u, k2, s, t);
    OutrankedYields(m, k2);
    hide Foremost, YieldStep;
    YieldRuns(m, k2);
    YieldFrame(m, k2);
  }

  lemma ReleasingFacts(k: State, l: nat)
    requires Inv(k) && l in k.locks && k.threads[k.current].pc == Releasing(l)
    ensures k.current in k.threads && k.locks[l].sema in k.semas && k.semas[k.locks[l].sema].value == 0
  {
    assert LockOk(k, l);
  }

  lemma OutrankedYields(m: State, k2: State)
    requires CompareStep(m, k2) && m.ready != [] && m.ready[0] in m.threads && m.current in m.threads
    requires m.threads[m.ready[0]].priority > m.threads[m.current].priority
    ensures YieldStep(m, k2)
  { }

  lemma UnlockIs(k: State, u: State, m: State, l: nat)
    requires Unlocked(k, u, m, l)
    ensures UpStep(k, u, k.locks[l].sema) && m.threads.Keys == u.threads.Keys && m.ready == u.ready
    ensures m.doomed == u.doomed
    ensures m.current == u.current && m.idle == u.idle && m.semas == u.semas && k.current in m.threads
    ensures k.current in k.threads && m.threads[k.current].priority == k.threads[k.current].priority
    ensures forall t | t in u.threads && t != k.current :: m.threads[t] == u.threads[t]
    ensures l in u.locks && l in m.locks && m.locks[l].sema == u.locks[l].sema && m.locks[l].holder == k.locks[l].holder
  {
    hide Queued, TopWaiter;
  }

  lemma TakesLock(k2: State, k3: State, l: nat, a: Action)
    requires Next(k2, Go(a), k3) && k2.current != k2.idle && l in k2.locks && k2.locks[l].holder == None
    requires k2.locks[l].sema in k2.semas && k2.semas[k2.locks[l].sema].value > 0
    requires k2.threads[k2.current].pc == Downing(k2.locks[l].sema, TakeLock(l))
    ensures k3.current == k2.current && k3.idle == k2.idle && k3.current in k3.threads
    ensures k3.threads[k3.current].pc == Taking(l)
    ensures l in k3.locks && k3.locks[l].holder == None
  {
    WokenTakes(k2, k3, k2.locks[l].sema, TakeLock(l), a);
    hide Next;
  }

  lemma BecomesHolder(k3: State, k4: State, l: nat, a: Action)
    requires Next(k3, Go(a), k4) && k3.current != k3.idle && k3.current in k3.threads
    requires k3.threads[k3.current].pc == Taking(l)
    ensures k4.current == k3.current && l in k4.locks && k4.locks[l].holder == Some(k3.current)
  { }

  // ---------------------------------------------------------------- sleeping, dying

  /** A thread that goes to sleep is asleep until the time it has asked for, and is last on the list. */
  lemma SleepStops(k: State, k': State, until: int)
    requires AtWork(k) && Next(k, Go(Sleep(until)), k')
    ensures k'.sleep == k.sleep + [k.current] && k'.current != k.current && k.current in k'.threads
    ensures k'.threads[k.current].status == Blocked && k'.threads[k.current].awake == until
    ensures k'.current == if k.ready == [] then k.idle else k.ready[0]
  {
    CurrentFacts(k);
    hide Inv, Queued;
  }

  /** The timer wakes a sleeper exactly when its time has come. */
  lemma TickWakes(k: State, k': State, now: int, t: nat)
    requires Inv(k) && t in k.sleep && Next(k, Tick(now, false), k')
    ensures t in k.threads && t in k'.threads
    ensures if k.threads[t].awake <= now then k'.threads[t].status == Ready && t in k'.ready && t !in k'.sleep
            else k'.threads[t] == k.threads[t] && t in k'.sleep
  {
    SleeperFacts(k, t);
    hide Inv;
    RequeuedHas(k.ready, k.sleep, k.threads, now, k'.ready, t);
    UndueHas(k.sleep, k.threads, now, k'.sleep, t);
    hide Undue, Requeued;
  }

  lemma {:induction false} RequeuedHas(ready: seq<nat>, list: seq<nat>, threads: map<nat, Thread>, now: int,
                                       ready': seq<nat>, t: nat)
    requires Requeued(ready, list, threads, now, ready') && t in threads
    ensures t in ready' <==> t in ready || (t in list && threads[t].awake <= now)
  {
    if list != [] {
      var n := |list| - 1;
      var r :| Requeued(ready, list[..n], threads, now, r)
               && if list[n] in threads && threads[list[n]].awake <= now then Queued(r, ready', list[n], threads)
                 else ready' == r;
      RequeuedHas(ready, list[..n], threads, now, r, t);
      assert list == list[..n] + [list[n]];
      if list[n] in threads && threads[list[n]].awake <= now {
        QueuedHas(r, ready', list[n], threads, t);
      }
    }
  }

  lemma QueuedHas(list: seq<nat>, list': seq<nat>, t: nat, threads: map<nat, Thread>, x: nat)
    requires Queued(list, list', t, threads)
    ensures x in list' <==> x == t || x in list
  {
    var at :| QueuedAt(list, list', t, threads, at);
    assert list == list[..at] + list[at..];
  }

  lemma {:induction false} UndueHas(list: seq<nat>, threads: map<nat, Thread>, now: int, rest: seq<nat>, t: nat)
    requires Undue(list, threads, now, rest)
    ensures t in rest <==> t in list && !(t in threads && threads[t].awake <= now)
  {
    if list != [] {
      var n := |list| - 1;
      assert list == list[..n] + [list[n]];
      if list[n] in threads && threads[list[n]].awake <= now {
        UndueHas(list[..n], threads, now, rest, t);
      } else {
        UndueHas(list[..n], threads, now, rest[..|rest| - 1], t);
        assert rest == rest[..|rest| - 1] + [rest[|rest| - 1]];
      }
    }
  }

  /** A thread that exits does not run again, and its page is freed by the next thread that yields. */
  lemma ExitFrees(k: State, k1: State, k2: State)
    requires AtWork(k) && k.current != k.initial && Next(k, Go(Exit), k1) && YieldStep(k1, k2)
    ensures k1.current != k.current && k.current in k1.doomed && k.current !in k1.ready && k.current !in k2.threads
  {
    CurrentFacts(k);
    hide Inv, Queued;
  }
}
