/** The atomic steps of the scheduler, semaphores and locks as relations between states, each with every field it
    changes. */
module SchedulerSteps {
  import opened Sequences
  import opened SchedulerState

  datatype Action =
    | Down(s: nat) | TryDown(s: nat) | Up(s: nat)
    | Acquire(l: nat) | TryAcquire(l: nat) | Release(l: nat)
    | Sleep(until: int) | Yield | Exit
    | Create(t: nat, priority: int) | Reprioritise(t: nat, priority: int)

  /** A timer interrupt, or the running thread going on */
  datatype Event = Tick(now: int, sliceUp: bool) | Go(action: Action)

  // ---------------------------------------------------------------- parts of steps

  /** t has joined the queue in front of the first thread of lower priority. */
  ghost predicate QueuedAt(list: seq<nat>, list': seq<nat>, t: nat, threads: map<nat, Thread>, at: int) {
    && 0 <= at <= |list| && list' == list[..at] + [t] + list[at..] && t in threads
    && (forall i | 0 <= i < at :: list[i] in threads && threads[list[i]].priority >= threads[t].priority)
    && (at < |list| ==> list[at] in threads && threads[list[at]].priority < threads[t].priority)
  }

  ghost predicate Queued(list: seq<nat>, list': seq<nat>, t: nat, threads: map<nat, Thread>) {
    exists at :: QueuedAt(list, list', t, threads, at)
  }

  /** The processor goes to the front of the ready list, or to the idle thread; only the next thread's status changes,
      and the one before is to be freed if it is dying. */
  ghost predicate Dispatched(k: State, k': State) {
    && k' == k.(threads := k'.threads, ready := k'.ready, doomed := k'.doomed, current := k'.current)
    && (if k.ready != [] then k'.current == k.ready[0] && k'.ready == k.ready[1..]
        else k'.current == k.idle && k'.ready == [])
    && k'.threads.Keys == k.threads.Keys && k'.current in k.threads && k.current in k.threads
    && k'.threads[k'.current] == k.threads[k'.current].(status := Running)
    && (forall t | t in k.threads && t != k'.current :: k'.threads[t] == k.threads[t])
    && k'.doomed == if k.threads[k.current].status == Dying && k'.current != k.current && k.current != k.initial
                    then k.doomed + [k.current] else k.doomed
  }

  /** The current thread has given up the processor: it is queued, unless it is the idle one. */
  ghost predicate GaveUp(k: State, y: State) {
    && k.current in k.threads && k.current !in k.doomed && y == k.(threads := y.threads, ready := y.ready, doomed := [])
    && k.current in y.threads && y.threads[k.current] == k.threads[k.current].(status := Ready)
    && y.threads.Keys == (set t | t in k.threads && t !in k.doomed)
    && (forall t | t in y.threads && t != k.current :: y.threads[t] == k.threads[t])
    && if k.current == k.idle then y.ready == k.ready else Queued(k.ready, y.ready, k.current, k.threads)
  }

  /** `thread_yield` */
  ghost predicate YieldStep(k: State, k': State) {
    exists y :: GaveUp(k, y) && Dispatched(y, k')
  }

  /** `thread_compare_priority` */
  ghost predicate CompareStep(k: State, k': State) {
    if k.ready != [] && k.ready[0] in k.threads && k.current in k.threads
       && k.threads[k.ready[0]].priority > k.threads[k.current].priority
    then YieldStep(k, k') else k' == k
  }

  /** One semaphore is different. */
  ghost predicate OneSema(k: State, k': State, s: nat, value: int, waiters: seq<nat>) {
    && k'.semas.Keys == k.semas.Keys && s in k.semas && (forall r | r in k.semas && r != s :: k'.semas[r] == k.semas[r])
    && k'.semas[s].value == value && k'.semas[s].waiters == waiters
  }

  /** The current thread's record is th, everything else but semaphores, locks, the ready and the sleep list is the
      same. */
  ghost predicate OneThread(k: State, k': State, t: nat, th: Thread) {
    && k' == k.(threads := k'.threads, semas := k'.semas, locks := k'.locks, ready := k'.ready, sleep := k'.sleep)
    && t in k.threads && k'.threads.Keys == k.threads.Keys && k'.threads[t] == th
    && forall x | x in k.threads && x != t :: k'.threads[x] == k.threads[x]
  }

  /** One lock is different. */
  ghost predicate OneLock(k: State, k': State, l: nat, holder: Option<nat>, owner: Option<nat>) {
    && k'.locks.Keys == k.locks.Keys && l in k.locks && (forall m | m in k.locks && m != l :: k'.locks[m] == k.locks[m])
    && k'.locks[l].sema == k.locks[l].sema && k'.locks[l].holder == holder && k'.locks[l].owner == owner
  }

  // ---------------------------------------------------------------- semaphores and locks

  /** The current thread has joined the waiters of s. */
  ghost predicate JoinedWaiters(k: State, j: State, s: nat, goal: Then) {
    && k.current in k.threads && s in k.semas && s in j.semas
    && OneThread(k, j, k.current, k.threads[k.current].(status := Blocked, pc := Downing(s, goal)))
    && OneSema(k, j, s, k.semas[s].value, j.semas[s].waiters)
    && Queued(k.semas[s].waiters, j.semas[s].waiters, k.current, k.threads)
    && j.locks == k.locks && j.ready == k.ready && j.sleep == k.sleep
  }

  /** A round of sema_down: a unit is taken, or the thread waits. */
  ghost predicate DownStep(k: State, k': State, s: nat, goal: Then) {
    && k.current in k.threads && s in k.semas
    && if k.semas[s].value > 0 then TookUnit(k, k', s, goal)
      else exists j :: JoinedWaiters(k, j, s, goal) && Dispatched(j, k')
  }

  ghost predicate TookUnit(k: State, k': State, s: nat, goal: Then) {
    && k.current in k.threads && s in k.semas && k'.ready == k.ready && k'.sleep == k.sleep
    && OneSema(k, k', s, k.semas[s].value - 1, k.semas[s].waiters)
    && match goal
       case Plain => OneThread(k, k', k.current, k.threads[k.current].(pc := Free)) && k'.locks == k.locks
       case TakeLock(l) =>
         && l in k.locks && OneThread(k, k', k.current, k.threads[k.current].(pc := Taking(l)))
         && OneLock(k, k', l, k.locks[l].holder, Some(k.current))
  }

  /** t is the first of the highest priority. */
  ghost predicate TopWaiter(list: seq<nat>, t: nat, threads: map<nat, Thread>, i: int) {
    && 0 <= i < |list| && list[i] == t && (forall x | x in list :: x in threads)
    && (forall j | 0 <= j < |list| :: threads[list[j]].priority <= threads[t].priority)
    && forall j | 0 <= j < i :: threads[list[j]].priority < threads[t].priority
  }

  /** sema_up before it compares priorities: the first waiter of the highest priority is ready, and the value is one
      more. */
  ghost predicate Woke(k: State, m: State, s: nat, t: nat, i: int) {
    && s in k.semas && s in m.semas && t in k.threads && TopWaiter(k.semas[s].waiters, t, k.threads, i)
    && OneThread(k, m, t, k.threads[t].(status := Ready)) && Queued(k.ready, m.ready, t, k.threads)
    && OneSema(k, m, s, k.semas[s].value + 1, m.semas[s].waiters)
    && (forall x :: x in m.semas[s].waiters <==> x in k.semas[s].waiters && x != t)
    && (forall j, l | 0 <= j < l < |m.semas[s].waiters| ::
          m.semas[s].waiters[j] in k.threads && m.semas[s].waiters[l] in k.threads
          && k.threads[m.semas[s].waiters[j]].priority >= k.threads[m.semas[s].waiters[l]].priority)
    && m.locks == k.locks && m.sleep == k.sleep
  }

  ghost predicate UpStep(k: State, m: State, s: nat) {
    s in k.semas
    && if k.semas[s].waiters == [] then m == k.(semas := m.semas) && OneSema(k, m, s, k.semas[s].value + 1, [])
       else exists t, i :: Woke(k, m, s, t, i)
  }

  /** The end of lock_release: the up, the lock without owner, and the comparison. */
  ghost predicate Unlocked(k: State, u: State, m: State, l: nat) {
    && k.current in k.threads && l in k.locks && UpStep(k, u, k.locks[l].sema) && u.current in u.threads
    && m == u.(threads := m.threads, locks := m.locks)
    && m.threads.Keys == u.threads.Keys && m.threads[k.current] == k.threads[k.current].(pc := Free)
    && (forall t | t in u.threads && t != k.current :: m.threads[t] == u.threads[t])
    && OneLock(u, m, l, k.locks[l].holder, None)
  }

  // ---------------------------------------------------------------- the timer

  /** Those of the list whose time has come have been queued one after the other. */
  ghost predicate Requeued(ready: seq<nat>, list: seq<nat>, threads: map<nat, Thread>, now: int, ready': seq<nat>) {
    if list == [] then ready' == ready
    else
      var n := |list| - 1;
      exists r :: Requeued(ready, list[..n], threads, now, r)
                  && if list[n] in threads && threads[list[n]].awake <= now then Queued(r, ready', list[n], threads)
                    else ready' == r
  }

  /** `thread_awake`: the due sleepers are ready, the others asleep in their old order. */
  ghost predicate AwakeStep(k: State, k': State, now: int) {
    && k' == k.(threads := k'.threads, ready := k'.ready, sleep := k'.sleep)
    && k'.threads.Keys == k.threads.Keys
    && (forall t | t in k.threads :: k'.threads[t] ==
          if t in k.sleep && k.threads[t].awake <= now then k.threads[t].(status := Ready) else k.threads[t])
    && Undue(k.sleep, k.threads, now, k'.sleep) && Requeued(k.ready, k.sleep, k.threads, now, k'.ready)
  }

  /** rest is the list without those whose time has come. */
  ghost predicate Undue(list: seq<nat>, threads: map<nat, Thread>, now: int, rest: seq<nat>) {
    if list == [] then rest == []
    else
      var n := |list| - 1;
      if list[n] in threads && threads[list[n]].awake <= now then Undue(list[..n], threads, now, rest)
      else rest != [] && rest[|rest| - 1] == list[n] && Undue(list[..n], threads, now, rest[..|rest| - 1])
  }

  // ---------------------------------------------------------------- the steps

  /** The current thread stops in a state that its record th describes, and another one runs. */
  ghost predicate StopStep(k: State, k': State, th: Thread, sleep: seq<nat>) {
    k.current in k.threads && exists j :: Halts(k, j, th, sleep) && Dispatched(j, k')
  }

  ghost predicate Halts(k: State, j: State, th: Thread, sleep: seq<nat>) {
    k.current in k.threads && OneThread(k, j, k.current, th) && j == k.(threads := j.threads, sleep := sleep)
  }

  /** `thread_exit` */
  ghost predicate ExitStep(k: State, k': State) {
    exists j :: Dies(k, j) && Dispatched(j, k')
  }

  ghost predicate Dies(k: State, j: State) {
    && k.current in k.threads && k.current !in k.doomed && j == k.(threads := j.threads, doomed := [])
    && j.threads.Keys == (set t | t in k.threads && t !in k.doomed)
    && j.threads[k.current] == k.threads[k.current].(status := Dying)
    && forall t | t in j.threads && t != k.current :: j.threads[t] == k.threads[t]
  }

  /** The end of thread_create */
  ghost predicate StartStep(k: State, k': State) {
    exists m :: Unblocks(k, m) && CompareStep(m, k')
  }

  ghost predicate Unblocks(k: State, m: State) {
    && k.current in k.threads && k.threads[k.current].child.Some? && k.threads[k.current].child.value in k.threads
    && k.threads[k.current].child.value != k.current && m == k.(threads := m.threads, ready := m.ready)
    && var t := k.threads[k.current].child.value;
       && m.threads.Keys == k.threads.Keys && m.threads[t] == k.threads[t].(status := Ready)
       && m.threads[k.current] == k.threads[k.current].(child := None)
       && (forall x | x in k.threads && x != t && x != k.current :: m.threads[x] == k.threads[x])
       && Queued(k.ready, m.ready, t, k.threads)
  }

  ghost predicate PriorityStep(k: State, k': State, t: nat, priority: int) {
    t in k.threads && exists m :: Changed(k, m, t, k.threads[t].(priority := priority)) && CompareStep(m, k')
  }

  /** Only the record of t is different. */
  ghost predicate Changed(k: State, m: State, t: nat, th: Thread) {
    OneThread(k, m, t, th) && m == k.(threads := m.threads)
  }

  /** A semaphore that belongs to a lock is not used by itself. */
  ghost predicate Usable(k: State, s: nat) {
    s in k.semas && forall l | l in k.locks :: k.locks[l].sema != s
  }

  /** What a thread in ordinary code starts; a call its assertions exclude does nothing. */
  ghost predicate Starts(k: State, a: Action, k': State)
    requires k.current in k.threads
  {
    var me := k.threads[k.current];
    match a
    case Down(s) => if Usable(k, s) then DownStep(k, k', s, Plain) else k' == k
    case TryDown(s) => if Usable(k, s) && k.semas[s].value > 0 then TookUnit(k, k', s, Plain) else k' == k
    case Up(s) => if Usable(k, s) then exists m :: UpStep(k, m, s) && CompareStep(m, k') else k' == k
    case Acquire(l) =>
      if l in k.locks && k.locks[l].holder != Some(k.current) then DownStep(k, k', k.locks[l].sema, TakeLock(l)) else k' == k
    case TryAcquire(l) =>
      if l in k.locks && k.locks[l].holder != Some(k.current) && k.locks[l].sema in k.semas
         && k.semas[k.locks[l].sema].value > 0
      then TookUnit(k, k', k.locks[l].sema, TakeLock(l)) else k' == k
    case Release(l) =>
      if l in k.locks && k.locks[l].holder == Some(k.current)
      then
        && Changed(k, k'.(locks := k.locks), k.current, me.(pc := Releasing(l)))
        && OneLock(k, k', l, None, k.locks[l].owner)
      else k' == k
    case Sleep(until) =>
      StopStep(k, k', me.(status := Blocked, awake := until, pc := Sleeping), k.sleep + [k.current])
    case Yield => YieldStep(k, k')
    case Exit => ExitStep(k, k')
    case Create(t, priority) =>
      if t !in k.threads && me.child == None
      then k' == k.(threads := k.threads[t := Thread(Blocked, priority, 0, Free, None)][k.current := me.(child := Some(t))])
      else k' == k
    case Reprioritise(t, priority) => if t in k.threads then PriorityStep(k, k', t, priority) else k' == k
  }

  /** One atomic step: of the timer, or of the running thread, which goes on with the operation it is in. */
  ghost predicate Next(k: State, e: Event, k': State) {
    k.current in k.threads
    && var me := k.threads[k.current];
       match e
       case Tick(now, sliceUp) => exists m :: AwakeStep(k, m, now) && if sliceUp then YieldStep(m, k') else k' == m
       case Go(a) =>
         if k.current == k.idle then StopStep(k, k', me.(status := Blocked), k.sleep)
         else
           match me.pc
           case Sleeping => Changed(k, k', k.current, me.(pc := Free))
           case Downing(s, goal) => DownStep(k, k', s, goal)
           case Taking(l) =>
             && l in k.locks && Changed(k, k'.(locks := k.locks), k.current, me.(pc := Free))
             && OneLock(k, k', l, Some(k.current), k.locks[l].owner)
           case Releasing(l) => exists u, m :: Unlocked(k, u, m, l) && CompareStep(m, k')
           case Free => if me.child.Some? && !a.Acquire? && !a.Release? then StartStep(k, k') else Starts(k, a, k')
  }

  /** The states of a run */
  ghost predicate IsTrace(trace: seq<State>, events: seq<Event>) {
    && |trace| == |events| + 1 && (forall i | 0 <= i < |trace| :: Inv(trace[i]))
    && forall i | 0 <= i < |events| :: Next(trace[i], events[i], trace[i + 1])
  }

  lemma TraceMore(trace: seq<State>, events: seq<Event>, e: Event, k: State)
    requires IsTrace(trace, events) && Next(trace[|events|], e, k) && Inv(k)
    ensures IsTrace(trace + [k], events + [e])
  {
    hide Next, Inv;
  }

  // ---------------------------------------------------------------- what the code computes is such a step

  lemma {:induction false} InsertedQueued(list: seq<nat>, t: nat, threads: map<nat, Thread>)
    requires t in threads && forall x | x in list :: x in threads
    ensures Queued(list, Inserted(list, t, threads), t, threads)
  {
    if list == [] || threads[t].priority > threads[list[0]].priority {
      assert QueuedAt(list, Inserted(list, t, threads), t, threads, 0);
    } else {
      InsertedQueued(list[1..], t, threads);
      var rest := list[1..];
      var at :| QueuedAt(rest, Inserted(rest, t, threads), t, threads, at);
      QueuedBehind(list, Inserted(rest, t, threads), t, threads, at);
      hide Inserted;
    }
  }

  lemma QueuedBehind(list: seq<nat>, inserted: seq<nat>, t: nat, threads: map<nat, Thread>, at: int)
    requires list != [] && QueuedAt(list[1..], inserted, t, threads, at)
    requires list[0] in threads && threads[list[0]].priority >= threads[t].priority
    ensures Queued(list, [list[0]] + inserted, t, threads)
  {
    BehindFirst(list, at, t, inserted);
    forall i | 0 <= i < at + 1
      ensures list[i] in threads && threads[list[i]].priority >= threads[t].priority
    {
      assert i > 0 ==> list[i] == list[1..][i - 1];
    }
    assert at + 1 < |list| ==> list[at + 1] == list[1..][at];
    assert QueuedAt(list, [list[0]] + inserted, t, threads, at + 1);
  }

  /** Only priorities matter for a queue. */
  lemma QueuedSame(list: seq<nat>, list': seq<nat>, t: nat, threads: map<nat, Thread>, threads': map<nat, Thread>)
    requires Queued(list, list', t, threads) && t in threads'
    requires threads'[t].priority == threads[t].priority
    requires forall x | x in list && x in threads :: x in threads' && threads'[x].priority == threads[x].priority
    ensures Queued(list, list', t, threads')
  {
    var at :| QueuedAt(list, list', t, threads, at);
    assert QueuedAt(list, list', t, threads', at);
  }

  lemma JoinedIsJoin(k: State, s: nat, goal: Then)
    requires k.current in k.threads && s in k.semas && forall x | x in k.semas[s].waiters :: x in k.threads
    ensures JoinedWaiters(k, Joined(k, s, goal), s, goal)
  {
    InsertedQueued(k.semas[s].waiters, k.current, k.threads);
    hide Queued, Inserted;
  }

  lemma TookIsTaking(k: State, s: nat, goal: Then)
    requires k.current in k.threads && s in k.semas && k.semas[s].value > 0 && (goal.TakeLock? ==> goal.l in k.locks)
    ensures TookUnit(k, Took(k, s, goal), s, goal)
  { }

  /** Sorting puts the first thread of the highest priority in front. */
  lemma {:induction false} SortedFirst(list: seq<nat>, threads: map<nat, Thread>) returns (i: nat)
    requires list != [] && forall x | x in list :: x in threads
    ensures TopWaiter(list, Sorted(list, threads)[0], threads, i)
  {
    var n := |list| - 1;
    var init, last := list[..n], list[n];
    assert list == init + [last];
    var before := Sorted(init, threads);
    if n == 0 {
      assert Sorted(list, threads) == Inserted(before, last, threads) == [last];
      i := 0;
    } else {
      i := SortedFirst(init, threads);
      assert |before| == n;
      if threads[last].priority > threads[before[0]].priority {
        assert Sorted(list, threads) == [last] + before;
        i := n;
      } else {
        assert Sorted(list, threads)[0] == before[0];
      }
    }
  }

  lemma UppedIsUp(k: State, s: nat)
    requires Queues(k) && s in k.semas
    ensures (forall x | x in k.semas[s].waiters :: x in k.threads) && forall x | x in k.ready :: x in k.threads
    ensures UpStep(k, Upped(k, s), s)
  {
    WaitersKnown(k);
    ReadyKnown(k);
    if k.semas[s].waiters != [] {
      var t, i := UppedWakes(k, s);
      hide Woke, Upped, Queues;
    }
  }

  lemma UppedWakes(k: State, s: nat) returns (t: nat, i: nat)
    requires Queues(k) && s in k.semas && k.semas[s].waiters != []
    requires (forall x | x in k.semas[s].waiters :: x in k.threads) && forall x | x in k.ready :: x in k.threads
    ensures Woke(k, Upped(k, s), s, t, i)
  {
    var list := k.semas[s].waiters;
    FirstSorted(k, s);
    hide Queues, Distinct;
    i := SortedFirst(list, k.threads);
    SortedHas(list, k.threads);
    var w := Sorted(list, k.threads);
    t := w[0];
    InsertedQueued(k.ready, t, k.threads);
    RestByPriority(w, k.threads);
    hide Sorted, Inserted, Queued, TopWaiter, ByPriority;
    WokeIs(k, Upped(k, s), s, w, i);
  }

  lemma WokeIs(k: State, m: State, s: nat, w: seq<nat>, i: int)
    requires s in k.semas && w != [] && w[0] in k.threads && TopWaiter(k.semas[s].waiters, w[0], k.threads, i)
    requires Queued(k.ready, m.ready, w[0], k.threads)
    requires m == k.(semas := k.semas[s := Sema(k.semas[s].value + 1, w[1..])], ready := m.ready,
                     threads := k.threads[w[0] := k.threads[w[0]].(status := Ready)])
    requires forall x :: x in w[1..] <==> x in k.semas[s].waiters && x != w[0]
    requires forall j, l | 0 <= j < l < |w[1..]| ::
               w[1..][j] in k.threads && w[1..][l] in k.threads && k.threads[w[1..][j]].priority >= k.threads[w[1..][l]].priority
    ensures Woke(k, m, s, w[0], i)
  { }

  lemma RestByPriority(w: seq<nat>, threads: map<nat, Thread>)
    requires w != [] && (forall x | x in w :: x in threads) && ByPriority(w, threads)
    ensures forall j, l | 0 <= j < l < |w[1..]| ::
              w[1..][j] in threads && w[1..][l] in threads && threads[w[1..][j]].priority >= threads[w[1..][l]].priority
  { }

  lemma ReleasedIsUnlock(k: State, l: nat)
    requires Queues(k) && k.current in k.threads && l in k.locks && k.locks[l].sema in k.semas
    requires k.threads[k.current].status == Running
    ensures (forall x | x in k.semas[k.locks[l].sema].waiters :: x in k.threads)
    ensures forall x | x in k.ready :: x in k.threads
    ensures Unlocked(k, Upped(k, k.locks[l].sema), Released(k, l), l)
  {
    var s := k.locks[l].sema;
    UppedIsUp(k, s);
    UppedFrame(k, s);
    hide UpStep, Upped, Queues;
  }

  lemma YieldingGaveUp(k: State)
    requires k.current in k.threads && k.current !in k.doomed
    requires forall x | x in k.ready :: x in k.threads && x !in k.doomed
    ensures GaveUp(k, Yielding(Buried(k)))
  {
    InsertedQueued(k.ready, k.current, Buried(k).threads);
    QueuedSame(k.ready, Inserted(k.ready, k.current, Buried(k).threads), k.current, Buried(k).threads, k.threads);
    hide Queued, Inserted;
  }

  lemma HaltedDies(k: State)
    requires k.current in k.threads && k.current !in k.doomed
    ensures Dies(k, Halted(Buried(k), Dying))
  { }

  lemma StartedIsUnblock(k: State)
    requires k.current in k.threads && k.threads[k.current].child.Some? && k.threads[k.current].child.value in k.threads
    requires k.threads[k.current].child.value != k.current && forall x | x in k.ready :: x in k.threads
    ensures Unblocks(k, Started(k))
  {
    var t := k.threads[k.current].child.value;
    var k1 := k.(threads := k.threads[k.current := k.threads[k.current].(child := None)]);
    InsertedQueued(k.ready, t, k1.threads);
    QueuedSame(k.ready, Inserted(k.ready, t, k1.threads), t, k1.threads, k.threads);
    hide Queued, Inserted;
  }
}
