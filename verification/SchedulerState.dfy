/** Threads, their queues, semaphores and locks: the state behind threads/thread.c and threads/synch.c, and what a run
    keeps. */
module SchedulerState {
  import opened Sequences

  datatype Status = Running | Ready | Blocked | Dying

  /** What a thread does once it has the semaphore it is downing. */
  datatype Then = Plain | TakeLock(l: nat)

  /** Where a thread is in the kernel code: nowhere in particular, or inside an operation that other threads can
      interrupt. */
  datatype Pc =
    | Free
    | Sleeping              // in thread_sleep, queued or on its way out
    | Downing(s: nat, k: Then) // in the loop of sema_down
    | Taking(l: nat)        // has downed a lock's semaphore, has yet to become its holder
    | Releasing(l: nat)     // is no longer the holder, has yet to up the semaphore

  /** `struct thread`; child is a thread it has initialised and has yet to unblock. */
  datatype Thread = Thread(status: Status, priority: int, awake: int, pc: Pc, child: Option<nat>)

  /** `struct semaphore` */
  datatype Sema = Sema(value: nat, waiters: seq<nat>)

  /** `struct lock`; owner is whoever is between the down and the up of its semaphore. */
  datatype Lock = Lock(sema: nat, holder: Option<nat>, owner: Option<nat>)

  datatype State = State(threads: map<nat, Thread>, ready: seq<nat>, sleep: seq<nat>, doomed: seq<nat>,
                         semas: map<nat, Sema>, locks: map<nat, Lock>, current: nat, idle: nat, initial: nat)

  // ---------------------------------------------------------------- the invariant

  ghost predicate Is(k: State, t: nat, status: Status) { t in k.threads && k.threads[t].status == status }

  ghost predicate WaitsFor(k: State, t: nat, s: nat) {
    Is(k, t, Blocked) && k.threads[t].pc.Downing? && k.threads[t].pc.s == s
  }

  /** The ready list: every ready thread but the idle one, once. */
  ghost predicate ReadyOk(k: State) {
    Distinct(k.ready) && forall t :: t in k.ready <==> Is(k, t, Ready) && t != k.idle
  }

  /** The sleep list: every thread blocked in thread_sleep, once. */
  ghost predicate SleepOk(k: State) {
    Distinct(k.sleep) && forall t :: t in k.sleep <==> Is(k, t, Blocked) && k.threads[t].pc == Sleeping
  }

  /** The waiters of each semaphore: every thread blocked in a down of it, once. */
  ghost predicate WaitersOk(k: State) {
    && (forall s | s in k.semas :: Distinct(k.semas[s].waiters))
    && (forall s, t | s in k.semas :: t in k.semas[s].waiters <==> WaitsFor(k, t, s))
    && (forall t | t in k.threads && k.threads[t].pc.Downing? :: k.threads[t].pc.s in k.semas)
  }

  /** The destruction list: every dead thread that is off the processor, once, except the initial thread. */
  ghost predicate DoomedOk(k: State) {
    Distinct(k.doomed) && forall t :: t in k.doomed <==> Is(k, t, Dying) && t != k.current && t != k.initial
  }

  /** Only the current thread can be running; the idle thread takes no part in waiting. */
  ghost predicate CurrentOk(k: State) {
    && k.current in k.threads && k.idle in k.threads && k.threads[k.idle].pc == Free
    && k.threads[k.idle].status != Dying
    && forall t | Is(k, t, Running) :: t == k.current
  }

  /** A thread that is being created is blocked, and only its creator will unblock it. */
  ghost predicate CreatingOk(k: State) {
    && (forall c | c in k.threads && k.threads[c].child.Some? ::
          Is(k, k.threads[c].child.value, Blocked) && k.threads[k.threads[c].child.value].pc == Free &&
          k.threads[c].child.value != k.idle)
    && (forall c, d | c in k.threads && d in k.threads && k.threads[c].child.Some? && k.threads[d].child == k.threads[c].child ::
          c == d)
  }

  /** The queues are consistent, whatever the status of the current thread. */
  ghost predicate Queues(k: State) {
    ReadyOk(k) && SleepOk(k) && WaitersOk(k) && DoomedOk(k) && CurrentOk(k) && CreatingOk(k)
  }

  /** A thread's list element is in at most one queue. */
  lemma ElemExclusive(k: State, t: nat)
    requires Queues(k)
    ensures t in k.ready ==> t !in k.sleep && t !in k.doomed && forall s | s in k.semas :: t !in k.semas[s].waiters
    ensures t in k.sleep ==> t !in k.doomed && forall s | s in k.semas :: t !in k.semas[s].waiters
    ensures t in k.doomed ==> forall s | s in k.semas :: t !in k.semas[s].waiters
    ensures forall r, s | r in k.semas && s in k.semas && t in k.semas[r].waiters && t in k.semas[s].waiters :: r == s
    ensures t == k.current && k.threads[t].status == Running ==>
              t !in k.ready && t !in k.sleep && t !in k.doomed && forall s | s in k.semas :: t !in k.semas[s].waiters
  {
    forall s | s in k.semas && t in k.semas[s].waiters
      ensures WaitsFor(k, t, s)
    {
    }
  }

  /** Threads that have been woken by a semaphore but have not looked at its value again yet. */
  ghost function Woken(k: State, s: nat): set<nat> {
    set t | t in k.threads && k.threads[t].status in {Running, Ready} && k.threads[t].pc.Downing? && k.threads[t].pc.s == s
  }

  /** No wake-up is lost: while threads wait for a semaphore, every unit of its value has a woken thread coming for
      it. */
  ghost predicate NoLostWakeup(k: State) {
    forall s | s in k.semas && k.semas[s].waiters != [] :: k.semas[s].value <= |Woken(k, s)|
  }

  /** Mutual exclusion: a lock's semaphore is 0 exactly while one thread owns it; its holder, and whoever is about to
      become it or has just ceased to be it, is that thread. */
  ghost predicate LockOk(k: State, l: nat)
    requires l in k.locks
  {
    var lock := k.locks[l];
    && lock.sema in k.semas && k.semas[lock.sema].value == (if lock.owner == None then 1 else 0)
    && (lock.holder.Some? ==> lock.owner == lock.holder)
    && (forall t | t in k.threads && (k.threads[t].pc == Taking(l) || k.threads[t].pc == Releasing(l)) ::
          lock.owner == Some(t) && lock.holder == None)
  }

  /** Each lock has a semaphore of its own, which is downed for that lock only. */
  ghost predicate LockPcsOk(k: State) {
    && (forall l, m | l in k.locks && m in k.locks && k.locks[l].sema == k.locks[m].sema :: l == m)
    && (forall t | t in k.threads && k.threads[t].pc.Downing? && k.threads[t].pc.k.TakeLock? ::
          k.threads[t].pc.k.l in k.locks && k.locks[k.threads[t].pc.k.l].sema == k.threads[t].pc.s)
    && (forall t, l | t in k.threads && k.threads[t].pc.Downing? && k.threads[t].pc.k == Plain && l in k.locks ::
          k.locks[l].sema != k.threads[t].pc.s)
    && (forall t | t in k.threads && k.threads[t].pc.Taking? :: k.threads[t].pc.l in k.locks)
    && (forall t | t in k.threads && k.threads[t].pc.Releasing? :: k.threads[t].pc.l in k.locks)
  }

  ghost predicate LocksOk(k: State) {
    (forall l | l in k.locks :: LockOk(k, l)) && LockPcsOk(k)
  }

  ghost predicate IsLockSema(k: State, s: nat) {
    exists l :: l in k.locks && k.locks[l].sema == s
  }

  /** What holds at every moment, even while the processor is being switched. */
  ghost predicate Mid(k: State) { Queues(k) && NoLostWakeup(k) && LocksOk(k) }

  ghost predicate Inv(k: State) { Mid(k) && k.threads[k.current].status == Running }

  // ---------------------------------------------------------------- one thread moves

  /** list' is list but for thread t, which is on it exactly if there. */
  ghost predicate SameBut(list: seq<nat>, list': seq<nat>, t: nat, there: bool) {
    Distinct(list') && (t in list' <==> there) && forall x | x != t :: x in list' <==> x in list
  }

  /** What a thread's new record must be like for the rest of the state to stay as it is. */
  ghost predicate CanBecome(k: State, t: nat, th: Thread) {
    && (th.status == Running ==> t == k.current)
    && (t == k.idle ==> th.pc == Free && th.status != Dying)
    && (th.pc.Downing? ==> th.pc.s in k.semas)
    && (th.child == None || (t in k.threads && th.child == k.threads[t].child)
        || (Is(k, th.child.value, Blocked) && th.child.value != t && k.threads[th.child.value].pc == Free
            && th.child.value != k.idle
            && forall c | c in k.threads && c != t :: k.threads[c].child != th.child))
    && ((th.status == Blocked && th.pc == Free) || forall c | c in k.threads :: k.threads[c].child != Some(t))
  }

  ghost predicate QueuesMove(k: State, k': State, t: nat, th: Thread) {
    && k'.current == k.current && k'.idle == k.idle && k'.initial == k.initial && k'.semas.Keys == k.semas.Keys
    && SameBut(k.ready, k'.ready, t, th.status == Ready && t != k.idle)
    && SameBut(k.sleep, k'.sleep, t, th.status == Blocked && th.pc == Sleeping)
    && SameBut(k.doomed, k'.doomed, t, th.status == Dying && t != k.current && t != k.initial)
    && forall s | s in k.semas ::
         SameBut(k.semas[s].waiters, k'.semas[s].waiters, t, th.status == Blocked && th.pc.Downing? && th.pc.s == s)
  }

  /** If a thread's record changes and the queues follow, they stay consistent. */
  lemma Moved(k: State, k': State, t: nat, th: Thread)
    requires Queues(k) && k'.threads == k.threads[t := th]
    requires CanBecome(k, t, th) && QueuesMove(k, k', t, th)
    ensures Queues(k')
  {
    MovedLists(k, k', t, th);
    MovedWaiters(k, k', t, th);
    MovedCreating(k, k', t, th);
  }

  lemma MovedLists(k: State, k': State, t: nat, th: Thread)
    requires ReadyOk(k) && SleepOk(k) && DoomedOk(k) && CurrentOk(k) && k'.threads == k.threads[t := th]
    requires CanBecome(k, t, th) && QueuesMove(k, k', t, th)
    ensures ReadyOk(k') && SleepOk(k') && DoomedOk(k') && CurrentOk(k')
  {
    assert forall x | x != t :: Is(k', x, Running) <==> Is(k, x, Running);
  }

  lemma MovedWaiters(k: State, k': State, t: nat, th: Thread)
    requires WaitersOk(k) && k'.threads == k.threads[t := th]
    requires CanBecome(k, t, th) && QueuesMove(k, k', t, th)
    ensures WaitersOk(k')
  { }

  lemma MovedCreating(k: State, k': State, t: nat, th: Thread)
    requires CreatingOk(k) && k'.threads == k.threads[t := th] && k'.idle == k.idle && CanBecome(k, t, th)
    ensures CreatingOk(k')
  {
  }

  // ---------------------------------------------------------------- queues by priority

  /** `list_insert_ordered` with cmp_priority: before the first thread of lower priority. */
  function Inserted(list: seq<nat>, t: nat, threads: map<nat, Thread>): (r: seq<nat>)
    requires t in threads && forall x | x in list :: x in threads
  {
    if list == [] then [t]
    else if threads[t].priority > threads[list[0]].priority then [t] + list
    else [list[0]] + Inserted(list[1..], t, threads)
  }

  lemma {:induction false} InsertedHas(list: seq<nat>, t: nat, threads: map<nat, Thread>)
    requires t in threads && forall x | x in list :: x in threads
    ensures forall x :: x in Inserted(list, t, threads) <==> x == t || x in list
    ensures t !in list && Distinct(list) ==> Distinct(Inserted(list, t, threads))
  {
    if list != [] && threads[t].priority <= threads[list[0]].priority {
      InsertedHas(list[1..], t, threads);
      assert list == [list[0]] + list[1..];
      var r := Inserted(list[1..], t, threads);
      assert Distinct(list) ==> Distinct(list[1..]) && list[0] !in list[1..];
      assert t !in list && Distinct(list) ==> list[0] !in r;
    }
  }

  /** In a queue in priority order a thread goes behind its equals and ahead of everyone below it. */
  lemma {:induction false} InsertedOrder(list: seq<nat>, t: nat, threads: map<nat, Thread>) returns (at: nat)
    requires t in threads && (forall x | x in list :: x in threads) && ByPriority(list, threads)
    ensures at <= |list| && Inserted(list, t, threads) == list[..at] + [t] + list[at..]
    ensures forall x | x in list[..at] :: threads[x].priority >= threads[t].priority
    ensures forall x | x in list[at..] :: threads[x].priority < threads[t].priority
  {
    if list == [] || threads[t].priority > threads[list[0]].priority {
      at := 0;
    } else {
      var rest := list[1..];
      at := InsertedOrder(rest, t, threads);
      hide Inserted;
      BehindFirst(list, at, t, Inserted(rest, t, threads));
      FirstHighest(list, threads);
      hide ByPriority;
      at := at + 1;
    }
  }

  lemma FirstHighest(list: seq<nat>, threads: map<nat, Thread>)
    requires (forall x | x in list :: x in threads) && ByPriority(list, threads) && list != []
    ensures forall x | x in list[1..] :: threads[list[0]].priority >= threads[x].priority
  { }

  lemma BehindFirst(list: seq<nat>, at: nat, t: nat, inserted: seq<nat>)
    requires list != [] && at <= |list[1..]| && inserted == list[1..][..at] + [t] + list[1..][at..]
    ensures [list[0]] + inserted == list[..at + 1] + [t] + list[at + 1..]
    ensures list[..at + 1] == [list[0]] + list[1..][..at] && list[at + 1..] == list[1..][at..]
  { }

  lemma InsertedByPriority(list: seq<nat>, t: nat, threads: map<nat, Thread>)
    requires t in threads && (forall x | x in list :: x in threads) && ByPriority(list, threads)
    ensures (forall x | x in Inserted(list, t, threads) :: x in threads)
    ensures ByPriority(Inserted(list, t, threads), threads)
  {
    InsertedHas(list, t, threads);
    var at := InsertedOrder(list, t, threads);
    hide Inserted;
    BetweenByPriority(list, at, t, threads);
  }

  lemma BetweenByPriority(list: seq<nat>, at: nat, t: nat, threads: map<nat, Thread>)
    requires t in threads && (forall x | x in list :: x in threads) && ByPriority(list, threads) && at <= |list|
    requires forall x | x in list[..at] :: threads[x].priority >= threads[t].priority
    requires forall x | x in list[at..] :: threads[x].priority < threads[t].priority
    ensures var r := list[..at] + [t] + list[at..];
            (forall x | x in r :: x in threads) && ByPriority(r, threads)
  { }

  ghost predicate ByPriority(list: seq<nat>, threads: map<nat, Thread>)
    requires forall x | x in list :: x in threads
  {
    forall i, j | 0 <= i < j < |list| :: threads[list[i]].priority >= threads[list[j]].priority
  }

  /** `list_sort` with cmp_priority: highest first, equals in their old order. */
  function Sorted(list: seq<nat>, threads: map<nat, Thread>): (r: seq<nat>)
    requires forall x | x in list :: x in threads
    ensures |r| == |list| && forall x | x in r :: x in threads
  {
    if list == [] then [] else
      var n := |list| - 1;
      InsertedHas(Sorted(list[..n], threads), list[n], threads);
      InsertedLength(Sorted(list[..n], threads), list[n], threads);
      Inserted(Sorted(list[..n], threads), list[n], threads)
  }

  lemma {:induction false} InsertedLength(list: seq<nat>, t: nat, threads: map<nat, Thread>)
    requires t in threads && forall x | x in list :: x in threads
    ensures |Inserted(list, t, threads)| == |list| + 1
  {
    if list != [] {
      InsertedLength(list[1..], t, threads);
    }
  }

  lemma {:induction false} SortedHas(list: seq<nat>, threads: map<nat, Thread>)
    requires forall x | x in list :: x in threads
    ensures forall x :: x in Sorted(list, threads) <==> x in list
    ensures Distinct(list) ==> Distinct(Sorted(list, threads))
    ensures ByPriority(Sorted(list, threads), threads)
  {
    if list != [] {
      var n := |list| - 1;
      SortedHas(list[..n], threads);
      SortedSnoc(list[..n], list[n], Sorted(list[..n], threads), threads);
      assert list == list[..n] + [list[n]];
    }
  }

  lemma SortedSnoc(list: seq<nat>, t: nat, s: seq<nat>, threads: map<nat, Thread>)
    requires t in threads && (forall x | x in s :: x in threads) && ByPriority(s, threads)
    requires forall x :: x in s <==> x in list
    requires Distinct(list) ==> Distinct(s)
    ensures forall x :: x in Inserted(s, t, threads) <==> x in list + [t]
    ensures ByPriority(Inserted(s, t, threads), threads)
    ensures Distinct(list + [t]) ==> Distinct(Inserted(s, t, threads))
  {
    InsertedHas(s, t, threads);
    InsertedByPriority(s, t, threads);
    hide Inserted, ByPriority;
    if Distinct(list + [t]) {
      DistinctInit(list, t);
    }
  }

  lemma DistinctInit(list: seq<nat>, t: nat)
    requires Distinct(list + [t])
    ensures Distinct(list) && t !in list
  {
    var l := list + [t];
    assert forall i | 0 <= i < |list| :: l[i] == list[i] && l[i] != l[|list|];
    assert Distinct(list);
  }

  // ---------------------------------------------------------------- what does not touch a lock or a wake-up

  /** Threads keep their place in lock operations, and locks and semaphore values stay. */
  lemma LocksSame(k: State, k': State)
    requires LocksOk(k) && k'.locks == k.locks && k'.semas.Keys == k.semas.Keys
    requires forall s | s in k.semas :: k'.semas[s].value == k.semas[s].value
    requires forall t | t in k'.threads && k'.threads[t].pc != Free && k'.threads[t].pc != Sleeping ::
               t in k.threads && k'.threads[t].pc == k.threads[t].pc
    ensures LocksOk(k')
  {
    forall l | l in k'.locks
      ensures LockOk(k', l)
    {
      assert LockOk(k, l);
    }
  }

  lemma WokenMore(k: State, k': State, s: nat)
    requires forall t | t in Woken(k, s) :: t in Woken(k', s)
    ensures |Woken(k, s)| <= |Woken(k', s)|
  {
    SubsetSize(Woken(k, s), Woken(k', s));
  }

  /** Nobody stops coming for a semaphore, and no value goes up where threads wait. */
  lemma WakeupsSame(k: State, k': State)
    requires NoLostWakeup(k) && k'.semas.Keys == k.semas.Keys
    requires forall s | s in k.semas && k'.semas[s].waiters != [] ::
               k'.semas[s].value == 0
               || (k.semas[s].waiters != [] && k'.semas[s].value <= k.semas[s].value
                   && forall t | t in Woken(k, s) :: t in Woken(k', s))
    ensures NoLostWakeup(k')
  {
    hide Woken;
    forall s | s in k'.semas && k'.semas[s].waiters != []
      ensures k'.semas[s].value <= |Woken(k', s)|
    {
      if k'.semas[s].value > 0 {
        WokenMore(k, k', s);
      }
    }
  }

  // ---------------------------------------------------------------- switching

  /** `schedule`: the front of the ready list, or else the idle thread, becomes the running thread. */
  function Switched(k: State): State
    requires k.current in k.threads && k.idle in k.threads && (k.ready != [] ==> k.ready[0] in k.threads)
  {
    var next := if k.ready == [] then k.idle else k.ready[0];
    k.(threads := k.threads[next := k.threads[next].(status := Running)],
       ready := if k.ready == [] then [] else k.ready[1..],
       doomed := if next != k.current && k.threads[k.current].status == Dying && k.current != k.initial
                 then k.doomed + [k.current] else k.doomed,
       current := next)
  }

  lemma NextThread(k: State)
    requires ReadyOk(k) && CurrentOk(k)
    ensures k.ready != [] ==> Is(k, k.ready[0], Ready) && k.ready[0] != k.idle
  { }

  lemma SwitchedQueues(k: State)
    requires Queues(k) && k.threads[k.current].status != Running
    ensures (k.ready != [] ==> k.ready[0] in k.threads)
    ensures Queues(Switched(k)) && Switched(k).threads[Switched(k).current].status == Running
  {
    NextThread(k);
    SwitchedReady(k);
    SwitchedSleep(k);
    SwitchedDoomed(k);
    SwitchedWaiters(k);
  }

  lemma SwitchedReady(k: State)
    requires ReadyOk(k) && CurrentOk(k) && k.threads[k.current].status != Running
    requires k.ready != [] ==> Is(k, k.ready[0], Ready) && k.ready[0] != k.idle
    ensures ReadyOk(Switched(k)) && CurrentOk(Switched(k))
  {
    var k' := Switched(k);
    assert k.ready != [] ==> k.ready == [k.ready[0]] + k.ready[1..];
    forall t
      ensures t in k'.ready <==> Is(k', t, Ready) && t != k'.idle
    {
      assert t in k.ready <==> Is(k, t, Ready) && t != k.idle;
    }
    assert forall t | Is(k', t, Running) :: t == k'.current || Is(k, t, Running);
  }

  lemma SwitchedSleep(k: State)
    requires SleepOk(k) && CreatingOk(k) && CurrentOk(k)
    requires k.ready != [] ==> Is(k, k.ready[0], Ready) && k.ready[0] != k.idle
    ensures SleepOk(Switched(k)) && CreatingOk(Switched(k))
  {
    var k' := Switched(k);
    forall t
      ensures t in k'.sleep <==> Is(k', t, Blocked) && k'.threads[t].pc == Sleeping
    {
      assert t in k.sleep <==> Is(k, t, Blocked) && k.threads[t].pc == Sleeping;
    }
  }

  /** A thread that dies goes on the destruction list when it leaves the processor. */
  lemma SwitchedDoomed(k: State)
    requires DoomedOk(k) && CurrentOk(k) && k.threads[k.current].status != Running
    requires k.ready != [] ==> Is(k, k.ready[0], Ready) && k.ready[0] != k.idle
    ensures DoomedOk(Switched(k))
  {
    var k' := Switched(k);
    assert k.current !in k.doomed;
    DistinctSnoc(k.doomed, k.current);
    forall t
      ensures t in k'.doomed <==> Is(k', t, Dying) && t != k'.current && t != k'.initial
    {
      assert t in k.doomed <==> Is(k, t, Dying) && t != k.current && t != k.initial;
    }
  }

  lemma DistinctSnoc(list: seq<nat>, t: nat)
    requires Distinct(list) && t !in list
    ensures Distinct(list + [t]) && forall x :: x in list + [t] <==> x in list || x == t
  { }

  lemma SwitchedWaiters(k: State)
    requires WaitersOk(k) && CurrentOk(k)
    requires k.ready != [] ==> Is(k, k.ready[0], Ready) && k.ready[0] != k.idle
    ensures WaitersOk(Switched(k))
  {
    var k' := Switched(k);
    assert forall s, t :: WaitsFor(k', t, s) <==> WaitsFor(k, t, s);
  }

  lemma SwitchedRest(k: State)
    requires NoLostWakeup(k) && LocksOk(k) && CurrentOk(k)
    requires k.ready != [] ==> Is(k, k.ready[0], Ready) && k.ready[0] != k.idle
    ensures NoLostWakeup(Switched(k)) && LocksOk(Switched(k))
  {
    SwitchedLocks(k);
    WakeupsSame(k, Switched(k));
  }

  lemma SwitchedLocks(k: State)
    requires LocksOk(k) && CurrentOk(k)
    requires k.ready != [] ==> Is(k, k.ready[0], Ready) && k.ready[0] != k.idle
    ensures LocksOk(Switched(k))
  {
    LocksSame(k, Switched(k));
  }

  // ---------------------------------------------------------------- burying the dead

  /** `do_schedule` first frees the threads on the destruction list. */
  function Buried(k: State): State {
    k.(threads := map t | t in k.threads && t !in k.doomed :: k.threads[t], doomed := [])
  }

  lemma BuriedKeeps(k: State)
    requires Inv(k)
    ensures Inv(Buried(k))
  {
    BuriedQueues(k);
    BuriedRest(k);
  }

  lemma BuriedRest(k: State)
    requires NoLostWakeup(k) && LocksOk(k) && DoomedOk(k)
    ensures NoLostWakeup(Buried(k)) && LocksOk(Buried(k))
  {
    hide Distinct;
    LocksSame(k, Buried(k));
    WakeupsSame(k, Buried(k));
  }

  lemma BuriedQueues(k: State)
    requires Queues(k) && k.threads[k.current].status == Running
    ensures Queues(Buried(k)) && k.current in Buried(k).threads && Buried(k).threads[k.current] == k.threads[k.current]
  {
    var k' := Buried(k);
    forall t
      ensures t in k.doomed <==> Is(k, t, Dying) && t != k.current && t != k.initial
    {
    }
    forall t, st | st != Dying
      ensures Is(k', t, st) <==> Is(k, t, st)
    {
    }
    BuriedWaiters(k);
  }

  lemma BuriedWaiters(k: State)
    requires WaitersOk(k) && DoomedOk(k)
    ensures WaitersOk(Buried(k))
  { }

  // ---------------------------------------------------------------- down

  /** The current thread joins the waiters of s and blocks. */
  function Joined(k: State, s: nat, goal: Then): State
    requires k.current in k.threads && s in k.semas && forall x | x in k.semas[s].waiters :: x in k.threads
  {
    k.(threads := k.threads[k.current := k.threads[k.current].(status := Blocked, pc := Downing(s, goal))],
       semas := k.semas[s := k.semas[s].(waiters := Inserted(k.semas[s].waiters, k.current, k.threads))])
  }

  /** A down can start, or go on after a wake-up. */
  ghost predicate CanDown(k: State, s: nat, goal: Then) {
    && s in k.semas && k.current in k.threads && k.current != k.idle
    && (k.threads[k.current].pc == Free || k.threads[k.current].pc == Downing(s, goal))
    && (goal == Plain ==> !IsLockSema(k, s))
    && (goal.TakeLock? ==> goal.l in k.locks && k.locks[goal.l].sema == s)
  }

  lemma WaitersKnown(k: State)
    requires WaitersOk(k)
    ensures forall s, x | s in k.semas && x in k.semas[s].waiters :: WaitsFor(k, x, s) && x in k.threads
  { }

  lemma ReadyKnown(k: State)
    requires ReadyOk(k)
    ensures forall x | x in k.ready :: x in k.threads
  { }

  /** The current thread is running, so it is in no queue and not being created. */
  lemma CurrentFacts(k: State)
    requires Queues(k) && Is(k, k.current, Running)
    ensures k.current in k.threads && k.idle in k.threads && k.current !in k.ready && k.current !in k.sleep
    ensures k.current !in k.doomed
    ensures forall s | s in k.semas :: k.current !in k.semas[s].waiters
    ensures forall c | c in k.threads :: k.threads[c].child != Some(k.current)
  { }

  lemma JoinedQueues(k: State, s: nat, goal: Then)
    requires Inv(k) && CanDown(k, s, goal)
    ensures forall x | x in k.semas[s].waiters :: x in k.threads
    ensures Queues(Joined(k, s, goal))
  {
    CurrentFacts(k);
    WaitersKnown(k);
    InsertedHas(k.semas[s].waiters, k.current, k.threads);
    var k' := Joined(k, s, goal);
    hide Inserted, IsLockSema, NoLostWakeup, LocksOk;
    assert SameBut(k.ready, k'.ready, k.current, false) && SameBut(k.sleep, k'.sleep, k.current, false);
    Moved(k, k', k.current, k'.threads[k.current]);
  }

  lemma JoinedKeeps(k: State, s: nat, goal: Then)
    requires Inv(k) && CanDown(k, s, goal) && k.semas[s].value == 0
    ensures forall x | x in k.semas[s].waiters :: x in k.threads
    ensures Mid(Joined(k, s, goal))
  {
    JoinedQueues(k, s, goal);
    JoinedWakeups(k, s, goal);
    JoinedLocks(k, s, goal);
  }

  lemma JoinedWakeups(k: State, s: nat, goal: Then)
    requires NoLostWakeup(k) && CanDown(k, s, goal) && k.semas[s].value == 0
    requires forall x | x in k.semas[s].waiters :: x in k.threads
    ensures NoLostWakeup(Joined(k, s, goal))
  {
    hide Inserted, IsLockSema;
    WakeupsSame(k, Joined(k, s, goal));
  }

  lemma JoinedLocks(k: State, s: nat, goal: Then)
    requires LocksOk(k) && CanDown(k, s, goal)
    requires forall x | x in k.semas[s].waiters :: x in k.threads
    ensures LocksOk(Joined(k, s, goal))
  {
    JoinedPcs(k, s, goal);
    hide Inserted, IsLockSema, LockPcsOk;
    var k' := Joined(k, s, goal);
    forall l | l in k'.locks
      ensures LockOk(k', l)
    {
      assert LockOk(k, l);
    }
  }

  lemma JoinedPcs(k: State, s: nat, goal: Then)
    requires LockPcsOk(k) && CanDown(k, s, goal) && forall x | x in k.semas[s].waiters :: x in k.threads
    ensures LockPcsOk(Joined(k, s, goal))
  {
    hide Inserted;
  }

  /** The current thread takes a unit of s; with a lock's semaphore it becomes the owner. */
  function Took(k: State, s: nat, goal: Then): State
    requires k.current in k.threads && s in k.semas && k.semas[s].value > 0 && (goal.TakeLock? ==> goal.l in k.locks)
  {
    k.(threads := k.threads[k.current := k.threads[k.current].(pc := if goal == Plain then Free else Taking(goal.l))],
       semas := k.semas[s := k.semas[s].(value := k.semas[s].value - 1)],
       locks := if goal == Plain then k.locks else k.locks[goal.l := k.locks[goal.l].(owner := Some(k.current))])
  }

  lemma TookKeeps(k: State, s: nat, goal: Then)
    requires Inv(k) && CanDown(k, s, goal) && k.semas[s].value > 0
    ensures Inv(Took(k, s, goal))
  {
    var k' := Took(k, s, goal);
    TookQueues(k, k', k'.threads[k.current]);
    TookWakeups(k, s, goal);
    TookLocks(k, s, goal);
  }

  /** Only the current thread's place in the code changes; it keeps running. */
  lemma TookQueues(k: State, k': State, th: Thread)
    requires Queues(k) && Is(k, k.current, Running) && k'.threads == k.threads[k.current := th] && th.status == Running
    requires CanBecome(k, k.current, th) || th.pc == Free || th.pc.Taking? || th.pc.Releasing?
    requires (k.current == k.idle ==> th.pc == Free) && th.child == k.threads[k.current].child
    requires k' == k.(threads := k'.threads, semas := k'.semas, locks := k'.locks) && k'.semas.Keys == k.semas.Keys
    requires forall s | s in k.semas :: k'.semas[s].waiters == k.semas[s].waiters
    ensures Queues(k') && k'.threads[k'.current].status == Running
  {
    CurrentFacts(k);
    assert CanBecome(k, k.current, th);
    Moved(k, k', k.current, th);
  }

  lemma TookWakeups(k: State, s: nat, goal: Then)
    requires NoLostWakeup(k) && CanDown(k, s, goal) && k.semas[s].value > 0
    ensures NoLostWakeup(Took(k, s, goal))
  {
    var k' := Took(k, s, goal);
    forall r | r in k'.semas && k'.semas[r].waiters != []
      ensures k'.semas[r].value <= |Woken(k', r)|
    {
      if r == s {
        assert Woken(k', s) == Woken(k, s) - {k.current};
      } else {
        assert Woken(k', r) == Woken(k, r);
      }
    }
  }

  lemma TookPcs(k: State, s: nat, goal: Then)
    requires LockPcsOk(k) && CanDown(k, s, goal) && k.semas[s].value > 0
    ensures LockPcsOk(Took(k, s, goal))
  {
    hide IsLockSema;
  }

  lemma TookLocks(k: State, s: nat, goal: Then)
    requires LocksOk(k) && CanDown(k, s, goal) && k.semas[s].value > 0
    ensures LocksOk(Took(k, s, goal))
  {
    TookPcs(k, s, goal);
    var k' := Took(k, s, goal);
    forall l | l in k'.locks
      ensures LockOk(k', l)
    {
      assert LockOk(k, l);
    }
  }

  // ---------------------------------------------------------------- up

  /** `thread_unblock` */
  function Unblocked(k: State, t: nat): State
    requires t in k.threads && forall x | x in k.ready :: x in k.threads
  {
    k.(threads := k.threads[t := k.threads[t].(status := Ready)], ready := Inserted(k.ready, t, k.threads))
  }

  /** `sema_up` before any switch: the waiter of highest priority becomes ready, and the value goes up. */
  function Upped(k: State, s: nat): State
    requires s in k.semas && (forall x | x in k.semas[s].waiters :: x in k.threads)
    requires forall x | x in k.ready :: x in k.threads
  {
    if k.semas[s].waiters == [] then k.(semas := k.semas[s := Sema(k.semas[s].value + 1, [])])
    else
      var w := Sorted(k.semas[s].waiters, k.threads);
      Unblocked(k.(semas := k.semas[s := Sema(k.semas[s].value + 1, w[1..])]), w[0])
  }

  lemma FirstSorted(k: State, s: nat)
    requires Queues(k) && s in k.semas && k.semas[s].waiters != []
    ensures forall x | x in k.semas[s].waiters :: x in k.threads
    ensures var w := Sorted(k.semas[s].waiters, k.threads);
            && w != [] && WaitsFor(k, w[0], s) && w[0] !in k.ready && w[0] !in k.sleep && w[0] !in k.doomed
            && w[0] != k.idle
            && (forall r | r in k.semas && r != s :: w[0] !in k.semas[r].waiters)
            && Distinct(w[1..]) && w[0] !in w[1..] && forall x :: x in w[1..] <==> x in k.semas[s].waiters && x != w[0]
  {
    WaitersKnown(k);
    var list := k.semas[s].waiters;
    SortedHas(list, k.threads);
    var w := Sorted(list, k.threads);
    assert w[0] in w;
    assert w == [w[0]] + w[1..];
    ElemExclusive(k, w[0]);
  }

  lemma UppedQueues(k: State, s: nat)
    requires Queues(k) && s in k.semas
    ensures (forall x | x in k.semas[s].waiters :: x in k.threads) && forall x | x in k.ready :: x in k.threads
    ensures Queues(Upped(k, s))
  {
    WaitersKnown(k);
    ReadyKnown(k);
    var k' := Upped(k, s);
    hide Inserted, Sorted;
    if k.semas[s].waiters == [] {
      SameQueues(k, k');
    } else {
      FirstSorted(k, s);
      var t := Sorted(k.semas[s].waiters, k.threads)[0];
      WakeQueues(k, k', s, t);
    }
  }

  lemma SameQueues(k: State, k': State)
    requires Queues(k) && k'.semas.Keys == k.semas.Keys
    requires forall r | r in k.semas :: k'.semas[r].waiters == k.semas[r].waiters
    requires k' == k.(semas := k'.semas, locks := k'.locks)
    ensures Queues(k')
  {
    assert forall r, t :: WaitsFor(k', t, r) <==> WaitsFor(k, t, r);
    assert forall t, st :: Is(k', t, st) <==> Is(k, t, st);
  }

  lemma WakeQueues(k: State, k': State, s: nat, t: nat)
    requires Queues(k) && s in k.semas && WaitsFor(k, t, s) && t !in k.ready && t !in k.sleep && t !in k.doomed
    requires t != k.idle
    requires forall r | r in k.semas && r != s :: t !in k.semas[r].waiters
    requires forall x | x in k.ready :: x in k.threads
    requires k'.semas.Keys == k.semas.Keys
    requires forall r | r in k.semas && r != s :: k'.semas[r].waiters == k.semas[r].waiters
    requires SameBut(k.semas[s].waiters, k'.semas[s].waiters, t, false)
    requires k' == k.(threads := k.threads[t := k.threads[t].(status := Ready)],
                      ready := Inserted(k.ready, t, k.threads), semas := k'.semas)
    ensures Queues(k')
  {
    InsertedHas(k.ready, t, k.threads);
    hide Inserted;
    assert forall c | c in k.threads :: k.threads[c].child != Some(t);
    Moved(k, k', t, k'.threads[t]);
  }

  lemma UppedWakeups(k: State, s: nat)
    requires Queues(k) && NoLostWakeup(k) && s in k.semas
    requires (forall x | x in k.semas[s].waiters :: x in k.threads) && forall x | x in k.ready :: x in k.threads
    ensures NoLostWakeup(Upped(k, s))
  {
    var k' := Upped(k, s);
    hide Inserted, Sorted, Woken;
    if k.semas[s].waiters == [] {
      UppedIdly(k, k', s);
    } else {
      FirstSorted(k, s);
      hide Queues;
      WakeWakeups(k, k', s, Sorted(k.semas[s].waiters, k.threads)[0]);
    }
  }

  lemma UppedIdly(k: State, k': State, s: nat)
    requires NoLostWakeup(k) && s in k.semas && k.semas[s].waiters == [] && k'.threads == k.threads
    requires s in k'.semas && k'.semas[s].waiters == [] && k'.semas == k.semas[s := k'.semas[s]]
    ensures NoLostWakeup(k')
  { }

  /** The woken thread comes for the unit that is added. */
  lemma WakeWakeups(k: State, k': State, s: nat, t: nat)
    requires NoLostWakeup(k) && s in k.semas && k.semas[s].waiters != [] && WaitsFor(k, t, s)
    requires k'.semas.Keys == k.semas.Keys && forall r | r in k.semas && r != s :: k'.semas[r] == k.semas[r]
    requires k'.semas[s].value == k.semas[s].value + 1 && k'.threads == k.threads[t := k.threads[t].(status := Ready)]
    ensures NoLostWakeup(k')
  {
    assert Woken(k', s) == Woken(k, s) + {t};
    forall r | r in k'.semas && k'.semas[r].waiters != [] && r != s
      ensures k'.semas[r].value <= |Woken(k', r)|
    {
      WokenMore(k, k', r);
    }
  }

  lemma UppedLocks(k: State, s: nat)
    requires LocksOk(k) && s in k.semas && !IsLockSema(k, s)
    requires (forall x | x in k.semas[s].waiters :: x in k.threads) && forall x | x in k.ready :: x in k.threads
    ensures LocksOk(Upped(k, s))
  {
    hide Inserted, Sorted;
    var k' := Upped(k, s);
    forall l | l in k'.locks
      ensures LockOk(k', l)
    {
      assert LockOk(k, l);
    }
  }

  lemma UppedKeeps(k: State, s: nat)
    requires Inv(k) && s in k.semas && !IsLockSema(k, s)
    ensures (forall x | x in k.semas[s].waiters :: x in k.threads) && forall x | x in k.ready :: x in k.threads
    ensures Inv(Upped(k, s)) && Upped(k, s).current == k.current
    ensures Upped(k, s).threads[k.current] == k.threads[k.current]
  {
    UppedQueues(k, s);
    UppedWakeups(k, s);
    UppedLocks(k, s);
    UppedCurrent(k, s);
  }

  lemma UppedCurrent(k: State, s: nat)
    requires Queues(k) && s in k.semas && Is(k, k.current, Running)
    requires (forall x | x in k.semas[s].waiters :: x in k.threads) && forall x | x in k.ready :: x in k.threads
    ensures Is(Upped(k, s), k.current, Running) && Upped(k, s).threads[k.current] == k.threads[k.current]
  {
    if k.semas[s].waiters != [] {
      FirstSorted(k, s);
    }
    hide Inserted, Sorted;
  }

  // ---------------------------------------------------------------- locks

  /** The owner of a lock that has downed its semaphore becomes its holder. */
  function HolderSet(k: State): State
    requires k.current in k.threads && k.threads[k.current].pc.Taking? && k.threads[k.current].pc.l in k.locks
  {
    var l := k.threads[k.current].pc.l;
    k.(threads := k.threads[k.current := k.threads[k.current].(pc := Free)],
       locks := k.locks[l := k.locks[l].(holder := Some(k.current))])
  }

  lemma HolderSetKeeps(k: State)
    requires Inv(k) && k.threads[k.current].pc.Taking?
    ensures k.threads[k.current].pc.l in k.locks && Inv(HolderSet(k))
  {
    var k' := HolderSet(k);
    TookQueues(k, k', k'.threads[k.current]);
    hide Queues;
    HolderSetWakeups(k);
    HolderSetLocks(k);
    hide LocksOk, NoLostWakeup;
  }

  lemma HolderSetWakeups(k: State)
    requires NoLostWakeup(k) && k.current in k.threads && k.threads[k.current].pc.Taking?
    requires k.threads[k.current].pc.l in k.locks
    ensures NoLostWakeup(HolderSet(k))
  {
    hide NoLostWakeup;
    WakeupsSame(k, HolderSet(k));
  }

  lemma HolderSetLocks(k: State)
    requires LocksOk(k) && k.current in k.threads && k.threads[k.current].pc.Taking?
    requires k.threads[k.current].pc.l in k.locks
    ensures LocksOk(HolderSet(k))
  {
    var k' := HolderSet(k);
    assert LockOk(k, k.threads[k.current].pc.l);
    forall l | l in k'.locks
      ensures LockOk(k', l)
    {
      assert LockOk(k, l);
    }
  }

  /** The holder of a lock stops being it, before it ups the semaphore. */
  function HolderCleared(k: State, l: nat): State
    requires k.current in k.threads && l in k.locks
  {
    k.(threads := k.threads[k.current := k.threads[k.current].(pc := Releasing(l))],
       locks := k.locks[l := k.locks[l].(holder := None)])
  }

  lemma HolderClearedKeeps(k: State, l: nat)
    requires Inv(k) && l in k.locks && k.locks[l].holder == Some(k.current) && k.threads[k.current].pc == Free
    requires k.current != k.idle
    ensures Inv(HolderCleared(k, l))
  {
    var k' := HolderCleared(k, l);
    TookQueues(k, k', k'.threads[k.current]);
    WakeupsSame(k, k');
    HolderClearedLocks(k, l);
  }

  lemma HolderClearedLocks(k: State, l: nat)
    requires LocksOk(k) && l in k.locks && k.current in k.threads
    requires k.locks[l].holder == Some(k.current) && k.threads[k.current].pc == Free
    ensures LocksOk(HolderCleared(k, l))
  {
    var k' := HolderCleared(k, l);
    assert LockOk(k, l);
    forall m | m in k'.locks
      ensures LockOk(k', m)
    {
      assert LockOk(k, m);
    }
  }

  /** The release is over: nobody owns the lock, and its semaphore has been upped. */
  function Released(k: State, l: nat): State
    requires k.current in k.threads && l in k.locks
    requires k.locks[l].sema in k.semas && (forall x | x in k.semas[k.locks[l].sema].waiters :: x in k.threads)
    requires forall x | x in k.ready :: x in k.threads
  {
    var k1 := Upped(k, k.locks[l].sema);
    k1.(threads := k1.threads[k.current := k.threads[k.current].(pc := Free)],
        locks := k.locks[l := k.locks[l].(owner := None)])
  }

  lemma ReleasedKeeps(k: State, l: nat)
    requires Inv(k) && k.threads[k.current].pc == Releasing(l)
    ensures l in k.locks && k.locks[l].sema in k.semas
    ensures (forall x | x in k.semas[k.locks[l].sema].waiters :: x in k.threads)
    ensures forall x | x in k.ready :: x in k.threads
    ensures Inv(Released(k, l))
  {
    assert LockOk(k, l);
    var s := k.locks[l].sema;
    UppedQueues(k, s);
    UppedWakeups(k, s);
    UppedCurrent(k, s);
    ReleasedSecond(k, Upped(k, s), Released(k, l), l);
    ReleasedLocks(k, l);
  }

  /** After the up, the current thread leaves the release. */
  lemma ReleasedSecond(k: State, k1: State, k': State, l: nat)
    requires Queues(k1) && NoLostWakeup(k1) && Is(k1, k.current, Running) && k1.current == k.current
    requires k.current in k.threads && k1.threads[k.current] == k.threads[k.current]
    requires k.threads[k.current].pc == Releasing(l)
    requires k' == k1.(threads := k1.threads[k.current := k.threads[k.current].(pc := Free)], locks := k'.locks)
    ensures Queues(k') && NoLostWakeup(k') && Is(k', k'.current, Running)
  {
    TookQueues(k1, k', k'.threads[k.current]);
    WakeupsSame(k1, k');
  }

  /** What an up does not change. */
  lemma UppedFrame(k: State, s: nat)
    requires s in k.semas && (forall x | x in k.semas[s].waiters :: x in k.threads)
    requires forall x | x in k.ready :: x in k.threads
    ensures var k' := Upped(k, s);
            && k'.semas.Keys == k.semas.Keys && k'.threads.Keys == k.threads.Keys && k'.locks == k.locks
            && (forall r | r in k.semas :: k'.semas[r].value == k.semas[r].value + (if r == s then 1 else 0))
            && (forall r | r in k.semas && r != s :: k'.semas[r] == k.semas[r])
            && (forall t | t in k.threads :: k'.threads[t].pc == k.threads[t].pc)
  {
    hide Inserted, Sorted;
  }

  lemma ReleasedLocks(k: State, l: nat)
    requires LocksOk(k) && k.current in k.threads && k.threads[k.current].pc == Releasing(l) && l in k.locks
    requires k.locks[l].sema in k.semas && (forall x | x in k.semas[k.locks[l].sema].waiters :: x in k.threads)
    requires forall x | x in k.ready :: x in k.threads
    ensures LocksOk(Released(k, l))
  {
    UppedFrame(k, k.locks[l].sema);
    hide Upped;
    OwnerGone(k, Released(k, l), l);
  }

  lemma OwnerGone(k: State, k': State, l: nat)
    requires LocksOk(k) && k.current in k.threads && k.threads[k.current].pc == Releasing(l) && l in k.locks
    requires k'.threads.Keys == k.threads.Keys && k'.semas.Keys == k.semas.Keys
    requires forall t | t in k.threads :: k'.threads[t].pc == if t == k.current then Free else k.threads[t].pc
    requires forall r | r in k.semas :: k'.semas[r].value == k.semas[r].value + (if r == k.locks[l].sema then 1 else 0)
    requires k'.locks == k.locks[l := k.locks[l].(owner := None)]
    ensures LocksOk(k')
  {
    assert LockOk(k, l);
    OwnerGonePcs(k, k', l);
    hide LockPcsOk;
    forall m | m in k'.locks
      ensures LockOk(k', m)
    {
      assert LockOk(k, m);
      LocksApart(k, l, m);
      if m == l {
        OwnerLeft(k, k', l);
        FreeLock(k, k', l);
      } else {
        OwnerElsewhere(k, k', l, m);
      }
      hide LockOk;
    }
  }

  lemma FreeLock(k: State, k': State, l: nat)
    requires l in k.locks && LockOk(k, l) && l in k'.locks && k'.locks[l] == k.locks[l].(owner := None)
    requires k.locks[l].owner.Some? && k.locks[l].holder == None
    requires k.locks[l].sema in k'.semas && k'.semas[k.locks[l].sema].value == k.semas[k.locks[l].sema].value + 1
    requires k'.threads.Keys == k.threads.Keys
    requires forall m | m in k'.locks && m != l :: k'.locks[m].sema != k.locks[l].sema
    requires forall t | t in k'.threads :: k'.threads[t].pc != Taking(l) && k'.threads[t].pc != Releasing(l)
    ensures LockOk(k', l)
  { }

  lemma OwnerElsewhere(k: State, k': State, l: nat, m: nat)
    requires m in k.locks && LockOk(k, m) && m != l && l in k.locks && k.locks[l].sema != k.locks[m].sema
    requires k.current in k.threads && k.threads[k.current].pc == Releasing(l) && k'.threads.Keys == k.threads.Keys
    requires forall t | t in k.threads :: k'.threads[t].pc == if t == k.current then Free else k.threads[t].pc
    requires k'.semas.Keys == k.semas.Keys
    requires forall r | r in k.semas :: k'.semas[r].value == k.semas[r].value + (if r == k.locks[l].sema then 1 else 0)
    requires k'.locks == k.locks[l := k.locks[l].(owner := None)]
    ensures LockOk(k', m)
  { }

  lemma LocksApart(k: State, l: nat, m: nat)
    requires LocksOk(k) && l in k.locks && m in k.locks
    ensures k.locks[l].sema == k.locks[m].sema ==> l == m
  { }

  lemma OwnerGonePcs(k: State, k': State, l: nat)
    requires LockPcsOk(k) && l in k.locks && k'.threads.Keys == k.threads.Keys
    requires forall t | t in k.threads :: k'.threads[t].pc == if t == k.current then Free else k.threads[t].pc
    requires k'.locks == k.locks[l := k.locks[l].(owner := None)]
    ensures LockPcsOk(k')
  {
  }

  lemma OwnerLeft(k: State, k': State, l: nat)
    requires l in k.locks && LockOk(k, l) && k.current in k.threads && k.threads[k.current].pc == Releasing(l)
    requires k'.threads.Keys == k.threads.Keys
    requires forall t | t in k.threads :: k'.threads[t].pc == if t == k.current then Free else k.threads[t].pc
    ensures k.locks[l].owner == Some(k.current) && k.locks[l].holder == None
    ensures forall t | t in k'.threads :: k'.threads[t].pc != Taking(l) && k'.threads[t].pc != Releasing(l)
  { }

  // ---------------------------------------------------------------- yielding, sleeping, exiting

  /** The running thread's record changes, but not its place in a semaphore or lock operation. */
  lemma Stopped(k: State, k': State, th: Thread)
    requires Inv(k) && k'.threads == k.threads[k.current := th] && k'.semas == k.semas && k'.locks == k.locks
    requires CanBecome(k, k.current, th) && QueuesMove(k, k', k.current, th)
    requires th.pc == k.threads[k.current].pc || th.pc == Free || th.pc == Sleeping
    requires k.threads[k.current].pc.Downing? ==> th.pc == k.threads[k.current].pc && th.status in {Running, Ready}
    ensures Mid(k')
  {
    hide CanBecome, QueuesMove;
    Moved(k, k', k.current, th);
    RecordChanged(k, k', k.current, th);
  }

  /** One record changes, and neither a semaphore nor a lock is concerned. */
  lemma RecordChanged(k: State, k': State, t: nat, th: Thread)
    requires NoLostWakeup(k) && LocksOk(k) && t in k.threads && k'.threads == k.threads[t := th]
    requires k'.semas == k.semas && k'.locks == k.locks
    requires th.pc == k.threads[t].pc || th.pc == Free || th.pc == Sleeping
    requires k.threads[t].pc.Downing? && k.threads[t].status in {Running, Ready} ==>
               th.pc == k.threads[t].pc && th.status in {Running, Ready}
    ensures NoLostWakeup(k') && LocksOk(k')
  {
    RecordWakeups(k, k', t, th);
    hide NoLostWakeup;
    LocksSame(k, k');
  }

  lemma RecordWakeups(k: State, k': State, t: nat, th: Thread)
    requires NoLostWakeup(k) && t in k.threads && k'.threads == k.threads[t := th] && k'.semas == k.semas
    requires k.threads[t].pc.Downing? && k.threads[t].status in {Running, Ready} ==>
               th.pc == k.threads[t].pc && th.status in {Running, Ready}
    ensures NoLostWakeup(k')
  {
    WakeupsSame(k, k');
  }

  /** The part of `thread_yield` before the switch. The dead have been buried. */
  function Yielding(k: State): State
    requires k.current in k.threads && forall x | x in k.ready :: x in k.threads
  {
    k.(threads := k.threads[k.current := k.threads[k.current].(status := Ready)],
       ready := if k.current == k.idle then k.ready else Inserted(k.ready, k.current, k.threads))
  }

  lemma YieldingKeeps(k: State)
    requires Inv(k)
    ensures forall x | x in k.ready :: x in k.threads
    ensures Mid(Yielding(k))
  {
    ReadyKnown(k);
    CurrentFacts(k);
    InsertedHas(k.ready, k.current, k.threads);
    var k' := Yielding(k);
    hide Inserted, LocksOk, NoLostWakeup;
    Stopped(k, k', k'.threads[k.current]);
  }

  /** The part of `thread_sleep` before the switch */
  function FallingAsleep(k: State, until: int): State
    requires k.current in k.threads
  {
    k.(threads := k.threads[k.current := k.threads[k.current].(status := Blocked, awake := until, pc := Sleeping)],
       sleep := k.sleep + [k.current])
  }

  lemma FallingAsleepKeeps(k: State, until: int)
    requires Inv(k) && k.current != k.idle && k.threads[k.current].pc == Free
    ensures Mid(FallingAsleep(k, until))
  {
    CurrentFacts(k);
    DistinctSnoc(k.sleep, k.current);
    var k' := FallingAsleep(k, until);
    hide LocksOk, NoLostWakeup;
    Stopped(k, k', k'.threads[k.current]);
  }

  /** The idle thread blocks without waiting for anything; a thread that exits dies. */
  function Halted(k: State, status: Status): State
    requires k.current in k.threads
  {
    k.(threads := k.threads[k.current := k.threads[k.current].(status := status)])
  }

  lemma HaltedKeeps(k: State, status: Status)
    requires Inv(k) && k.threads[k.current].pc == Free
    requires if k.current == k.idle then status == Blocked else status == Dying
    ensures Mid(Halted(k, status))
  {
    CurrentFacts(k);
    var k' := Halted(k, status);
    hide LocksOk, NoLostWakeup;
    Stopped(k, k', k'.threads[k.current]);
  }

  // ---------------------------------------------------------------- waking sleepers

  /** A sleeper leaves the sleep list and becomes ready. */
  function Awakened(k: State, t: nat): State
    requires t in k.threads && forall x | x in k.ready :: x in k.threads
  {
    Unblocked(k.(sleep := Without(k.sleep, t)), t)
  }

  lemma AwakenedKeeps(k: State, t: nat)
    requires Inv(k) && t in k.sleep
    ensures t in k.threads && forall x | x in k.ready :: x in k.threads
    ensures Inv(Awakened(k, t)) && Awakened(k, t).current == k.current && t != k.current
  {
    ReadyKnown(k);
    SleeperFacts(k, t);
    AwakenedQueues(k, t);
    AwakenedRest(k, t);
  }

  lemma SleeperFacts(k: State, t: nat)
    requires Queues(k) && t in k.sleep
    ensures Is(k, t, Blocked) && k.threads[t].pc == Sleeping && t !in k.ready && t !in k.doomed && t != k.idle
    ensures (forall s | s in k.semas :: t !in k.semas[s].waiters)
    ensures forall c | c in k.threads :: k.threads[c].child != Some(t)
  {
    ElemExclusive(k, t);
  }

  lemma AwakenedQueues(k: State, t: nat)
    requires Queues(k) && t in k.sleep && t in k.threads && forall x | x in k.ready :: x in k.threads
    ensures Queues(Awakened(k, t))
  {
    SleeperFacts(k, t);
    WithoutHas(k.sleep, t);
    InsertedHas(k.ready, t, k.threads);
    var k' := Awakened(k, t);
    hide Without, Inserted;
    Moved(k, k', t, k'.threads[t]);
  }

  lemma AwakenedRest(k: State, t: nat)
    requires NoLostWakeup(k) && LocksOk(k) && t in k.threads && Is(k, t, Blocked)
    requires forall x | x in k.ready :: x in k.threads
    ensures NoLostWakeup(Awakened(k, t)) && LocksOk(Awakened(k, t))
  {
    var k' := Awakened(k, t);
    hide Without, Inserted;
    RecordChanged(k, k', t, k'.threads[t]);
  }

  // ---------------------------------------------------------------- new threads and priorities

  /** `init_thread`: a blocked thread, which its creator has yet to unblock. */
  function Created(k: State, t: nat, priority: int): State
    requires k.current in k.threads
  {
    k.(threads := k.threads[t := Thread(Blocked, priority, 0, Free, None)][k.current := k.threads[k.current].(child := Some(t))])
  }

  lemma CreatedKeeps(k: State, t: nat, priority: int)
    requires Inv(k) && t !in k.threads && k.threads[k.current].pc == Free && k.threads[k.current].child == None
    requires k.current != k.idle
    ensures Inv(Created(k, t, priority))
  {
    CurrentFacts(k);
    var k1 := k.(threads := k.threads[t := Thread(Blocked, priority, 0, Free, None)]);
    NewcomerKeeps(k, k1, t, priority);
    var k' := Created(k, t, priority);
    assert k'.threads == k1.threads[k.current := k'.threads[k.current]];
    hide LocksOk, NoLostWakeup;
    NoCreator(k, k1, t, priority);
    CurrentFacts(k1);
    Stopped(k1, k', k'.threads[k.current]);
  }

  lemma NoCreator(k: State, k1: State, t: nat, priority: int)
    requires CreatingOk(k) && t !in k.threads && k1.threads == k.threads[t := Thread(Blocked, priority, 0, Free, None)]
    ensures forall c | c in k1.threads :: k1.threads[c].child != Some(t)
  { }

  lemma NewcomerKeeps(k: State, k1: State, t: nat, priority: int)
    requires Inv(k) && t !in k.threads && k1 == k.(threads := k.threads[t := Thread(Blocked, priority, 0, Free, None)])
    ensures Inv(k1)
  {
    NewcomerLists(k, k1, t, priority);
    NewcomerWaiters(k, k1, t, priority);
    hide Queues, LocksOk, NoLostWakeup;
    LocksSame(k, k1);
    NewcomerWakeups(k, k1, t, priority);
  }

  lemma NewcomerWakeups(k: State, k1: State, t: nat, priority: int)
    requires NoLostWakeup(k) && t !in k.threads
    requires k1 == k.(threads := k.threads[t := Thread(Blocked, priority, 0, Free, None)])
    ensures NoLostWakeup(k1)
  {
    hide NoLostWakeup;
    WakeupsSame(k, k1);
  }

  lemma NewcomerLists(k: State, k1: State, t: nat, priority: int)
    requires Queues(k) && t !in k.threads
    requires k1 == k.(threads := k.threads[t := Thread(Blocked, priority, 0, Free, None)])
    ensures ReadyOk(k1) && SleepOk(k1) && DoomedOk(k1) && CurrentOk(k1) && CreatingOk(k1)
  {
    assert forall x, st | x != t :: Is(k1, x, st) <==> Is(k, x, st);
  }

  lemma NewcomerWaiters(k: State, k1: State, t: nat, priority: int)
    requires WaitersOk(k) && t !in k.threads
    requires k1 == k.(threads := k.threads[t := Thread(Blocked, priority, 0, Free, None)])
    ensures WaitersOk(k1)
  { }

  /** The creator unblocks its thread. */
  function Started(k: State): State
    requires k.current in k.threads && k.threads[k.current].child.Some? && k.threads[k.current].child.value in k.threads
    requires forall x | x in k.ready :: x in k.threads
  {
    Unblocked(k.(threads := k.threads[k.current := k.threads[k.current].(child := None)]), k.threads[k.current].child.value)
  }

  lemma StartedKeeps(k: State)
    requires Inv(k) && k.threads[k.current].child.Some?
    ensures k.threads[k.current].child.value in k.threads && forall x | x in k.ready :: x in k.threads
    ensures Inv(Started(k)) && Started(k).current == k.current
  {
    ReadyKnown(k);
    CurrentFacts(k);
    var t := k.threads[k.current].child.value;
    assert Is(k, t, Blocked) && k.threads[t].pc == Free && t != k.idle;
    var k1 := k.(threads := k.threads[k.current := k.threads[k.current].(child := None)]);
    assert forall c | c in k1.threads :: k1.threads[c].child != Some(t);
    LeftCreating(k, k1);
    UnblockedKeeps(k1, t);
  }

  lemma LeftCreating(k: State, k1: State)
    requires Inv(k) && k.threads[k.current].child.Some?
    requires k1 == k.(threads := k.threads[k.current := k.threads[k.current].(child := None)])
    ensures Inv(k1)
  {
    CurrentFacts(k);
    hide LocksOk, NoLostWakeup;
    Stopped(k, k1, k1.threads[k.current]);
  }

  lemma UnblockedKeeps(k: State, t: nat)
    requires Inv(k) && Is(k, t, Blocked) && k.threads[t].pc == Free && t != k.idle
    requires (forall c | c in k.threads :: k.threads[c].child != Some(t)) && forall x | x in k.ready :: x in k.threads
    ensures Inv(Unblocked(k, t)) && Unblocked(k, t).current == k.current
  {
    ElemExclusive(k, t);
    InsertedHas(k.ready, t, k.threads);
    var k' := Unblocked(k, t);
    hide Inserted;
    UnblockedQueues(k, k', t);
    RecordChanged(k, k', t, k'.threads[t]);
  }

  lemma UnblockedQueues(k: State, k': State, t: nat)
    requires Queues(k) && Is(k, t, Blocked) && k.threads[t].pc == Free && t != k.idle
    requires forall c | c in k.threads :: k.threads[c].child != Some(t)
    requires SameBut(k.ready, k'.ready, t, true)
    requires k' == k.(threads := k.threads[t := k.threads[t].(status := Ready)], ready := k'.ready)
    ensures Queues(k')
  {
    ElemExclusive(k, t);
    assert t !in k.sleep && t !in k.doomed && forall s | s in k.semas :: t !in k.semas[s].waiters;
    Moved(k, k', t, k'.threads[t]);
  }

  /** A sleeper that has been woken and is running again leaves thread_sleep. */
  function Awoke(k: State): State
    requires k.current in k.threads
  {
    k.(threads := k.threads[k.current := k.threads[k.current].(pc := Free)])
  }

  lemma AwokeKeeps(k: State)
    requires Inv(k) && k.threads[k.current].pc == Sleeping
    ensures Inv(Awoke(k))
  {
    CurrentFacts(k);
    var k' := Awoke(k);
    hide LocksOk, NoLostWakeup;
    Stopped(k, k', k'.threads[k.current]);
  }

  /** Donation, thread_set_priority and the feedback scheduler change priorities in place. */
  function Reprioritised(k: State, t: nat, priority: int): State
    requires t in k.threads
  {
    k.(threads := k.threads[t := k.threads[t].(priority := priority)])
  }

  lemma ReprioritisedKeeps(k: State, t: nat, priority: int)
    requires Inv(k) && t in k.threads
    ensures Inv(Reprioritised(k, t, priority))
  {
    ReprioritisedQueues(k, t, priority);
    hide Queues;
    var k' := Reprioritised(k, t, priority);
    RecordChanged(k, k', t, k'.threads[t]);
  }

  lemma ReprioritisedQueues(k: State, t: nat, priority: int)
    requires Queues(k) && t in k.threads
    ensures Queues(Reprioritised(k, t, priority))
  {
    var k' := Reprioritised(k, t, priority);
    assert forall x, st :: Is(k', x, st) <==> Is(k, x, st);
    assert forall s, x :: WaitsFor(k', x, s) <==> WaitsFor(k, x, s);
  }
}
