/** The scheduler, semaphores and locks as interleaved atomic steps: the interrupt-free regions of threads/thread.c
    and threads/synch.c. */
module Scheduler {
  import opened Sequences
  import opened SchedulerState
  import opened SchedulerSteps

  /** `thread_compare_priority`: the current thread yields to a ready thread of higher priority. */
  ghost predicate Outranked(k: State) {
    k.ready != [] && k.ready[0] in k.threads && k.current in k.threads
    && k.threads[k.current].priority < k.threads[k.ready[0]].priority
  }

  /** The state after the current thread has yielded. */
  ghost function Yielded(k: State): State
    requires Inv(k)
  {
    BuriedKeeps(k);
    YieldingKeeps(Buried(k));
    SwitchedQueues(Yielding(Buried(k)));
    Switched(Yielding(Buried(k)))
  }

  ghost function Compared(k: State): State
    requires Inv(k)
  {
    if Outranked(k) then Yielded(k) else k
  }

  /** The sleepers that a tick leaves asleep, in order. */
  function StillAsleep(list: seq<nat>, threads: map<nat, Thread>, now: int): seq<nat> {
    if list == [] then []
    else
      var n := |list| - 1;
      StillAsleep(list[..n], threads, now) + (if list[n] in threads && threads[list[n]].awake <= now then [] else [list[n]])
  }

  /** A semaphore's value is what it started with, plus the ups, minus the completed downs. */
  ghost predicate Counted(semas: map<nat, Sema>, start: map<nat, nat>, ups: map<nat, nat>, downs: map<nat, nat>) {
    && start.Keys == semas.Keys && ups.Keys == semas.Keys && downs.Keys == semas.Keys
    && forall s | s in semas :: semas[s].value + downs[s] == start[s] + ups[s]
  }

  lemma CountedKeys(semas: map<nat, Sema>, start: map<nat, nat>, ups: map<nat, nat>, downs: map<nat, nat>)
    requires Counted(semas, start, ups, downs)
    ensures ups.Keys == semas.Keys && downs.Keys == semas.Keys
  {
  }

  lemma CountedStep(semas: map<nat, Sema>, start: map<nat, nat>, ups: map<nat, nat>, downs: map<nat, nat>,
                    semas': map<nat, Sema>, s: nat, up: nat, down: nat)
    requires Counted(semas, start, ups, downs) && s in semas && semas'.Keys == semas.Keys
    requires semas'[s].value + down == semas[s].value + up
    requires forall r | r in semas && r != s :: semas'[r].value == semas[r].value
    ensures s in ups && s in downs && Counted(semas', start, ups[s := ups[s] + up], downs[s := downs[s] + down])
    ensures up == 0 ==> ups[s := ups[s] + up] == ups
    ensures down == 0 ==> downs[s := downs[s] + down] == downs
  {
  }

  class Kernel {
    var threads: map<nat, Thread>
    var ready: seq<nat>
    var sleep: seq<nat>
    var doomed: seq<nat>
    var semas: map<nat, Sema>
    var locks: map<nat, Lock>
    var current: nat
    const idle: nat
    const initial: nat

    // how many ups and completed downs each semaphore has seen, and what it was initialised to
    ghost const start: map<nat, nat>
    ghost var ups: map<nat, nat>
    ghost var downs: map<nat, nat>

    ghost function St(): State
      reads this
    {
      State(threads, ready, sleep, doomed, semas, locks, current, idle, initial)
    }

    ghost predicate Valid()
      reads this
    {
      Inv(St()) && Counted(semas, start, ups, downs)
    }

    /** The moment after thread_start: the initial thread runs, the idle thread has blocked, nothing has happened
        yet. */
    constructor (initial: nat, idle: nat, priority: int, values: map<nat, nat>, lockSemas: map<nat, nat>)
      requires initial != idle
      requires forall l | l in lockSemas :: lockSemas[l] in values && values[lockSemas[l]] == 1
      requires forall l, m | l in lockSemas && m in lockSemas && lockSemas[l] == lockSemas[m] :: l == m
      ensures Valid() && this.initial == initial && this.idle == idle && current == initial
      ensures semas.Keys == values.Keys && locks.Keys == lockSemas.Keys
    {
      threads := map[initial := Thread(Running, priority, 0, Free, None), idle := Thread(Blocked, 0, 0, Free, None)];
      ready, sleep, doomed := [], [], [];
      semas := map s | s in values :: Sema(values[s], []);
      locks := map l | l in lockSemas :: Lock(lockSemas[l], None, None);
      current, this.idle, this.initial := initial, idle, initial;
      start, ups, downs := values, map s | s in values :: 0, map s | s in values :: 0;
      new;
      Fresh(St());
    }

    /** `schedule` */
    method Schedule()
      requires Mid(St()) && threads[current].status != Running
      modifies this`threads, this`ready, this`doomed, this`current
      ensures (old(ready) != [] ==> old(ready[0]) in old(threads)) && St() == Switched(old(St()))
      ensures Inv(St())
      ensures if old(ready) != [] then current == old(ready)[0] && ready == old(ready)[1..]
              else current == idle && ready == []
      ensures Dispatched(old(St()), St())
    {
      hide NoLostWakeup, LocksOk, SleepOk, WaitersOk, DoomedOk, CreatingOk;
      SwitchedQueues(St());
      NextThread(St());
      SwitchedRest(St());
      var next := idle;
      if ready != [] {
        next := ready[0];
        ready := ready[1..];
      }
      threads := threads[next := threads[next].(status := Running)];
      if current != next && threads[current].status == Dying && current != initial {
        doomed := doomed + [current];
      }
      current := next;
    }

    /** `do_schedule`: frees the threads on the destruction list, then gives up the processor in the given state. */
    method DoSchedule(status: Status)
      requires current in threads && status != Running && current in Buried(St()).threads
      requires Mid(Halted(Buried(St()), status))
      modifies this`threads, this`ready, this`doomed, this`current
      ensures var k := Halted(Buried(old(St())), status);
              (k.ready != [] ==> k.ready[0] in k.threads) && k.idle in k.threads && St() == Switched(k)
              && Dispatched(k, St())
      ensures Inv(St())
    {
      hide Inv, Mid, Switched, Dispatched;
      ghost var k := St();
      while doomed != []
        modifies this`threads, this`doomed
        invariant |doomed| <= |k.doomed| && doomed == k.doomed[|k.doomed| - |doomed|..]
        invariant threads == map t | t in k.threads && t !in k.doomed[..|k.doomed| - |doomed|] :: k.threads[t]
        decreases |doomed|
      {
        var victim := doomed[0];
        ghost var n := |k.doomed| - |doomed|;
        assert k.doomed[..n + 1] == k.doomed[..n] + [victim];
        doomed := doomed[1..];
        threads := threads - {victim};
      }
      assert St() == Buried(k);
      threads := threads[current := threads[current].(status := status)];
      MidFacts(St());
      Schedule();
    }

    /** `thread_yield` */
    method ThreadYield()
      requires Inv(St())
      modifies this`threads, this`ready, this`doomed, this`current
      ensures St() == Yielded(old(St())) && Inv(St()) && YieldStep(old(St()), St())
    {
      hide Inv, Mid, Switched, Inserted, Dispatched, GaveUp;
      ghost var k := St();
      BuriedKeeps(k);
      YieldingKeeps(Buried(k));
      InvFacts(k);
      InsertedSame(ready, current, threads, Buried(k).threads);
      if current != idle {
        ready := Inserted(ready, current, threads);
      }
      assert Halted(Buried(St()), Ready) == Yielding(Buried(k));
      YieldingGaveUp(k) by {
        NotDoomed(k);
      }
      DoSchedule(Ready);
      assert GaveUp(k, Yielding(Buried(k))) && Dispatched(Yielding(Buried(k)), St());
    }

    /** `thread_block`, on the way from a state the caller has prepared */
    method ThreadBlock(pc: Pc)
      requires current in threads
      requires Mid(St().(threads := threads[current := threads[current].(status := Blocked, pc := pc)]))
      modifies this`threads, this`ready, this`doomed, this`current
      ensures var k :=
              old(St()).(threads := old(threads)[old(current) := old(threads)[old(current)].(status := Blocked, pc := pc)]);
              (k.ready != [] ==> k.ready[0] in k.threads) && k.idle in k.threads && St() == Switched(k)
              && Dispatched(k, St())
      ensures Inv(St())
    {
      hide Inv, Mid, Switched, Dispatched;
      threads := threads[current := threads[current].(status := Blocked, pc := pc)];
      MidFacts(St());
      Schedule();
    }

    /** `thread_unblock` */
    method ThreadUnblock(t: nat)
      requires t in threads && threads[t].status == Blocked && forall x | x in ready :: x in threads
      modifies this`threads, this`ready
      ensures St() == Unblocked(old(St()), t)
      ensures threads == old(threads)[t := old(threads)[t].(status := Ready)]
      ensures Queued(old(ready), ready, t, old(threads))
    {
      InsertedQueued(ready, t, threads);
      hide Inserted, Queued;
      ready := Inserted(ready, t, threads);
      threads := threads[t := threads[t].(status := Ready)];
    }

    /** `thread_compare_priority`, outside an interrupt */
    method ThreadComparePriority()
      requires Inv(St())
      modifies this`threads, this`ready, this`doomed, this`current
      ensures St() == Compared(old(St())) && Inv(St()) && CompareStep(old(St()), St())
    {
      hide Inv, Yielded, YieldStep;
      InvFacts(St());
      if ready != [] && threads[current].priority < threads[ready[0]].priority {
        ThreadYield();
      }
    }

    /** One round of `sema_down`: the thread takes a unit, or joins the waiters and sleeps until it is woken to look
        again. */
    method SemaDown(s: nat, goal: Then)
      requires Valid() && CanDown(St(), s, goal)
      modifies this
      ensures Valid()
      ensures old(semas[s].value) > 0 ==>
                St() == Took(old(St()), s, goal) && downs == old(downs)[s := old(downs)[s] + 1]
      ensures old(semas[s].value) == 0 ==> Waited(old(St()), St(), s, goal) && downs == old(downs)
      ensures ups == old(ups) && DownStep(old(St()), St(), s, goal)
    {
      hide Inv, Mid, CanDown, Inserted, Joined, Took, Waited, Counted, TookUnit, JoinedWaiters, Dispatched;
      ghost var k := St();
      DownFacts(k, s, goal);
      CountedKeys(semas, start, ups, downs);
      if semas[s].value == 0 {
        SemaWait(s, goal);
        CountedStep(k.semas, start, ups, downs, semas, s, 0, 0);
      } else {
        TookKeeps(k, s, goal);
        TookIs(k, s, goal);
        TookIsTaking(k, s, goal);
        semas := semas[s := semas[s].(value := semas[s].value - 1)];
        if goal.TakeLock? {
          locks := locks[goal.l := locks[goal.l].(owner := Some(current))];
        }
        threads := threads[current := threads[current].(pc := if goal == Plain then Free else Taking(goal.l))];
        CountedStep(k.semas, start, ups, downs, semas, s, 0, 1);
        downs := downs[s := downs[s] + 1];
      }
    }

    /** The body of the loop of sema_down */
    method SemaWait(s: nat, goal: Then)
      requires Inv(St()) && CanDown(St(), s, goal) && semas[s].value == 0
      modifies this`threads, this`ready, this`doomed, this`current, this`semas
      ensures Inv(St()) && Waited(old(St()), St(), s, goal) && DownStep(old(St()), St(), s, goal)
      ensures semas.Keys == old(semas).Keys && forall r | r in semas :: semas[r].value == old(semas)[r].value
    {
      hide Inv, Mid, CanDown, Inserted, Joined, Waited, Switched, Dispatched, JoinedWaiters, TookUnit;
      ghost var k := St();
      DownFacts(k, s, goal);
      JoinedKeeps(k, s, goal);
      JoinedIs(k, s, goal);
      JoinedIsJoin(k, s, goal);
      semas := semas[s := semas[s].(waiters := Inserted(semas[s].waiters, current, threads))];
      ThreadBlock(Downing(s, goal));
      assert JoinedWaiters(k, Joined(k, s, goal), s, goal) && Dispatched(Joined(k, s, goal), St());
      WaitedIs(k, St(), s, goal);
    }

    /** `sema_try_down` */
    method SemaTryDown(s: nat, goal: Then) returns (success: bool)
      requires Valid() && CanDown(St(), s, goal)
      modifies this
      ensures Valid() && success == (old(semas[s].value) > 0) && ups == old(ups)
      ensures success ==> St() == Took(old(St()), s, goal) && downs == old(downs)[s := old(downs)[s] + 1]
      ensures success ==> TookUnit(old(St()), St(), s, goal)
      ensures !success ==> St() == old(St()) && downs == old(downs)
    {
      hide Inv, Mid, CanDown, Took, Counted, TookUnit, JoinedWaiters, Dispatched;
      DownFacts(St(), s, goal);
      success := semas[s].value > 0;
      if success {
        SemaDown(s, goal);
      }
    }

    /** `sema_up`, up to its comparison of priorities */
    method SemaUpBody(s: nat)
      requires s in semas && Queues(St())
      modifies this`threads, this`ready, this`semas
      ensures (forall x | x in old(semas)[s].waiters :: x in old(threads))
      ensures (forall x | x in old(ready) :: x in old(threads))
      ensures St() == Upped(old(St()), s)
    {
      hide Sorted, Queues, Unblocked;
      ghost var k := St();
      UpFacts(k, s);
      if semas[s].waiters != [] {
        var w := Sorted(semas[s].waiters, threads);
        semas := semas[s := semas[s].(waiters := w[1..])];
        ThreadUnblock(w[0]);
      }
      semas := semas[s := semas[s].(value := semas[s].value + 1)];
      UppedIs(k, St(), s);
    }

    /** `sema_up` */
    method SemaUp(s: nat)
      requires Valid() && s in semas && !IsLockSema(St(), s)
      modifies this
      ensures Valid() && downs == old(downs) && ups == old(ups)[s := old(ups)[s] + 1]
      ensures (forall x | x in old(semas)[s].waiters :: x in old(threads))
      ensures (forall x | x in old(ready) :: x in old(threads))
      ensures Inv(Upped(old(St()), s)) && St() == Compared(Upped(old(St()), s))
      ensures exists m :: UpStep(old(St()), m, s) && CompareStep(m, St())
    {
      hide Inv, Mid, Upped, Outranked, IsLockSema, Counted, Compared, Queues, UpStep, CompareStep;
      ghost var k := St();
      InvParts(k);
      UppedKeeps(k, s);
      UppedFrame(k, s);
      UppedIsUp(k, s);
      CountedStep(semas, start, ups, downs, Upped(k, s).semas, s, 1, 0);
      SemaUpBody(s);
      ups := ups[s := ups[s] + 1];
      ComparedSemas(St());
      ghost var m := St();
      ThreadComparePriority();
      assert UpStep(k, m, s) && CompareStep(m, St());
    }

    /** The end of lock_acquire and lock_try_acquire */
    method BecomeHolder()
      requires Valid() && threads[current].pc.Taking?
      modifies this`threads, this`locks
      ensures Valid() && old(threads[current]).pc.l in old(locks) && St() == HolderSet(old(St()))
    {
      hide Inv, Mid, Counted;
      HolderSetKeeps(St());
      InvFacts(St());
      var l := threads[current].pc.l;
      locks := locks[l := locks[l].(holder := Some(current))];
      threads := threads[current := threads[current].(pc := Free)];
    }

    /** `lock_release` up to the point where the lock has no holder */
    method LockRelease(l: nat)
      requires Valid() && l in locks && locks[l].holder == Some(current) && threads[current].pc == Free
      requires current != idle
      modifies this`threads, this`locks
      ensures Valid() && St() == HolderCleared(old(St()), l)
    {
      hide Inv, Mid, Counted;
      HolderClearedKeeps(St(), l);
      InvFacts(St());
      locks := locks[l := locks[l].(holder := None)];
      threads := threads[current := threads[current].(pc := Releasing(l))];
    }

    /** The sema_up at the end of lock_release */
    method FinishRelease(l: nat)
      requires Valid() && threads[current].pc == Releasing(l)
      modifies this
      ensures Valid() && AfterRelease(old(St()), St(), l)
      ensures exists u, m :: Unlocked(old(St()), u, m, l) && CompareStep(m, St())
    {
      hide Inv, Mid, Counted, Compared, AfterRelease, Released, Unlocked, CompareStep;
      ghost var k := St();
      InvFacts(k);
      LeaveLock(l);
      ComparedSemas(St());
      UnlockedIs(k, l);
      ghost var m := St();
      ThreadComparePriority();
      assert Unlocked(k, Upped(k, k.locks[l].sema), m, l) && CompareStep(m, St());
      AfterReleaseIs(k, St(), l);
    }

    /** The part of that sema_up before its comparison of priorities; the thread no longer owns the lock. */
    method LeaveLock(l: nat)
      requires Valid() && threads[current].pc == Releasing(l)
      modifies this`threads, this`ready, this`semas, this`locks, this`ups
      ensures Valid() && l in old(locks) && old(locks)[l].sema in old(semas)
      ensures (forall x | x in old(semas)[old(locks)[l].sema].waiters :: x in old(threads))
      ensures (forall x | x in old(ready) :: x in old(threads))
      ensures St() == Released(old(St()), l)
    {
      hide Inv, Mid, Counted, Upped, Queues;
      ghost var k := St();
      InvFacts(k);
      InvParts(k);
      ReleasedKeeps(k, l);
      var s := locks[l].sema;
      UppedFrame(k, s);
      UppedCurrent(k, s);
      CountedStep(semas, start, ups, downs, Upped(k, s).semas, s, 1, 0);
      SemaUpBody(s);
      ups := ups[s := ups[s] + 1];
      locks := locks[l := locks[l].(owner := None)];
      threads := threads[current := threads[current].(pc := Free)];
      ReleasedIs(k, St(), l);
    }

    /** `thread_sleep`; the idle thread does not sleep. */
    method ThreadSleep(until: int)
      requires Valid() && threads[current].pc == Free
      modifies this
      ensures Valid() && semas == old(semas) && locks == old(locks)
      ensures if old(current) == idle then St() == old(St()) else SwitchedFrom(FallingAsleep(old(St()), until), St())
      ensures old(current) != idle ==>
                StopStep(old(St()), St(), old(threads[current]).(status := Blocked, awake := until, pc := Sleeping),
                         old(sleep) + [old(current)])
    {
      hide Inv, Mid, Counted, Switched, Dispatched;
      InvFacts(St());
      if current != idle {
        FallingAsleepKeeps(St(), until);
        threads := threads[current := threads[current].(awake := until)];
        sleep := sleep + [current];
        assert St().(threads := threads[current := threads[current].(status := Blocked, pc := Sleeping)]) ==
          FallingAsleep(old(St()), until);
        ThreadBlock(Sleeping);
        SwitchedIs(FallingAsleep(old(St()), until), St());
        assert Dispatched(FallingAsleep(old(St()), until), St());
        assert Halts(old(St()), FallingAsleep(old(St()), until),
                       old(threads[current]).(status := Blocked, awake := until, pc := Sleeping), old(sleep) + [old(current)]);
      }
    }

    /** The idle thread blocks. */
    method Idle()
      requires Valid() && current == idle
      modifies this
      ensures Valid() && semas == old(semas) && locks == old(locks) && SwitchedFrom(Halted(old(St()), Blocked), St())
      ensures StopStep(old(St()), St(), old(threads[current]).(status := Blocked), old(sleep))
    {
      hide Inv, Mid, Counted, Switched, Dispatched;
      InvFacts(St());
      IdleFacts(St());
      HaltedKeeps(St(), Blocked);
      assert threads[current].(status := Blocked, pc := Free) == threads[current].(status := Blocked);
      ThreadBlock(Free);
      SwitchedIs(Halted(old(St()), Blocked), St());
      assert Dispatched(Halted(old(St()), Blocked), St());
      assert Halts(old(St()), Halted(old(St()), Blocked), old(threads[current]).(status := Blocked), old(sleep));
    }

    /** `thread_exit` */
    method ThreadExit()
      requires Valid() && threads[current].pc == Free && current != idle
      modifies this
      ensures Valid() && semas == old(semas) && locks == old(locks)
      ensures old(current) in Buried(old(St())).threads && SwitchedFrom(Halted(Buried(old(St())), Dying), St())
      ensures ExitStep(old(St()), St())
    {
      hide Inv, Mid, Counted, Switched, Dispatched, Dies;
      InvFacts(St());
      NotDoomed(St());
      HaltedDies(St());
      BuriedKeeps(St());
      HaltedKeeps(Buried(St()), Dying);
      DoSchedule(Dying);
      SwitchedIs(Halted(Buried(old(St())), Dying), St());
      assert Dies(old(St()), Halted(Buried(old(St())), Dying)) && Dispatched(Halted(Buried(old(St())), Dying), St());
    }

    /** `thread_create`, up to the point where the new thread is complete but blocked */
    method ThreadCreate(t: nat, priority: int)
      requires Valid() && t !in threads && threads[current].pc == Free && threads[current].child == None
      requires current != idle
      modifies this`threads
      ensures Valid() && St() == Created(old(St()), t, priority)
      ensures St() == old(St()).(threads := threads)
      ensures threads == old(threads)[t := Thread(Blocked, priority, 0, Free, None)]
                                     [old(current) := old(threads[current]).(child := Some(t))]
    {
      hide Inv, Mid, Counted;
      CreatedKeeps(St(), t, priority);
      InvFacts(St());
      threads := threads[t := Thread(Blocked, priority, 0, Free, None)];
      threads := threads[current := threads[current].(child := Some(t))];
    }

    /** The end of thread_create: the new thread is unblocked. */
    method StartChild()
      requires Valid() && threads[current].child.Some?
      modifies this
      ensures Valid() && semas == old(semas) && locks == old(locks)
      ensures old(threads)[old(current)].child.value in old(threads)
      ensures (forall x | x in old(ready) :: x in old(threads))
      ensures Inv(Started(old(St()))) && St() == Compared(Started(old(St()))) && StartStep(old(St()), St())
    {
      hide Mid, Counted, Compared, Queues, Unblocks, CompareStep;
      ghost var k := St();
      InvParts(k);
      ChildFacts(k);
      hide Inv;
      InvFacts(k);
      StartedKeeps(k);
      StartedIsUnblock(k);
      var t := threads[current].child.value;
      threads := threads[current := threads[current].(child := None)];
      ThreadUnblock(t);
      ComparedSemas(St());
      ComparedLocks(St());
      ghost var m := St();
      ThreadComparePriority();
      assert Unblocks(k, m) && CompareStep(m, St());
    }

    /** A thread's priority is changed in place, by itself or by donation or the feedback scheduler. */
    method SetPriority(t: nat, priority: int)
      requires Valid() && t in threads
      modifies this
      ensures Valid() && semas == old(semas) && locks == old(locks)
      ensures Inv(Reprioritised(old(St()), t, priority)) && St() == Compared(Reprioritised(old(St()), t, priority))
      ensures PriorityStep(old(St()), St(), t, priority)
    {
      hide Inv, Mid, Counted, Compared, CompareStep;
      ReprioritisedKeeps(St(), t, priority);
      threads := threads[t := threads[t].(priority := priority)];
      ComparedSemas(St());
      ComparedLocks(St());
      ghost var m := St();
      ThreadComparePriority();
      assert Changed(old(St()), m, t, old(threads)[t].(priority := priority)) && CompareStep(m, St());
    }

    /** `thread_awake`: exactly the sleepers whose time has come become ready; the others stay asleep, in order. */
    method ThreadAwake(now: int)
      requires Valid()
      modifies this`threads, this`ready, this`sleep
      ensures Valid() && Ticked(old(St()), St(), |old(sleep)|, now) && AwakeStep(old(St()), St(), now)
    {
      hide Inv, Mid, Counted, Awakened, Ticked, Inserted, AwakeStep, Queued;
      ghost var k := St();
      var i := 0;
      ghost var n := 0;
      NothingTicked(k, now);
      SleepersDistinct(k);
      while i < |sleep|
        modifies this`threads, this`ready, this`sleep
        invariant Inv(St()) && n <= |k.sleep| && i <= |sleep| && Ticked(k, St(), n, now) && |sleep| - i == |k.sleep| - n
        decreases |k.sleep| - n
      {
        var t := sleep[i];
        SleeperKnown(St(), t);
        ghost var was := St();
        if threads[t].awake <= now {
          AwakenedKeeps(St(), t);
          AwakenedIs(St(), t, i);
          sleep := sleep[..i] + sleep[i + 1..];
          ThreadUnblock(t);
          TickedAwake(k, was, St(), n, i, now);
        } else {
          TickedAsleep(k, was, n, i, now);
          i := i + 1;
        }
        n := n + 1;
      }
      TickedAwakes(k, St(), now);
    }

    /** The running thread goes on for one atomic step: with the operation it is in, or else with one of its choice. */
    method Step(action: Action)
      requires Valid()
      modifies this
      ensures Valid() && Next(old(St()), Go(action), St())
    {
      hide Inv, Mid, Counted, Compared, Waited, Took, SwitchedFrom, AfterRelease, Started, Created, Reprioritised,
        CanDown, Upped, DownStep, CompareStep, StopStep, StartStep, Starts, Unlocked;
      InvFacts(St());
      PcFacts(St());
      if current == idle {
        Idle();
      } else {
        match threads[current].pc {
          case Sleeping =>
            AwokeKeeps(St());
            threads := threads[current := threads[current].(pc := Free)];
          case Downing(s, goal) =>
            SemaDown(s, goal);
          case Taking(_) =>
            BecomeHolder();
          case Releasing(l) =>
            FinishRelease(l);
          case Free =>
            // between init_thread and thread_unblock, thread_create takes the lock of the thread identifiers
            if threads[current].child.Some? && !action.Acquire? && !action.Release? {
              StartChild();
            } else {
              Start(action);
            }
        }
      }
    }

    /** A thread begins an operation that its code may call. */
    method Start(action: Action)
      requires Valid() && threads[current].pc == Free && current != idle
      modifies this
      ensures Valid() && old(current) in old(threads) && Starts(old(St()), action, St())
    {
      hide Inv, Mid, Counted, Compared, Waited, Took, SwitchedFrom, AfterRelease, Started, Created, Reprioritised,
        CanDown, Upped, Yielded, DownStep, TookUnit, UpStep, CompareStep, StopStep, YieldStep, ExitStep, PriorityStep;
      InvFacts(St());
      match action {
        case Down(s) =>
          if s in semas && forall l | l in locks :: locks[l].sema != s {
            MayDown(St(), s);
            SemaDown(s, Plain);
          }
        case TryDown(s) =>
          if s in semas && forall l | l in locks :: locks[l].sema != s {
            MayDown(St(), s);
            var _ := SemaTryDown(s, Plain);
          }
        case Up(s) =>
          if s in semas && forall l | l in locks :: locks[l].sema != s {
            MayDown(St(), s);
            SemaUp(s);
          }
        case Acquire(l) =>
          if l in locks && locks[l].holder != Some(current) {
            MayAcquire(St(), l);
            SemaDown(locks[l].sema, TakeLock(l));
          }
        case TryAcquire(l) =>
          if l in locks && locks[l].holder != Some(current) {
            MayAcquire(St(), l);
            var _ := SemaTryDown(locks[l].sema, TakeLock(l));
          }
        case Release(l) =>
          if l in locks && locks[l].holder == Some(current) {
            LockRelease(l);
          }
        case Sleep(until) =>
          ThreadSleep(until);
        case Yield =>
          YieldedSemas(St());
          ThreadYield();
        case Exit =>
          ThreadExit();
        case Create(t, priority) =>
          if t !in threads && threads[current].child == None {
            ThreadCreate(t, priority);
          }
        case Reprioritise(t, priority) =>
          if t in threads {
            SetPriority(t, priority);
          }
      }
    }

    /** The timer interrupt: sleepers are woken, and the running thread may have used up its slice. */
    method TimerInterrupt(now: int, sliceUp: bool)
      requires Valid()
      modifies this
      ensures Valid() && Next(old(St()), Tick(now, sliceUp), St())
    {
      hide Inv, Mid, Counted, Ticked, Yielded, AwakeStep, YieldStep;
      InvFacts(St());
      ThreadAwake(now);
      ghost var m := St();
      if sliceUp {
        YieldedSemas(St());
        ThreadYield();
      }
      assert AwakeStep(old(St()), m, now) && if sliceUp then YieldStep(m, St()) else St() == m;
    }

    /** Every interleaving: whatever the threads do and whenever the timer strikes, every moment of the run is a good
        one. */
    method Run(events: seq<Event>) returns (ghost trace: seq<State>)
      requires Valid()
      modifies this
      ensures Valid() && IsTrace(trace, events) && trace[0] == old(St()) && trace[|events|] == St()
    {
      hide Inv, Counted, Next;
      trace := [St()];
      for i := 0 to |events|
        invariant Valid() && IsTrace(trace, events[..i]) && trace[0] == old(St()) && trace[i] == St()
      {
        match events[i] {
          case Tick(now, sliceUp) => TimerInterrupt(now, sliceUp);
          case Go(action) => Step(action);
        }
        TraceMore(trace, events[..i], events[i], St());
        trace := trace + [St()];
        assert events[..i + 1] == events[..i] + [events[i]];
      }
      assert events[..|events|] == events;
    }
  }

  /** A thread inside a down goes on with it. */
  lemma PcFacts(k: State)
    requires Inv(k)
    ensures k.current != k.idle && k.threads[k.current].pc.Downing? ==>
              CanDown(k, k.threads[k.current].pc.s, k.threads[k.current].pc.k)
  {
  }

  lemma MayDown(k: State, s: nat)
    requires s in k.semas && k.current in k.threads && k.current != k.idle && k.threads[k.current].pc == Free
    requires forall l | l in k.locks :: k.locks[l].sema != s
    ensures CanDown(k, s, Plain) && !IsLockSema(k, s)
  {
  }

  lemma MayAcquire(k: State, l: nat)
    requires Inv(k) && l in k.locks && k.current != k.idle && k.threads[k.current].pc == Free
    ensures CanDown(k, k.locks[l].sema, TakeLock(l))
  {
    assert LockOk(k, l);
  }

  lemma YieldedSemas(k: State)
    requires Inv(k)
    ensures Yielded(k).semas == k.semas
  {
  }

  /** At most one thread is between acquiring a lock and releasing it, and the semaphore is 0 as long as one is. */
  ghost predicate Holds(k: State, t: nat, l: nat) {
    && t in k.threads && l in k.locks
    && (k.locks[l].holder == Some(t) || k.threads[t].pc == Taking(l) || k.threads[t].pc == Releasing(l))
  }

  lemma MutualExclusion(k: State, l: nat, t: nat, u: nat)
    requires Inv(k) && Holds(k, t, l) && Holds(k, u, l)
    ensures t == u && k.locks[l].sema in k.semas && k.semas[k.locks[l].sema].value == 0
  {
    assert LockOk(k, l);
  }

  /** When a semaphore has a positive value and threads wait for it, one of those it has woken is on its way. */
  lemma SomeoneIsComing(k: State, s: nat) returns (t: nat)
    requires Inv(k) && s in k.semas && k.semas[s].value > 0 && k.semas[s].waiters != []
    ensures t in Woken(k, s) && (t == k.current || t in k.ready)
  {
    assert |Woken(k, s)| > 0;
    t :| t in Woken(k, s);
    assert Is(k, t, Ready) || Is(k, t, Running);
  }

  /** The first n sleepers of k have been looked at: those whose time has come are ready, in all else nothing has
      changed. */
  ghost predicate Ticked(k: State, k': State, n: nat, now: int) {
    && n <= |k.sleep| && k'.sleep == StillAsleep(k.sleep[..n], k.threads, now) + k.sleep[n..]
    && ThreadsTicked(k, k', k.sleep[..n], now) && Requeued(k.ready, k.sleep[..n], k.threads, now, k'.ready)
    && k' == k.(threads := k'.threads, ready := k'.ready, sleep := k'.sleep)
  }

  ghost predicate ThreadsTicked(k: State, k': State, seen: seq<nat>, now: int) {
    && k'.threads.Keys == k.threads.Keys && (forall x | x in k.ready :: x in k'.ready)
    && (forall t | t in k.threads && t in seen && k.threads[t].awake <= now ::
          t in k'.ready && k'.threads[t] == k.threads[t].(status := Ready))
    && (forall t | t in k.threads && !(t in seen && k.threads[t].awake <= now) :: k'.threads[t] == k.threads[t])
  }

  /** Neither the current nor a ready thread is to be freed. */
  lemma NotDoomed(k: State)
    requires Inv(k)
    ensures k.current in k.threads && k.current !in k.doomed
    ensures forall x | x in k.ready :: x in k.threads && x !in k.doomed
  { }

  lemma UnlockedIs(k: State, l: nat)
    requires Inv(k) && k.threads[k.current].pc == Releasing(l)
    ensures l in k.locks && k.locks[l].sema in k.semas
    ensures (forall x | x in k.semas[k.locks[l].sema].waiters :: x in k.threads)
    ensures forall x | x in k.ready :: x in k.threads
    ensures Unlocked(k, Upped(k, k.locks[l].sema), Released(k, l), l)
  {
    assert LockOk(k, l);
    hide LocksOk, NoLostWakeup, Unlocked, Queues;
    ReleasedIsUnlock(k, l);
  }

  lemma {:induction false} StillAsleepIs(list: seq<nat>, threads: map<nat, Thread>, now: int)
    ensures Undue(list, threads, now, StillAsleep(list, threads, now))
  {
    if list != [] {
      var n := |list| - 1;
      StillAsleepIs(list[..n], threads, now);
      var rest := StillAsleep(list[..n], threads, now);
      assert (rest + [list[n]])[..|rest + [list[n]]| - 1] == rest && rest + [] == rest;
    }
  }

  lemma TickedAwakes(k: State, k': State, now: int)
    requires Ticked(k, k', |k.sleep|, now) && forall t | t in k.sleep :: t in k.threads
    ensures AwakeStep(k, k', now)
  {
    assert k.sleep[..|k.sleep|] == k.sleep;
    StillAsleepIs(k.sleep, k.threads, now);
    hide StillAsleep, Undue, Requeued;
    assert StillAsleep(k.sleep, k.threads, now) + k.sleep[|k.sleep|..] == StillAsleep(k.sleep, k.threads, now);
    forall t | t in k.threads
      ensures k'.threads[t] == if t in k.sleep && k.threads[t].awake <= now then k.threads[t].(status := Ready)
                else k.threads[t]
    {
      assert t in k.sleep[..|k.sleep|] <==> t in k.sleep;
    }
  }

  /** One more of the sleepers has been looked at. */
  lemma RequeuedMore(ready: seq<nat>, list: seq<nat>, threads: map<nat, Thread>, now: int, r: seq<nat>, t: nat,
                     r': seq<nat>)
    requires Requeued(ready, list, threads, now, r)
    requires if t in threads && threads[t].awake <= now then Queued(r, r', t, threads) else r' == r
    ensures Requeued(ready, list + [t], threads, now, r')
  {
    hide Queued;
    var l := list + [t];
    assert l[..|l| - 1] == list && l[|l| - 1] == t;
  }

  lemma NothingTicked(k: State, now: int)
    ensures Ticked(k, k, 0, now)
  {
  }

  /** Where the loop is in the list it is shortening. */
  lemma SleepStep(list: seq<nat>, threads: map<nat, Thread>, now: int, n: nat, sleep: seq<nat>, i: nat)
    requires n <= |list| && sleep == StillAsleep(list[..n], threads, now) + list[n..] && i < |sleep|
    requires |sleep| - i == |list| - n
    requires Distinct(list)
    ensures n < |list| && list[n] !in list[..n] && sleep[i] == list[n] && list[..n + 1] == list[..n] + [list[n]]
    ensures sleep[..i] == StillAsleep(list[..n], threads, now)
    ensures sleep[..i] + sleep[i + 1..] == StillAsleep(list[..n], threads, now) + list[n + 1..]
    ensures sleep == StillAsleep(list[..n], threads, now) + [list[n]] + list[n + 1..]
    ensures StillAsleep(list[..n + 1], threads, now) ==
            StillAsleep(list[..n], threads, now) + (if list[n] in threads && threads[list[n]].awake <= now then [] else [list[n]])
  {
    assert list[..n + 1][..n] == list[..n];
    hide StillAsleep;
    var asleep := StillAsleep(list[..n], threads, now);
    assert |asleep| == i && sleep[..i] == asleep && sleep[i..] == list[n..];
    assert list[n..] == [list[n]] + list[n + 1..];
  }

  lemma TickedAsleep(k: State, k': State, n: nat, i: nat, now: int)
    requires Distinct(k.sleep) && (forall t | t in k.sleep :: t in k.threads) && Ticked(k, k', n, now)
    requires i < |k'.sleep| && |k'.sleep| - i == |k.sleep| - n
    requires k'.sleep[i] in k'.threads && k'.threads[k'.sleep[i]].awake > now
    ensures Ticked(k, k', n + 1, now)
  {
    SleepStep(k.sleep, k.threads, now, n, k'.sleep, i);
    hide StillAsleep, Distinct;
    var t := k'.sleep[i];
    SeenAsleep(k, k', k.sleep[..n], t, now);
    RequeuedMore(k.ready, k.sleep[..n], k.threads, now, k'.ready, t, k'.ready);
    hide ThreadsTicked, Requeued, Queued;
  }

  lemma SeenAsleep(k: State, k': State, seen: seq<nat>, t: nat, now: int)
    requires ThreadsTicked(k, k', seen, now) && t !in seen && t in k.threads && k.threads[t].awake > now
    ensures ThreadsTicked(k, k', seen + [t], now) && k'.threads[t] == k.threads[t]
  {
  }

  /** A due sleeper is queued by the priorities there were at the start. */
  lemma AwakeQueued(k: State, k': State, seen: seq<nat>, t: nat, now: int)
    requires ThreadsTicked(k, k', seen, now) && t in k.threads && forall x | x in k'.ready :: x in k'.threads
    ensures Queued(k'.ready, Inserted(k'.ready, t, k'.threads), t, k.threads)
  {
    InsertedQueued(k'.ready, t, k'.threads);
    QueuedSame(k'.ready, Inserted(k'.ready, t, k'.threads), t, k'.threads, k.threads);
    hide Inserted, Queued;
  }

  lemma TickedAwake(k: State, k': State, u: State, n: nat, i: nat, now: int)
    requires Distinct(k.sleep) && (forall t | t in k.sleep :: t in k.threads) && Ticked(k, k', n, now)
    requires i < |k'.sleep| && |k'.sleep| - i == |k.sleep| - n
    requires k'.sleep[i] in k'.threads && k'.threads[k'.sleep[i]].awake <= now
    requires forall x | x in k'.ready :: x in k'.threads
    requires u.ready == Inserted(k'.ready, k'.sleep[i], k'.threads) && u.sleep == k'.sleep[..i] + k'.sleep[i + 1..]
    requires u.threads == k'.threads[k'.sleep[i] := k'.threads[k'.sleep[i]].(status := Ready)]
    requires u == k'.(threads := u.threads, ready := u.ready, sleep := u.sleep)
    ensures Ticked(k, u, n + 1, now)
  {
    SleepStep(k.sleep, k.threads, now, n, k'.sleep, i);
    InsertedHas(k'.ready, k'.sleep[i], k'.threads);
    hide Inserted, StillAsleep, Distinct, Queued, Requeued;
    SeenAwake(k, k', u, k.sleep[..n], k.sleep[n], now);
    AwakeQueued(k, k', k.sleep[..n], k.sleep[n], now);
    hide ThreadsTicked;
    RequeuedMore(k.ready, k.sleep[..n], k.threads, now, k'.ready, k.sleep[n], u.ready);
  }

  lemma SeenAwake(k: State, k': State, u: State, seen: seq<nat>, t: nat, now: int)
    requires ThreadsTicked(k, k', seen, now) && t !in seen && t in k.threads
    requires k'.threads[t].awake <= now && u.threads == k'.threads[t := k'.threads[t].(status := Ready)]
    requires forall x :: x in u.ready <==> x == t || x in k'.ready
    ensures ThreadsTicked(k, u, seen + [t], now) && k.threads[t].awake <= now
  {
  }

  lemma SleepersDistinct(k: State)
    requires Inv(k)
    ensures Distinct(k.sleep) && forall t | t in k.sleep :: t in k.threads
  {
  }

  /** The state comes from another one by a switch. */
  ghost predicate SwitchedFrom(k: State, k': State) {
    k.idle in k.threads && k.current in k.threads && (k.ready != [] ==> k.ready[0] in k.threads) && k' == Switched(k)
  }

  lemma SwitchedIs(k: State, k': State)
    requires k.idle in k.threads && k.current in k.threads && (k.ready != [] ==> k.ready[0] in k.threads)
    requires k' == Switched(k)
    ensures SwitchedFrom(k, k') && k'.semas == k.semas && k'.locks == k.locks
  {
  }

  lemma ComparedLocks(k: State)
    requires Inv(k)
    ensures Compared(k).locks == k.locks
  {
  }

  lemma IdleFacts(k: State)
    requires Inv(k)
    ensures k.idle in k.threads && k.threads[k.idle].pc == Free
  {
  }

  lemma ChildFacts(k: State)
    requires Inv(k) && k.threads[k.current].child.Some?
    ensures Is(k, k.threads[k.current].child.value, Blocked) && k.threads[k.current].child.value != k.current
  {
  }

  ghost predicate AfterRelease(k: State, k': State, l: nat) {
    && k.current in k.threads && l in k.locks && k.locks[l].sema in k.semas
    && (forall x | x in k.semas[k.locks[l].sema].waiters ::
          x in k.threads) && (forall x | x in k.ready :: x in k.threads)
    && Inv(Released(k, l)) && k' == Compared(Released(k, l))
  }

  lemma AfterReleaseIs(k: State, k': State, l: nat)
    requires k.current in k.threads && l in k.locks && k.locks[l].sema in k.semas
    requires (forall x | x in k.semas[k.locks[l].sema].waiters :: x in k.threads)
    requires (forall x | x in k.ready :: x in k.threads)
    requires Inv(Released(k, l)) && k' == Compared(Released(k, l))
    ensures AfterRelease(k, k', l)
  {
  }

  lemma ReleasedIs(k: State, k': State, l: nat)
    requires k.current in k.threads && l in k.locks && k.locks[l].sema in k.semas
    requires (forall x | x in k.semas[k.locks[l].sema].waiters :: x in k.threads)
    requires (forall x | x in k.ready :: x in k.threads)
    requires var k1 := Upped(k, k.locks[l].sema);
             k.current in k1.threads && l in k1.locks && k1.threads[k.current].(pc := Free) == k.threads[k.current].(pc := Free)
             && k1.locks == k.locks
             && k' == k1.(threads := k1.threads[k.current := k1.threads[k.current].(pc := Free)],
                        locks := k1.locks[l := k1.locks[l].(owner := None)])
    ensures k' == Released(k, l)
  {
    hide Upped;
  }

  lemma SleeperKnown(k: State, t: nat)
    requires Inv(k) && t in k.sleep
    ensures Is(k, t, Blocked) && forall x | x in k.ready :: x in k.threads
  {
  }

  lemma AwakenedIs(k: State, t: nat, i: nat)
    requires Inv(k) && i < |k.sleep| && k.sleep[i] == t && t in k.threads && forall x | x in k.ready :: x in k.threads
    ensures Awakened(k, t) == Unblocked(k.(sleep := k.sleep[..i] + k.sleep[i + 1..]), t)
  {
    WithoutAt(k.sleep, i);
  }

  lemma {:induction false} WithoutAt(list: seq<nat>, i: nat)
    requires Distinct(list) && i < |list|
    ensures Without(list, list[i]) == list[..i] + list[i + 1..]
  {
    if i > 0 {
      WithoutAt(list[1..], i - 1);
      assert list[1..][..i - 1] == list[1..i];
    }
  }

  /** The current thread has joined the waiters of s, and another one runs. */
  ghost predicate Waited(k: State, k': State, s: nat, goal: Then) {
    && k.current in k.threads && s in k.semas && (forall x | x in k.semas[s].waiters :: x in k.threads)
    && var j := Joined(k, s, goal);
       j.idle in j.threads && j.current in j.threads && (j.ready != [] ==> j.ready[0] in j.threads) && k' == Switched(j)
  }

  lemma WaitedIs(k: State, k': State, s: nat, goal: Then)
    requires k.current in k.threads && s in k.semas && forall x | x in k.semas[s].waiters :: x in k.threads
    requires var j := Joined(k, s, goal);
             j.idle in j.threads && j.current in j.threads && (j.ready != [] ==> j.ready[0] in j.threads) && k' == Switched(j)
    ensures Waited(k, k', s, goal) && k'.semas.Keys == k.semas.Keys
    ensures forall r | r in k.semas :: k'.semas[r].value == k.semas[r].value
  {
    hide Inserted;
  }

  lemma DownFacts(k: State, s: nat, goal: Then)
    requires Inv(k) && CanDown(k, s, goal)
    ensures s in k.semas && k.current in k.threads && k.threads[k.current].status == Running
    ensures (forall x | x in k.semas[s].waiters :: x in k.threads) && (goal.TakeLock? ==> goal.l in k.locks)
  {
    WaitersKnown(k);
  }

  lemma JoinedIs(k: State, s: nat, goal: Then)
    requires k.current in k.threads && s in k.semas && forall x | x in k.semas[s].waiters :: x in k.threads
    ensures Joined(k, s, goal) ==
            k.(semas := k.semas[s := k.semas[s].(waiters := Inserted(k.semas[s].waiters, k.current, k.threads))],
                                     threads := k.threads[k.current :=
                    k.threads[k.current].(status := Blocked, pc := Downing(s, goal))])
  {
  }

  lemma TookIs(k: State, s: nat, goal: Then)
    requires k.current in k.threads && s in k.semas && k.semas[s].value > 0 && (goal.TakeLock? ==> goal.l in k.locks)
    ensures Took(k, s, goal) ==
            k.(threads := k.threads[k.current := k.threads[k.current].(pc := if goal == Plain then Free else Taking(goal.l))],
               semas := k.semas[s := k.semas[s].(value := k.semas[s].value - 1)],
               locks := if goal == Plain then k.locks
                 else k.locks[goal.l := k.locks[goal.l].(owner := Some(k.current))])
  {
  }

  lemma UpFacts(k: State, s: nat)
    requires Queues(k) && s in k.semas
    ensures (forall x | x in k.semas[s].waiters :: x in k.threads) && forall x | x in k.ready :: x in k.threads
    ensures k.semas[s].waiters != [] ==> var w := Sorted(k.semas[s].waiters, k.threads); w != [] && Is(k, w[0], Blocked)
  {
    WaitersKnown(k);
    ReadyKnown(k);
    if k.semas[s].waiters != [] {
      FirstSorted(k, s);
    }
  }

  lemma UppedIs(k: State, k': State, s: nat)
    requires s in k.semas && (forall x | x in k.semas[s].waiters :: x in k.threads)
    requires forall x | x in k.ready :: x in k.threads
    requires if k.semas[s].waiters == [] then k' == k.(semas := k.semas[s := Sema(k.semas[s].value + 1, [])])
             else var w := Sorted(k.semas[s].waiters, k.threads);
                  k' == Unblocked(k.(semas := k.semas[s := Sema(k.semas[s].value, w[1..])]), w[0])
                        .(semas := k.semas[s := Sema(k.semas[s].value + 1, w[1..])])
    ensures k' == Upped(k, s)
  {
    hide Sorted, Inserted;
  }

  lemma InvParts(k: State)
    requires Inv(k)
    ensures Queues(k)
  {
  }

  /** Switching does not touch the semaphores. */
  lemma ComparedSemas(k: State)
    requires Inv(k)
    ensures Compared(k).semas == k.semas && Yielded(k).semas == k.semas
  {
  }

  lemma MidFacts(k: State)
    requires Mid(k)
    ensures k.current in k.threads && k.idle in k.threads && (k.ready != [] ==> k.ready[0] in k.threads)
    ensures forall x | x in k.ready :: x in k.threads
  {
    NextThread(k);
  }

  lemma InvFacts(k: State)
    requires Inv(k)
    ensures Mid(k) && k.current in k.threads && k.idle in k.threads && k.threads[k.current].status == Running
    ensures k.current in Buried(k).threads && (forall x | x in k.ready :: x in k.threads && x in Buried(k).threads)
  {
  }

  lemma {:induction false} InsertedSame(list: seq<nat>, t: nat, threads: map<nat, Thread>, threads': map<nat, Thread>)
    requires t in threads && t in threads' && threads'[t].priority == threads[t].priority
    requires forall x | x in list :: x in threads && x in threads' && threads'[x].priority == threads[x].priority
    ensures Inserted(list, t, threads') == Inserted(list, t, threads)
  {
    if list != [] {
      InsertedSame(list[1..], t, threads, threads');
    }
  }

  lemma Fresh(k: State)
    requires k.ready == [] && k.sleep == [] && k.doomed == [] && k.threads.Keys == {k.initial, k.idle}
    requires k.initial != k.idle
    requires k.current == k.initial && Is(k, k.initial, Running) && Is(k, k.idle, Blocked)
    requires forall t | t in k.threads :: k.threads[t].pc == Free && k.threads[t].child == None
    requires forall s | s in k.semas :: k.semas[s].waiters == []
    requires forall l | l in k.locks :: k.locks[l].owner == None && k.locks[l].holder == None
                                        && k.locks[l].sema in k.semas && k.semas[k.locks[l].sema].value == 1
    requires forall l, m | l in k.locks && m in k.locks && k.locks[l].sema == k.locks[m].sema :: l == m
    ensures Inv(k)
  {
    FreshLocks(k);
    hide LocksOk;
  }

  lemma FreshLocks(k: State)
    requires k.threads.Keys == {k.initial, k.idle} && k.threads[k.initial].pc == Free && k.threads[k.idle].pc == Free
    requires forall l | l in k.locks :: k.locks[l].owner == None && k.locks[l].holder == None
                                        && k.locks[l].sema in k.semas && k.semas[k.locks[l].sema].value == 1
    requires forall l, m | l in k.locks && m in k.locks && k.locks[l].sema == k.locks[m].sema :: l == m
    ensures LocksOk(k)
  {
  }
}
