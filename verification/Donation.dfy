/** What a thread's priority is after it gives up a lock: priority donation in threads/thread.c. */
module Donation {
  import opened SchedulerState
  import opened Sequences

  /** The donors that wait for other locks, in order. */
  function Others(donors: seq<nat>, waitOnLock: map<nat, nat>, lock: nat): seq<nat> {
    if donors == [] then []
    else
      var n := |donors| - 1;
      Others(donors[..n], waitOnLock, lock)
      + if donors[n] in waitOnLock && waitOnLock[donors[n]] == lock then [] else [donors[n]]
  }

  /** A donor is left if and only if it waits for another lock. */
  lemma {:induction false} OthersHas(donors: seq<nat>, waitOnLock: map<nat, nat>, lock: nat, t: nat)
    ensures t in Others(donors, waitOnLock, lock) <==> t in donors && !(t in waitOnLock && waitOnLock[t] == lock)
  {
    if donors != [] {
      var n := |donors| - 1;
      OthersHas(donors[..n], waitOnLock, lock, t);
      assert donors == donors[..n] + [donors[n]];
    }
  }

  /** p is the highest of a thread's own priority and those of its donors. */
  ghost predicate Highest(p: int, own: int, donors: seq<nat>, threads: map<nat, Thread>) {
    && p >= own && (forall t | t in donors && t in threads :: p >= threads[t].priority)
    && (p == own || exists t :: t in donors && t in threads && p == threads[t].priority)
  }

  /** The running thread, with the threads that have donated their priority to it. */
  class Holder {
    const current: nat
    const initPriority: int
    const waitOnLock: map<nat, nat>
    var threads: map<nat, Thread>
    var donations: seq<nat>

    ghost predicate Valid()
      reads this
    {
      current in threads && current !in donations && forall t | t in donations :: t in threads
    }

    constructor (current: nat, initPriority: int, waitOnLock: map<nat, nat>, threads: map<nat, Thread>, donations: seq<nat>)
      requires current in threads && current !in donations && forall t | t in donations :: t in threads
      ensures Valid() && this.current == current && this.initPriority == initPriority && this.waitOnLock == waitOnLock
      ensures this.threads == threads && this.donations == donations
    {
      this.current, this.initPriority, this.waitOnLock := current, initPriority, waitOnLock;
      this.threads, this.donations := threads, donations;
    }

    /** `remove_donation`: the threads that wait for the lock leave the list while it is walked. */
    method RemoveDonation(lock: nat)
      requires Valid()
      modifies this`donations
      ensures Valid() && donations == Others(old(donations), waitOnLock, lock)
    {
      ghost var all := donations;
      var i := 0;
      ghost var n := 0;
      while i < |donations|
        invariant i <= |donations| && n <= |all| && |donations| - i == |all| - n
        invariant donations[..i] == Others(all[..n], waitOnLock, lock) && donations[i..] == all[n..]
        invariant Valid()
        decreases |all| - n
      {
        var t := donations[i];
        Advance(all, n, donations, i);
        if t in waitOnLock && waitOnLock[t] == lock {
          donations := donations[..i] + donations[i + 1..];
        } else {
          assert donations[..i + 1] == donations[..i] + [t];
          i := i + 1;
        }
        n := n + 1;
      }
      assert all[..n] == all && donations[..i] == donations;
    }

    /** `re_priority`: back to its own priority, or to the highest of those still donated to it. */
    method RePriority()
      requires Valid()
      modifies this
      ensures Valid()
      ensures threads == old(threads)[current := old(threads)[current].(priority := threads[current].priority)]
      ensures Highest(threads[current].priority, initPriority, donations, old(threads))
      ensures forall t :: t in donations <==> t in old(donations)
    {
      ghost var was := threads;
      threads := threads[current := threads[current].(priority := initPriority)];
      if donations != [] {
        ghost var donors := donations;
        SortedHas(donations, threads);
        donations := Sorted(donations, threads);
        assert donations[0] in donations && donations[0] in donors;
        var front := donations[0];
        assert forall t | t in donations :: threads[t] == was[t];
        FrontHighest(donations, threads);
        if threads[current].priority < threads[front].priority {
          threads := threads[current := threads[current].(priority := threads[front].priority)];
        }
      }
    }

    /** What lock_release does before it gives up the lock: the priority is the highest of the thread's own and those
        of the donors that wait for its other locks. */
    method ReleaseDonations(lock: nat)
      requires Valid()
      modifies this
      ensures Valid()
      ensures threads == old(threads)[current := old(threads)[current].(priority := threads[current].priority)]
      ensures Highest(threads[current].priority, initPriority, Others(old(donations), waitOnLock, lock), old(threads))
    {
      RemoveDonation(lock);
      RePriority();
    }
  }

  lemma Advance(all: seq<nat>, n: nat, list: seq<nat>, i: nat)
    requires n < |all| && i < |list| && list[i..] == all[n..]
    ensures list[i] == all[n] && list[i + 1..] == all[n + 1..] && all[..n + 1][..n] == all[..n]
    ensures all[..n + 1][n] == all[n]
  {
    assert list[i..][0] == all[n..][0];
    assert list[i..][1..] == list[i + 1..] && all[n..][1..] == all[n + 1..];
  }

  lemma FrontHighest(list: seq<nat>, threads: map<nat, Thread>)
    requires list != [] && (forall t | t in list :: t in threads) && ByPriority(list, threads)
    ensures forall t | t in list :: threads[list[0]].priority >= threads[t].priority
  { }
}
