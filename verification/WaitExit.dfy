/** The handshake between a process that waits and a child that exits, over all interleavings: userprog/process.c with
    the freeing of dead threads in threads/thread.c. */
module WaitExit {
  import opened Sequences

  /** Where a thread is: in ordinary code, or between two steps of thread_create, process_wait or process_exit. */
  datatype Pc =
    | Running
    | Linking(c: nat)                  // has started c, has yet to put it on its child list
    | Waiting(c: nat)                  // has found c, is downing its wait_sema
    | Reading(c: nat)                  // has downed c's wait_sema
    | Unlinking(c: nat, status: int)   // has read c's exit status
    | Upping(c: nat, status: int)      // has taken c off its child list
    | Exiting                          // has upped its wait_sema, is downing its free_sema
    | Dead                             // has downed its free_sema; its page may be freed

  datatype Proc = Proc(pc: Pc, exitStatus: int, waitSema: nat, freeSema: nat, children: seq<nat>, parent: Option<nat>)

  /** The child a thread is concerned with inside process_wait. */
  predicate Uses(pc: Pc, c: nat) {
    match pc
    case Linking(d) => d == c
    case Waiting(d) => d == c
    case Reading(d) => d == c
    case Unlinking(d, _) => d == c
    case Upping(d, _) => d == c
    case _ => false
  }

  /** Past the down of c's wait_sema. */
  predicate Reaping(pc: Pc, c: nat) { Uses(pc, c) && (pc.Reading? || pc.Unlinking? || pc.Upping?) }

  predicate Gone(pc: Pc) { pc == Exiting || pc == Dead }

  ghost predicate ParentReaps(procs: map<nat, Proc>, c: nat)
    requires c in procs
  {
    procs[c].parent.Some? && procs[c].parent.value in procs && Reaping(procs[procs[c].parent.value].pc, c)
  }

  /** Child lists and whatever a thread is concerned with name existing children of its own. */
  ghost predicate LinksOk(procs: map<nat, Proc>) {
    && (forall p | p in procs :: Distinct(procs[p].children))
    && (forall p, c | p in procs && c in procs[p].children :: c in procs && procs[c].parent == Some(p))
    && (forall p, c | p in procs && Uses(procs[p].pc, c) ::
          c in procs && procs[c].parent == Some(p) && (c in procs[p].children <==> !procs[p].pc.Linking? && !procs[p].pc.Upping?))
  }

  function Flag(b: bool): nat { if b then 1 else 0 }

  /** The two semaphores of a child. returned: the children whose status has been returned. */
  ghost predicate SemasOk(procs: map<nat, Proc>, returned: map<nat, int>) {
    forall c | c in procs ::
      && procs[c].waitSema + Flag(ParentReaps(procs, c) || c in returned) == Flag(Gone(procs[c].pc))
      && procs[c].freeSema + Flag(procs[c].pc == Dead) == Flag(c in returned)
  }

  /** Statuses read are those the child exited with, and no child that has been returned is looked at again. */
  ghost predicate StatusOk(procs: map<nat, Proc>, returned: map<nat, int>) {
    && (forall p | p in procs && procs[p].pc.Unlinking? && procs[p].pc.c in procs ::
          procs[p].pc.status == procs[procs[p].pc.c].exitStatus)
    && (forall p | p in procs && procs[p].pc.Upping? && procs[p].pc.c in procs ::
          procs[p].pc.status == procs[procs[p].pc.c].exitStatus)
    && (forall c | c in returned && c in procs :: returned[c] == procs[c].exitStatus)
    && (forall p, c | p in procs && c in returned :: c !in procs[p].children && !Uses(procs[p].pc, c))
  }

  ghost predicate TidsOk(procs: map<nat, Proc>, returned: map<nat, int>, nextTid: nat) {
    && (forall c | c in procs :: c < nextTid && (procs[c].parent.Some? ==> procs[c].parent.value < c))
    && forall c | c in returned :: c < nextTid
  }

  ghost predicate Inv(procs: map<nat, Proc>, returned: map<nat, int>, nextTid: nat) {
    LinksOk(procs) && SemasOk(procs, returned) && StatusOk(procs, returned) && TidsOk(procs, returned, nextTid)
  }

  // ---------------------------------------------------------------- one thread's record changes

  ghost predicate LinksFit(procs: map<nat, Proc>, p: nat, q: Proc) {
    && p in procs && q.parent == procs[p].parent && Distinct(q.children)
    && (forall c | c in q.children :: c in procs && procs[c].parent == Some(p))
    && (forall c | Uses(q.pc, c) ::
          c in procs && procs[c].parent == Some(p) && (c in q.children <==> !q.pc.Linking? && !q.pc.Upping?))
  }

  lemma LinksOne(procs: map<nat, Proc>, p: nat, q: Proc)
    requires LinksOk(procs) && LinksFit(procs, p, q)
    ensures LinksOk(procs[p := q])
  {
  }

  /** The thread's reaping, and its place between exit's two semaphores, stay as they are or are made up for. */
  ghost predicate SemasFit(procs: map<nat, Proc>, p: nat, q: Proc) {
    && p in procs && q.parent == procs[p].parent
    && (forall c :: Reaping(q.pc, c) <==> Reaping(procs[p].pc, c))
    && q.waitSema + Flag(Gone(procs[p].pc)) == procs[p].waitSema + Flag(Gone(q.pc))
    && q.freeSema + Flag(q.pc == Dead) == procs[p].freeSema + Flag(procs[p].pc == Dead)
  }

  lemma SemasOne(procs: map<nat, Proc>, returned: map<nat, int>, p: nat, q: Proc)
    requires SemasOk(procs, returned) && SemasFit(procs, p, q)
    ensures SemasOk(procs[p := q], returned)
  {
    var procs' := procs[p := q];
    forall c | c in procs'
      ensures ParentReaps(procs', c) <==> ParentReaps(procs, c)
    {
    }
  }

  ghost predicate StatusFit(procs: map<nat, Proc>, returned: map<nat, int>, p: nat, q: Proc) {
    && p in procs
    && (q.exitStatus == procs[p].exitStatus || (p !in returned && forall x | x in procs :: !Reaping(procs[x].pc, p)))
    && (q.pc.Unlinking? || q.pc.Upping? ==> q.pc.c != p && q.pc.c in procs && q.pc.status == procs[q.pc.c].exitStatus)
    && (forall c | c in returned :: c !in q.children && !Uses(q.pc, c))
  }

  lemma StatusOne(procs: map<nat, Proc>, returned: map<nat, int>, p: nat, q: Proc)
    requires StatusOk(procs, returned) && StatusFit(procs, returned, p, q)
    ensures StatusOk(procs[p := q], returned)
  {
    forall x | x in procs && (procs[x].pc.Unlinking? || procs[x].pc.Upping?) && procs[x].pc.c == p
      ensures q.exitStatus == procs[p].exitStatus
    {
      assert Reaping(procs[x].pc, p);
    }
  }

  lemma DeadFits(procs: map<nat, Proc>, returned: map<nat, int>, nextTid: nat, c: nat)
    requires Inv(procs, returned, nextTid) && c in procs && procs[c].pc == Exiting && procs[c].freeSema > 0
    ensures var q := procs[c].(pc := Dead, freeSema := procs[c].freeSema - 1);
            LinksFit(procs, c, q) && SemasFit(procs, c, q) && StatusFit(procs, returned, c, q)
  {
    ChildrenFacts(procs, returned, c);
    hide Inv;
  }

  lemma One(procs: map<nat, Proc>, returned: map<nat, int>, nextTid: nat, p: nat, q: Proc)
    requires Inv(procs, returned, nextTid)
    requires LinksFit(procs, p, q) && SemasFit(procs, p, q) && StatusFit(procs, returned, p, q)
    ensures Inv(procs[p := q], returned, nextTid)
  {
    hide LinksFit, SemasFit, StatusFit, LinksOk, SemasOk, StatusOk;
    LinksOne(procs, p, q);
    SemasOne(procs, returned, p, q);
    StatusOne(procs, returned, p, q);
    TidsOne(procs, returned, nextTid, p, q);
  }

  lemma TidsOne(procs: map<nat, Proc>, returned: map<nat, int>, nextTid: nat, p: nat, q: Proc)
    requires TidsOk(procs, returned, nextTid) && LinksFit(procs, p, q)
    ensures TidsOk(procs[p := q], returned, nextTid)
  {
  }

  /** What a thread's place in the code says about itself and its child. */
  lemma UsedFacts(procs: map<nat, Proc>, returned: map<nat, int>, p: nat, c: nat)
    requires LinksOk(procs) && SemasOk(procs, returned) && StatusOk(procs, returned) && p in procs
    requires Uses(procs[p].pc, c)
    ensures c in procs && procs[c].parent == Some(p) && c !in returned
    ensures Distinct(procs[p].children)
    ensures forall d | d in procs[p].children :: d in procs && procs[d].parent == Some(p) && d !in returned
    ensures c in procs[p].children <==> !procs[p].pc.Linking? && !procs[p].pc.Upping?
    ensures Reaping(procs[p].pc, c) ==> procs[c].pc == Exiting && procs[c].waitSema == 0 && procs[c].freeSema == 0
    ensures !Reaping(procs[p].pc, c) ==> procs[c].waitSema == Flag(Gone(procs[c].pc))
    ensures procs[p].pc.Upping? ==> procs[p].pc.status == procs[c].exitStatus
    ensures procs[c].pc != Dead
  {
    assert ParentReaps(procs, c) <==> Reaping(procs[p].pc, c);
  }

  lemma ChildrenFacts(procs: map<nat, Proc>, returned: map<nat, int>, p: nat)
    requires LinksOk(procs) && StatusOk(procs, returned) && p in procs
    ensures Distinct(procs[p].children)
    ensures forall d | d in procs[p].children :: d in procs && procs[d].parent == Some(p) && d !in returned
  {
  }

  /** Nobody reaps a thread that is not exiting. */
  lemma NotReaped(procs: map<nat, Proc>, returned: map<nat, int>, p: nat)
    requires LinksOk(procs) && SemasOk(procs, returned) && p in procs && !Gone(procs[p].pc)
    ensures p !in returned && forall x | x in procs :: !Reaping(procs[x].pc, p)
  {
    assert forall x | x in procs :: Reaping(procs[x].pc, p) ==> ParentReaps(procs, p);
  }

  lemma LinkedChild(procs: map<nat, Proc>, p: nat)
    requires LinksOk(procs) && p in procs && procs[p].pc.Linking?
    ensures procs[p].pc.c in procs && procs[procs[p].pc.c].parent == Some(p)
    ensures Distinct(procs[p].children + [procs[p].pc.c])
    ensures forall d | d in procs[p].children + [procs[p].pc.c] :: d in procs[p].children || d == procs[p].pc.c
  {
    assert Uses(procs[p].pc, procs[p].pc.c);
  }

  lemma NewChild(procs: map<nat, Proc>, returned: map<nat, int>, c: nat, p: nat)
    requires Inv(procs, returned, c) && p in procs && procs[p].pc == Running
    ensures c !in procs
    ensures Inv(procs[c := Proc(Running, 0, 0, 0, [], Some(p))][p := procs[p].(pc := Linking(c))], returned, c + 1)
  {
    var mid := procs[c := Proc(Running, 0, 0, 0, [], Some(p))];
    NewcomerLinks(procs, returned, c, p);
    NewcomerSemas(procs, returned, c, p);
    NewcomerStatus(procs, returned, c, p);
    ChildrenFacts(procs, returned, p);
    hide LinksOk, SemasOk, StatusOk;
    Linked(mid, returned, c, p);
  }

  lemma Linked(mid: map<nat, Proc>, returned: map<nat, int>, c: nat, p: nat)
    requires Inv(mid, returned, c + 1) && p in mid && mid[p].pc == Running && c in mid && mid[c].parent == Some(p)
    requires c !in returned && c !in mid[p].children
    ensures Inv(mid[p := mid[p].(pc := Linking(c))], returned, c + 1)
  {
    ChildrenFacts(mid, returned, p);
    hide Inv;
    One(mid, returned, c + 1, p, mid[p].(pc := Linking(c)));
  }

  lemma NewcomerLinks(procs: map<nat, Proc>, returned: map<nat, int>, c: nat, p: nat)
    requires LinksOk(procs) && TidsOk(procs, returned, c) && p in procs
    ensures c !in procs && c !in returned && c !in procs[p].children
    ensures LinksOk(procs[c := Proc(Running, 0, 0, 0, [], Some(p))])
    ensures TidsOk(procs[c := Proc(Running, 0, 0, 0, [], Some(p))], returned, c + 1)
  {
  }

  lemma NewcomerSemas(procs: map<nat, Proc>, returned: map<nat, int>, c: nat, p: nat)
    requires LinksOk(procs) && SemasOk(procs, returned) && TidsOk(procs, returned, c) && p in procs
    requires procs[p].pc == Running
    ensures SemasOk(procs[c := Proc(Running, 0, 0, 0, [], Some(p))], returned)
  {
    var mid := procs[c := Proc(Running, 0, 0, 0, [], Some(p))];
    forall d | d in procs
      ensures ParentReaps(mid, d) <==> ParentReaps(procs, d)
    {
    }
  }

  lemma NewcomerStatus(procs: map<nat, Proc>, returned: map<nat, int>, c: nat, p: nat)
    requires StatusOk(procs, returned) && LinksOk(procs) && c !in procs && c !in returned
    ensures StatusOk(procs[c := Proc(Running, 0, 0, 0, [], Some(p))], returned)
  {
    assert forall x | x in procs && Uses(procs[x].pc, c) :: c in procs;
  }

  // ---------------------------------------------------------------- a thread and its child

  lemma DownSemas(procs: map<nat, Proc>, returned: map<nat, int>, p: nat, c: nat)
    requires SemasOk(procs, returned) && p in procs && procs[p].pc == Waiting(c) && c in procs && c != p
    requires procs[c].parent == Some(p) && procs[c].waitSema > 0 && c !in returned
    ensures SemasOk(procs[c := procs[c].(waitSema := procs[c].waitSema - 1)][p := procs[p].(pc := Reading(c))], returned)
    ensures procs[c].pc == Exiting || procs[c].pc == Dead
  {
    var procs' := procs[c := procs[c].(waitSema := procs[c].waitSema - 1)][p := procs[p].(pc := Reading(c))];
    forall d | d in procs'
      ensures ParentReaps(procs', d) <==> ParentReaps(procs, d) || d == c
    {
    }
    assert !ParentReaps(procs, c);
  }

  lemma DownKeeps(procs: map<nat, Proc>, returned: map<nat, int>, nextTid: nat, p: nat, c: nat)
    requires Inv(procs, returned, nextTid) && p in procs && procs[p].pc == Waiting(c) && c in procs
    requires procs[c].waitSema > 0
    ensures c != p
    ensures Inv(procs[c := procs[c].(waitSema := procs[c].waitSema - 1)][p := procs[p].(pc := Reading(c))], returned, nextTid)
  {
    UsedFacts(procs, returned, p, c);
    DownSemas(procs, returned, p, c);
    var cq, q := procs[c].(waitSema := procs[c].waitSema - 1), procs[p].(pc := Reading(c));
    PairKeeps(procs, returned, nextTid, p, c, cq, q);
  }

  /** Child and parent change, the child in its semaphores only: links, statuses and identifiers are all right. */
  lemma PairKeeps(procs: map<nat, Proc>, returned: map<nat, int>, nextTid: nat, p: nat, c: nat, cq: Proc, q: Proc)
    requires LinksOk(procs) && StatusOk(procs, returned) && TidsOk(procs, returned, nextTid)
    requires p in procs && c in procs && p != c && cq == procs[c].(waitSema := cq.waitSema, freeSema := cq.freeSema)
    requires LinksFit(procs, p, q) && StatusFit(procs, returned, p, q)
    ensures var procs' := procs[c := cq][p := q];
            LinksOk(procs') && StatusOk(procs', returned) && TidsOk(procs', returned, nextTid)
  {
    var mid := procs[c := cq];
    ChildSemas(procs, returned, nextTid, c, cq);
    ChildFits(procs, returned, p, c, cq, q);
    hide LinksOk, StatusOk, LinksFit, StatusFit;
    LinksOne(mid, p, q);
    StatusOne(mid, returned, p, q);
    TidsOne(mid, returned, nextTid, p, q);
  }

  lemma ChildSemas(procs: map<nat, Proc>, returned: map<nat, int>, nextTid: nat, c: nat, cq: Proc)
    requires LinksOk(procs) && StatusOk(procs, returned) && TidsOk(procs, returned, nextTid)
    requires c in procs && cq == procs[c].(waitSema := cq.waitSema, freeSema := cq.freeSema)
    ensures LinksOk(procs[c := cq]) && StatusOk(procs[c := cq], returned) && TidsOk(procs[c := cq], returned, nextTid)
  {
  }

  lemma ChildFits(procs: map<nat, Proc>, returned: map<nat, int>, p: nat, c: nat, cq: Proc, q: Proc)
    requires c in procs && p != c && cq == procs[c].(waitSema := cq.waitSema, freeSema := cq.freeSema)
    requires LinksFit(procs, p, q) && StatusFit(procs, returned, p, q)
    ensures LinksFit(procs[c := cq], p, q) && StatusFit(procs[c := cq], returned, p, q)
  {
  }

  lemma UpSemas(procs: map<nat, Proc>, returned: map<nat, int>, p: nat, c: nat, status: int)
    requires SemasOk(procs, returned) && p in procs && procs[p].pc == Upping(c, status) && c in procs && c != p
    requires procs[c].parent == Some(p) && c !in returned && procs[c].pc == Exiting && procs[c].waitSema == 0
    requires procs[c].freeSema == 0
    ensures SemasOk(procs[c := procs[c].(freeSema := 1)][p := procs[p].(pc := Running)], returned[c := status])
  {
    var procs' := procs[c := procs[c].(freeSema := 1)][p := procs[p].(pc := Running)];
    forall d | d in procs'
      ensures ParentReaps(procs', d) <==> ParentReaps(procs, d) && d != c
    {
    }
  }

  lemma UpKeeps(procs: map<nat, Proc>, returned: map<nat, int>, nextTid: nat, p: nat, c: nat, status: int)
    requires Inv(procs, returned, nextTid) && p in procs && procs[p].pc == Upping(c, status)
    ensures c in procs && c != p && c !in returned && procs[c].exitStatus == status && procs[c].freeSema == 0
    ensures Inv(procs[c := procs[c].(freeSema := 1)][p := procs[p].(pc := Running)], returned[c := status], nextTid)
  {
    UsedFacts(procs, returned, p, c);
    UpSemas(procs, returned, p, c, status);
    var cq, q := procs[c].(freeSema := 1), procs[p].(pc := Running);
    PairKeeps(procs, returned, nextTid, p, c, cq, q);
    OnlyParentUses(procs, p, c);
    Returned(procs[c := cq][p := q], returned, nextTid, c, status);
  }

  lemma OnlyParentUses(procs: map<nat, Proc>, p: nat, c: nat)
    requires LinksOk(procs) && p in procs && procs[p].pc.Upping? && procs[p].pc.c == c
    ensures c in procs && c < c + 1
    ensures forall x | x in procs && x != p :: c !in procs[x].children && !Uses(procs[x].pc, c)
    ensures c !in procs[p].children
  {
    assert Uses(procs[p].pc, c);
  }

  lemma Returned(procs: map<nat, Proc>, returned: map<nat, int>, nextTid: nat, c: nat, status: int)
    requires StatusOk(procs, returned) && TidsOk(procs, returned, nextTid) && c in procs
    requires procs[c].exitStatus == status
    requires forall x | x in procs :: c !in procs[x].children && !Uses(procs[x].pc, c)
    ensures StatusOk(procs, returned[c := status]) && TidsOk(procs, returned[c := status], nextTid)
  {
  }

  /** Nothing refers to a dead thread. */
  lemma DeadUnreferenced(procs: map<nat, Proc>, returned: map<nat, int>, nextTid: nat, c: nat)
    requires Inv(procs, returned, nextTid) && c in procs && procs[c].pc == Dead
    ensures c in returned && returned[c] == procs[c].exitStatus
    ensures forall p | p in procs :: c !in procs[p].children && !Uses(procs[p].pc, c)
  {
  }

  lemma FreedKeeps(procs: map<nat, Proc>, returned: map<nat, int>, nextTid: nat, c: nat)
    requires Inv(procs, returned, nextTid) && c in procs && procs[c].pc == Dead
    ensures Inv(procs - {c}, returned, nextTid)
  {
    DeadUnreferenced(procs, returned, nextTid, c);
    FreedSemas(procs, returned, c);
    hide SemasOk;
  }

  lemma FreedSemas(procs: map<nat, Proc>, returned: map<nat, int>, c: nat)
    requires SemasOk(procs, returned) && c in procs && procs[c].pc == Dead
    ensures SemasOk(procs - {c}, returned)
  {
    var procs' := procs - {c};
    forall d | d in procs'
      ensures ParentReaps(procs', d) <==> ParentReaps(procs, d)
    {
    }
  }

  class Processes {
    var procs: map<nat, Proc>
    var nextTid: nat
    // the exit statuses process_wait has returned, by child
    ghost var returned: map<nat, int>

    ghost predicate Valid()
      reads this
    {
      Inv(procs, returned, nextTid)
    }

    ghost function St(): World
      reads this
    {
      World(procs, returned, nextTid)
    }

    constructor ()
      ensures Valid() && procs == map[0 := Proc(Running, 0, 0, 0, [], None)] && returned == map[]
    {
      procs, nextTid, returned := map[0 := Proc(Running, 0, 0, 0, [], None)], 1, map[];
    }

    /** `thread_create`: the child may run, and even exit, before it is on the child list. */
    method Create(p: nat) returns (c: nat)
      requires Valid() && p in procs && procs[p].pc == Running
      modifies this
      ensures Valid() && returned == old(returned) && c !in old(procs) && c == old(nextTid) && nextTid == c + 1
      ensures procs == old(procs)[c := Proc(Running, 0, 0, 0, [], Some(p))][p := old(procs)[p].(pc := Linking(c))]
    {
      NewChild(procs, returned, nextTid, p);
      c := nextTid;
      nextTid := nextTid + 1;
      procs := procs[c := Proc(Running, 0, 0, 0, [], Some(p))];
      procs := procs[p := procs[p].(pc := Linking(c))];
    }

    /** The end of thread_create */
    method Link(p: nat)
      requires Valid() && p in procs && procs[p].pc.Linking?
      modifies this`procs
      ensures Valid()
      ensures procs == old(procs)[p := old(procs)[p].(pc := Running, children := old(procs)[p].children + [old(procs)[p].pc.c])]
    {
      UsedFacts(procs, returned, p, procs[p].pc.c);
      LinkedChild(procs, p);
      ghost var q := procs[p].(pc := Running, children := procs[p].children + [procs[p].pc.c]);
      hide Inv;
      One(procs, returned, nextTid, p, q);
      procs := procs[p := procs[p].(pc := Running, children := procs[p].children + [procs[p].pc.c])];
    }

    /** The status a process is going to exit with */
    method SetStatus(p: nat, status: int)
      requires Valid() && p in procs && procs[p].pc == Running
      modifies this`procs
      ensures Valid() && procs == old(procs)[p := old(procs)[p].(exitStatus := status)]
    {
      NotReaped(procs, returned, p);
      ChildrenFacts(procs, returned, p);
      hide Inv;
      One(procs, returned, nextTid, p, procs[p].(exitStatus := status));
      procs := procs[p := procs[p].(exitStatus := status)];
    }

    /** `process_exit` tells the parent ... */
    method ExitUp(c: nat)
      requires Valid() && c in procs && procs[c].pc == Running
      modifies this`procs
      ensures Valid() && procs == old(procs)[c := old(procs)[c].(pc := Exiting, waitSema := old(procs)[c].waitSema + 1)]
    {
      NotReaped(procs, returned, c);
      ChildrenFacts(procs, returned, c);
      hide Inv;
      One(procs, returned, nextTid, c, procs[c].(pc := Exiting, waitSema := procs[c].waitSema + 1));
      procs := procs[c := procs[c].(pc := Exiting, waitSema := procs[c].waitSema + 1)];
    }

    /** ... and waits to be let go. */
    method ExitDown(c: nat)
      requires Valid() && c in procs && procs[c].pc == Exiting && procs[c].freeSema > 0
      modifies this`procs
      ensures Valid() && procs == old(procs)[c := old(procs)[c].(pc := Dead, freeSema := old(procs)[c].freeSema - 1)]
    {
      DeadFits(procs, returned, nextTid, c);
      hide Inv, LinksFit, SemasFit, StatusFit;
      One(procs, returned, nextTid, c, procs[c].(pc := Dead, freeSema := procs[c].freeSema - 1));
      procs := procs[c := procs[c].(pc := Dead, freeSema := procs[c].freeSema - 1)];
    }

    /** `do_schedule` frees the page of a dead thread: its parent has its status, and nothing refers to it any more. */
    method Free(c: nat)
      requires Valid() && c in procs && procs[c].pc == Dead
      modifies this`procs
      ensures Valid() && procs == old(procs) - {c}
      ensures c in returned && returned[c] == old(procs)[c].exitStatus
      ensures forall p | p in procs :: c !in procs[p].children && !Uses(procs[p].pc, c)
    {
      DeadUnreferenced(procs, returned, nextTid, c);
      FreedKeeps(procs, returned, nextTid, c);
      procs := procs - {c};
    }

    /** `process_wait`: looks for the child; the answer is -1 at once if there is none. */
    method WaitFind(p: nat, c: nat) returns (result: Option<int>)
      requires Valid() && p in procs && procs[p].pc == Running
      modifies this`procs
      ensures Valid()
      ensures c !in old(procs)[p].children ==> result == Some(-1) && procs == old(procs)
      ensures c in old(procs)[p].children ==>
                result == None && procs == old(procs)[p := old(procs)[p].(pc := Waiting(c))]
      ensures c in returned ==> result == Some(-1)
    {
      ChildrenFacts(procs, returned, p);
      result := None;
      if c !in procs[p].children {
        return Some(-1);
      }
      hide Inv;
      One(procs, returned, nextTid, p, procs[p].(pc := Waiting(c)));
      procs := procs[p := procs[p].(pc := Waiting(c))];
    }

    /** The child's wait_sema has been upped: from here on its exit status will not change. */
    method WaitDown(p: nat)
      requires Valid() && p in procs && procs[p].pc.Waiting?
      requires procs[p].pc.c in procs ==> procs[procs[p].pc.c].waitSema > 0
      modifies this`procs
      ensures Valid() && var c := old(procs)[p].pc.c;
              && c in old(procs) && Gone(old(procs)[c].pc)
              && procs ==
                  old(procs)[c := old(procs)[c].(waitSema := old(procs)[c].waitSema - 1)][p := old(procs)[p].(pc := Reading(c))]
    {
      var c := procs[p].pc.c;
      UsedFacts(procs, returned, p, c);
      DownKeeps(procs, returned, nextTid, p, c);
      hide Inv;
      procs := procs[c := procs[c].(waitSema := procs[c].waitSema - 1)];
      procs := procs[p := procs[p].(pc := Reading(c))];
    }

    /** The parent reads the exit status: the child is still there, and has exited. */
    method WaitRead(p: nat)
      requires Valid() && p in procs && procs[p].pc.Reading?
      modifies this`procs
      ensures Valid() && var c := old(procs)[p].pc.c;
              c in old(procs) && Gone(old(procs)[c].pc) &&
              procs == old(procs)[p := old(procs)[p].(pc := Unlinking(c, old(procs)[c].exitStatus))]
    {
      var c := procs[p].pc.c;
      UsedFacts(procs, returned, p, c);
      hide Inv;
      One(procs, returned, nextTid, p, procs[p].(pc := Unlinking(c, procs[c].exitStatus)));
      procs := procs[p := procs[p].(pc := Unlinking(c, procs[c].exitStatus))];
    }

    /** The parent takes the child off its list. */
    method WaitUnlink(p: nat)
      requires Valid() && p in procs && procs[p].pc.Unlinking?
      modifies this`procs
      ensures Valid() && var pc := old(procs)[p].pc;
              procs ==
                  old(procs)[p := old(procs)[p].(pc := Upping(pc.c, pc.status), children := Without(old(procs)[p].children, pc.c))]
    {
      var pc := procs[p].pc;
      UsedFacts(procs, returned, p, pc.c);
      WithoutHas(procs[p].children, pc.c);
      ReadStatus(procs, returned, p);
      ghost var q := procs[p].(pc := Upping(pc.c, pc.status), children := Without(procs[p].children, pc.c));
      hide Inv, Without;
      One(procs, returned, nextTid, p, q);
      procs := procs[p := procs[p].(pc := Upping(pc.c, pc.status), children := Without(procs[p].children, pc.c))];
    }

    /** The parent lets the child go and returns its status: the one it exited with, and for the first time. */
    method WaitUp(p: nat) returns (result: int)
      requires Valid() && p in procs && procs[p].pc.Upping?
      modifies this`procs, this`returned
      ensures Valid() && var c := old(procs)[p].pc.c;
              && c in old(procs) && c != p && result == old(procs)[c].exitStatus && c !in old(returned)
              && result == old(procs)[p].pc.status
              && returned == old(returned)[c := result]
              && procs ==
                  old(procs)[c := old(procs)[c].(freeSema := old(procs)[c].freeSema + 1)][p := old(procs)[p].(pc := Running)]
    {
      var c := procs[p].pc.c;
      result := procs[p].pc.status;
      UpKeeps(procs, returned, nextTid, p, c, result);
      hide Inv;
      ghost var after := procs[c := procs[c].(freeSema := 1)][p := procs[p].(pc := Running)];
      procs := procs[c := procs[c].(freeSema := procs[c].freeSema + 1)];
      procs := procs[p := procs[p].(pc := Running)];
      assert procs == after;
      returned := returned[c := result];
    }

    /** One step of some thread, if it can take one; what process_wait returns if it returns in this step. */
    method Step(e: Event) returns (answer: Option<int>)
      requires Valid()
      modifies this
      ensures Valid() && Next(old(St()), e, St(), answer)
    {
      hide Inv, Without;
      answer := None;
      if e.t in procs {
        match procs[e.t].pc {
          case Running =>
            answer := Start(e.t, e.action);
          case Linking(_) =>
            Link(e.t);
          case Waiting(c) =>
            if c in procs && procs[c].waitSema > 0 {
              WaitDown(e.t);
            }
          case Reading(_) =>
            WaitRead(e.t);
          case Unlinking(_, _) =>
            WaitUnlink(e.t);
          case Upping(_, _) =>
            var status := WaitUp(e.t);
            answer := Some(status);
          case Exiting =>
            if procs[e.t].freeSema > 0 {
              ExitDown(e.t);
            }
          case Dead =>
            Free(e.t);
        }
      }
    }

    method Start(t: nat, action: Action) returns (answer: Option<int>)
      requires Valid() && t in procs && procs[t].pc == Running
      modifies this
      ensures Valid() && Starts(old(St()), t, action, St(), answer)
    {
      hide Inv;
      answer := None;
      match action {
        case CreateChild => var _ := Create(t);
        case SetExitStatus(status) => SetStatus(t, status);
        case Exit => ExitUp(t);
        case Wait(c) => answer := WaitFind(t, c);
      }
    }

    /** Every interleaving: the states it goes through, each from the one before by a step of the thread whose turn it
        is, and the answers of process_wait. */
    method Run(events: seq<Event>) returns (answers: seq<Option<int>>, ghost trace: seq<World>)
      requires Valid()
      modifies this
      ensures Valid() && IsTrace(trace, events, answers) && trace[0] == old(St()) && trace[|events|] == St()
    {
      hide Inv, Next;
      answers, trace := [], [St()];
      for i := 0 to |events|
        invariant Valid() && IsTrace(trace, events[..i], answers) && trace[0] == old(St()) && trace[i] == St()
      {
        var answer := Step(events[i]);
        TraceMore(trace, events[..i], answers, events[i], St(), answer);
        answers, trace := answers + [answer], trace + [St()];
        assert events[..i + 1] == events[..i] + [events[i]];
      }
      assert events[..|events|] == events;
    }
  }

  datatype Action = CreateChild | SetExitStatus(status: int) | Exit | Wait(c: nat)

  datatype Event = Event(t: nat, action: Action)

  datatype World = World(procs: map<nat, Proc>, returned: map<nat, int>, nextTid: nat)

  ghost predicate Good(w: World) { Inv(w.procs, w.returned, w.nextTid) }

  /** What a thread in ordinary code does next. */
  ghost predicate Starts(w: World, t: nat, action: Action, w': World, answer: Option<int>)
    requires t in w.procs
  {
    var p := w.procs[t];
    match action
    case CreateChild =>
      && answer == None && w'.nextTid == w.nextTid + 1 && w'.returned == w.returned
      && w'.procs == w.procs[w.nextTid := Proc(Running, 0, 0, 0, [], Some(t))][t := p.(pc := Linking(w.nextTid))]
    case SetExitStatus(status) => answer == None && w' == w.(procs := w.procs[t := p.(exitStatus := status)])
    case Exit => answer == None && w' == w.(procs := w.procs[t := p.(pc := Exiting, waitSema := p.waitSema + 1)])
    case Wait(c) =>
      if c in p.children then answer == None && w' == w.(procs := w.procs[t := p.(pc := Waiting(c))])
      else answer == Some(-1) && w' == w
  }

  /** One atomic step of the thread whose turn it is; a thread that cannot pass a semaphore stays where it is. */
  ghost predicate Next(w: World, e: Event, w': World, answer: Option<int>) {
    if e.t !in w.procs then w' == w && answer == None
    else
      var p := w.procs[e.t];
      match p.pc
      case Running => Starts(w, e.t, e.action, w', answer)
      case Linking(c) =>
        answer == None && w' == w.(procs := w.procs[e.t := p.(pc := Running, children := p.children + [c])])
      case Waiting(c) =>
        && answer == None
        && w' == if c in w.procs && w.procs[c].waitSema > 0
                 then w.(procs := w.procs[c := w.procs[c].(waitSema := w.procs[c].waitSema - 1)][e.t := p.(pc := Reading(c))])
                 else w
      case Reading(c) =>
        answer == None && c in w.procs && w' == w.(procs := w.procs[e.t := p.(pc := Unlinking(c, w.procs[c].exitStatus))])
      case Unlinking(c, status) =>
        && answer == None
        && w' == w.(procs := w.procs[e.t := p.(pc := Upping(c, status), children := Without(p.children, c))])
      case Upping(c, status) =>
        && answer == Some(status) && c in w.procs && c != e.t
        && w' == w.(procs := w.procs[c := w.procs[c].(freeSema := w.procs[c].freeSema + 1)][e.t := p.(pc := Running)],
                    returned := w.returned[c := status])
      case Exiting =>
        && answer == None
        && w' == if p.freeSema > 0 then w.(procs := w.procs[e.t := p.(pc := Dead, freeSema := p.freeSema - 1)]) else w
      case Dead => answer == None && w' == w.(procs := w.procs - {e.t})
  }

  /** The states of a run and what process_wait returned in each step */
  ghost predicate IsTrace(trace: seq<World>, events: seq<Event>, answers: seq<Option<int>>) {
    && |trace| == |events| + 1 && |answers| == |events| && (forall i | 0 <= i < |trace| :: Good(trace[i]))
    && forall i | 0 <= i < |events| :: Next(trace[i], events[i], trace[i + 1], answers[i])
  }

  lemma TraceMore(trace: seq<World>, events: seq<Event>, answers: seq<Option<int>>, e: Event, w: World,
                  answer: Option<int>)
    requires IsTrace(trace, events, answers) && Next(trace[|events|], e, w, answer) && Good(w)
    ensures IsTrace(trace + [w], events + [e], answers + [answer])
  {
    hide Next, Good;
  }

  // ---------------------------------------------------------------- what a run does

  /** How far the wait of p for c has come: 0 not past the semaphore, 1 past it, 2 the status read, 3 the child
      unlinked. */
  ghost predicate Waits(w: World, p: nat, c: nat, status: int, stage: nat) {
    && p in w.procs && c in w.procs && p != c && Gone(w.procs[c].pc) && w.procs[c].exitStatus == status
    && match stage
       case 0 => w.procs[p].pc == Waiting(c)
       case 1 => w.procs[p].pc == Reading(c)
       case 2 => w.procs[p].pc == Unlinking(c, status)
       case _ => w.procs[p].pc == Upping(c, status)
  }

  /** The steps of other threads leave a wait where it is. */
  lemma OthersStay(w: World, e: Event, w': World, answer: Option<int>, p: nat, c: nat, status: int, stage: nat)
    requires Good(w) && Next(w, e, w', answer) && Waits(w, p, c, status, stage) && stage <= 3 && e.t != p
    ensures Waits(w', p, c, status, stage)
  {
    NeverDead(w, p, c);
    PlaceKept(w, e, w', answer, p);
    if e.t == c {
      ChildStays(w, e, w', answer, p, c);
    } else {
      PlaceKept(w, e, w', answer, c);
    }
    hide Good, Next;
  }

  /** A step of another thread changes neither a thread's place nor its exit status. */
  lemma PlaceKept(w: World, e: Event, w': World, answer: Option<int>, t: nat)
    requires Good(w) && Next(w, e, w', answer) && e.t != t && t in w.procs
    ensures t in w'.procs && w'.procs[t].pc == w.procs[t].pc && w'.procs[t].exitStatus == w.procs[t].exitStatus
  {
    assert t < w.nextTid;
    hide Inv, Without;
  }

  /** The child itself can do nothing but wait. */
  lemma ChildStays(w: World, e: Event, w': World, answer: Option<int>, p: nat, c: nat)
    requires Good(w) && Next(w, e, w', answer) && e.t == c && p in w.procs && Uses(w.procs[p].pc, c)
    requires c in w.procs && c != p && Gone(w.procs[c].pc)
    ensures w' == w
  {
    UsedFacts(w.procs, w.returned, p, c);
    assert w.procs[c].freeSema == 0;
  }

  /** A child that is waited for cannot be dead, let alone freed. */
  lemma NeverDead(w: World, p: nat, c: nat)
    requires Good(w) && p in w.procs && Uses(w.procs[p].pc, c)
    ensures c in w.procs && w.procs[c].pc != Dead && c < w.nextTid
  {
    assert w.procs[c].pc == Dead ==> c in w.returned;
  }

  /** The waiting thread's own step takes its wait one further, or ends it with the child's status. */
  lemma OwnStep(w: World, e: Event, w': World, answer: Option<int>, p: nat, c: nat, status: int, stage: nat)
    requires Good(w) && Next(w, e, w', answer) && Waits(w, p, c, status, stage) && stage <= 3 && e.t == p
    ensures stage < 3 ==> Waits(w', p, c, status, stage + 1) && answer == None
    ensures stage == 3 ==> answer == Some(status) && w'.procs[p].pc == Running
  {
    if stage == 0 {
      Enabled(w, p, c);
    }
    hide Inv, Without;
  }

  lemma Enabled(w: World, p: nat, c: nat)
    requires Good(w) && p in w.procs && w.procs[p].pc == Waiting(c)
    ensures c in w.procs && c != p && (Gone(w.procs[c].pc) ==> w.procs[c].waitSema > 0)
  {
    UsedFacts(w.procs, w.returned, p, c);
    assert !ParentReaps(w.procs, c) && c !in w.returned;
  }

  /** How many of a thread's turns are among some events */
  function Turns(events: seq<Event>, p: nat): nat {
    if events == [] then 0 else Turns(events[..|events| - 1], p) + if events[|events| - 1].t == p then 1 else 0
  }

  /** Once the child has exited, the third turn of the waiting parent after the one that passes the semaphore returns
      the child's status, whatever other threads do in between. */
  lemma {:induction false} WaitCompletes(trace: seq<World>, events: seq<Event>, answers: seq<Option<int>>, p: nat,
                                         c: nat, status: int, n: nat)
    requires IsTrace(trace, events, answers) && n <= |events| && Waits(trace[0], p, c, status, 0)
    ensures Turns(events[..n], p) <= 3 ==> Waits(trace[n], p, c, status, Turns(events[..n], p))
    ensures n < |events| && events[n].t == p && Turns(events[..n], p) < 3 ==> answers[n] == None
    ensures n < |events| && events[n].t == p && Turns(events[..n], p) == 3 ==> answers[n] == Some(status)
  {
    hide Next, Good, Waits;
    if n > 0 {
      var m := n - 1;
      WaitCompletes(trace, events, answers, p, c, status, m);
      assert events[..n][..m] == events[..m] && events[..n][m] == events[m];
      if Turns(events[..n], p) <= 3 {
        if events[m].t == p {
          OwnStep(trace[m], events[m], trace[n], answers[m], p, c, status, Turns(events[..m], p));
        } else {
          OthersStay(trace[m], events[m], trace[n], answers[m], p, c, status, Turns(events[..m], p));
        }
      }
    }
    if n < |events| && events[n].t == p && Turns(events[..n], p) <= 3 {
      OwnStep(trace[n], events[n], trace[n + 1], answers[n], p, c, status, Turns(events[..n], p));
    }
  }

  /** A child that exits while its parent waits for it: the parent's fourth turn from then on returns the status the
      child exits with. */
  lemma ExitThenWait(trace: seq<World>, events: seq<Event>, answers: seq<Option<int>>, p: nat, c: nat, n: nat)
    requires IsTrace(trace, events, answers) && 1 <= n < |events| && events[0] == Event(c, Exit)
    requires p in trace[0].procs && trace[0].procs[p].pc == Waiting(c) && c in trace[0].procs
    requires trace[0].procs[c].pc == Running
    requires events[n].t == p && Turns(events[1..n], p) == 3
    ensures answers[n] == Some(trace[0].procs[c].exitStatus)
  {
    Enabled(trace[0], p, c);
    hide Good;
    var status := trace[0].procs[c].exitStatus;
    assert Next(trace[0], events[0], trace[1], answers[0]);
    assert Waits(trace[1], p, c, status, 0);
    hide Next, Waits;
    assert IsTrace(trace[1..], events[1..], answers[1..]);
    assert events[1..][..n - 1] == events[1..n];
    WaitCompletes(trace[1..], events[1..], answers[1..], p, c, status, n - 1);
  }

  /** How far a child whose status has been returned has got by its own turns. */
  ghost predicate Leaves(w: World, c: nat, turns: nat) {
    && c in w.returned && c < w.nextTid
    && if turns == 0 then c in w.procs && w.procs[c].pc == Exiting
       else if turns == 1 then c in w.procs && w.procs[c].pc == Dead
       else c !in w.procs
  }

  lemma LeavesOn(w: World, e: Event, w': World, answer: Option<int>, c: nat, turns: nat)
    requires Good(w) && Next(w, e, w', answer) && Leaves(w, c, turns)
    ensures Leaves(w', c, if e.t == c then turns + 1 else turns)
  {
    assert turns == 0 ==> w.procs[c].freeSema == 1;
    if e.t != c && turns <= 1 {
      PlaceKept(w, e, w', answer, c);
    }
    hide Inv, Without;
  }

  /** Once a child's status has been returned, its first turn lets it die and its second frees its page, for good. */
  lemma {:induction false} ChildGoes(trace: seq<World>, events: seq<Event>, answers: seq<Option<int>>, c: nat, n: nat)
    requires IsTrace(trace, events, answers) && n <= |events|
    requires c in trace[0].returned && c in trace[0].procs && trace[0].procs[c].pc == Exiting
    ensures Leaves(trace[n], c, Turns(events[..n], c))
  {
    hide Next, Leaves;
    if n == 0 {
      StartsLeaving(trace[0], c);
      hide Good;
    } else {
      hide Good;
      ChildGoes(trace, events, answers, c, n - 1);
      assert events[..n][..n - 1] == events[..n - 1] && events[..n][n - 1] == events[n - 1];
      LeavesOn(trace[n - 1], events[n - 1], trace[n], answers[n - 1], c, Turns(events[..n - 1], c));
    }
  }

  lemma StartsLeaving(w: World, c: nat)
    requires Good(w) && c in w.returned && c in w.procs && w.procs[c].pc == Exiting
    ensures Leaves(w, c, 0)
  { }

  /** As long as it has not exited, a wait for the child goes no further. */
  lemma WaitBlocks(w: World, e: Event, w': World, answer: Option<int>, p: nat, c: nat)
    requires Good(w) && Next(w, e, w', answer) && e.t == p && p in w.procs && w.procs[p].pc == Waiting(c)
    requires c in w.procs && !Gone(w.procs[c].pc)
    ensures w' == w && answer == None
  {
    assert w.procs[c].waitSema == 0;
  }

  /** Every status that process_wait returns, other than -1 for want of a child, is recorded, once for each child, and
      stays. */
  lemma AnswerStep(w: World, e: Event, w': World, answer: Option<int>)
    requires Good(w) && Next(w, e, w', answer)
    ensures forall c | c in w.returned :: c in w'.returned && w'.returned[c] == w.returned[c]
    ensures forall c | c in w'.returned && c !in w.returned ::
              && answer == Some(w'.returned[c]) && e.t in w.procs && w.procs[e.t].pc == Upping(c, w'.returned[c])
              && c in w.procs && Gone(w.procs[c].pc) && w.procs[c].exitStatus == w'.returned[c]
    ensures answer.Some? && w'.returned == w.returned ==>
              && answer == Some(-1) && w' == w && e.action.Wait? && e.t in w.procs
              && e.action.c !in w.procs[e.t].children
  {
    if e.t in w.procs && w.procs[e.t].pc.Upping? {
      UsedFacts(w.procs, w.returned, e.t, w.procs[e.t].pc.c);
    }
    hide Without;
  }

  /** A thread calls process_wait for c. */
  ghost predicate Asks(w: World, e: Event, c: nat) {
    e.t in w.procs && w.procs[e.t].pc == Running && e.action == Wait(c)
  }

  /** A thread is about to return c's status from process_wait. */
  ghost predicate Answers(w: World, e: Event, c: nat) {
    e.t in w.procs && w.procs[e.t].pc.Upping? && w.procs[e.t].pc.c == c
  }

  lemma {:induction false} ReturnedStays(trace: seq<World>, events: seq<Event>, answers: seq<Option<int>>, c: nat,
                                         m: nat, n: nat)
    requires IsTrace(trace, events, answers) && m <= n <= |events| && c in trace[m].returned
    ensures c in trace[n].returned && trace[n].returned[c] == trace[m].returned[c]
  {
    hide Next, Good;
    if m < n {
      ReturnedStays(trace, events, answers, c, m, n - 1);
      AnswerStep(trace[n - 1], events[n - 1], trace[n], answers[n - 1]);
    }
  }

  /** After process_wait has returned a child's status, the child is not found again, and its status is not returned
      again. */
  lemma WaitedOnce(trace: seq<World>, events: seq<Event>, answers: seq<Option<int>>, c: nat, m: nat, n: nat)
    requires IsTrace(trace, events, answers) && m < n < |events| && Answers(trace[m], events[m], c)
    ensures answers[m].Some? && c in trace[n].returned && answers[m] == Some(trace[n].returned[c])
    ensures !Answers(trace[n], events[n], c) && (Asks(trace[n], events[n], c) ==> answers[n] == Some(-1))
  {
    hide Good;
    assert Next(trace[m], events[m], trace[m + 1], answers[m]);
    assert Next(trace[n], events[n], trace[n + 1], answers[n]);
    hide Next;
    AnswerIs(trace[m], events[m], trace[m + 1], answers[m], c);
    ReturnedStays(trace, events, answers, c, m + 1, n);
    if Asks(trace[n], events[n], c) {
      NotFound(trace[n], events[n], trace[n + 1], answers[n], c);
    }
    NotAgain(trace[n], events[n], c);
  }

  lemma AnswerIs(w: World, e: Event, w': World, answer: Option<int>, c: nat)
    requires Next(w, e, w', answer) && Answers(w, e, c)
    ensures answer.Some? && c in w'.returned && answer == Some(w'.returned[c])
  { }

  lemma NotAgain(w: World, e: Event, c: nat)
    requires Good(w) && c in w.returned
    ensures !Answers(w, e, c)
  { }

  lemma NotFound(w: World, e: Event, w': World, answer: Option<int>, c: nat)
    requires Good(w) && Next(w, e, w', answer) && c in w.returned && Asks(w, e, c)
    ensures answer == Some(-1)
  { }

  lemma ReadStatus(procs: map<nat, Proc>, returned: map<nat, int>, p: nat)
    requires StatusOk(procs, returned) && p in procs && procs[p].pc.Unlinking? && procs[p].pc.c in procs
    ensures procs[p].pc.status == procs[procs[p].pc.c].exitStatus
  {
  }
}
