/** The fixed-point recurrences of the feedback scheduler in threads/thread.c, and why they stay within 32 bits. */
module Mlfqs {

  /** `f`: 1 in 17.14 fixed point */
  const F: int := 16384
  const TIMER_FREQ: int := 100

  /** C's `int`: overflowing it is undefined, so every operation must be shown to stay inside. */
  predicate Fits(x: int) { -0x8000_0000 <= x <= 0x7FFF_FFFF }

  /** C's division, towards zero */
  function TDiv(a: int, b: int): int
    requires b != 0
  {
    if a >= 0 then (if b > 0 then a / b else 0 - a / (0 - b))
    else (if b > 0 then 0 - (0 - a) / b else (0 - a) / (0 - b))
  }

  // ---------------------------------------------------------------- thread.c:97-134

  function ConvertNtoX(n: int): int
    requires Fits(n * F)
  {
    n * F
  }

  /** `convert_xton`: to the nearest integer, halves away from zero */
  function ConvertXtoN(x: int): int
    requires if x >= 0 then Fits(x + F / 2) else Fits(x - F / 2)
  {
    if x >= 0 then TDiv(x + F / 2, F) else TDiv(x - F / 2, F)
  }

  function AddXandN(x: int, n: int): int
    requires Fits(n * F) && Fits(x + n * F)
  {
    x + n * F
  }

  function MultXbyN(x: int, n: int): int
    requires Fits(x * n)
  {
    x * n
  }

  /** `mult_xbyy`: a 64-bit product, cut back to 32 bits */
  function MultXbyY(x: int, y: int): int
    requires Fits(TDiv(x * y, F))
  {
    TDiv(x * y, F)
  }

  function DivideXbyN(x: int, n: int): int
    requires n != 0 && Fits(TDiv(x, n))
  {
    TDiv(x, n)
  }

  function DivideXbyY(x: int, y: int): int
    requires y != 0 && Fits(TDiv(x * F, y))
  {
    TDiv(x * F, y)
  }

  // ---------------------------------------------------------------- bounds

  lemma Coefficients()
    ensures Fits(59 * F) && Fits(TDiv(59 * F, 60)) && DivideXbyN(ConvertNtoX(59), 60) == 16110
    ensures Fits(F) && Fits(TDiv(F, 60)) && DivideXbyN(ConvertNtoX(1), 60) == 273
  { }

  /** The load average of n ready threads stays below that many: 16110/16384 of it and 273 for each thread. */
  lemma LoadBound(load: int, ready: int, n: int)
    requires 0 <= load <= n * F && 0 <= ready <= n
    ensures 0 <= TDiv(16110 * load, F) + 273 * ready <= n * F
    ensures TDiv(16110 * load, F) <= load
  { }

  /** The decay of recent_cpu, 2 load / (2 load + 1), is at most 2n / (2n + 1). */
  lemma DecayBound(load: int, n: int, c: int)
    requires 0 <= load <= n * F && c == TDiv(2 * load * F, 2 * load + F)
    ensures 0 <= c < F && c * (2 * n + 1) <= 2 * n * F
  { }

  /** A second's decay makes room for a second's ticks and any nice value. */
  lemma RecentBound(c: int, r: int, nice: int, n: int)
    requires n >= 0 && 0 <= c && c * (2 * n + 1) <= 2 * n * F && -20 <= nice <= 20
    requires -(40 * n + 20) * F <= r <= (240 * n + 120) * F
    ensures -(40 * n + 20) * F <= TDiv(c * r, F) + nice * F <= (240 * n + 20) * F
    ensures -40 * n * F <= TDiv(c * r, F) <= 240 * n * F
  { }

  // ---------------------------------------------------------------- what the recurrences approximate

  /** load_avg is 59/60 of what it was and 1/60 for each ready thread, within the error of the coefficients and of
      rounding. */
  lemma LoadNear(load: int, ready: int)
    requires load >= 0 && ready >= 0
    ensures 60 * NewLoad(load, ready) <= 59 * load + 16380 * ready
    ensures 60 * F * NewLoad(load, ready) > 59 * F * load + 16380 * F * ready - 56 * load - 60 * F
  { }

  /** It falls while it is above the number of ready threads, and rises while it is far enough below. */
  lemma LoadMoves(load: int, ready: int)
    requires load >= 0 && ready >= 0
    ensures load > 16380 * ready ==> NewLoad(load, ready) < load
    ensures load * (F + 56) + 60 * F <= 16380 * F * ready ==> NewLoad(load, ready) > load
    ensures NewLoad(0, ready) == 273 * ready
  {
    LoadNear(load, ready);
  }

  /** recent_cpu keeps 2 load / (2 load + 1) of itself, within the two roundings, and the nice value is added to it. */
  lemma DecayNear(load: int, r: int, nice: int)
    requires load >= 0
    ensures var x := NewRecent(load, r, nice) - nice * F;
            if r >= 0 then 0 <= (2 * load + F) * x <= 2 * load * r && F * (2 * load + F) * (x + 1) > 2 * load * r * F - r * (2 * load + F)
            else 2 * load * r <= (2 * load + F) * x <= 0 && F * (2 * load + F) * (x - 1) < 2 * load * r * F - r * (2 * load + F)
  {
    var n, d := 2 * load, 2 * load + F;
    var a := if r >= 0 then r else 0 - r;
    var c := n * F / d;
    DivideDown(n * F, d);
    MulNonNegative(c, a);
    var y := c * a / F;
    DivideDown(c * a, F);
    NewRecentIs(load, r, nice, a, c, y);
    hide NewRecent, TDiv;
    DecayBracket(n, d, c, a, y);
    if r < 0 {
      NegateBracket(n, d, a, y);
    }
  }

  lemma NewRecentIs(load: int, r: int, nice: int, a: int, c: int, y: int)
    requires load >= 0 && a == (if r >= 0 then r else 0 - r) && c == 2 * load * F / (2 * load + F) && c >= 0
    requires y == c * a / F
    ensures NewRecent(load, r, nice) - nice * F == if r >= 0 then y else 0 - y
  {
    MulNonNegative(c, a);
    assert TDiv(2 * load * F, 2 * load + F) == c;
    if r < 0 {
      assert c * r == 0 - c * a;
    }
  }

  lemma DivideDown(a: int, b: int)
    requires a >= 0 && b > 0
    ensures a / b >= 0 && b * (a / b) <= a < b * (a / b + 1)
  { }

  lemma MulNonNegative(a: int, b: int)
    requires a >= 0 && b >= 0
    ensures a * b >= 0
  { }

  lemma DecayBracket(n: int, d: int, c: int, a: int, y: int)
    requires 0 <= n < d && a >= 0 && 0 <= c && d * c <= n * F < d * (c + 1) && F * y <= c * a < F * (y + 1) && y >= 0
    ensures 0 <= d * y <= n * a && F * d * (y + 1) > n * a * F - a * d
  {
    MulNonNegative(d, y);
    MulLeq(d * c, n * F, a);
    MulLeq(F * y, c * a, d);
    assert F * (d * y) == (F * y) * d && (c * a) * d == (d * c) * a && (n * F) * a == F * (n * a);
    MulLeq(n * F, d * (c + 1), a);
    MulLess(c * a, F * (y + 1), d);
    assert d * (c + 1) * a == (c * a) * d + a * d;
    assert F * (y + 1) * d == F * d * (y + 1);
  }

  lemma MulLeq(a: int, b: int, d: int)
    requires a <= b && d >= 0
    ensures a * d <= b * d
  { }

  lemma MulLess(a: int, b: int, d: int)
    requires a < b && d > 0
    ensures a * d < b * d
  { }

  lemma NegateBracket(n: int, d: int, a: int, y: int)
    requires 0 <= d * y <= n * a && F * d * (y + 1) > n * a * F - a * d
    ensures n * (0 - a) <= d * (0 - y) <= 0 && F * d * (0 - y - 1) < n * (0 - a) * F - (0 - a) * d
  {
    assert n * (0 - a) == 0 - n * a && d * (0 - y) == 0 - d * y;
    assert F * d * (0 - y - 1) == 0 - F * d * (y + 1) && (0 - a) * d == 0 - a * d;
  }

  /** A priority is 63 less a quarter of recent_cpu and twice the nice value, to the nearest integer. */
  lemma PriorityNear(r: int, nice: int)
    ensures -2 * F - 4 <= 4 * F * NewPriority(r, nice) + r - 4 * (63 - 2 * nice) * F <= 2 * F + 4
  { }

  // ---------------------------------------------------------------- the scheduler's accounts

  /** With at most this many threads nothing below overflows. */
  const MOST_THREADS: nat := 545

  function NewRecent(load: int, r: int, nice: int): int
    requires load >= 0
  {
    TDiv(TDiv(2 * load * F, 2 * load + F) * r, F) + nice * F
  }

  function NewLoad(load: int, ready: int): int { TDiv(16110 * load, F) + 273 * ready }

  function NewPriority(r: int, nice: int): int {
    var x := TDiv(r, -4) + (63 - nice * 2) * F;
    if x >= 0 then TDiv(x + F / 2, F) else TDiv(x - F / 2, F)
  }

  /** The bounds on recent_cpu k ticks after it last decayed. */
  predicate RecentOk(r: int, n: int, k: int) { -(40 * n + 20) * F <= r <= (240 * n + 20 + k) * F }

  /** `struct thread` as far as it is accounted for */
  datatype Account = Account(recent: int, nice: int, priority: int)

  lemma RecentFits(r: int, n: int, k: int)
    requires 0 <= n <= MOST_THREADS && 0 <= k <= 100 && RecentOk(r, n, k)
    ensures Fits(r) && -540000000 <= TDiv(r, -4) <= 540000000
    ensures r <= (240 * n + 120) * F
  { }

  lemma RecentMore(r: int, n: int, k: int)
    requires RecentOk(r, n, k) && k <= 100
    ensures RecentOk(r, n, 100)
  { }

  /** The largest number of threads for which the bound fits: with one more it does not. */
  lemma MostThreads(n: int)
    requires n >= 0
    ensures Fits((240 * n + 120) * F) <==> n <= MOST_THREADS
  { }

  /** The state k ticks after the last decay. */
  ghost predicate Bounded(threads: map<nat, Account>, allList: seq<nat>, load: int, n: nat, k: int) {
    && n <= MOST_THREADS && 0 <= load <= n * F
    && (forall i, j | 0 <= i < j < |allList| ::
          allList[i] != allList[j]) && (forall t :: t in allList <==> t in threads)
    && forall t | t in threads :: -20 <= threads[t].nice <= 20 && RecentOk(threads[t].recent, n, k)
  }

  lemma LoadFacts(threads: map<nat, Account>, allList: seq<nat>, load: int, n: nat, k: int)
    requires Bounded(threads, allList, load, n, k)
    ensures n <= MOST_THREADS && 0 <= load <= n * F
  { }

  lemma OtherLoad(threads: map<nat, Account>, allList: seq<nat>, load: int, load': int, n: nat, k: int)
    requires Bounded(threads, allList, load, n, k) && 0 <= load' <= n * F
    ensures Bounded(threads, allList, load', n, k)
  { }

  /** A thread's account after tick number ticks. The load is the one after that tick. */
  function AfterTick(a: Account, current: bool, idle: bool, ticks: nat, load: int): Account
    requires load >= 0
  {
    var r := if current && !idle then a.recent + F else a.recent;
    Account(if ticks % TIMER_FREQ == 0 then NewRecent(load, r, a.nice) else r, a.nice,
            if ticks % 4 == 0 && !idle then NewPriority(r, a.nice) else a.priority)
  }

  ghost predicate Charged(m: map<nat, Account>, m': map<nat, Account>, current: nat, idle: nat) {
    current in m && m' == if current == idle then m else m[current := m[current].(recent := m[current].recent + F)]
  }

  ghost predicate Prioritised(m: map<nat, Account>, m': map<nat, Account>, idle: nat) {
    m'.Keys == m.Keys
    && forall t | t in m :: m'[t] == if t == idle then m[t] else m[t].(priority := NewPriority(m[t].recent, m[t].nice))
  }

  ghost predicate Decayed(m: map<nat, Account>, m': map<nat, Account>, load: int) {
    load >= 0 && m'.Keys == m.Keys && forall t | t in m :: m'[t] == m[t].(recent := NewRecent(load, m[t].recent, m[t].nice))
  }

  lemma TickMod(ticks: nat)
    ensures if (ticks + 1) % TIMER_FREQ == 0 then ticks % TIMER_FREQ + 1 == 100 && (ticks + 1) % 4 == 0
            else ticks % TIMER_FREQ + 1 == (ticks + 1) % TIMER_FREQ
  { }

  lemma TickSteps(m0: map<nat, Account>, m1: map<nat, Account>, m2: map<nat, Account>, m3: map<nat, Account>,
                  current: nat, idle: nat, ticks: nat, load: int)
    requires load >= 0 && Charged(m0, m1, current, idle)
    requires if ticks % 4 == 0 then Prioritised(m1, m2, idle) else m2 == m1
    requires if ticks % TIMER_FREQ == 0 then Decayed(m2, m3, load) else m3 == m2
    ensures m3.Keys == m0.Keys && forall t | t in m0 :: m3[t] == AfterTick(m0[t], t == current, t == idle, ticks, load)
  { }

  class Accounts {
    const maxThreads: nat
    const idle: nat
    var loadAvg: int
    var threads: map<nat, Account>
    var allList: seq<nat>
    var ticks: nat

    ghost predicate Ok(k: int)
      reads this
    {
      Bounded(threads, allList, loadAvg, maxThreads, k)
    }

    ghost predicate Valid()
      reads this
    {
      Ok(ticks % TIMER_FREQ)
    }

    ghost function St(): World
      reads this
    {
      World(threads, loadAvg, ticks)
    }

    constructor (maxThreads: nat, idle: nat)
      requires maxThreads <= MOST_THREADS
      ensures Valid() && this.maxThreads == maxThreads && this.idle == idle && loadAvg == 0 && ticks == 0
      ensures threads == map[]
    {
      this.maxThreads, this.idle, loadAvg, threads, allList, ticks := maxThreads, idle, 0, map[], [], 0;
    }

    /** `calculate_recent_cpu`: a tick is charged to the running thread, unless it is the idle one. */
    method CalculateRecentCpu(current: nat)
      requires Ok(ticks % TIMER_FREQ) && current in threads
      modifies this`threads
      ensures Ok(ticks % TIMER_FREQ + 1)
      ensures Charged(old(threads), threads, current, idle)
    {
      if current != idle {
        var recentCpu := threads[current].recent;
        RecentFits(recentCpu, maxThreads, ticks % TIMER_FREQ);
        RecentFits(recentCpu + F, maxThreads, ticks % TIMER_FREQ + 1);
        recentCpu := AddXandN(recentCpu, 1);
        threads := threads[current := threads[current].(recent := recentCpu)];
      }
    }

    /** `calculate_load_avg` */
    method CalculateLoadAvg(current: nat, readyListSize: nat)
      requires 0 <= loadAvg <= maxThreads * F && maxThreads <= MOST_THREADS
      requires readyListSize + (if current == idle then 0 else 1) <= maxThreads
      modifies this`loadAvg
      ensures 0 <= loadAvg <= maxThreads * F
      ensures loadAvg == NewLoad(old(loadAvg), readyListSize + if current == idle then 0 else 1)
    {
      var readyThreads := if current == idle then readyListSize else readyListSize + 1;
      Coefficients();
      LoadBound(loadAvg, readyThreads, maxThreads);
      loadAvg := MultXbyY(DivideXbyN(ConvertNtoX(59), 60), loadAvg) + MultXbyN(DivideXbyN(ConvertNtoX(1), 60), readyThreads);
    }

    /** `recalculate_recent_cpu`: every thread's recent_cpu decays, as fast as the load is low, and its nice value is
        added. */
    method RecalculateRecentCpu()
      requires Ok(100)
      modifies this`threads
      ensures Ok(0) && Decayed(old(threads), threads, loadAvg)
    {
      hide NewRecent, NewPriority, RecentOk;
      ghost var was := threads;
      for i := 0 to |allList|
        modifies this`threads
        invariant threads.Keys == was.Keys
        invariant forall j | 0 <= j < i ::
                    threads[allList[j]] ==
                    was[allList[j]].(recent := NewRecent(loadAvg, was[allList[j]].recent, was[allList[j]].nice))
        invariant forall j | 0 <= j < i :: RecentOk(threads[allList[j]].recent, maxThreads, 0)
        invariant forall j | i <= j < |allList| :: threads[allList[j]] == was[allList[j]]
      {
        var t := allList[i];
        var recent := Decay(loadAvg, threads[t].recent, threads[t].nice, maxThreads);
        threads := threads[t := threads[t].(recent := recent)];
      }
    }

    /** `recalculate_priority`: every thread but the idle one gets the priority its recent_cpu and nice value make. */
    method RecalculatePriority(ghost k: int)
      requires 0 <= k <= 100 && Ok(k)
      modifies this`threads
      ensures Ok(k) && Prioritised(old(threads), threads, idle)
    {
      hide NewRecent, NewPriority, RecentOk;
      ghost var was := threads;
      for i := 0 to |allList|
        modifies this`threads
        invariant threads.Keys == was.Keys
        invariant forall j | 0 <= j < i :: threads[allList[j]] ==
                    if allList[j] == idle then was[allList[j]]
                    else was[allList[j]].(priority := NewPriority(was[allList[j]].recent, was[allList[j]].nice))
        invariant forall j | i <= j < |allList| :: threads[allList[j]] == was[allList[j]]
      {
        var t := allList[i];
        if t != idle {
          RecentMore(threads[t].recent, maxThreads, k);
          var priority := CalculatePriority(threads[t].recent, threads[t].nice, maxThreads);
          threads := threads[t := threads[t].(priority := priority)];
        }
      }
    }

    /** `timer_interrupt`: a tick for the running thread, every fourth tick new priorities, once a second a new load
        average and the decay. */
    method TimerInterrupt(current: nat, readyListSize: nat)
      requires Valid() && current in threads && readyListSize + (if current == idle then 0 else 1) <= maxThreads
      modifies this`threads, this`ticks, this`loadAvg
      ensures Valid() && ticks == old(ticks) + 1 && threads.Keys == old(threads).Keys && loadAvg >= 0
      ensures loadAvg == if ticks % TIMER_FREQ == 0 then NewLoad(old(loadAvg), readyListSize + if current == idle then 0 else 1)
                         else old(loadAvg)
      ensures forall t | t in old(threads) ::
                threads[t] == AfterTick(old(threads)[t], t == current, t == idle, ticks, loadAvg)
      ensures Ticked(old(St()), current, readyListSize, idle, St())
    {
      hide NewRecent, NewPriority, RecentOk, NewLoad, Bounded, Charged, Prioritised, Decayed, AfterTick;
      ghost var m0 := threads;
      CalculateRecentCpu(current);
      ghost var m1 := threads;
      ghost var m2 := m1;
      TickMod(ticks);
      ticks := ticks + 1;
      if ticks % 4 == 0 {
        m2 := FourthTick(current, readyListSize);
      }
      LoadFacts(threads, allList, loadAvg, maxThreads, ticks % TIMER_FREQ);
      TickSteps(m0, m1, m2, threads, current, idle, ticks, loadAvg);
      TickedIs(old(St()), current, readyListSize, idle, St());
    }

    /** What timer_interrupt does every fourth tick. mid: the accounts with their new priorities. */
    method FourthTick(current: nat, readyListSize: nat) returns (ghost mid: map<nat, Account>)
      requires Ok(if ticks % TIMER_FREQ == 0 then 100 else ticks % TIMER_FREQ)
      requires readyListSize + (if current == idle then 0 else 1) <= maxThreads
      modifies this`threads, this`loadAvg
      ensures Valid() && Prioritised(old(threads), mid, idle)
      ensures if ticks % TIMER_FREQ == 0 then Decayed(mid, threads, loadAvg) else threads == mid
      ensures loadAvg == if ticks % TIMER_FREQ == 0 then NewLoad(old(loadAvg), readyListSize + if current == idle then 0 else 1)
                         else old(loadAvg)
    {
      hide NewRecent, NewPriority, RecentOk, NewLoad, Bounded, Prioritised, Decayed;
      ghost var k := if ticks % TIMER_FREQ == 0 then 100 else ticks % TIMER_FREQ;
      RecalculatePriority(k);
      mid := threads;
      if ticks % TIMER_FREQ == 0 {
        LoadFacts(threads, allList, loadAvg, maxThreads, k);
        CalculateLoadAvg(current, readyListSize);
        OtherLoad(threads, allList, old(loadAvg), loadAvg, maxThreads, k);
        RecalculateRecentCpu();
      }
    }

    /** `init_thread`: a new thread has used no processor time. */
    method AddThread(t: nat, priority: int)
      requires Valid() && t !in threads
      modifies this`threads, this`allList
      ensures Valid() && threads == old(threads)[t := Account(0, 0, priority)]
    {
      hide RecentOk;
      NewRecentOk(maxThreads, ticks % TIMER_FREQ);
      threads := threads[t := Account(0, 0, priority)];
      allList := allList + [t];
    }

    /** `thread_exit` takes a thread off the list of all threads. */
    method RemoveThread(t: nat)
      requires Valid() && t in threads
      modifies this`threads, this`allList
      ensures Valid() && threads == old(threads) - {t}
    {
      hide RecentOk;
      var i :| 0 <= i < |allList| && allList[i] == t;
      threads := threads - {t};
      ghost var was := allList;
      allList := allList[..i] + allList[i + 1..];
      assert forall j | 0 <= j < |was| && j != i :: was[j] == allList[if j < i then j else j - 1];
    }

    /** `thread_set_nice` */
    method SetNice(t: nat, nice: int)
      requires Valid() && t in threads && -20 <= nice <= 20
      modifies this`threads
      ensures Valid()
      ensures threads == old(threads)[t := Account(old(threads)[t].recent, nice,
                if t == idle then old(threads)[t].priority else NewPriority(old(threads)[t].recent, nice))]
    {
      hide RecentOk, NewPriority;
      var priority := threads[t].priority;
      if t != idle {
        RecentMore(threads[t].recent, maxThreads, ticks % TIMER_FREQ);
        priority := CalculatePriority(threads[t].recent, nice, maxThreads);
      }
      threads := threads[t := threads[t].(nice := nice, priority := priority)];
    }

    /** One event; a tick with more threads than there may be, or a nice value out of range, does nothing. */
    method Serve(e: Event)
      requires Valid()
      modifies this
      ensures Valid() && Next(old(St()), e, maxThreads, idle, St())
    {
      hide RecentOk, Bounded, NewPriority, Ticked;
      match e {
        case Tick(current, readyListSize) =>
          if current in threads && readyListSize + (if current == idle then 0 else 1) <= maxThreads {
            TimerInterrupt(current, readyListSize);
          }
        case Add(t, priority) =>
          if t !in threads {
            AddThread(t, priority);
          }
        case Remove(t) =>
          if t in threads {
            RemoveThread(t);
          }
        case Nice(t, nice) =>
          if t in threads && -20 <= nice <= 20 {
            SetNice(t, nice);
          }
      }
    }

    /** Every run: whatever threads come, go, run or wait, load_avg and every recent_cpu stay within their bounds. */
    method Run(events: seq<Event>) returns (ghost trace: seq<World>)
      requires Valid()
      modifies this
      ensures Valid() && IsTrace(trace, events, maxThreads, idle) && trace[0] == old(St()) && trace[|events|] == St()
    {
      hide RecentOk, Bounded, Next;
      trace := [St()];
      for i := 0 to |events|
        invariant Valid() && IsTrace(trace, events[..i], maxThreads, idle) && trace[0] == old(St()) && trace[i] == St()
      {
        Serve(events[i]);
        trace := trace + [St()];
        assert events[..i + 1] == events[..i] + [events[i]];
      }
      assert events[..|events|] == events;
    }
  }

  datatype Event =
    | Tick(current: nat, readyListSize: nat) | Add(t: nat, priority: int) | Remove(t: nat) | Nice(t: nat, nice: int)

  datatype World = World(threads: map<nat, Account>, loadAvg: int, ticks: nat)

  /** A timer tick: the running thread is charged, every fourth tick priorities follow, every hundredth the load
      average, and all accounts decay by it. */
  ghost predicate Ticked(w: World, current: nat, readyListSize: nat, idle: nat, w': World) {
    && w'.ticks == w.ticks + 1 && w'.threads.Keys == w.threads.Keys
    && (if w'.ticks % 100 == 0 then w'.loadAvg >= 0 && w'.loadAvg == NewLoad(w.loadAvg, readyListSize + if current == idle then 0 else 1)
        else w'.loadAvg == w.loadAvg)
    && forall t | t in w.threads ::
         var a, b := w.threads[t], w'.threads[t];
         var r := a.recent + if t == current && t != idle then F else 0;
         && b.nice == a.nice
         && b.priority == (if w'.ticks % 4 == 0 && t != idle then NewPriority(r, a.nice) else a.priority)
         && (w'.ticks % 100 != 0 ==> b.recent == r)
         && (w'.ticks % 100 == 0 && w'.loadAvg >= 0 ==> b.recent == NewRecent(w'.loadAvg, r, a.nice))
  }

  lemma TickedIs(w: World, current: nat, readyListSize: nat, idle: nat, w': World)
    requires w'.loadAvg >= 0 && w'.ticks == w.ticks + 1 && w'.threads.Keys == w.threads.Keys
    requires w'.loadAvg == if w'.ticks % 100 == 0 then NewLoad(w.loadAvg, readyListSize + if current == idle then 0 else 1)
                           else w.loadAvg
    requires forall t | t in w.threads ::
              w'.threads[t] == AfterTick(w.threads[t], t == current, t == idle, w'.ticks, w'.loadAvg)
    ensures Ticked(w, current, readyListSize, idle, w')
  {
    hide NewRecent, NewPriority, NewLoad;
  }

  ghost predicate Next(w: World, e: Event, maxThreads: nat, idle: nat, w': World) {
    match e
    case Tick(current, readyListSize) =>
      if current in w.threads && readyListSize + (if current == idle then 0 else 1) <= maxThreads
      then Ticked(w, current, readyListSize, idle, w') else w' == w
    case Add(t, priority) => w' == if t in w.threads then w else w.(threads := w.threads[t := Account(0, 0, priority)])
    case Remove(t) => w' == w.(threads := w.threads - {t})
    case Nice(t, nice) =>
      if t in w.threads && -20 <= nice <= 20
      then
        w' == w.(threads := w.threads[t := Account(w.threads[t].recent, nice,
                if t == idle then w.threads[t].priority else NewPriority(w.threads[t].recent, nice))])
      else w' == w
  }

  ghost predicate IsTrace(trace: seq<World>, events: seq<Event>, maxThreads: nat, idle: nat) {
    |trace| == |events| + 1 && forall i | 0 <= i < |events| :: Next(trace[i], events[i], maxThreads, idle, trace[i + 1])
  }

  /** How many ticks find thread t running */
  function TicksOf(events: seq<Event>, t: nat): nat {
    if events == [] then 0
    else TicksOf(events[..|events| - 1], t) + if events[|events| - 1].Tick? && events[|events| - 1].current == t then 1 else 0
  }

  /** Between two decays, a thread is charged exactly the ticks in which it runs. */
  lemma {:induction false} ChargedExactly(trace: seq<World>, events: seq<Event>, maxThreads: nat, idle: nat, t: nat,
                                          n: nat)
    requires IsTrace(trace, events, maxThreads, idle) && n <= |events| && t in trace[0].threads && t != idle
    requires forall i | 0 <= i < n :: events[i].Tick? && events[i].current in trace[0].threads
                                      && events[i].readyListSize < maxThreads
    requires trace[0].ticks % 100 + n < 100
    ensures trace[n].threads.Keys == trace[0].threads.Keys && trace[n].ticks == trace[0].ticks + n
    ensures trace[n].threads[t].recent == trace[0].threads[t].recent + TicksOf(events[..n], t) * F
  {
    hide NewLoad, NewRecent, NewPriority;
    if n > 0 {
      ChargedExactly(trace, events, maxThreads, idle, t, n - 1);
      assert events[..n][..n - 1] == events[..n - 1] && events[..n][n - 1] == events[n - 1];
      assert Next(trace[n - 1], events[n - 1], maxThreads, idle, trace[n]);
      NoHundred(trace[0].ticks, n);
    }
  }

  lemma NoHundred(ticks: nat, n: nat)
    requires n > 0 && ticks % 100 + n < 100
    ensures (ticks + n) % 100 != 0
  { }

  lemma NewRecentOk(n: nat, k: nat)
    ensures RecentOk(0, n, k)
  { }

  /** What the bounds are good for: every account fits in 32 bits at every moment. */
  lemma BoundsFit(r: int, load: int, n: nat, k: int)
    requires n <= MOST_THREADS && 0 <= k <= 100 && RecentOk(r, n, k) && 0 <= load <= n * F
    ensures Fits(r) && Fits(2 * load + F) && Fits(load * TIMER_FREQ)
  { }

  /** One thread's step of recalculate_recent_cpu */
  method Decay(load: int, r: int, nice: int, n: nat) returns (recent: int)
    requires n <= MOST_THREADS && 0 <= load <= n * F && -20 <= nice <= 20 && RecentOk(r, n, 100)
    ensures recent == NewRecent(load, r, nice) && RecentOk(recent, n, 0)
  {
    var c := TDiv(2 * load * F, 2 * load + F);
    DecayBound(load, n, c);
    RecentBound(c, r, nice, n);
    DecayFits(TDiv(c * r, F), n);
    assert MultXbyN(load, 2) == 2 * load;
    recent := MultXbyY(DivideXbyY(MultXbyN(load, 2), MultXbyN(load, 2) + ConvertNtoX(1)), r) + ConvertNtoX(nice);
  }

  lemma DecayFits(x: int, n: nat)
    requires n <= MOST_THREADS && -40 * n * F <= x <= 240 * n * F
    ensures Fits(x)
  { }

  /** `calculate_priority` */
  method CalculatePriority(r: int, nice: int, n: nat) returns (priority: int)
    requires n <= MOST_THREADS && RecentOk(r, n, 100) && -20 <= nice <= 20
    ensures priority == NewPriority(r, nice)
  {
    RecentFits(r, n, 100);
    priority := ConvertXtoN(AddXandN(DivideXbyN(r, -4), 63 - nice * 2));
  }

  /** Nothing clamps a priority to the range from 0 to 63: it stays there exactly while recent_cpu is in this band. */
  lemma PriorityInRange(r: int, nice: int)
    requires -20 <= nice <= 20
    ensures 0 <= NewPriority(r, nice) <= 63 <==>
              r < 4 * ((63 - 2 * nice) * F + F / 2) && r > 4 * (0 - 2 * nice * F - F / 2) + (if nice < 0 then 3 else 0)
  { }

  /** A thread that has not run yet and is as un-nice as can be is already above the highest priority. */
  lemma PriorityOutOfRange()
    ensures NewPriority(0, -20) == 103
  { }
}
