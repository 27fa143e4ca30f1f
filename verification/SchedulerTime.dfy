/** CPU time is conserved: every microsecond between two scheduling points is charged to exactly
    one task, and once more to its parent's children time. */
module SchedulerTime {
  import opened Bits
  import opened Lists
  import opened Outcomes
  import opened Scheduler
  import opened SchedulerSafety

  /** Whether `t` belongs to the sum over everyone (`None`) or over the children of `who`. */
  predicate Counts<T(==)>(t: Task<T>, who: Option<T>) {
    who.None? || t.parent == who
  }

  function Sum<T(==)>(q: seq<T>, tasks: map<T, Task<T>>, who: Option<T>): nat
    requires forall t | t in q :: t in tasks
  {
    if q == [] then 0
    else (if Counts(tasks[q[0]], who) then tasks[q[0]].utime else 0) + Sum(q[1..], tasks, who)
  }

  lemma {:induction false} SumSame<T>(q: seq<T>, tasks: map<T, Task<T>>, tasks': map<T, Task<T>>, who: Option<T>)
    requires forall t | t in q :: t in tasks && t in tasks'
    requires forall t | t in q :: tasks[t].utime == tasks'[t].utime && tasks[t].parent == tasks'[t].parent
    ensures Sum(q, tasks, who) == Sum(q, tasks', who)
  {
    if q != [] { SumSame(q[1..], tasks, tasks', who); }
  }

  /** Charging one queued task changes each sum it belongs to by the change of its own time. */
  lemma {:induction false} SumCharged<T>(q: seq<T>, tasks: map<T, Task<T>>, tasks': map<T, Task<T>>, t: T, who: Option<T>)
    requires Distinct(q) && t in q && forall x | x in q :: x in tasks && x in tasks'
    requires forall x | x in q :: tasks[x].parent == tasks'[x].parent
    requires forall x | x in q && x != t :: tasks[x].utime == tasks'[x].utime
    ensures Sum(q, tasks', who)
         == Sum(q, tasks, who) + if Counts(tasks[t], who) then tasks'[t].utime - tasks[t].utime else 0
  {
    DistinctTail(q);
    if q[0] == t {
      SumSame(q[1..], tasks, tasks', who);
    } else {
      SumCharged(q[1..], tasks, tasks', t, who);
    }
  }

  // -------------------------------------------------- any number of CPUs

  /** Modulo the width of the counters, the times of all tasks add up to the last scheduling
      point, and each task's children time is the sum of its children's times. */
  ghost predicate Conserved<T>(s: Sched<T>)
    requires Shape(s)
  {
    && Wrap(Sum(s.queue, s.tasks, None)) == Wrap(s.last)
    && forall p | p in s.tasks :: s.tasks[p].cutime == Wrap(Sum(s.queue, s.tasks, Some(p)))
  }

  lemma WrapShift(a: int, b: int, u: Word, dt: int)
    requires Wrap(a) == Wrap(b)
    ensures Wrap(a + (Wrap(u + dt) - u)) == Wrap(b + dt)
  {
    WrapAdd(u + dt, a - u);
    WrapAdd(a, dt);
    WrapAdd(b, dt);
  }

  /** `tasks'` is `tasks` with `dt` charged to `t`, and to nobody else except its parent's
      children time. */
  ghost predicate Charged<T>(tasks: map<T, Task<T>>, tasks': map<T, Task<T>>, t: T, dt: int) {
    && t in tasks && tasks'.Keys == tasks.Keys
    && tasks'[t].utime == Wrap(tasks[t].utime + dt)
    && (forall x | x in tasks && x != t :: tasks'[x].utime == tasks[x].utime)
    && (forall x | x in tasks :: tasks'[x].parent == tasks[x].parent)
    && (forall x | x in tasks ::
          tasks'[x].cutime == if tasks[t].parent == Some(x) then Wrap(tasks[x].cutime + dt) else tasks[x].cutime)
  }

  lemma ChargeCharges<T>(tasks: map<T, Task<T>>, t: T, dt: int)
    requires t in tasks && ParentKnown(tasks, t)
    ensures Charged(tasks, Charge(tasks, t, dt), t, dt)
  {
  }

  lemma ChildrenCharged<T>(q: seq<T>, tasks: map<T, Task<T>>, tasks': map<T, Task<T>>, t: T, dt: int, p: T)
    requires Distinct(q) && t in q && p in tasks && (forall x | x in q :: x in tasks)
    requires Charged(tasks, tasks', t, dt) && tasks[p].cutime == Wrap(Sum(q, tasks, Some(p)))
    ensures tasks'[p].cutime == Wrap(Sum(q, tasks', Some(p)))
  {
    SumCharged(q, tasks, tasks', t, Some(p));
    if tasks[t].parent == Some(p) {
      ChildShift(Sum(q, tasks, Some(p)), tasks[p].cutime, tasks[t].utime, dt);
    }
  }

  lemma ChildShift(sum: int, cutime: Word, u: Word, dt: int)
    requires cutime == Wrap(sum)
    ensures Wrap(cutime + dt) == Wrap(sum + (Wrap(u + dt) - u))
  {
    WrapWord(cutime);
    WrapShift(sum, cutime, u, dt);
  }

  lemma TotalCharged<T>(q: seq<T>, tasks: map<T, Task<T>>, tasks': map<T, Task<T>>, t: T, dt: int, last: int)
    requires Distinct(q) && t in q && (forall x | x in q :: x in tasks)
    requires Charged(tasks, tasks', t, dt) && Wrap(Sum(q, tasks, None)) == Wrap(last)
    ensures Wrap(Sum(q, tasks', None)) == Wrap(last + dt)
  {
    SumCharged(q, tasks, tasks', t, None);
    WrapShift(Sum(q, tasks, None), last, tasks[t].utime, dt);
  }

  lemma ChargeConserves<T>(s: Sched<T>, r: Sched<T>, t: T, dt: int)
    requires Shape(s) && Shape(r) && Conserved(s) && Charged(s.tasks, r.tasks, t, dt)
    requires r.queue == s.queue && r.last == s.last + dt
    ensures Conserved(r)
  {
    TotalCharged(s.queue, s.tasks, r.tasks, t, dt, s.last);
    forall p | p in r.tasks ensures r.tasks[p].cutime == Wrap(Sum(r.queue, r.tasks, Some(p))) {
      ChildrenCharged(s.queue, s.tasks, r.tasks, t, dt, p);
    }
  }

  /** `__timing` charges the current task with the time since the last scheduling point. */
  lemma TimedCharges<T>(s: Sched<T>, c: nat, r: Sched<T>)
    requires Shape(s) && c < |s.cpus| && r == Timed(s, c)
    ensures Charged(s.tasks, r.tasks, s.cpus[c].current, r.last - s.last)
    ensures r.queue == s.queue && r.cpus == s.cpus && r.last == Now(s.cpus[c])
  {
    ChargeCharges(s.tasks, s.cpus[c].current, Now(s.cpus[c]) - s.last);
  }

  lemma TimedConserves<T>(s: Sched<T>, c: nat)
    requires Shape(s) && c < |s.cpus| && Conserved(s)
    ensures Conserved(Timed(s, c))
  {
    var r := Timed(s, c);
    TimedCharges(s, c, r);
    ChargeConserves(s, r, s.cpus[c].current, r.last - s.last);
  }

  /** Nobody's time or parent differs. */
  ghost predicate SameTimes<T>(s: Sched<T>, r: Sched<T>) {
    && r.queue == s.queue && r.last == s.last && r.tasks.Keys == s.tasks.Keys
    && forall t | t in s.tasks ::
         && r.tasks[t].utime == s.tasks[t].utime
         && r.tasks[t].cutime == s.tasks[t].cutime
         && r.tasks[t].parent == s.tasks[t].parent
  }

  lemma StepBackSameTimes<T>(s: Sched<T>, c: nat)
    requires Shape(s) && c < |s.cpus|
    ensures SameTimes(s, StepBack(s, c))
  {
  }

  lemma DispatchSameTimes<T>(s: Sched<T>, c: nat, t: T)
    requires Shape(s) && c < |s.cpus| && t in s.tasks
    ensures SameTimes(s, Dispatch(s, c, t))
  {
  }

  lemma SameTimesTransitive<T>(a: Sched<T>, b: Sched<T>, c: Sched<T>)
    requires SameTimes(a, b) && SameTimes(b, c)
    ensures SameTimes(a, c)
  {
  }

  /** Switching tasks charges nobody. */
  lemma SwitchSameTimes<T>(s: Sched<T>, c: nat)
    requires Shape(s) && c < |s.cpus| && Switch(s, c).Some?
    ensures SameTimes(s, Switch(s, c).value)
  {
    var back := StepBack(s, c);
    var next := Next(back, c).value;
    StepBackSameTimes(s, c);
    DispatchSameTimes(back, c, next);
    SameTimesTransitive(s, back, Dispatch(back, c, next));
  }

  lemma SameConserved<T>(s: Sched<T>, r: Sched<T>)
    requires Shape(s) && Shape(r) && Conserved(s) && SameTimes(s, r)
    ensures Conserved(r)
  {
    SumSame(s.queue, s.tasks, r.tasks, None);
    forall p | p in r.tasks ensures r.tasks[p].cutime == Wrap(Sum(r.queue, r.tasks, Some(p))) {
      SumSame(s.queue, s.tasks, r.tasks, Some(p));
    }
  }

  lemma SwitchConserves<T>(s: Sched<T>, c: nat)
    requires Shape(s) && c < |s.cpus| && Conserved(s) && Switch(s, c).Some?
    ensures Conserved(Switch(s, c).value)
  {
    SwitchSameTimes(s, c);
    SameConserved(s, Switch(s, c).value);
  }

  lemma {:induction false} SumNoChildren<T>(q: seq<T>, tasks: map<T, Task<T>>, p: T)
    requires forall t | t in q :: t in tasks && tasks[t].parent != Some(p)
    ensures Sum(q, tasks, Some(p)) == 0
  {
    if q != [] { SumNoChildren(q[1..], tasks, p); }
  }

  lemma SumSpawned<T>(s: Sched<T>, t: T, task: Task<T>, who: Option<T>)
    requires Shape(s) && Allowed(s, Spawn(t, task)) && Shape(Enqueue(s, t, task))
    ensures Sum(Enqueue(s, t, task).queue, Enqueue(s, t, task).tasks, who) == Sum(s.queue, s.tasks, who)
  {
    var r := Enqueue(s, t, task);
    assert r.queue[1..] == s.queue;
    SumSame(s.queue, s.tasks, r.tasks, who);
  }

  lemma SpawnConserves<T>(s: Sched<T>, t: T, task: Task<T>)
    requires Shape(s) && Conserved(s) && Allowed(s, Spawn(t, task)) && Shape(Enqueue(s, t, task))
    ensures Conserved(Enqueue(s, t, task))
  {
    var r := Enqueue(s, t, task);
    SumSpawned(s, t, task, None);
    forall p | p in r.tasks ensures r.tasks[p].cutime == Wrap(Sum(r.queue, r.tasks, Some(p))) {
      SumSpawned(s, t, task, Some(p));
      if p == t {
        assert forall x | x in s.tasks :: ParentKnown(s.tasks, x);
        SumNoChildren(s.queue, s.tasks, p);
      }
    }
  }

  lemma ResumeConserves<T>(s: Sched<T>, c: nat, keep: bool)
    requires Shape(s) && c < |s.cpus| && Conserved(s) && Resume(s, c, keep).Some?
    ensures Conserved(Resume(s, c, keep).value)
  {
    if !keep { SwitchConserves(s, c); }
  }

  lemma DoConserves<T>(s: Sched<T>, op: Op<T>)
    requires Shape(s) && Conserved(s) && Allowed(s, op) && Do(s, op).Some?
    ensures Conserved(Do(s, op).value)
  {
    match op
    case TimerInterrupt(c) =>
      var ticked := s.(cpus := s.cpus[c := Tick(s.cpus[c])]);
      TimedConserves(ticked, c);
      var timed := Timed(ticked, c);
      ResumeConserves(timed, c, KeepsRunning(timed.tasks[ticked.cpus[c].current]));
    case YieldOn(c) =>
      TimedConserves(s, c);
      SwitchConserves(Timed(s, c), c);
    case Spawn(t, task) =>
      SpawnConserves(s, t, task);
  }

  /** Every run on any number of CPUs conserves CPU time. */
  lemma {:induction false} RunConserves<T>(s: Sched<T>, ops: seq<Op<T>>)
    requires Shape(s) && Conserved(s) && Run(s, ops).Some?
    ensures Conserved(Run(s, ops).value)
    decreases |ops|
  {
    if ops != [] {
      DoConserves(s, ops[0]);
      RunConserves(Do(s, ops[0]).value, ops[1..]);
    }
  }

  // ------------------------------------------------------------- one CPU

  /** The tick clock after `n` ticks. */
  ghost predicate ClockAt<T>(cpu: Cpu<T>, n: nat) {
    cpu.nsec < 1000000000 && 1000000 * n == 1000000000 * cpu.sec + cpu.nsec
  }

  /** After `n` ticks `arch_timer_getus` is exactly 1000n. */
  lemma ClockCounts<T>(cpu: Cpu<T>, n: nat)
    requires ClockAt(cpu, n)
    ensures Now(cpu) == 1000 * n && ClockAt(Tick(cpu), n + 1)
  {
    var k := n - 1000 * cpu.sec;
    assert cpu.nsec == 1000 * (1000 * k);
    assert cpu.nsec / 1000 == 1000 * k;
  }

  function Ticks<T>(ops: seq<Op<T>>): nat {
    if ops == [] then 0 else (if ops[0].TimerInterrupt? then 1 else 0) + Ticks(ops[1..])
  }

  /** The true milliseconds of all tasks. */
  function TotalMs<T>(q: seq<T>, ms: map<T, nat>): nat
    requires forall t | t in q :: t in ms
  {
    if q == [] then 0 else ms[q[0]] + TotalMs(q[1..], ms)
  }

  lemma {:induction false} TotalSame<T>(q: seq<T>, ms: map<T, nat>, ms': map<T, nat>)
    requires forall t | t in q :: t in ms && t in ms' && ms[t] == ms'[t]
    ensures TotalMs(q, ms) == TotalMs(q, ms')
  {
    if q != [] { TotalSame(q[1..], ms, ms'); }
  }

  lemma {:induction false} TotalGrows<T>(q: seq<T>, ms: map<T, nat>, t: T, k: nat)
    requires Distinct(q) && t in q && forall x | x in q :: x in ms
    ensures TotalMs(q, ms[t := ms[t] + k]) == TotalMs(q, ms) + k
  {
    DistinctTail(q);
    if q[0] == t {
      TotalSame(q[1..], ms, ms[t := ms[t] + k]);
    } else {
      TotalGrows(q[1..], ms, t, k);
    }
  }

  lemma {:induction false} PartOfTotal<T>(q: seq<T>, ms: map<T, nat>, t: T)
    requires t in q && forall x | x in q :: x in ms
    ensures ms[t] <= TotalMs(q, ms)
  {
    if q[0] != t { PartOfTotal(q[1..], ms, t); }
  }

  /** Exact bookkeeping on one CPU after `n` ticks: `ms` are whole milliseconds that add up to the last
      scheduling point, and each task's counter shows its own modulo 2^32 microseconds. */
  ghost predicate Booked<T>(s: Sched<T>, n: nat, ms: map<T, nat>) {
    && Shape(s) && |s.cpus| == 1 && ClockAt(s.cpus[0], n)
    && AllShow(s.tasks, ms)
    && s.last == 1000 * TotalMs(s.queue, ms) && s.last <= 1000 * n
  }

  ghost predicate Shows<T>(t: Task<T>, ms: nat) {
    t.utime == Wrap(1000 * ms)
  }

  lemma ShowsMore<T>(t: Task<T>, t': Task<T>, ms: nat, k: nat)
    requires Shows(t, ms) && t'.utime == Wrap(t.utime + 1000 * k)
    ensures Shows(t', ms + k)
  {
    WrapAdd(1000 * ms, 1000 * k);
  }

  ghost predicate AllShow<T>(tasks: map<T, Task<T>>, ms: map<T, nat>) {
    && ms.Keys == tasks.Keys
    && forall t {:trigger Shows(tasks[t], ms[t])} | t in tasks :: Shows(tasks[t], ms[t])
  }

  lemma ChargedShow<T>(tasks: map<T, Task<T>>, tasks': map<T, Task<T>>, ms: map<T, nat>, cur: T, k: nat)
    requires AllShow(tasks, ms) && Charged(tasks, tasks', cur, 1000 * k)
    ensures AllShow(tasks', ms[cur := ms[cur] + k])
  {
    var ms' := ms[cur := ms[cur] + k];
    assert Shows(tasks[cur], ms[cur]);
    ShowsMore(tasks[cur], tasks'[cur], ms[cur], k);
    forall t | t in tasks' ensures Shows(tasks'[t], ms'[t]) {
      if t != cur {
        assert Shows(tasks[t], ms[t]);
        ShowsSame(tasks[t], tasks'[t], ms[t]);
      }
    }
  }

  lemma TimedBooked<T>(s: Sched<T>, n: nat, ms: map<T, nat>, r: Sched<T>) returns (ms': map<T, nat>)
    requires Booked(s, n, ms) && r == Timed(s, 0)
    ensures Booked(r, n, ms')
  {
    var cur, k := s.cpus[0].current, n - TotalMs(s.queue, ms);
    TimedCharges(s, 0, r);
    assert r.last == 1000 * n by { ClockCounts(s.cpus[0], n); }
    ms' := ms[cur := ms[cur] + k];
    TotalGrows(s.queue, ms, cur, k);
    ChargedShow(s.tasks, r.tasks, ms, cur, k);
  }

  lemma ShowsSame<T>(t: Task<T>, t': Task<T>, ms: nat)
    requires Shows(t, ms) && t'.utime == t.utime
    ensures Shows(t', ms)
  {
  }

  lemma SameBooked<T>(s: Sched<T>, r: Sched<T>, n: nat, ms: map<T, nat>)
    requires Booked(s, n, ms) && Shape(r) && SameTimes(s, r) && |r.cpus| == 1 && ClockAt(r.cpus[0], n)
    ensures Booked(r, n, ms)
  {
    forall t | t in r.tasks ensures Shows(r.tasks[t], ms[t]) {
      assert Shows(s.tasks[t], ms[t]);
    }
  }

  lemma ResumeBooked<T>(s: Sched<T>, keep: bool, n: nat, ms: map<T, nat>)
    requires Booked(s, n, ms) && Resume(s, 0, keep).Some?
    ensures Booked(Resume(s, 0, keep).value, n, ms)
  {
    if !keep {
      SwitchSameTimes(s, 0);
      SameBooked(s, Switch(s, 0).value, n, ms);
    }
  }

  lemma TickBooked<T>(s: Sched<T>, n: nat, ms: map<T, nat>)
    requires Booked(s, n, ms)
    ensures Booked(s.(cpus := s.cpus[0 := Tick(s.cpus[0])]), n + 1, ms)
  {
    ClockCounts(s.cpus[0], n);
  }

  lemma InterruptBooked<T>(s: Sched<T>, n: nat, ms: map<T, nat>) returns (ms': map<T, nat>)
    requires Booked(s, n, ms) && Interrupt(s, 0).Some?
    ensures Booked(Interrupt(s, 0).value, n + 1, ms')
  {
    var ticked := s.(cpus := s.cpus[0 := Tick(s.cpus[0])]);
    TickBooked(s, n, ms);
    var timed := Timed(ticked, 0);
    ms' := TimedBooked(ticked, n + 1, ms, timed);
    ResumeBooked(timed, KeepsRunning(timed.tasks[ticked.cpus[0].current]), n + 1, ms');
  }

  lemma YieldBooked<T>(s: Sched<T>, n: nat, ms: map<T, nat>) returns (ms': map<T, nat>)
    requires Booked(s, n, ms) && Yield(s, 0).Some?
    ensures Booked(Yield(s, 0).value, n, ms')
  {
    ms' := TimedBooked(s, n, ms, Timed(s, 0));
    ResumeBooked(Timed(s, 0), false, n, ms');
  }

  lemma SpawnBooked<T>(s: Sched<T>, t: T, task: Task<T>, n: nat, ms: map<T, nat>)
    requires Booked(s, n, ms) && Allowed(s, Spawn(t, task)) && Shape(Enqueue(s, t, task))
    ensures Booked(Enqueue(s, t, task), n, ms[t := 0])
  {
    var r := Enqueue(s, t, task);
    assert r.queue[1..] == s.queue;
    TotalSame(s.queue, ms, ms[t := 0]);
    SpawnShows(s, t, task, ms);
  }

  lemma SpawnShows<T>(s: Sched<T>, t: T, task: Task<T>, ms: map<T, nat>)
    requires AllShow(s.tasks, ms) && Allowed(s, Spawn(t, task))
    ensures AllShow(Enqueue(s, t, task).tasks, ms[t := 0])
  {
    var r := Enqueue(s, t, task);
    forall x | x in r.tasks ensures Shows(r.tasks[x], ms[t := 0][x]) {
      if x != t { assert Shows(s.tasks[x], ms[x]); }
    }
  }

  lemma DoBooked<T>(s: Sched<T>, op: Op<T>, n: nat, ms: map<T, nat>, r: Sched<T>) returns (ms': map<T, nat>)
    requires Booked(s, n, ms) && Allowed(s, op) && Do(s, op) == Some(r)
    ensures Booked(r, if op.TimerInterrupt? then n + 1 else n, ms')
  {
    match op
    case TimerInterrupt(c) =>
      assert c == 0 && Interrupt(s, 0) == Some(r);
      ms' := InterruptBooked(s, n, ms);
    case YieldOn(c) =>
      assert c == 0 && Yield(s, 0) == Some(r);
      ms' := YieldBooked(s, n, ms);
    case Spawn(t, task) =>
      ms' := ms[t := 0];
      SpawnBooked(s, t, task, n, ms);
  }

  lemma FirstBooked<T>(s: Sched<T>, ops: seq<Op<T>>, n: nat, ms: map<T, nat>)
    returns (r: Sched<T>, k: nat, ms': map<T, nat>)
    requires Booked(s, n, ms) && Run(s, ops).Some? && ops != []
    ensures Booked(r, k, ms') == true && Run(s, ops) == Run(r, ops[1..]) && k + Ticks(ops[1..]) == n + Ticks(ops)
  {
    r, k := Do(s, ops[0]).value, if ops[0].TimerInterrupt? then n + 1 else n;
    ms' := DoBooked(s, ops[0], n, ms, r);
  }

  /** On one CPU, however long it runs: after a run with `n` ticks the clock reads 1000n and the books
      are exact. */
  lemma {:induction false} RunExact<T>(s: Sched<T>, ops: seq<Op<T>>, n: nat, ms: map<T, nat>) returns (ms': map<T, nat>)
    requires Booked(s, n, ms) && Run(s, ops).Some?
    ensures Booked(Run(s, ops).value, n + Ticks(ops), ms')
    ensures Now(Run(s, ops).value.cpus[0]) == 1000 * (n + Ticks(ops))
    decreases |ops|
  {
    if ops == [] {
      ClockCounts(s.cpus[0], n);
      ms' := ms;
    } else {
      var r, k, one := FirstBooked(s, ops, n, ms);
      ms' := RunExact(r, ops[1..], k, one);
    }
  }

  /** While the clock fits the 32-bit counters, they show those milliseconds themselves. */
  lemma CountersExact<T>(s: Sched<T>, n: nat, ms: map<T, nat>, t: T)
    requires Booked(s, n, ms) && t in s.tasks && 1000 * n < WORD
    ensures s.tasks[t].utime == 1000 * ms[t]
  {
    PartOfTotal(s.queue, ms, t);
    assert Shows(s.tasks[t], ms[t]);
    ShowsSmall(s.tasks[t], ms[t], n);
  }

  lemma ShowsSmall<T>(t: Task<T>, ms: nat, n: nat)
    requires Shows(t, ms) && ms <= n && 1000 * n < WORD
    ensures t.utime == 1000 * ms
  {
  }

  lemma {:induction false} SumZero<T>(q: seq<T>, tasks: map<T, Task<T>>, who: Option<T>)
    requires forall t | t in q :: t in tasks && tasks[t].utime == 0
    ensures Sum(q, tasks, who) == 0
  {
    if q != [] { SumZero(q[1..], tasks, who); }
  }

  lemma BootConserved<T>(cores: seq<T>)
    requires |cores| <= 32 && Distinct(cores)
    ensures Conserved(Boot(cores))
  {
    var s := Boot(cores);
    SumZero(s.queue, s.tasks, None);
    forall p | p in s.tasks ensures s.tasks[p].cutime == Wrap(Sum(s.queue, s.tasks, Some(p))) {
      SumZero(s.queue, s.tasks, Some(p));
    }
  }

  lemma BootBooked<T>(core: T)
    requires Distinct([core])
    ensures Booked(Boot([core]), 0, map[core := 0])
  {
    var s := Boot([core]);
    assert s.queue == [core] && s.cpus == [Cpu(core, 0, 0)];
    assert s.queue[1..] == [];
  }

  /** From boot, every run on any number of CPUs conserves CPU time modulo 2^32. */
  lemma CpuTimeConserved<T>(cores: seq<T>, ops: seq<Op<T>>)
    requires |cores| <= 32 && Distinct(cores) && Run(Boot(cores), ops).Some?
    ensures Conserved(Run(Boot(cores), ops).value)
  {
    BootConserved(cores);
    RunConserves(Boot(cores), ops);
  }

  /** On one CPU it is exact: whole milliseconds add up to the last scheduling point, each counter shows
      its own modulo 2^32, and the clock is 1000 per tick. */
  lemma CpuTimeExact<T>(core: T, ops: seq<Op<T>>) returns (ms: map<T, nat>)
    requires Distinct([core]) && Run(Boot([core]), ops).Some?
    ensures Booked(Run(Boot([core]), ops).value, Ticks(ops), ms)
    ensures Now(Run(Boot([core]), ops).value.cpus[0]) == 1000 * Ticks(ops)
  {
    BootBooked(core);
    ms := RunExact(Boot([core]), ops, 0, map[core := 0]);
  }
}
