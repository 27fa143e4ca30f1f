/** On one CPU with every queued task allowed on it and `schedule` on every tick, the scheduler is
    the turn-taking of `TurnTaking`: each timer interrupt is one step of it, at any time.  Hence how
    long every task waits, and the bounds on that. */
module SchedulerLatency {
  import opened Iteration
  import opened Bits
  import opened Lists
  import opened Outcomes
  import opened Scheduler
  import opened SchedulerSafety
  import opened SchedulerTime
  import opened TurnLength
  import opened TurnTaking

  /** The ticks a CPU has counted. */
  function TickCount<T>(cpu: Cpu<T>): nat {
    1000 * cpu.sec + cpu.nsec / 1000000
  }

  /** One CPU whose last scheduling point was its last tick. */
  ghost predicate OnTime<T>(s: Sched<T>) {
    && Shape(s) && |s.cpus| == 1
    && ClockAt(s.cpus[0], TickCount(s.cpus[0])) && s.last == 1000 * TickCount(s.cpus[0])
  }

  /** Task `i` of the queue may run on the CPU, is READY unless it is the current one, and has the
      time and the quantum the ring says. */
  ghost predicate TaskAt<T>(t: Task<T>, g: Ring, i: nat)
    requires Valid(g) && i < |g.q|
  {
    && 0 !in t.barred
    && (t.status.Ready? || (t.status.Running? && i == g.cur))
    && 20 - t.priority == g.q[i]
    && t.utime == g.used[i]
  }

  ghost predicate TasksAt<T>(s: Sched<T>, g: Ring)
    requires Shape(s) && Valid(g) && |s.queue| == |g.q|
  {
    forall i: nat | i < |g.q| :: TaskAt(s.tasks[s.queue[i]], g, i)
  }

  /** The scheduler with run queue `q` is where the ring says. */
  ghost predicate Represents<T>(s: Sched<T>, q: seq<T>, g: Ring) {
    && OnTime(s)
    && s.queue == q
    && Valid(g) && |s.queue| == |g.q|
    && s.cpus[0].current == s.queue[g.cur]
    && TasksAt(s, g)
  }

  // --------------------------------------------------------------- one tick

  /** Only times may differ. */
  ghost predicate RestSame<T>(s: Sched<T>, r: Sched<T>) {
    && r.queue == s.queue && r.tasks.Keys == s.tasks.Keys
    && forall t | t in s.tasks ::
         && r.tasks[t].status == s.tasks[t].status
         && r.tasks[t].priority == s.tasks[t].priority
         && r.tasks[t].barred == s.tasks[t].barred
  }

  lemma ChargeRestSame<T>(tasks: map<T, Task<T>>, x: T, dt: int)
    requires x in tasks && ParentKnown(tasks, x)
    ensures var r := Charge(tasks, x, dt);
            r.Keys == tasks.Keys && forall t | t in tasks ::
              && r[t].status == tasks[t].status
              && r[t].priority == tasks[t].priority
              && r[t].barred == tasks[t].barred
  {
  }

  lemma TimedRestSame<T>(s: Sched<T>, r: Sched<T>)
    requires Shape(s) && |s.cpus| == 1 && r == Timed(s, 0)
    ensures RestSame(s, r)
  {
    ChargeRestSame(s.tasks, s.cpus[0].current, Now(s.cpus[0]) - s.last);
  }

  lemma CountTicks<T>(cpu: Cpu<T>, n: nat)
    requires ClockAt(cpu, n)
    ensures TickCount(cpu) == n
  {
    var k := n - 1000 * cpu.sec;
    assert cpu.nsec == 1000000 * k;
  }

  lemma TickedOnTime<T>(s: Sched<T>, ticked: Sched<T>, r: Sched<T>)
    requires OnTime(s) && ticked == s.(cpus := s.cpus[0 := Tick(s.cpus[0])]) && r == Timed(ticked, 0)
    ensures OnTime(r) && r.cpus[0].current == s.cpus[0].current
    ensures RestSame(s, r) && Charged(s.tasks, r.tasks, s.cpus[0].current, 1000)
  {
    var n := TickCount(s.cpus[0]);
    ClockCounts(s.cpus[0], n);
    ClockCounts(ticked.cpus[0], n + 1);
    CountTicks(ticked.cpus[0], n + 1);
    TimedCharges(ticked, 0, r);
    TimedRestSame(ticked, r);
  }

  /** The ring after the tick is charged, before the quantum test. */
  ghost function Used(g: Ring): Ring
    requires Valid(g)
  {
    g.(used := g.used[g.cur := Later(g.used[g.cur], 1)])
  }

  lemma TimedTasks<T>(s: Sched<T>, q: seq<T>, g: Ring, r: Sched<T>)
    requires Represents(s, q, g) && Shape(r)
    requires RestSame(s, r) && Charged(s.tasks, r.tasks, s.cpus[0].current, 1000)
    ensures TasksAt(r, Used(g))
  {
    forall i: nat | i < |g.q| ensures TaskAt(r.tasks[r.queue[i]], Used(g), i) {
      assert Differ(s.queue, i, g.cur) && Differ(s.queue, g.cur, i);
      assert TaskAt(s.tasks[s.queue[i]], g, i);
    }
  }

  lemma SuccessorIs<T>(q: seq<T>, i: nat)
    requires Distinct(q) && i < |q|
    ensures After(q, q[i])[0] == q[Succ(|q|, i)]
  {
    AfterAt(q, i, 0);
  }

  lemma NextIsSuccessor<T>(s: Sched<T>)
    requires Shape(s) && |s.cpus| == 1 && forall t | t in s.tasks :: Eligible(s, 0, t)
    ensures Next(s, 0) == Some(After(s.queue, s.cpus[0].current)[0])
  {
    AfterMembers(s.queue, s.cpus[0].current);
  }

  lemma SwitchGoes<T>(s: Sched<T>, q: seq<T>, g: Ring)
    requires Represents(s, q, g)
    ensures Switch(s, 0) == Some(Dispatch(StepBack(s, 0), 0, s.queue[Succ(|g.q|, g.cur)]))
  {
    var back := StepBack(s, 0);
    forall t | t in back.tasks ensures Eligible(back, 0, t) {
      var i :| 0 <= i < |s.queue| && s.queue[i] == t;
      assert TaskAt(s.tasks[s.queue[i]], g, i);
    }
    NextIsSuccessor(back);
    SuccessorIs(s.queue, g.cur);
  }

  lemma DispatchRepresents<T>(s: Sched<T>, q: seq<T>, g: Ring, j: nat, r: Sched<T>)
    requires Represents(s, q, g) && j < |g.q| && r == Dispatch(StepBack(s, 0), 0, s.queue[j])
    ensures Represents(r, q, g.(cur := j))
  {
    forall i: nat | i < |g.q| ensures TaskAt(r.tasks[r.queue[i]], g.(cur := j), i) {
      assert TaskAt(s.tasks[s.queue[i]], g, i);
      assert Differ(s.queue, i, j) && Differ(s.queue, j, i) && Differ(s.queue, i, g.cur) && Differ(s.queue, g.cur, i);
    }
  }

  /** The timer interrupt of a one-CPU system as a step. */
  ghost function TickStep<T>(): Sched<T> -> Option<Sched<T>> {
    (s: Sched<T>) => if Shape(s) && |s.cpus| == 1 then Interrupt(s, 0) else None
  }

  lemma ResumeRepresents<T>(s: Sched<T>, q: seq<T>, g: Ring, keep: bool) returns (r: Sched<T>)
    requires Valid(g) && Represents(s, q, Used(g))
    requires keep <==> !Passes(Later(g.used[g.cur], 1), g.q[g.cur])
    ensures Resume(s, 0, keep) == Some(r) && Represents(r, q, Step(g))
  {
    r := s;
    if !keep {
      SwitchGoes(s, q, Used(g));
      r := Dispatch(StepBack(s, 0), 0, s.queue[Succ(|g.q|, g.cur)]);
      DispatchRepresents(s, q, Used(g), Succ(|g.q|, g.cur), r);
    }
  }

  lemma TimedRepresents<T>(s: Sched<T>, q: seq<T>, g: Ring, ticked: Sched<T>, timed: Sched<T>)
    requires Represents(s, q, g)
    requires ticked == s.(cpus := s.cpus[0 := Tick(s.cpus[0])]) && timed == Timed(ticked, 0)
    ensures Represents(timed, q, Used(g))
  {
    TickedOnTime(s, ticked, timed);
    TimedTasks(s, q, g, timed);
  }

  /** One timer interrupt is one step of turn-taking. */
  lemma OneTick<T>(s: Sched<T>, q: seq<T>, g: Ring) returns (r: Sched<T>)
    requires Represents(s, q, g)
    ensures Interrupt(s, 0) == Some(r) && Represents(r, q, Step(g))
  {
    var ticked := s.(cpus := s.cpus[0 := Tick(s.cpus[0])]);
    var timed := Timed(ticked, 0);
    TimedRepresents(s, q, g, ticked, timed);
    var keep := KeepTest(timed, q, g);
    InterruptIs(s, ticked, timed);
    r := ResumeRepresents(timed, q, g, keep);
  }

  lemma KeepTest<T>(timed: Sched<T>, q: seq<T>, g: Ring) returns (keep: bool)
    requires Valid(g) && Represents(timed, q, Used(g))
    ensures keep == KeepsRunning(timed.tasks[timed.cpus[0].current])
    ensures keep <==> !Passes(Later(g.used[g.cur], 1), g.q[g.cur])
  {
    var t := timed.tasks[timed.queue[g.cur]];
    assert TaskAt(t, Used(g), g.cur);
    keep := KeepsRunning(t);
  }

  lemma InterruptIs<T>(s: Sched<T>, ticked: Sched<T>, timed: Sched<T>)
    requires Shape(s) && |s.cpus| == 1
    requires ticked == s.(cpus := s.cpus[0 := Tick(s.cpus[0])]) && Shape(ticked) && timed == Timed(ticked, 0)
    ensures Interrupt(s, 0) == Resume(timed, 0, KeepsRunning(timed.tasks[timed.cpus[0].current]))
  {
  }

  /** A yield ends the turn on the spot. */
  lemma YieldRepresents<T>(s: Sched<T>, q: seq<T>, g: Ring) returns (r: Sched<T>)
    requires Represents(s, q, g)
    ensures Yield(s, 0) == Some(r) && Represents(r, q, g.(cur := Succ(|g.q|, g.cur)))
  {
    var timed := Timed(s, 0);
    NothingToCharge(s, q, g, timed);
    SwitchGoes(timed, q, g);
    r := Dispatch(StepBack(timed, 0), 0, timed.queue[Succ(|g.q|, g.cur)]);
    DispatchRepresents(timed, q, g, Succ(|g.q|, g.cur), r);
  }

  lemma NothingToCharge<T>(s: Sched<T>, q: seq<T>, g: Ring, r: Sched<T>)
    requires Represents(s, q, g) && r == Timed(s, 0)
    ensures Represents(r, q, g)
  {
    ClockCounts(s.cpus[0], TickCount(s.cpus[0]));
    TimedCharges(s, 0, r);
    TimedRestSame(s, r);
    UnchargedTasks(s, q, g, r);
  }

  lemma UnchargedTasks<T>(s: Sched<T>, q: seq<T>, g: Ring, r: Sched<T>)
    requires Represents(s, q, g) && Shape(r) && RestSame(s, r) && Charged(s.tasks, r.tasks, s.cpus[0].current, 0)
    ensures TasksAt(r, g)
  {
    forall i: nat | i < |g.q| ensures TaskAt(r.tasks[r.queue[i]], g, i) {
      assert TaskAt(s.tasks[s.queue[i]], g, i);
    }
  }

  // ------------------------------------------------------------- many ticks

  ghost function At<T>(q: seq<T>): (Sched<T>, Ring) -> bool {
    (s: Sched<T>, g: Ring) => Represents(s, q, g)
  }

  lemma TickStepSimulates<T>(s: Sched<T>, q: seq<T>, g: Ring)
    requires At(q)(s, g)
    ensures TickStep()(s).Some? && At(q)(TickStep()(s).value, StepTotal()(g))
  {
    var r := OneTick(s, q, g);
    TickStepIs(s, r);
    StepTotalIs(g);
  }

  lemma TickStepIs<T>(s: Sched<T>, r: Sched<T>)
    requires Shape(s) && |s.cpus| == 1 && Interrupt(s, 0) == Some(r)
    ensures TickStep()(s) == Some(r)
  {
  }

  /** `k` timer interrupts in a row. */
  ghost function TickRun<T>(s: Sched<T>, k: nat): Option<Sched<T>> {
    Iterate(TickStep(), s, k)
  }

  /** Any number of ticks is that number of steps of turn-taking. */
  lemma TicksAreSteps<T>(s: Sched<T>, q: seq<T>, g: Ring, k: nat) returns (r: Sched<T>)
    requires Represents(s, q, g)
    ensures TickRun(s, k) == Some(r) && Represents(r, q, Steps(g, k))
  {
    forall s: Sched<T>, g: Ring | At(q)(s, g)
      ensures TickStep()(s).Some? && At(q)(TickStep()(s).value, StepTotal()(g))
    {
      TickStepSimulates(s, q, g);
    }
    r := Simulation(TickStep(), StepTotal(), At(q), s, g, k);
    assert At(q)(r, Steps(g, k));
  }

  // ------------------------------------------------------------ steady state

  /** One CPU that has just scheduled, with all queued tasks allowed on it and READY, the current
      one READY or RUNNING. */
  ghost predicate SteadyState<T>(s: Sched<T>) {
    && OnTime(s)
    && forall t | t in s.tasks ::
         && 0 !in s.tasks[t].barred
         && (s.tasks[t].status.Ready? || (s.tasks[t].status.Running? && t == s.cpus[0].current))
  }

  function RingOf<T(==)>(s: Sched<T>): (g: Ring)
    requires Shape(s) && |s.cpus| == 1
    ensures Valid(g) && |g.q| == |s.queue|
  {
    Ring(IndexOf(s.queue, s.cpus[0].current),
         seq(|s.queue|, i requires 0 <= i < |s.queue| => s.tasks[s.queue[i]].utime),
         seq(|s.queue|, i requires 0 <= i < |s.queue| => Quantum(s.tasks[s.queue[i]])))
  }

  lemma RingRepresents<T>(s: Sched<T>)
    requires SteadyState(s)
    ensures Represents(s, s.queue, RingOf(s))
  {
    var g := RingOf(s);
    forall i: nat | i < |g.q| ensures TaskAt(s.tasks[s.queue[i]], g, i) {
      assert Differ(s.queue, i, g.cur) && Differ(s.queue, g.cur, i);
    }
  }

  lemma RepresentsSteady<T>(s: Sched<T>, q: seq<T>, g: Ring)
    requires Represents(s, q, g)
    ensures SteadyState(s)
  {
    forall t | t in s.tasks
      ensures 0 !in s.tasks[t].barred
      ensures s.tasks[t].status.Ready? || (s.tasks[t].status.Running? && t == s.cpus[0].current)
    {
      var i :| 0 <= i < |s.queue| && s.queue[i] == t;
      assert TaskAt(s.tasks[s.queue[i]], g, i);
    }
  }

  /** Every spawned task may run on the CPU. */
  ghost predicate AllForCpu0<T>(ops: seq<Op<T>>) {
    forall i | 0 <= i < |ops| && ops[i].Spawn? :: 0 !in ops[i].task.barred
  }

  lemma DoSteady<T>(s: Sched<T>, op: Op<T>) returns (r: Sched<T>)
    requires SteadyState(s) && Allowed(s, op) && (op.Spawn? ==> 0 !in op.task.barred)
    ensures Do(s, op) == Some(r) && SteadyState(r)
  {
    RingRepresents(s);
    var q, g := s.queue, RingOf(s);
    match op
    case TimerInterrupt(c) =>
      assert c == 0;
      r := OneTick(s, q, g);
      RepresentsSteady(r, q, Step(g));
    case YieldOn(c) =>
      assert c == 0;
      r := YieldRepresents(s, q, g);
      RepresentsSteady(r, q, g.(cur := Succ(|g.q|, g.cur)));
    case Spawn(t, task) =>
      r := Enqueue(s, t, task);
  }

  lemma FirstSteady<T>(s: Sched<T>, ops: seq<Op<T>>) returns (r: Sched<T>)
    requires SteadyState(s) && AllowedRun(s, ops) && AllForCpu0(ops) && ops != []
    ensures SteadyState(r) == true && Run(s, ops) == Run(r, ops[1..])
    ensures AllowedRun(r, ops[1..]) && AllForCpu0(ops[1..])
  {
    r := DoSteady(s, ops[0]);
  }

  lemma {:induction false} RunSteady<T>(s: Sched<T>, ops: seq<Op<T>>) returns (r: Sched<T>)
    requires SteadyState(s) && AllowedRun(s, ops) && AllForCpu0(ops)
    ensures Run(s, ops) == Some(r) && SteadyState(r) == true
    decreases |ops|
  {
    if ops == [] {
      r := s;
    } else {
      var next := FirstSteady(s, ops);
      r := RunSteady(next, ops[1..]);
    }
  }

  /** Boot on one CPU is steady, and every run from it of ticks, yields and spawns of tasks allowed on
      the CPU stays so. */
  lemma SteadyFromBoot<T>(core: T, ops: seq<Op<T>>)
    requires Distinct([core]) && AllowedRun(Boot([core]), ops) && AllForCpu0(ops)
    ensures Run(Boot([core]), ops).Some? && SteadyState(Run(Boot([core]), ops).value)
  {
    var s := Boot([core]);
    assert s.cpus[0] == Cpu(core, 0, 0);
    assert forall t | t in s.tasks :: s.tasks[t] == CoreTask(0);
    var r := RunSteady(s, ops);
  }

  // ----------------------------------------------------------------- latency

  /** How many ticks `x` waits: the turns of the tasks from the current one up to it. */
  function Wait<T(==)>(s: Sched<T>, x: T): nat
    requires Shape(s) && |s.cpus| == 1 && x in s.queue
  {
    WaitOf(RingOf(s), IndexOf(s.queue, x))
  }

  /** `x` becomes current after exactly that many ticks and not before. */
  lemma WaitExact<T>(s: Sched<T>, x: T) returns (r: Sched<T>)
    requires SteadyState(s) && x in s.queue && x != s.cpus[0].current
    ensures TickRun(s, Wait(s, x)) == Some(r) && |r.cpus| == 1 && r.cpus[0].current == x
    ensures forall j: nat | j < Wait(s, x) ::
              TickRun(s, j).Some? && |TickRun(s, j).value.cpus| == 1 && TickRun(s, j).value.cpus[0].current != x
  {
    var g, i := RingOf(s), IndexOf(s.queue, x);
    RingRepresents(s);
    WaitIsExact(g, i);
    r := TicksAreSteps(s, s.queue, g, WaitOf(g, i));
    forall j: nat | j < Wait(s, x)
      ensures TickRun(s, j).Some? && |TickRun(s, j).value.cpus| == 1 && TickRun(s, j).value.cpus[0].current != x
    {
      var m := TicksAreSteps(s, s.queue, g, j);
      NotThere(s.queue, Steps(g, j).cur, i);
    }
  }

  lemma NotThere<T>(q: seq<T>, j: nat, i: nat)
    requires Distinct(q) && i < |q| && j < |q| && i != j
    ensures q[i] != q[j]
  {
    assert Differ(q, i, j) && Differ(q, j, i);
  }

  /** The sum of 20 - priority over the tasks of a queue. */
  function QuantumSum<T>(q: seq<T>, tasks: map<T, Task<T>>): int
    requires forall t | t in q :: t in tasks
  {
    if q == [] then 0 else (20 - tasks[q[0]].priority) + QuantumSum(q[1..], tasks)
  }

  /** A bound on a turn of quantum `q`: the quantum, or at any time one less than twice that. */
  function Cap(anyTime: bool, q: int): int {
    if anyTime then 2 * q - 1 else q
  }

  lemma {:induction false} SumOfCaps<T>(q: seq<T>, tasks: map<T, Task<T>>, w: seq<nat>, anyTime: bool)
    requires |q| == |w| && (forall t | t in q :: t in tasks)
    requires forall i | 0 <= i < |q| :: w[i] == Cap(anyTime, 20 - tasks[q[i]].priority)
    ensures TurnTaking.Sum(w) ==
            if anyTime then 2 * QuantumSum(q, tasks) - |q| else QuantumSum(q, tasks)
  {
    if q != [] { SumOfCaps(q[1..], tasks, w[1..], anyTime); }
  }

  function Caps<T>(s: Sched<T>, anyTime: bool): (w: seq<nat>)
    requires Shape(s)
    ensures |w| == |s.queue|
    ensures forall i | 0 <= i < |w| :: w[i] == Cap(anyTime, 20 - s.tasks[s.queue[i]].priority)
  {
    seq(|s.queue|, i requires 0 <= i < |s.queue| => Cap(anyTime, Quantum(s.tasks[s.queue[i]])))
  }

  lemma TurnsCapped<T>(s: Sched<T>, x: T, anyTime: bool)
    requires Shape(s) && |s.cpus| == 1 && x in s.queue
    requires forall t | t in s.tasks && t != x ::
               Length(s.tasks[t].utime, Quantum(s.tasks[t])) <= Cap(anyTime, Quantum(s.tasks[t]))
    ensures var g, i := RingOf(s), IndexOf(s.queue, x);
            forall t | 0 <= t < |s.queue| && t != i :: Lengths(g)[t] <= Caps(s, anyTime)[t]
  {
    var g, i := RingOf(s), IndexOf(s.queue, x);
    forall t | 0 <= t < |s.queue| && t != i ensures Lengths(g)[t] <= Caps(s, anyTime)[t] {
      NotThere(s.queue, t, i);
    }
  }

  lemma BoundedWait<T>(s: Sched<T>, x: T, anyTime: bool)
    requires Shape(s) && |s.cpus| == 1 && x in s.queue && x != s.cpus[0].current
    requires forall t | t in s.tasks && t != x ::
               Length(s.tasks[t].utime, Quantum(s.tasks[t])) <= Cap(anyTime, Quantum(s.tasks[t]))
    ensures var others := QuantumSum(s.queue, s.tasks) - (20 - s.tasks[x].priority);
            1 <= Wait(s, x) <= if anyTime then 2 * others - (|s.queue| - 1) else others
  {
    TurnsCapped(s, x, anyTime);
    WaitsForOthers(RingOf(s), IndexOf(s.queue, x), Caps(s, anyTime));
    SumOfCaps(s.queue, s.tasks, Caps(s, anyTime), anyTime);
  }

  /** At any time, nobody waits longer than the sum over the other tasks of 2 (20 - priority) - 1
      ticks. */
  lemma LatencyBound<T>(s: Sched<T>, x: T) returns (k: nat, r: Sched<T>)
    requires SteadyState(s) && x in s.queue && x != s.cpus[0].current
    ensures 1 <= k <= 2 * (QuantumSum(s.queue, s.tasks) - (20 - s.tasks[x].priority)) - (|s.queue| - 1)
    ensures TickRun(s, k) == Some(r) && |r.cpus| == 1 && r.cpus[0].current == x
  {
    k := Wait(s, x);
    r := WaitExact(s, x);
    BoundedWait(s, x, true);
  }

  /** As long as no other task's time meets 2^31 microseconds in its turn, or meets it so that the turn
      still ends within the quantum, nobody waits longer than the sum over the other tasks of
      20 - priority ticks. */
  lemma LatencyWithinQuanta<T>(s: Sched<T>, x: T) returns (k: nat, r: Sched<T>)
    requires SteadyState(s) && x in s.queue && x != s.cpus[0].current
    requires forall t | t in s.tasks && t != x :: Regular(s.tasks[t].utime, Quantum(s.tasks[t]))
    ensures 1 <= k <= QuantumSum(s.queue, s.tasks) - (20 - s.tasks[x].priority)
    ensures TickRun(s, k) == Some(r) && |r.cpus| == 1 && r.cpus[0].current == x
  {
    k := Wait(s, x);
    r := WaitExact(s, x);
    forall t | t in s.tasks && t != x
      ensures Length(s.tasks[t].utime, Quantum(s.tasks[t])) <= Cap(false, Quantum(s.tasks[t]))
    {
      LengthWithin(s.tasks[t].utime, Quantum(s.tasks[t]));
    }
    BoundedWait(s, x, false);
  }

  /** With two tasks the shorter bound holds exactly under that condition. */
  lemma TwoTasksExactly<T>(s: Sched<T>, x: T)
    requires SteadyState(s) && |s.queue| == 2 && x in s.queue && x != s.cpus[0].current
    ensures Wait(s, x) == Length(s.tasks[s.cpus[0].current].utime, Quantum(s.tasks[s.cpus[0].current]))
    ensures Wait(s, x) <= QuantumSum(s.queue, s.tasks) - (20 - s.tasks[x].priority) <==>
              Regular(s.tasks[s.cpus[0].current].utime, Quantum(s.tasks[s.cpus[0].current]))
  {
    var g, c := RingOf(s), s.cpus[0].current;
    assert Distance(2, g.cur, IndexOf(s.queue, x)) == 1;
    assert CyclicSum(Lengths(g), g.cur, 1) == CyclicSum(Lengths(g), g.cur, 0) + Lengths(g)[g.cur];
    LengthWithin(s.tasks[c].utime, Quantum(s.tasks[c]));
    assert s.queue == [s.queue[0]] + [s.queue[1]];
    assert QuantumSum(s.queue[1..][1..], s.tasks) == 0;
  }

  /** A child of the core task of CPU 0 and of that priority; it inherits the mask. */
  function Child<T>(core: T, priority: int): Task<T> {
    Task(Ready, priority, AllBut(0), 0, 0, 0, Some(core))
  }

  lemma BootedCore<T>(core: T, s: Sched<T>)
    requires Distinct([core]) && s == Boot([core])
    ensures s == Sched([core], map[core := CoreTask(0)], [Cpu(core, 0, 0)], 0)
  {
  }

  lemma PairAtStart<T>(core: T, t: T, priority: int, s: Sched<T>)
    requires core != t && -20 <= priority <= 19 && Shape(s)
    requires s == Sched([t, core], map[core := CoreTask(0), t := Child(core, priority)], [Cpu(core, 0, 0)], 0)
    ensures Represents(s, [t, core], Pair(20 - priority, 0, 0))
  {
    var g := Pair(20 - priority, 0, 0);
    assert TaskAt(s.tasks[t], g, 0) && TaskAt(s.tasks[core], g, 1);
  }

  lemma ChildJoins<T>(core: T, t: T, priority: int) returns (s: Sched<T>)
    requires core != t && -20 <= priority <= 19 && Distinct([core])
    ensures Allowed(Boot([core]), Spawn(t, Child(core, priority)))
    ensures Do(Boot([core]), Spawn(t, Child(core, priority))) == Some(s)
    ensures Represents(s, [t, core], Pair(20 - priority, 0, 0)) == true
  {
    BootedCore(core, Boot([core]));
    s := Enqueue(Boot([core]), t, Child(core, priority));
    assert [t] + [core] == [t, core];
    PairAtStart(core, t, priority, s);
  }

  lemma LateIs<T>(s: Sched<T>, core: T, t: T, priority: int, g: Ring)
    requires core != t && -20 <= priority <= 19 && Represents(s, [t, core], g)
    requires g.cur == 0 && g.q == [20 - priority, 20] && Length(g.used[0], 20 - priority) == LateLength(20 - priority)
    ensures SteadyState(s) && s.cpus[0].current == t && Wait(s, core) == LateLength(20 - priority)
    ensures QuantumSum([t, core], s.tasks) - (20 - s.tasks[core].priority) == 20 - priority
  {
    RepresentsSteady(s, [t, core], g);
    assert TaskAt(s.tasks[t], g, 0) && TaskAt(s.tasks[core], g, 1);
    TwoTasksExactly(s, core);
    assert [t, core][1..] == [core] && [core][1..] == [];
    assert QuantumSum([core], s.tasks) == 20 - s.tasks[core].priority;
  }

  /** From boot, with one child of any priority above the core task's: after some timer interrupts the
      child holds the CPU for twice the rest of 2147483 by its quantum, plus one, and the core task waits
      as long. */
  lemma LateWait<T>(core: T, t: T, priority: int) returns (joined: Sched<T>, n: nat, s: Sched<T>)
    requires core != t && -20 <= priority < 0 && Distinct([core])
    ensures Allowed(Boot([core]), Spawn(t, Child(core, priority)))
    ensures Do(Boot([core]), Spawn(t, Child(core, priority))) == Some(joined) && TickRun(joined, n) == Some(s)
    ensures SteadyState(s) && s.queue == [t, core] && s.cpus[0].current == t
    ensures QuantumSum(s.queue, s.tasks) - (20 - s.tasks[core].priority) == 20 - priority
    ensures Wait(s, core) == LateLength(20 - priority)
  {
    var g;
    var start := Pair(20 - priority, 0, 0);
    n, g := LateTurn(start, 20 - priority);
    joined := ChildJoins(core, t, priority);
    s := TicksAreSteps(joined, [t, core], start, n);
    LateIs(s, core, t, priority, g);
  }

  /** With priority -19 the core task waits 53 ticks, where the quantum it waits for is 39. */
  lemma LongWait<T>(core: T, t: T) returns (joined: Sched<T>, n: nat, s: Sched<T>)
    requires core != t && Distinct([core])
    ensures Allowed(Boot([core]), Spawn(t, Child(core, -19)))
    ensures Do(Boot([core]), Spawn(t, Child(core, -19))) == Some(joined) && TickRun(joined, n) == Some(s)
    ensures SteadyState(s) && s.queue == [t, core] && s.cpus[0].current == t
    ensures QuantumSum(s.queue, s.tasks) - (20 - s.tasks[core].priority) == 39 && Wait(s, core) == 53
  {
    joined, n, s := LateWait(core, t, -19);
    LongTurn();
  }

  // --------------------------------------------------------------- fairness

  /** `t` has used exactly one turn, as long as it was to be expected. */
  ghost predicate HadTurn<T>(s: Sched<T>, r: Sched<T>, t: T)
    requires Shape(s) && t in s.tasks
  {
    t in r.tasks && r.tasks[t].utime == Later(s.tasks[t].utime, Length(s.tasks[t].utime, Quantum(s.tasks[t])))
  }

  /** A full round, however long its turns are, gives every task its turn and ends with the same task
      current. */
  lemma Round<T>(s: Sched<T>) returns (r: Sched<T>)
    requires SteadyState(s)
    ensures TickRun(s, TurnTaking.Sum(Lengths(RingOf(s)))) == Some(r)
    ensures |r.cpus| == 1 && r.cpus[0].current == s.cpus[0].current
    ensures forall t | t in s.tasks :: HadTurn(s, r, t)
  {
    var g := RingOf(s);
    var k := TurnTaking.Sum(Lengths(g));
    RingRepresents(s);
    r := TicksAreSteps(s, s.queue, g, k);
    FullRound(g, Steps(g, k));
    forall t | t in s.tasks ensures HadTurn(s, r, t) {
      var i :| 0 <= i < |s.queue| && s.queue[i] == t;
      assert TaskAt(r.tasks[r.queue[i]], Steps(g, k), i);
    }
  }

  /** If every task's next turn lasts its quantum, a full round is as many ticks as the quanta add up to
      and charges every task exactly 20 - priority milliseconds. */
  lemma FairRound<T>(s: Sched<T>) returns (r: Sched<T>)
    requires SteadyState(s)
    requires forall t | t in s.tasks :: Length(s.tasks[t].utime, Quantum(s.tasks[t])) == Quantum(s.tasks[t])
    ensures QuantumSum(s.queue, s.tasks) >= 0 && TickRun(s, QuantumSum(s.queue, s.tasks)) == Some(r)
    ensures |r.cpus| == 1 && r.cpus[0].current == s.cpus[0].current
    ensures forall t | t in s.tasks ::
              t in r.tasks && r.tasks[t].utime == Later(s.tasks[t].utime, 20 - s.tasks[t].priority)
  {
    QuantaAddUp(s);
    r := Round(s);
    forall t | t in s.tasks ensures t in r.tasks && r.tasks[t].utime == Later(s.tasks[t].utime, 20 - s.tasks[t].priority) {
      assert HadTurn(s, r, t);
      FairTurn(s.tasks[t], r.tasks[t].utime, Length(s.tasks[t].utime, Quantum(s.tasks[t])));
    }
  }

  lemma FairTurn<T>(t: Task<T>, u: Word, k: nat)
    requires -20 <= t.priority <= 19 && k == Quantum(t) && u == Later(t.utime, k)
    ensures u == Later(t.utime, 20 - t.priority)
  {
  }

  lemma QuantaAddUp<T>(s: Sched<T>)
    requires Shape(s) && |s.cpus| == 1
    requires forall t | t in s.tasks :: Length(s.tasks[t].utime, Quantum(s.tasks[t])) == Quantum(s.tasks[t])
    ensures TurnTaking.Sum(Lengths(RingOf(s))) == QuantumSum(s.queue, s.tasks)
  {
    SumOfCaps(s.queue, s.tasks, Lengths(RingOf(s)), false);
  }
}
