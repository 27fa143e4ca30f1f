/** Round-robin choice, and safety over every run on any number of CPUs: no task is ever current
    on two of them, and `__sched_next` never spins. */
module SchedulerSafety {
  import opened Bits
  import opened Lists
  import opened Outcomes
  import opened Scheduler

  // ---------------------------------------------------------- cyclic choice

  /** What the loop of `__sched_next` visits after `t`: its successor, or the head. */
  function Successor<T(==)>(q: seq<T>, t: T): (r: T)
    requires t in q
    ensures r in q
  {
    AfterMembers(q, t);
    After(q, t)[0]
  }

  function Visit<T(==)>(q: seq<T>, t: T, k: nat): (r: T)
    requires t in q
    ensures r in q
  {
    if k == 0 then t else Successor(q, Visit(q, t, k - 1))
  }

  function Cyclic(n: nat, j: nat): nat
    requires j < 2 * n
  {
    if j < n then j else j - n
  }

  lemma AfterAt<T>(q: seq<T>, i: nat, k: nat)
    requires Distinct(q) && i < |q| && k < |q|
    ensures After(q, q[i])[k] == q[Cyclic(|q|, i + 1 + k)]
  {
    IndexUnique(q, i);
  }

  lemma SuccessorAt<T>(q: seq<T>, i: nat)
    requires Distinct(q) && i < |q|
    ensures Successor(q, q[i]) == q[Cyclic(|q|, i + 1)]
  {
    AfterAt(q, i, 0);
  }

  lemma {:induction false} VisitAt<T>(q: seq<T>, i: nat, k: nat)
    requires Distinct(q) && i < |q| && k <= |q|
    ensures Visit(q, q[i], k) == q[Cyclic(|q|, i + k)]
    decreases k
  {
    if k > 0 {
      VisitAt(q, i, k - 1);
      SuccessorAt(q, Cyclic(|q|, i + k - 1));
    }
  }

  lemma VisitIsAfter<T>(q: seq<T>, t: T, k: nat)
    requires Distinct(q) && t in q && 1 <= k <= |q|
    ensures Visit(q, t, k) == After(q, t)[k - 1]
  {
    VisitAt(q, IndexOf(q, t), k);
    AfterAt(q, IndexOf(q, t), k - 1);
  }

  lemma {:induction false} FirstIsLeast<T>(s: Sched<T>, c: nat, order: seq<T>) returns (k: nat)
    requires c < 32 && (forall t | t in order :: t in s.tasks) && First(s, c, order).Some?
    ensures k < |order| && order[k] == First(s, c, order).value
    ensures forall j | 0 <= j < k :: !Eligible(s, c, order[j])
  {
    if Eligible(s, c, order[0]) {
      k := 0;
    } else {
      var k' := FirstIsLeast(s, c, order[1..]);
      k := k' + 1;
      forall j | 0 <= j < k ensures !Eligible(s, c, order[j]) {
        if j > 0 { assert order[1..][j - 1] == order[j]; }
      }
    }
  }

  /** What is visited at `k` is eligible and nothing visited before it was. */
  ghost predicate ChosenAt<T>(s: Sched<T>, c: nat, k: nat)
    requires Shape(s) && c < |s.cpus|
  {
    var cur := s.cpus[c].current;
    && k >= 1
    && Eligible(s, c, Visit(s.queue, cur, k))
    && forall j | 1 <= j < k :: !Eligible(s, c, Visit(s.queue, cur, j))
  }

  lemma ChosenExists<T>(s: Sched<T>, c: nat) returns (k: nat)
    requires Shape(s) && c < |s.cpus| && Next(s, c).Some?
    ensures ChosenAt(s, c, k) && Next(s, c) == Some(Visit(s.queue, s.cpus[c].current, k))
  {
    var q, cur := s.queue, s.cpus[c].current;
    AfterMembers(q, cur);
    var i := FirstIsLeast(s, c, After(q, cur));
    k := i + 1;
    VisitIsAfter(q, cur, k);
    forall j | 1 <= j < k ensures !Eligible(s, c, Visit(q, cur, j)) {
      VisitIsAfter(q, cur, j);
      assert !Eligible(s, c, After(q, cur)[j - 1]);
    }
  }

  lemma ChosenUnique<T>(s: Sched<T>, c: nat, k: nat, k': nat)
    requires Shape(s) && c < |s.cpus| && ChosenAt(s, c, k) && ChosenAt(s, c, k')
    ensures k == k'
  {
  }

  /** The loop of `__sched_next` ends exactly when some queued task is READY and allowed on the CPU,
      and it ends at the first such task in cyclic order strictly after the current one. */
  lemma RoundRobinChoice<T>(s: Sched<T>, c: nat)
    requires Shape(s) && c < |s.cpus|
    ensures Next(s, c).Some? <==> exists t | t in s.queue :: Eligible(s, c, t)
    ensures Next(s, c).Some? <==> exists k: nat :: ChosenAt(s, c, k)
    ensures forall k: nat | ChosenAt(s, c, k) :: Next(s, c) == Some(Visit(s.queue, s.cpus[c].current, k))
  {
    AfterMembers(s.queue, s.cpus[c].current);
    FirstNone(s, c, After(s.queue, s.cpus[c].current));
    forall k: nat | ChosenAt(s, c, k) ensures Next(s, c) == Some(Visit(s.queue, s.cpus[c].current, k)) {
      assert Visit(s.queue, s.cpus[c].current, k) in After(s.queue, s.cpus[c].current);
      var i := ChosenExists(s, c);
      ChosenUnique(s, c, i, k);
    }
    if Next(s, c).Some? {
      var i := ChosenExists(s, c);
    }
  }

  // ------------------------------------------------------------------- runs

  datatype Op<T> = TimerInterrupt(c: nat) | YieldOn(c: nat) | Spawn(t: T, task: Task<T>)

  /** Interrupts and yields happen on a CPU that is up; a spawned task is new, READY, has used no
      time, and its parent exists. */
  ghost predicate Allowed<T>(s: Sched<T>, op: Op<T>) {
    match op
    case TimerInterrupt(c) => c < |s.cpus|
    case YieldOn(c) => c < |s.cpus|
    case Spawn(t, task) =>
      && t !in s.tasks
      && task.status.Ready?
      && task.utime == 0 && task.cutime == 0
      && -20 <= task.priority <= 19
      && (task.parent.Some? ==> task.parent.value in s.tasks)
  }

  ghost function Do<T>(s: Sched<T>, op: Op<T>): (r: Option<Sched<T>>)
    requires Shape(s) && Allowed(s, op)
    ensures r.Some? ==> Shape(r.value)
  {
    match op
    case TimerInterrupt(c) => Interrupt(s, c)
    case YieldOn(c) => Yield(s, c)
    case Spawn(t, task) => DistinctCons(t, s.queue); NewParents(s.tasks, t, task); Some(Enqueue(s, t, task))
  }

  /** A run of operations; `None` if one is not allowed where it comes, or never returns. */
  ghost function Run<T>(s: Sched<T>, ops: seq<Op<T>>): (r: Option<Sched<T>>)
    requires Shape(s)
    ensures r.Some? ==> Shape(r.value)
    decreases |ops|
  {
    if ops == [] then Some(s)
    else if !Allowed(s, ops[0]) then None
    else
      var next := Do(s, ops[0]);
      if next.None? then None else Run(next.value, ops[1..])
  }

  // -------------------------------------------------------------- invariant

  /** The current task may run where it is, and is RUNNING or barred from every other CPU. */
  ghost predicate CurrentOk<T>(s: Sched<T>, c: nat)
    requires Shape(s) && c < |s.cpus|
  {
    var t := s.tasks[s.cpus[c].current];
    && c !in t.barred
    && (t.status.Running?
        || (t.status.Ready? && forall c': nat | c' < |s.cpus| && c' != c :: c' in t.barred))
  }

  ghost predicate IsCurrent<T>(s: Sched<T>, t: T) {
    exists c | 0 <= c < |s.cpus| :: s.cpus[c].current == t
  }

  ghost predicate Safe<T>(s: Sched<T>) {
    && Shape(s)
    && (forall c: nat | c < |s.cpus| :: CurrentOk(s, c))
    && (forall c, d | 0 <= c < d < |s.cpus| :: s.cpus[c].current != s.cpus[d].current)
    && (forall t | t in s.tasks && s.tasks[t].status.Running? :: IsCurrent(s, t))
  }

  /** `Safe` looks only at the queue, status, affinity and currents. */
  lemma SafeSame<T>(s: Sched<T>, r: Sched<T>)
    requires Safe(s) && Shape(r) && |r.cpus| == |s.cpus|
    requires forall c | 0 <= c < |s.cpus| :: r.cpus[c].current == s.cpus[c].current
    requires r.tasks.Keys == s.tasks.Keys
    requires forall t | t in s.tasks :: r.tasks[t].status == s.tasks[t].status && r.tasks[t].barred == s.tasks[t].barred
    ensures Safe(r)
  {
    forall c: nat | c < |r.cpus| ensures CurrentOk(r, c) {
      assert CurrentOk(s, c);
    }
    forall t | t in r.tasks && r.tasks[t].status.Running? ensures IsCurrent(r, t) {
      assert IsCurrent(s, t);
      var c :| 0 <= c < |s.cpus| && s.cpus[c].current == t;
      assert r.cpus[c].current == t;
    }
  }

  lemma TimedKeepsSafe<T>(s: Sched<T>, c: nat)
    requires Safe(s) && c < |s.cpus|
    ensures Safe(Timed(s, c))
  {
    SafeSame(s, Timed(s, c));
  }

  /** In a safe state a task that steps back is itself eligible, so a switch always ends. */
  lemma SwitchEnds<T>(s: Sched<T>, c: nat)
    requires Safe(s) && c < |s.cpus|
    ensures Switch(s, c).Some?
  {
    var back := StepBack(s, c);
    assert CurrentOk(s, c);
    assert Eligible(back, c, s.cpus[c].current);
    AfterMembers(back.queue, s.cpus[c].current);
    FirstNone(back, c, After(back.queue, s.cpus[c].current));
  }

  /** `Safe` while CPU `c` is between two tasks. */
  ghost predicate SafeBut<T>(s: Sched<T>, c: nat) {
    && Shape(s)
    && (forall d: nat | d < |s.cpus| && d != c :: CurrentOk(s, d))
    && (forall d, e | 0 <= d < e < |s.cpus| :: s.cpus[d].current != s.cpus[e].current)
    && (forall t | t in s.tasks && s.tasks[t].status.Running? ::
          exists d | 0 <= d < |s.cpus| && d != c :: s.cpus[d].current == t)
  }

  lemma StepBackSafe<T>(s: Sched<T>, c: nat)
    requires Safe(s) && c < |s.cpus|
    ensures SafeBut(StepBack(s, c), c)
  {
    var back := StepBack(s, c);
    forall d: nat | d < |s.cpus| && d != c ensures CurrentOk(back, d) {
      assert CurrentOk(s, d);
    }
    forall t | t in back.tasks && back.tasks[t].status.Running?
      ensures exists d | 0 <= d < |s.cpus| && d != c :: back.cpus[d].current == t
    {
      assert IsCurrent(s, t);
    }
  }

  lemma DispatchSafe<T>(s: Sched<T>, c: nat, t: T)
    requires SafeBut(s, c) && c < |s.cpus| && t in s.tasks && Eligible(s, c, t)
    ensures Safe(Dispatch(s, c, t))
  {
    var r := Dispatch(s, c, t);
    forall d: nat | d < |s.cpus| && d != c ensures s.cpus[d].current != t && CurrentOk(r, d) {
      assert CurrentOk(s, d);
    }
    forall x | x in r.tasks && r.tasks[x].status.Running? ensures IsCurrent(r, x) {
      if x == t {
        assert r.cpus[c].current == t;
      } else {
        var d :| 0 <= d < |s.cpus| && d != c && s.cpus[d].current == x;
        assert r.cpus[d].current == x;
      }
    }
  }

  lemma SwitchKeepsSafe<T>(s: Sched<T>, c: nat)
    requires Safe(s) && c < |s.cpus| && Switch(s, c).Some?
    ensures Safe(Switch(s, c).value)
  {
    StepBackSafe(s, c);
    var back := StepBack(s, c);
    DispatchSafe(back, c, Next(back, c).value);
  }

  lemma SpawnKeepsSafe<T>(s: Sched<T>, t: T, task: Task<T>)
    requires Safe(s) && Allowed(s, Spawn(t, task))
    ensures Safe(Enqueue(s, t, task))
  {
    var r := Enqueue(s, t, task);
    DistinctCons(t, s.queue);
    NewParents(s.tasks, t, task);
    forall c: nat | c < |r.cpus| ensures CurrentOk(r, c) {
      assert CurrentOk(s, c);
    }
    forall x | x in r.tasks && r.tasks[x].status.Running? ensures IsCurrent(r, x) {
      assert IsCurrent(s, x);
    }
  }

  lemma DoKeepsSafe<T>(s: Sched<T>, op: Op<T>)
    requires Safe(s) && Allowed(s, op)
    ensures Do(s, op).Some? && Safe(Do(s, op).value)
  {
    match op
    case TimerInterrupt(c) =>
      var ticked := s.(cpus := s.cpus[c := Tick(s.cpus[c])]);
      SafeSame(s, ticked);
      TimedKeepsSafe(ticked, c);
      SwitchEnds(Timed(ticked, c), c);
      SwitchKeepsSafe(Timed(ticked, c), c);
    case YieldOn(c) =>
      TimedKeepsSafe(s, c);
      SwitchEnds(Timed(s, c), c);
      SwitchKeepsSafe(Timed(s, c), c);
    case Spawn(t, task) =>
      SpawnKeepsSafe(s, t, task);
  }

  // ------------------------------------------------------------------- boot

  /** The queue after `sched_enqueue` of the first `k` core tasks. */
  function Pushed<T>(cores: seq<T>, k: nat): (q: seq<T>)
    requires k <= |cores|
    ensures |q| == k && forall i | 0 <= i < k :: q[i] == cores[k - 1 - i]
  {
    if k == 0 then [] else [cores[k - 1]] + Pushed(cores, k - 1)
  }

  /** `smp_setup` on every CPU followed by `sched_init`: each CPU's current task is its own core
      task, READY, and barred from every other CPU. */
  function Boot<T(==)>(cores: seq<T>): (s: Sched<T>)
    requires |cores| <= 32 && Distinct(cores)
    ensures Shape(s)
  {
    PushedAll(cores);
    PushedDistinct(cores, |cores|);
    Sched(Pushed(cores, |cores|), BootTasks(cores),
          seq(|cores|, c requires 0 <= c < |cores| => Cpu(cores[c], 0, 0)), 0)
  }

  function BootTasks<T(==)>(cores: seq<T>): map<T, Task<T>>
    requires |cores| <= 32
  {
    map t | t in cores :: CoreTask(IndexOf(cores, t))
  }

  lemma {:induction false} PushedDistinct<T>(cores: seq<T>, k: nat)
    requires Distinct(cores) && k <= |cores|
    ensures Distinct(Pushed(cores, k))
    decreases k
  {
    if k == 0 {
      assert forall i, j :: Differ<T>([], i, j);
    } else {
      PushedDistinct(cores, k - 1);
      NotPushed(cores, k - 1);
      DistinctCons(cores[k - 1], Pushed(cores, k - 1));
    }
  }

  lemma NotPushed<T>(cores: seq<T>, k: nat)
    requires Distinct(cores) && k < |cores|
    ensures cores[k] !in Pushed(cores, k)
  {
    var q := Pushed(cores, k);
    forall i | 0 <= i < k ensures q[i] != cores[k] {
      assert Differ(cores, k - 1 - i, k);
    }
  }

  lemma PushedAll<T>(cores: seq<T>)
    ensures forall t | t in cores :: t in Pushed(cores, |cores|)
  {
    forall t | t in cores ensures t in Pushed(cores, |cores|) {
      var i :| 0 <= i < |cores| && cores[i] == t;
      assert Pushed(cores, |cores|)[|cores| - 1 - i] == t;
    }
  }

  function CoreTask<T>(c: nat): Task<T>
    requires c < 32
  {
    Task(Ready, 0, AllBut(c), 0, 0, 0, None)
  }

  /** The mask `~(1 << c)` bars a task from every CPU but `c`. */
  function AllBut(c: nat): (b: set<nat>)
    requires c < 32
    ensures forall d: nat | d < 32 :: d in b <==> d != c
  {
    ShiftIsWord(c);
    CoreMask(c);
    Barred(Not(Pow2(c)))
  }

  lemma CoreMask(c: nat)
    requires c < 32
    ensures Pow2(c) < WORD && forall d: nat | d < 32 :: TestBit(Not(Pow2(c)), d) <==> d != c
  {
    ShiftIsWord(c);
    forall d: nat | d < 32 ensures TestBit(Not(Pow2(c)), d) <==> d != c {
      TestIsBit(Not(Pow2(c)), d);
      NotBit(Pow2(c), d);
      ShiftBit(c, d);
    }
  }

  lemma BootIsSafe<T>(cores: seq<T>)
    requires |cores| <= 32 && Distinct(cores)
    ensures Safe(Boot(cores))
  {
    var s := Boot(cores);
    forall c: nat | c < |s.cpus| ensures CurrentOk(s, c) {
      IndexUnique(cores, c);
    }
    forall c, d | 0 <= c < d < |s.cpus| ensures s.cpus[c].current != s.cpus[d].current {
      assert Differ(cores, c, d);
    }
  }

  /** Every operation is allowed in the state it is applied to. */
  ghost predicate AllowedRun<T>(s: Sched<T>, ops: seq<Op<T>>)
    requires Shape(s)
    decreases |ops|
  {
    ops == [] || (
      && Allowed(s, ops[0])
      && (Do(s, ops[0]).Some? ==> AllowedRun(Do(s, ops[0]).value, ops[1..])))
  }

  /** From a safe state every allowed run returns and ends in a safe state. */
  lemma {:induction false} RunKeepsSafe<T>(s: Sched<T>, ops: seq<Op<T>>)
    requires Safe(s) && AllowedRun(s, ops)
    ensures Run(s, ops).Some? && Safe(Run(s, ops).value)
    decreases |ops|
  {
    if ops != [] {
      DoKeepsSafe(s, ops[0]);
      RunKeepsSafe(Do(s, ops[0]).value, ops[1..]);
    }
  }

  /** Every operation of the run is allowed where it comes and returns, and every state is safe. */
  ghost predicate StaysSafe<T>(s: Sched<T>, ops: seq<Op<T>>)
    decreases |ops|
  {
    Safe(s) && (ops != [] ==> Allowed(s, ops[0]) && Do(s, ops[0]).Some? && StaysSafe(Do(s, ops[0]).value, ops[1..]))
  }

  lemma {:induction false} AllowedStaysSafe<T>(s: Sched<T>, ops: seq<Op<T>>)
    requires Safe(s) && AllowedRun(s, ops)
    ensures StaysSafe(s, ops)
    decreases |ops|
  {
    if ops != [] {
      DoKeepsSafe(s, ops[0]);
      AllowedStaysSafe(Do(s, ops[0]).value, ops[1..]);
    }
  }

  /** After boot, whatever interrupts, yields and spawns follow in whatever order, every switch
      returns, no task is current on two CPUs, and only current tasks are RUNNING. */
  lemma NeverOnTwoCpus<T>(cores: seq<T>, ops: seq<Op<T>>)
    requires |cores| <= 32 && Distinct(cores) && AllowedRun(Boot(cores), ops)
    ensures Run(Boot(cores), ops).Some? && Safe(Run(Boot(cores), ops).value)
  {
    BootIsSafe(cores);
    RunKeepsSafe(Boot(cores), ops);
  }
}
