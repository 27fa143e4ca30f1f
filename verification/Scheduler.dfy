/** The scheduler as functions on values: a shared run queue, the fields of each task that
    scheduling reads or writes, and per CPU its current task and tick clock.

    `T` identifies a task.  `barred` is the set of CPUs its affinity mask excludes it from: a set
    bit means excluded. */
module Scheduler {
  import opened Bits
  import opened Lists
  import opened Outcomes
  import opened TurnLength

  datatype Status = Ready | Running | Sleep | Stop | Zombie

  datatype Task<T> = Task(
    status: Status, priority: int, barred: set<nat>, utime: Word, cutime: Word, switches: nat, parent: Option<T>)

  /** A CPU's current task and its `ticks` timespec. */
  datatype Cpu<T> = Cpu(current: T, sec: nat, nsec: nat)

  /** `last` is `__last_scheduling`. */
  datatype Sched<T> = Sched(queue: seq<T>, tasks: map<T, Task<T>>, cpus: seq<Cpu<T>>, last: nat)

  /** The queue lists every task once, currents are queued, CPU ids fit the mask, and priorities
      lie between TASK_PRIO_MAX and TASK_PRIO_MIN. */
  ghost predicate Shape<T>(s: Sched<T>) {
    && Distinct(s.queue)
    && (forall t | t in s.queue :: t in s.tasks)
    && (forall t | t in s.tasks :: t in s.queue)
    && |s.cpus| <= 32
    && (forall c | 0 <= c < |s.cpus| :: s.cpus[c].current in s.tasks)
    && (forall t | t in s.tasks :: -20 <= s.tasks[t].priority <= 19)
    && ParentsKnown(s.tasks)
  }

  ghost predicate ParentsKnown<T>(tasks: map<T, Task<T>>) {
    forall t {:trigger ParentKnown(tasks, t)} | t in tasks :: ParentKnown(tasks, t)
  }

  ghost predicate ParentKnown<T>(tasks: map<T, Task<T>>, t: T)
    requires t in tasks
  {
    tasks[t].parent.Some? ==> tasks[t].parent.value in tasks
  }

  lemma SameParents<T>(tasks: map<T, Task<T>>, tasks': map<T, Task<T>>)
    requires ParentsKnown(tasks) && tasks'.Keys == tasks.Keys
    requires forall t | t in tasks :: tasks'[t].parent == tasks[t].parent
    ensures ParentsKnown(tasks')
  {
    forall t | t in tasks' ensures ParentKnown(tasks', t) {
      assert ParentKnown(tasks, t);
    }
  }

  lemma NewParents<T>(tasks: map<T, Task<T>>, t: T, task: Task<T>)
    requires ParentsKnown(tasks) && t !in tasks && (task.parent.Some? ==> task.parent.value in tasks)
    ensures ParentsKnown(tasks[t := task])
  {
    var r := tasks[t := task];
    forall x | x in r ensures ParentKnown(r, x) {
      assert x != t ==> ParentKnown(tasks, x);
    }
  }

  /** The CPUs an affinity mask excludes: those whose bit `affinity & (1 << id)` is set. */
  function Barred(affinity: Word): (b: set<nat>)
    ensures forall c: nat | c < 32 :: c in b <==> TestBit(affinity, c)
  {
    set c: nat | c < 32 && TestBit(affinity, c)
  }

  // ------------------------------------------------------------------ clock

  /** The tick counter update of the 0x20 interrupt. */
  function Tick<T>(cpu: Cpu<T>): Cpu<T> {
    if cpu.nsec + 1000000 > 999999999 then cpu.(sec := cpu.sec + 1, nsec := 0)
    else cpu.(nsec := cpu.nsec + 1000000)
  }

  /** `arch_timer_getus`, with CONFIG_CLOCKS_PER_SEC = 1000000. */
  function Now<T>(cpu: Cpu<T>): nat {
    cpu.sec * 1000000 + cpu.nsec / 1000
  }

  // ----------------------------------------------------------------- timing

  /** Charge `dt` microseconds to task `t` and to its parent's children time. */
  function Charge<T>(tasks: map<T, Task<T>>, t: T, dt: int): (r: map<T, Task<T>>)
    requires t in tasks && ParentKnown(tasks, t)
    ensures r.Keys == tasks.Keys
  {
    var charged := tasks[t := tasks[t].(utime := Wrap(tasks[t].utime + dt))];
    if tasks[t].parent.None? then charged
    else
      var p := tasks[t].parent.value;
      charged[p := charged[p].(cutime := Wrap(charged[p].cutime + dt))]
  }

  /** The quantum of a task, in milliseconds of its own time. */
  function Quantum<T>(t: Task<T>): (q: int)
    requires -20 <= t.priority <= 19
    ensures 1 <= q <= 40
  {
    20 - t.priority
  }

  /** Whether `schedule` lets the current task go on: its milliseconds are not a multiple of its
      quantum. */
  predicate KeepsRunning<T>(t: Task<T>)
    requires -20 <= t.priority <= 19
  {
    !Passes(t.utime, Quantum(t))
  }

  // ----------------------------------------------------------------- choice

  predicate Eligible<T>(s: Sched<T>, c: nat, t: T)
    requires t in s.tasks && c < 32
  {
    s.tasks[t].status.Ready? && c !in s.tasks[t].barred
  }

  /** The queue in cyclic order strictly after `t`: `t` itself comes last. */
  function After<T(==)>(q: seq<T>, t: T): (r: seq<T>)
    requires t in q
    ensures |r| == |q|
  {
    var i := IndexOf(q, t);
    q[i + 1..] + q[..i + 1]
  }

  lemma AfterMembers<T>(q: seq<T>, t: T)
    requires t in q
    ensures forall x | x in After(q, t) :: x in q
    ensures forall x | x in q :: x in After(q, t)
  {
    var i := IndexOf(q, t);
    assert q == q[..i + 1] + q[i + 1..];
  }

  function First<T(==)>(s: Sched<T>, c: nat, order: seq<T>): (r: Option<T>)
    requires c < 32 && forall t | t in order :: t in s.tasks
    ensures r.Some? ==> r.value in order && Eligible(s, c, r.value)
  {
    if order == [] then None
    else if Eligible(s, c, order[0]) then Some(order[0])
    else First(s, c, order[1..])
  }

  lemma {:induction false} FirstNone<T>(s: Sched<T>, c: nat, order: seq<T>)
    requires c < 32 && forall t | t in order :: t in s.tasks
    ensures First(s, c, order).None? <==> forall t | t in order :: !Eligible(s, c, t)
  {
    if order != [] {
      assert order == [order[0]] + order[1..];
      FirstNone(s, c, order[1..]);
    }
  }

  /** `__sched_next`; `None` when its loop never ends. */
  function Next<T(==)>(s: Sched<T>, c: nat): (r: Option<T>)
    requires Shape(s) && c < |s.cpus|
    ensures r.Some? ==> r.value in s.tasks && Eligible(s, c, r.value)
  {
    AfterMembers(s.queue, s.cpus[c].current);
    First(s, c, After(s.queue, s.cpus[c].current))
  }

  // ------------------------------------------------------------- operations

  /** `__timing` and the two charges at the top of `schedule` and `schedule_yield`. */
  function Timed<T>(s: Sched<T>, c: nat): (r: Sched<T>)
    requires Shape(s) && c < |s.cpus|
    ensures Shape(r)
  {
    var now := Now(s.cpus[c]);
    var tasks := Charge(s.tasks, s.cpus[c].current, now - s.last);
    SameParents(s.tasks, tasks);
    s.(tasks := tasks, last := now)
  }

  /** The current task steps back: RUNNING becomes READY, the involuntary switch is counted. */
  function StepBack<T>(s: Sched<T>, c: nat): (r: Sched<T>)
    requires Shape(s) && c < |s.cpus|
    ensures Shape(r)
  {
    var cur := s.cpus[c].current;
    var t := s.tasks[cur];
    var tasks := s.tasks[cur := t.(switches := t.switches + 1,
                                   status := if t.status.Running? then Ready else t.status)];
    SameParents(s.tasks, tasks);
    s.(tasks := tasks)
  }

  function Dispatch<T>(s: Sched<T>, c: nat, t: T): (r: Sched<T>)
    requires Shape(s) && c < |s.cpus| && t in s.tasks
    ensures Shape(r)
  {
    var tasks := s.tasks[t := s.tasks[t].(status := Running)];
    SameParents(s.tasks, tasks);
    s.(tasks := tasks, cpus := s.cpus[c := s.cpus[c].(current := t)])
  }

  function Switch<T(==)>(s: Sched<T>, c: nat): (r: Option<Sched<T>>)
    requires Shape(s) && c < |s.cpus|
    ensures r.Some? ==> Shape(r.value)
  {
    var back := StepBack(s, c);
    var next := Next(back, c);
    if next.None? then None else Some(Dispatch(back, c, next.value))
  }

  /** The rest of `schedule` once the quantum test is done. */
  function Resume<T(==)>(s: Sched<T>, c: nat, keep: bool): (r: Option<Sched<T>>)
    requires Shape(s) && c < |s.cpus|
    ensures r.Some? ==> Shape(r.value)
  {
    if keep then Some(s) else Switch(s, c)
  }

  function Schedule<T(==)>(s: Sched<T>, c: nat): (r: Option<Sched<T>>)
    requires Shape(s) && c < |s.cpus|
    ensures r.Some? ==> Shape(r.value)
  {
    var timed := Timed(s, c);
    Resume(timed, c, KeepsRunning(timed.tasks[s.cpus[c].current]))
  }

  function Yield<T(==)>(s: Sched<T>, c: nat): (r: Option<Sched<T>>)
    requires Shape(s) && c < |s.cpus|
    ensures r.Some? ==> Shape(r.value)
  {
    Switch(Timed(s, c), c)
  }

  /** The timer interrupt: one tick, then `schedule`. */
  function Interrupt<T(==)>(s: Sched<T>, c: nat): (r: Option<Sched<T>>)
    requires Shape(s) && c < |s.cpus|
    ensures r.Some? ==> Shape(r.value)
  {
    Schedule(s.(cpus := s.cpus[c := Tick(s.cpus[c])]), c)
  }

  /** `sched_enqueue` puts a task at the head of the queue. */
  function Enqueue<T>(s: Sched<T>, t: T, task: Task<T>): Sched<T> {
    s.(queue := [t] + s.queue, tasks := s.tasks[t := task])
  }
}
