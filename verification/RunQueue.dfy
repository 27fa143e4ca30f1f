/** The scheduler as the kernel runs it: tasks linked through `next`, their fields and each CPU's
    current task updated in place.  Each method is proved against the functions of `Scheduler`. */
module RunQueue {
  import opened Bits
  import opened Lists
  import opened Outcomes
  import opened Scheduler
  import opened SchedulerSafety
  import Steps = SchedulerSteps
  import opened TurnLength
  import opened TurnTaking

  /** The part of `task_t` that scheduling uses. */
  class TaskNode {
    const tid: nat
    const affinity: Word
    var next: TaskNode?
    var status: Status
    var priority: int
    var utime: Word
    var cutime: Word
    var switches: nat
    var parent: TaskNode?

    constructor (tid: nat, priority: int, affinity: Word, parent: TaskNode?)
      ensures this.tid == tid && this.parent == parent && next == null
      ensures Record() == Task(Ready, priority, Barred(affinity), 0, 0, 0, Parent())
    {
      this.tid, next, status, this.priority, this.affinity := tid, null, Ready, priority, affinity;
      utime, cutime, switches, this.parent := 0, 0, 0, parent;
    }

    function Parent(): Option<TaskNode>
      reads this`parent
    {
      if parent == null then None else Some(parent)
    }

    function Record(): Task<TaskNode>
      reads this
    {
      Task(status, priority, Barred(affinity), utime, cutime, switches, Parent())
    }
  }

  /** The fields a newly made task is given before it is enqueued. */
  method Fill(t: TaskNode, task: Task<TaskNode>)
    requires Barred(t.affinity) == task.barred
    modifies t
    ensures t.Record() == task
  {
    t.status, t.priority, t.switches := task.status, task.priority, task.switches;
    t.utime, t.cutime := task.utime, task.cutime;
    t.parent := if task.parent.Some? then task.parent.value else null;
  }

  /** `sched_queue`: a list of tasks linked through `next` and ending in NULL. */
  class LinkedQueue {
    var head: TaskNode?
    ghost var nodes: seq<TaskNode>

    /** The `next` links from `head` visit exactly `nodes`, each once, and then stop. */
    ghost predicate Linked()
      reads this, nodes`next
    {
      Distinct(nodes) && Chained()
    }

    ghost predicate Chained()
      reads this, nodes`next
    {
      && head == (if nodes == [] then null else nodes[0])
      && (forall i {:trigger nodes[i].next} | 0 <= i < |nodes| - 1 :: nodes[i].next == nodes[i + 1])
      && (nodes != [] ==> nodes[|nodes| - 1].next == null)
    }

    constructor ()
      ensures Linked() && nodes == []
    {
      head, nodes := null, [];
    }

    /** sched.c:144-149. */
    method Push(task: TaskNode)
      requires Linked() && task !in nodes
      modifies this, task`next
      ensures Linked() && nodes == [task] + old(nodes)
    {
      DistinctCons(task, nodes);
      task.next := head;
      head := task;
      nodes := [task] + nodes;
    }

    /** One move of `__sched_next`: the next task, or the head after the last, sched.c:53-55. */
    function Following(n: TaskNode, ghost j: nat): (m: TaskNode)
      requires Chained() && j < |nodes| && n == nodes[j]
      reads this, nodes
      ensures m == nodes[Succ(|nodes|, j)]
    {
      if n.next == null then head else n.next
    }

    /** The search loop of `sched_dequeue`: the last node, or the one before `task`. */
    method FindBefore(task: TaskNode) returns (tmp: TaskNode, ghost i: nat)
      requires Linked() && nodes != [] && task != head
      ensures i < |nodes| && tmp == nodes[i]
      ensures if task in nodes then i + 1 < |nodes| && nodes[i + 1] == task else i == |nodes| - 1
    {
      tmp, i := head, 0;
      while tmp.next != null && tmp.next != task
        invariant i < |nodes| && tmp == nodes[i]
        invariant forall j | 0 <= j <= i :: nodes[j] != task
        decreases |nodes| - i
      {
        tmp, i := tmp.next, i + 1;
      }
    }

    method UnlinkAfter(tmp: TaskNode, ghost i: nat)
      requires Linked() && i + 1 < |nodes| && tmp == nodes[i]
      modifies this`nodes, tmp`next
      ensures Linked() && nodes == old(nodes)[..i + 1] + old(nodes)[i + 2..]
    {
      ghost var before := nodes;
      DistinctWithout(nodes, i + 1);
      var task := tmp.next;
      assert task == before[i + 1];
      assert Differ(nodes, i, i + 1);
      tmp.next := task.next;
      nodes := nodes[..i + 1] + nodes[i + 2..];
      assert forall j | 0 <= j < |nodes| :: nodes[j] == before[if j <= i then j else j + 1];
    }

    /** sched.c:153-170.  `ok` is false where the assertions after the search would fail. */
    method Remove(task: TaskNode) returns (ok: bool)
      requires Linked() && nodes != []
      modifies this, nodes`next
      ensures Linked() && nodes == RemoveFirst(old(nodes), task)
      ensures ok <==> task in old(nodes)
    {
      if task == head {
        DistinctTail(nodes);
        head := task.next;
        nodes := nodes[1..];
        return true;
      }
      var tmp, i := FindBefore(task);
      if tmp.next == null { return false; }
      RemoveKeepsOrder(nodes, i + 1);
      UnlinkAfter(tmp, i);
      return true;
    }
  }

  /** The place visited after `k` more moves when the first move leaves place `i`. */
  function PlaceAt(n: nat, i: nat, k: nat): (j: nat)
    requires i < n && k < n
    ensures j < n
  {
    Cyclic(n, i + 1 + k)
  }

  ghost predicate FirstRound(ok: seq<bool>, i: nat, k: nat) {
    && i < |ok| && k < |ok| && ok[PlaceAt(|ok|, i, k)]
    && forall j: nat | j < k :: !ok[PlaceAt(|ok|, i, j)]
  }

  predicate MayRun(n: TaskNode, c: nat)
    requires c < 32
    reads n
  {
    n.status.Ready? && !TestBit(n.affinity, c)
  }

  ghost function EligiblePlaces(v: Sched<TaskNode>, c: nat): (ok: seq<bool>)
    requires Shape(v) && c < 32
    ensures |ok| == |v.queue| && forall j | 0 <= j < |ok| :: ok[j] == Eligible(v, c, v.queue[j])
  {
    seq(|v.queue|, j requires 0 <= j < |v.queue| => Eligible(v, c, v.queue[j]))
  }

  lemma ChosenPlace(v: Sched<TaskNode>, c: nat, i: nat) returns (k: nat)
    requires Shape(v) && c < |v.cpus| && i < |v.queue| && v.queue[i] == v.cpus[c].current && Next(v, c).Some?
    ensures FirstRound(EligiblePlaces(v, c), i, k)
    ensures Next(v, c).value == v.queue[PlaceAt(|v.queue|, i, k)]
  {
    var order, ok := After(v.queue, v.cpus[c].current), EligiblePlaces(v, c);
    AfterMembers(v.queue, v.cpus[c].current);
    k := FirstIsLeast(v, c, order);
    AfterAt(v.queue, i, k);
    forall j: nat | j < k ensures !ok[PlaceAt(|ok|, i, j)] {
      AfterAt(v.queue, i, j);
      assert !Eligible(v, c, order[j]);
    }
  }

  /** The fields of all queued tasks. */
  ghost function Records(nodes: seq<TaskNode>): (m: map<TaskNode, Task<TaskNode>>)
    reads nodes
  {
    map n | n in nodes :: n.Record()
  }

  ghost predicate ParentIn(nodes: seq<TaskNode>, n: TaskNode)
    reads n`parent
  {
    n.parent != null ==> n.parent in nodes
  }

  lemma ParentsIn(nodes: seq<TaskNode>)
    requires forall n {:trigger ParentIn(nodes, n)} | n in nodes :: ParentIn(nodes, n)
    ensures ParentsKnown(Records(nodes))
  {
    forall n | n in nodes ensures ParentKnown(Records(nodes), n) {
      assert ParentIn(nodes, n);
    }
  }

  ghost function Cpus(currents: seq<TaskNode>, secs: seq<nat>, nsecs: seq<nat>): (cpus: seq<Cpu<TaskNode>>)
    requires |currents| == |secs| == |nsecs|
    ensures |cpus| == |currents|
    ensures forall c | 0 <= c < |cpus| :: cpus[c] == Cpu(currents[c], secs[c], nsecs[c])
  {
    seq(|currents|, c requires 0 <= c < |currents| => Cpu(currents[c], secs[c], nsecs[c]))
  }

  function MoreUtime(t: Task<TaskNode>, dt: int): Task<TaskNode> {
    t.(utime := Wrap(t.utime + dt))
  }

  function MoreCutime(t: Task<TaskNode>, dt: int): Task<TaskNode> {
    t.(cutime := Wrap(t.cutime + dt))
  }

  function WithStatus(t: Task<TaskNode>, status: Status, switches: nat): Task<TaskNode> {
    t.(status := status, switches := switches)
  }

  function Changed(v: Sched<TaskNode>, n: TaskNode, t: Task<TaskNode>): Sched<TaskNode> {
    v.(tasks := v.tasks[n := t])
  }

  /** What `schedule` does first to the current task `cur`, described by `t`: its own time and, if it
      has one, its parent's children time grow by `dt`. */
  function ChargeBoth(v: Sched<TaskNode>, cur: TaskNode, t: Task<TaskNode>, dt: int): (r: Option<Sched<TaskNode>>) {
    var w := Changed(v, cur, MoreUtime(t, dt));
    if t.parent.None? then Some(w)
    else if t.parent.value !in w.tasks then None
    else Some(Changed(w, t.parent.value, MoreCutime(w.tasks[t.parent.value], dt)))
  }

  lemma TimedIsCharge(v: Sched<TaskNode>, c: nat, now: nat, dt: int, w: Sched<TaskNode>)
    requires Shape(v) && c < |v.cpus| && now == Now(v.cpus[c]) && dt == now - v.last && w == Timed(v, c)
    ensures var cur := v.cpus[c].current; Some(w) == ChargeBoth(v.(last := now), cur, v.tasks[cur], dt)
  {
    assert ParentKnown(v.tasks, v.cpus[c].current);
  }

  class KernelScheduler {
    const queue: LinkedQueue
    var currents: seq<TaskNode>
    var secs: seq<nat>
    var nsecs: seq<nat>
    var last: nat

    /** The queue is linked, currents and parents are queued, and priorities and CPU ids are in range.
        (`== true` keeps the verifier from splitting a fact that most proofs only pass along.) */
    ghost predicate Valid()
      reads `currents, `secs, `nsecs, queue, queue.nodes`next, queue.nodes`priority, queue.nodes`parent
    {
      Consistent() == true
    }

    ghost predicate Consistent()
      reads `currents, `secs, `nsecs, queue, queue.nodes`next, queue.nodes`priority, queue.nodes`parent
    {
      && queue.Linked()
      && |currents| == |secs| == |nsecs| <= 32
      && (forall c | 0 <= c < |currents| :: currents[c] in queue.nodes)
      && (forall n | n in queue.nodes :: -20 <= n.priority <= 19)
      && (forall n {:trigger ParentIn(queue.nodes, n)} | n in queue.nodes :: ParentIn(queue.nodes, n))
    }

    ghost function View(): (s: Sched<TaskNode>)
      requires Valid()
      reads this, queue, queue.nodes
      ensures Shape(s)
    {
      ParentsIn(queue.nodes);
      Sched(queue.nodes, Records(queue.nodes), Cpus(currents, secs, nsecs), last)
    }

    /** CPUs whose current tasks are queued and whose clocks start at zero. */
    constructor (q: LinkedQueue, running: seq<TaskNode>)
      requires q.Linked() && |running| <= 32
      requires forall c | 0 <= c < |running| :: running[c] in q.nodes
      requires forall n | n in q.nodes :: -20 <= n.priority <= 19
      requires forall n {:trigger ParentIn(q.nodes, n)} | n in q.nodes :: ParentIn(q.nodes, n)
      ensures Valid() && queue == q && currents == running && last == 0
      ensures secs == seq(|running|, c => 0) && nsecs == seq(|running|, c => 0)
    {
      queue, currents, last := q, running, 0;
      secs, nsecs := seq(|running|, c => 0), seq(|running|, c => 0);
    }

    lemma StepBackIs(v: Sched<TaskNode>, c: nat, cur: TaskNode, status: Status)
      requires Valid() && v == View() && c < |currents| && cur == currents[c]
      requires status == if cur.status.Running? then Ready else cur.status
      ensures cur in queue.nodes
      ensures StepBack(View(), c) == Changed(v, cur, WithStatus(cur.Record(), status, cur.switches + 1))
    {
      assert v.tasks[cur] == cur.Record();
    }

    lemma TimedIs(v: Sched<TaskNode>, c: nat, cur: TaskNode, now: nat, dt: int) returns (w: Sched<TaskNode>)
      requires Valid() && v == View() && c < |currents| && cur == currents[c]
      requires now == secs[c] * 1000000 + nsecs[c] / 1000 && dt == now - last
      ensures cur in queue.nodes
      ensures w == Timed(View(), c) && Some(w) == ChargeBoth(v.(last := now), cur, cur.Record(), dt)
    {
      w := Timed(v, c);
      assert v.tasks[cur] == cur.Record();
      TimedIsCharge(v, c, now, dt, w);
    }

    /** `n->clock.tms_utime += dt`. */
    method AddUtime(n: TaskNode, dt: int)
      requires Valid() && n in queue.nodes
      modifies n`utime
      ensures Valid() && View() == Changed(old(View()), n, MoreUtime(old(n.Record()), dt))
    {
      n.utime := Wrap(n.utime + dt);
      assert Records(queue.nodes) == old(Records(queue.nodes))[n := MoreUtime(old(n.Record()), dt)];
    }

    /** `n->clock.tms_cutime += dt`. */
    method AddCutime(n: TaskNode, dt: int)
      requires Valid() && n in queue.nodes
      modifies n`cutime
      ensures Valid() && View() == Changed(old(View()), n, MoreCutime(old(n.Record()), dt))
    {
      n.cutime := Wrap(n.cutime + dt);
      assert Records(queue.nodes) == old(Records(queue.nodes))[n := MoreCutime(old(n.Record()), dt)];
    }

    method SetStatus(n: TaskNode, status: Status, switches: nat)
      requires Valid() && n in queue.nodes
      modifies n`status, n`switches
      ensures Valid() && View() == Changed(old(View()), n, WithStatus(old(n.Record()), status, switches))
    {
      n.status, n.switches := status, switches;
      assert Records(queue.nodes) == old(Records(queue.nodes))[n := WithStatus(old(n.Record()), status, switches)];
    }

    method ChargeTask(cur: TaskNode, dt: int, ghost v: Sched<TaskNode>, ghost w: Sched<TaskNode>)
      requires Valid() && cur in queue.nodes && v == View() && Some(w) == ChargeBoth(v, cur, cur.Record(), dt)
      modifies queue.nodes`utime, queue.nodes`cutime
      ensures Valid() && View() == w
    {
      assert ParentIn(queue.nodes, cur);
      AddUtime(cur, dt);
      if cur.parent != null {
        AddCutime(cur.parent, dt);
      }
    }

    method SetLast(now: nat)
      requires Valid()
      modifies this`last
      ensures Valid() && View() == old(View()).(last := now) && last == now
    {
      last := now;
    }

    /** `__timing` and the charges, sched.c:83-87 and 118-122. */
    method ChargeCurrent(c: nat, ghost v: Sched<TaskNode>)
      requires Valid() && c < |currents| && v == View()
      modifies this`last, queue.nodes`utime, queue.nodes`cutime
      ensures Valid() && View() == Timed(v, c)
    {
      var cur := currents[c];
      var now := secs[c] * 1000000 + nsecs[c] / 1000;
      var dt := now - last;
      ghost var w := TimedIs(v, c, cur, now, dt);
      SetLast(now);
      ChargeTask(cur, dt, v.(last := now), w);
    }

    /** sched.c:94-97 and 126-129. */
    method StepBackCurrent(c: nat, ghost v: Sched<TaskNode>)
      requires Valid() && c < |currents| && v == View()
      modifies queue.nodes`status, queue.nodes`switches
      ensures Valid() && View() == StepBack(v, c)
    {
      var cur := currents[c];
      var status := if cur.status.Running? then Ready else cur.status;
      StepBackIs(v, c, cur, status);
      SetStatus(cur, status, cur.switches + 1);
    }

    /** The chosen task becomes current and RUNNING, sched.c:101-103 and 133-136. */
    method DispatchTo(c: nat, next: TaskNode, ghost v: Sched<TaskNode>)
      requires Valid() && v == View() && c < |currents| && next in queue.nodes
      modifies this`currents, queue.nodes`status, queue.nodes`switches
      ensures Valid() && View() == Dispatch(v, c, next)
    {
      SetStatus(next, Running, next.switches);
      SetCurrent(c, next);
    }

    method SetCurrent(c: nat, next: TaskNode)
      requires Valid() && c < |currents| && next in queue.nodes
      modifies this`currents
      ensures Valid() && View() == old(View()).(cpus := old(View()).cpus[c := old(View()).cpus[c].(current := next)])
    {
      ghost var cpus := Cpus(currents, secs, nsecs);
      currents := currents[c := next];
      assert Cpus(currents, secs, nsecs) == cpus[c := cpus[c].(current := next)];
    }

    /** What the loop of `__sched_next` will do, in terms of places in the queue. */
    lemma SearchPlan(c: nat, v: Sched<TaskNode>) returns (i: nat, ok: seq<bool>, last: nat)
      requires Valid() && v == View() && c < |currents| && Next(v, c).Some?
      ensures c < 32 && i < |queue.nodes| == |ok| && queue.nodes[i] == currents[c]
      ensures forall j | 0 <= j < |ok| :: ok[j] == MayRun(queue.nodes[j], c)
      ensures FirstRound(ok, i, last)
      ensures queue.nodes[PlaceAt(|ok|, i, last)] == Next(v, c).value
    {
      i := IndexOf(v.queue, v.cpus[c].current);
      ok := EligiblePlaces(v, c);
      last := ChosenPlace(v, c, i);
    }

    /** The loop of `__sched_next`, sched.c:49-71, which ends at the place `last` moves on. */
    method Search(c: nat, ghost v: Sched<TaskNode>, ghost i: nat, ghost ok: seq<bool>, ghost last: nat)
      returns (cur: TaskNode)
      requires Valid() && View() == v && c < |currents| && c < 32
      requires i < |queue.nodes| == |ok| && currents[c] == queue.nodes[i]
      requires forall j | 0 <= j < |ok| :: ok[j] == MayRun(queue.nodes[j], c)
      requires FirstRound(ok, i, last)
      ensures cur == queue.nodes[PlaceAt(|ok|, i, last)] && Valid() && View() == v
    {
      ghost var n, k := |ok|, 0;
      cur := queue.Following(currents[c], i);
      while TestBit(cur.affinity, c) || !cur.status.Ready?
        invariant k <= last && cur == queue.nodes[PlaceAt(n, i, k)]
        decreases last - k
      {
        assert !ok[PlaceAt(n, i, k)];
        cur := queue.Following(cur, PlaceAt(n, i, k));
        k := k + 1;
      }
      assert ok[PlaceAt(n, i, k)];
    }

    /** `__sched_next` and the dispatch of what it finds, the one `Next` names. */
    method DispatchNext(c: nat, ghost v: Sched<TaskNode>)
      requires Valid() && v == View() && c < |currents| && Next(v, c).Some?
      modifies this`currents, queue.nodes`status, queue.nodes`switches
      ensures Valid() && View() == Dispatch(v, c, Next(v, c).value)
    {
      ghost var i, ok, last := SearchPlan(c, v);
      var cur := Search(c, v, i, ok, last);
      DispatchTo(c, cur, v);
    }

    lemma SwitchIs(c: nat, v: Sched<TaskNode>) returns (back: Sched<TaskNode>, w: Sched<TaskNode>)
      requires Valid() && v == View() && c < |currents| && Switch(v, c).Some?
      ensures back == StepBack(View(), c) && Next(StepBack(View(), c), c).Some?
      ensures w == Dispatch(StepBack(View(), c), c, Next(StepBack(View(), c), c).value) && Some(w) == Switch(View(), c)
    {
      back := StepBack(v, c);
      w := Dispatch(back, c, Next(back, c).value);
    }

    /** sched.c:94-103 and 126-136. */
    method SwitchTask(c: nat, ghost v: Sched<TaskNode>)
      requires Valid() && v == View() && c < |currents| && Switch(v, c).Some?
      modifies this`currents, queue.nodes`status, queue.nodes`switches
      ensures Valid() && Some(View()) == Switch(v, c)
    {
      ghost var back, w := SwitchIs(c, v);
      StepBackCurrent(c, v);
      DispatchNext(c, back);
    }

    /** `schedule_yield`, sched.c:113-140: this CPU hands over to the first task in cyclic order that may
        follow. */
    method YieldCpu(c: nat, ghost v: Sched<TaskNode>)
      requires Valid() && v == View() && c < |currents| && Yield(v, c).Some?
      modifies this`last, this`currents, queue.nodes`utime, queue.nodes`cutime, queue.nodes`status, queue.nodes`switches
      ensures Valid() && Some(View()) == Yield(v, c)
      ensures Steps.Moves(v, c, View())
    {
      Steps.YieldExact(v, c);
      ghost var timed := Timed(v, c);
      ChargeCurrent(c, v);
      SwitchTask(c, timed);
    }

    /** sched.c:90. */
    method QuantumTest(c: nat, ghost v: Sched<TaskNode>) returns (keep: bool)
      requires Valid() && v == View() && c < |currents|
      ensures keep == KeepsRunning(v.tasks[v.cpus[c].current]) && Valid() && View() == v
    {
      var cur := currents[c];
      assert v.tasks[cur] == cur.Record();
      DividesIsMod(20 - cur.priority, CDiv(AsInt(cur.utime), 1000));
      keep := CDiv(AsInt(cur.utime), 1000) % (20 - cur.priority) != 0;
    }

    method ResumeCpu(c: nat, keep: bool, ghost v: Sched<TaskNode>)
      requires Valid() && v == View() && c < |currents| && Resume(v, c, keep).Some?
      modifies this`currents, queue.nodes`status, queue.nodes`switches
      ensures Valid() && Some(View()) == Resume(v, c, keep)
    {
      if keep { return; }
      SwitchTask(c, v);
    }

    /** `schedule`, sched.c:75-109: unless the turn of this CPU's own current task is over, that goes on;
        otherwise this CPU hands over. */
    method ScheduleCpu(c: nat, ghost v: Sched<TaskNode>)
      requires Valid() && v == View() && c < |currents| && Schedule(v, c).Some?
      modifies this`last, this`currents, queue.nodes`utime, queue.nodes`cutime, queue.nodes`status, queue.nodes`switches
      ensures Valid() && Some(View()) == Schedule(v, c)
      ensures Steps.Scheduled(v, c, View())
    {
      Steps.ScheduleExact(v, c);
      ghost var timed := Timed(v, c);
      ChargeCurrent(c, v);
      var keep := QuantumTest(c, timed);
      ResumeCpu(c, keep, timed);
    }

    /** The tick counter of interrupt 0x20, intr.c:392-396. */
    method CountTick(c: nat)
      requires Valid() && c < |currents|
      modifies this`secs, this`nsecs
      ensures Valid() && View() == old(View()).(cpus := old(View()).cpus[c := Tick(old(View()).cpus[c])])
    {
      ghost var cpus := Cpus(currents, secs, nsecs);
      var nsec := nsecs[c] + 1000000;
      if nsec > 999999999 {
        secs, nsecs := secs[c := secs[c] + 1], nsecs[c := 0];
      } else {
        nsecs := nsecs[c := nsec];
      }
      assert Cpus(currents, secs, nsecs) == cpus[c := Tick(cpus[c])];
    }

    /** The timer interrupt on CPU `c`. */
    method TimerTick(c: nat, ghost v: Sched<TaskNode>)
      requires Valid() && v == View() && c < |currents| && Interrupt(v, c).Some?
      modifies this`last, this`currents, this`secs, this`nsecs
      modifies queue.nodes`utime, queue.nodes`cutime, queue.nodes`status, queue.nodes`switches
      ensures Valid() && Some(View()) == Interrupt(v, c)
      ensures Steps.Scheduled(Steps.AfterTick(v, c), c, View())
    {
      Steps.InterruptExact(v, c, Steps.AfterTick(v, c));
      CountTick(c);
      ScheduleCpu(c, v.(cpus := v.cpus[c := Tick(v.cpus[c])]));
    }

    /** `sched_enqueue` of a new task, sched.c:144-149. */
    method Admit(task: TaskNode)
      requires Valid() && task !in queue.nodes && -20 <= task.priority <= 19 && ParentIn(queue.nodes, task)
      modifies queue, task`next
      ensures Valid() && View() == Enqueue(old(View()), task, old(task.Record()))
      ensures queue.nodes == [task] + old(queue.nodes) && task.Record() == old(task.Record())
    {
      ghost var nodes := queue.nodes;
      queue.Push(task);
      forall n | n in queue.nodes ensures ParentIn(queue.nodes, n) {
        assert n != task ==> ParentIn(nodes, n);
      }
      assert Records(queue.nodes) == old(Records(queue.nodes))[task := old(task.Record())];
    }

    /** A timer interrupt or a yield that returns. */
    method StepCpu(op: Op<TaskNode>, ghost v: Sched<TaskNode>, ghost w: Sched<TaskNode>)
      requires Valid() && v == View() && !op.Spawn? && op.c < |currents| && Do(v, op) == Some(w)
      modifies this`last, this`currents, this`secs, this`nsecs
      modifies queue.nodes`utime, queue.nodes`cutime, queue.nodes`status, queue.nodes`switches
      ensures Valid() && View() == w
    {
      match op
      case TimerInterrupt(c) => TimerTick(c, v);
      case YieldOn(c) => YieldCpu(c, v);
    }

    lemma SpawnFits(v: Sched<TaskNode>, t: TaskNode, task: Task<TaskNode>)
      requires Valid() && v == View() && Allowed(v, Spawn(t, task)) && t.Record() == task
      ensures -20 <= t.priority <= 19 && ParentIn(queue.nodes, t)
    {
    }

    /** A new task `t` gets its fields and is enqueued. */
    method SpawnTask(t: TaskNode, task: Task<TaskNode>, ghost v: Sched<TaskNode>)
      requires Valid() && v == View() && Allowed(v, Spawn(t, task)) && Barred(t.affinity) == task.barred
      modifies queue, t
      ensures Valid() && View() == Enqueue(v, t, task) && queue.nodes == [t] + old(queue.nodes)
    {
      assert t !in queue.nodes;
      Fill(t, task);
      assert v == View();
      SpawnFits(v, t, task);
      Admit(t);
    }

    method StepAny(op: Op<TaskNode>, ghost mine: set<TaskNode>, ghost v: Sched<TaskNode>, ghost w: Sched<TaskNode>)
      requires Valid() && v == View() && Allowed(v, op) && Do(v, op) == Some(w)
      requires op.Spawn? ==> op.t in mine && Barred(op.t.affinity) == op.task.barred
      requires forall n | n in queue.nodes :: n in mine
      modifies this, queue, mine
      ensures Valid() && View() == w && forall n | n in queue.nodes :: n in mine
    {
      if op.Spawn? {
        SpawnTask(op.t, op.task, v);
      } else {
        StepCpu(op, v, w);
      }
    }

    /** Timer interrupts, yields and spawns on any CPUs in any order, in place: from a safe state all of
        them return, and the state reached is the specified one and safe. */
    method Execute(ops: seq<Op<TaskNode>>, ghost mine: set<TaskNode>, ghost v: Sched<TaskNode>)
      requires Valid() && v == View() && StaysSafe(v, ops) && MasksAgree(ops)
      requires Newcomers(ops) <= mine && forall n | n in queue.nodes :: n in mine
      modifies this, queue, mine
      ensures Valid() && Some(View()) == Run(v, ops)
      decreases |ops|
    {
      if ops == [] { return; }
      ghost var w := FirstStep(v, ops);
      Expected(ops);
      StepAny(ops[0], mine, v, w);
      Execute(ops[1..], mine, w);
    }
  }

  /** The tasks to be spawned. */
  ghost function Newcomers(ops: seq<Op<TaskNode>>): set<TaskNode> {
    set i | 0 <= i < |ops| && ops[i].Spawn? :: ops[i].t
  }

  /** Each is barred from the CPUs its spawn says. */
  ghost predicate MasksAgree(ops: seq<Op<TaskNode>>) {
    forall i | 0 <= i < |ops| && ops[i].Spawn? :: Barred(ops[i].t.affinity) == ops[i].task.barred
  }

  lemma Expected(ops: seq<Op<TaskNode>>)
    requires ops != [] && MasksAgree(ops)
    ensures ops[0].Spawn? ==> ops[0].t in Newcomers(ops)
    ensures Newcomers(ops[1..]) <= Newcomers(ops) && MasksAgree(ops[1..])
  {
    forall j | 0 <= j < |ops| - 1 && ops[1..][j].Spawn?
      ensures ops[1..][j].t in Newcomers(ops)
    {
      assert ops[1..][j] == ops[j + 1];
    }
  }

  lemma FirstStep(v: Sched<TaskNode>, ops: seq<Op<TaskNode>>) returns (w: Sched<TaskNode>)
    requires ops != [] && StaysSafe(v, ops)
    ensures Shape(v) && Allowed(v, ops[0]) && Do(v, ops[0]) == Some(w) && Shape(w)
    ensures Run(v, ops) == Run(w, ops[1..]) && StaysSafe(w, ops[1..])
  {
    w := Do(v, ops[0]).value;
  }

  ghost predicate CoresMade(cores: seq<TaskNode>)
    requires |cores| <= 32
    reads cores
  {
    Distinct(cores) && forall c | 0 <= c < |cores| :: cores[c].Record() == CoreTask(c) && cores[c].parent == null
  }

  /** The core task of every CPU, smp.c:61-90. */
  method MakeCores(n: nat) returns (cores: seq<TaskNode>)
    requires n <= 32
    ensures |cores| == n && CoresMade(cores) && fresh(cores)
  {
    cores := [];
    for c := 0 to n
      invariant |cores| == c && CoresMade(cores) && fresh(cores)
    {
      ShiftIsWord(c);
      var core := new TaskNode(c, 0, Not(Pow2(c)), null);
      DistinctSnoc(cores, core);
      cores := cores + [core];
    }
  }

  /** The enqueues of `sched_init`, sched.c:181-187. */
  method QueueCores(cores: seq<TaskNode>) returns (q: LinkedQueue)
    requires |cores| <= 32 && CoresMade(cores)
    modifies cores`next
    ensures q.Linked() && q.nodes == Pushed(cores, |cores|) && CoresMade(cores) && fresh(q)
  {
    q := new LinkedQueue();
    for c := 0 to |cores|
      invariant q.Linked() && q.nodes == Pushed(cores, c) && CoresMade(cores) && fresh(q)
    {
      forall i | 0 <= i < c ensures cores[i] != cores[c] {
        assert Differ(cores, i, c);
      }
      q.Push(cores[c]);
    }
  }

  lemma BootRecords(cores: seq<TaskNode>, nodes: seq<TaskNode>)
    requires |cores| <= 32 && CoresMade(cores) && nodes == Pushed(cores, |cores|)
    ensures Records(nodes) == BootTasks(cores)
  {
    PushedAll(cores);
    forall t | t in nodes ensures t in cores && t.Record() == CoreTask(IndexOf(cores, t)) {
      assert cores[IndexOf(cores, t)] == t;
    }
  }

  lemma BootMatches(cores: seq<TaskNode>, s: KernelScheduler, boot: Sched<TaskNode>)
    requires |cores| <= 32 && s.Valid() && Distinct(cores) && boot == Boot(cores)
    requires s.queue.nodes == boot.queue && s.currents == cores && s.last == 0
    requires Records(s.queue.nodes) == boot.tasks
    requires s.secs == seq(|cores|, c => 0) && s.nsecs == seq(|cores|, c => 0)
    ensures s.View() == boot
  {
    assert Cpus(s.currents, s.secs, s.nsecs) == boot.cpus;
  }

  lemma AllPushed(cores: seq<TaskNode>)
    ensures forall t | t in Pushed(cores, |cores|) :: t in cores
  {
  }

  /** The scheduler booted on the given core tasks. */
  method BootOn(cores: seq<TaskNode>) returns (s: KernelScheduler)
    requires |cores| <= 32 && CoresMade(cores)
    modifies cores`next
    ensures s.Valid() && s.View() == Boot(cores) && fresh(s) && fresh(s.queue)
  {
    var q := QueueCores(cores);
    PushedAll(cores);
    forall t | t in q.nodes ensures t.priority == 0 && ParentIn(q.nodes, t) {
      var c :| 0 <= c < |cores| && cores[c] == t;
      assert cores[c].Record() == CoreTask(c);
    }
    s := new KernelScheduler(q, cores);
    BootRecords(cores, s.queue.nodes);
    BootMatches(cores, s, Boot(cores));
  }

  /** Boot, then any timer interrupts, yields and spawns that are allowed: all return, and no task is
      current on two CPUs. */
  method BootAndRun(cores: seq<TaskNode>, ops: seq<Op<TaskNode>>) returns (s: KernelScheduler)
    requires |cores| <= 32 && CoresMade(cores) && AllowedRun(Boot(cores), ops) && MasksAgree(ops)
    modifies cores, Newcomers(ops)
    ensures s.Valid() && Safe(s.View()) && Some(s.View()) == Run(Boot(cores), ops)
  {
    s := BootOn(cores);
    BootIsSafe(cores);
    AllowedStaysSafe(Boot(cores), ops);
    NeverOnTwoCpus(cores, ops);
    AllPushed(cores);
    assert s.queue.nodes == s.View().queue;
    s.Execute(ops, (set c | c in cores) + Newcomers(ops), Boot(cores));
  }
}
