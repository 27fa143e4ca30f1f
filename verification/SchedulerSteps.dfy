/** What one call does, on any number of CPUs: whose time the quantum test reads, who runs next, and
    what stays as it was. */
module SchedulerSteps {
  import opened Bits
  import opened Lists
  import opened Outcomes
  import opened TurnLength
  import opened Scheduler
  import opened SchedulerSafety
  import opened SchedulerTime

  /** A CPU's clock in microseconds. */
  function Micros<T>(cpu: Cpu<T>): nat {
    cpu.sec * 1000000 + cpu.nsec / 1000
  }

  /** The turn of CPU `c`'s current task is over: its own time, once charged up to that CPU's clock,
      is a whole number of its own quanta. */
  ghost predicate TurnOver<T>(s: Sched<T>, c: nat)
    requires Shape(s) && c < |s.cpus|
  {
    var t := s.tasks[s.cpus[c].current];
    CDiv(AsInt(Wrap(t.utime + Micros(s.cpus[c]) - s.last)), 1000) % (20 - t.priority) == 0
  }

  /** May be dispatched on CPU `c` once its current task has stepped back. */
  ghost predicate MayFollow<T>(s: Sched<T>, c: nat, x: T)
    requires Shape(s) && c < |s.cpus|
  {
    && x in s.tasks && c !in s.tasks[x].barred
    && (s.tasks[x].status.Ready? || (x == s.cpus[c].current && s.tasks[x].status.Running?))
  }

  /** What is `k` places on from place `i`, going round. */
  function Onward<T>(q: seq<T>, i: nat, k: nat): (x: T)
    requires i < |q| && k <= |q|
    ensures x == (if i + k < |q| then q[i + k] else q[i + k - |q|])
  {
    q[Cyclic(|q|, i + k)]
  }

  ghost predicate FollowsAt<T>(s: Sched<T>, c: nat, i: nat, k: nat)
    requires Shape(s) && c < |s.cpus|
  {
    i < |s.queue| && k <= |s.queue| && MayFollow(s, c, Onward(s.queue, i, k))
  }

  /** With CPU `c`'s current task at place `i`, what is `k` places on is the first that may follow. */
  ghost predicate FirstToFollow<T>(s: Sched<T>, c: nat, i: nat, k: nat)
    requires Shape(s) && c < |s.cpus|
  {
    && i < |s.queue| && s.queue[i] == s.cpus[c].current && 1 <= k <= |s.queue|
    && FollowsAt(s, c, i, k)
    && forall j: nat | 1 <= j < k :: !FollowsAt(s, c, i, j)
  }

  /** The queue, every other CPU, and everything of a task but its times, status and switch count. */
  ghost predicate Frame<T>(s: Sched<T>, c: nat, r: Sched<T>) {
    && r.queue == s.queue && r.tasks.Keys == s.tasks.Keys && |r.cpus| == |s.cpus|
    && (forall d | 0 <= d < |s.cpus| && d != c :: r.cpus[d] == s.cpus[d])
    && (forall x | x in s.tasks ::
          r.tasks[x].priority == s.tasks[x].priority && r.tasks[x].barred == s.tasks[x].barred)
  }

  /** No status changes and no switch is counted. */
  ghost predicate SameStatus<T>(s: Sched<T>, r: Sched<T>) {
    r.tasks.Keys == s.tasks.Keys && forall x | x in s.tasks ::
      r.tasks[x].status == s.tasks[x].status && r.tasks[x].switches == s.tasks[x].switches
  }

  /** `was` steps back, which counts one switch, and `next` runs; no other task is touched. */
  ghost predicate HandsOver<T>(s: Sched<T>, r: Sched<T>, was: T, next: T) {
    && r.tasks.Keys == s.tasks.Keys && was in s.tasks && next in s.tasks
    && (forall x | x in s.tasks ::
          r.tasks[x].switches == s.tasks[x].switches + if x == was then 1 else 0)
    && (forall x | x in s.tasks ::
          r.tasks[x].status == if x == next then Running
                               else if x == was && s.tasks[x].status.Running? then Ready
                               else s.tasks[x].status)
  }

  /** The time since the last scheduling point goes to CPU `c`'s current task and its parent's children
      time, and this is the new scheduling point. */
  ghost predicate Accounts<T>(s: Sched<T>, c: nat, r: Sched<T>)
    requires Shape(s) && c < |s.cpus|
  {
    && r.last == Micros(s.cpus[c])
    && Charged(s.tasks, r.tasks, s.cpus[c].current, r.last - s.last)
  }

  /** CPU `c` goes on with its current task. */
  ghost predicate GoesOn<T>(s: Sched<T>, c: nat, r: Sched<T>)
    requires Shape(s) && c < |s.cpus|
  {
    Frame(s, c, r) && Accounts(s, c, r) && SameStatus(s, r) && r.cpus[c] == s.cpus[c]
  }

  /** CPU `c` hands over to the first task in cyclic order that may follow. */
  ghost predicate Moves<T>(s: Sched<T>, c: nat, r: Sched<T>)
    requires Shape(s) && c < |s.cpus|
  {
    && Frame(s, c, r) && Accounts(s, c, r)
    && HandsOver(s, r, s.cpus[c].current, r.cpus[c].current)
    && r.cpus[c].sec == s.cpus[c].sec && r.cpus[c].nsec == s.cpus[c].nsec
    && exists i: nat, k: nat :: FirstToFollow(s, c, i, k) && r.cpus[c].current == Onward(s.queue, i, k)
  }

  /** CPU `c` goes on or hands over, by the turn of its own current task. */
  ghost predicate Scheduled<T>(s: Sched<T>, c: nat, r: Sched<T>)
    requires Shape(s) && c < |s.cpus|
  {
    if TurnOver(s, c) then Moves(s, c, r) else GoesOn(s, c, r)
  }

  // ------------------------------------------------------------------ steps

  lemma TimedFrame<T>(s: Sched<T>, c: nat, r: Sched<T>)
    requires Shape(s) && c < |s.cpus| && r == Timed(s, c)
    ensures Frame(s, c, r) && Accounts(s, c, r) && SameStatus(s, r) && r.cpus == s.cpus
  {
    TimedCharges(s, c, r);
  }

  /** The quantum test of `schedule` is about this CPU's current task. */
  lemma TestsOwnTask<T>(s: Sched<T>, c: nat, timed: Sched<T>)
    requires Shape(s) && c < |s.cpus| && timed == Timed(s, c)
    ensures KeepsRunning(timed.tasks[s.cpus[c].current]) <==> !TurnOver(s, c)
  {
    var t := timed.tasks[s.cpus[c].current];
    TimedCharges(s, c, timed);
    DividesIsMod(20 - t.priority, CDiv(AsInt(t.utime), 1000));
  }

  lemma SwitchEffect<T>(s: Sched<T>, c: nat, back: Sched<T>, r: Sched<T>)
    requires Shape(s) && c < |s.cpus| && back == StepBack(s, c) && Switch(s, c) == Some(r)
    ensures Frame(s, c, r) && HandsOver(s, r, s.cpus[c].current, r.cpus[c].current)
    ensures SameTimes(s, r) && r.last == s.last
    ensures r.cpus[c].sec == s.cpus[c].sec && r.cpus[c].nsec == s.cpus[c].nsec
    ensures Next(back, c) == Some(r.cpus[c].current)
  {
    SwitchSameTimes(s, c);
    BackDispatched(s, c, back, r, Next(back, c).value);
  }

  lemma BackDispatched<T>(s: Sched<T>, c: nat, back: Sched<T>, r: Sched<T>, next: T)
    requires Shape(s) && c < |s.cpus| && back == StepBack(s, c) && next in s.tasks && r == Dispatch(back, c, next)
    ensures Frame(s, c, r) && r.cpus[c] == s.cpus[c].(current := next)
    ensures HandsOver(s, r, s.cpus[c].current, next)
  {
  }

  /** Who is eligible once the current task has stepped back. */
  lemma BackEligible<T>(s: Sched<T>, c: nat, back: Sched<T>, x: T)
    requires Shape(s) && c < |s.cpus| && back == StepBack(s, c) && x in s.tasks
    ensures Eligible(back, c, x) <==> MayFollow(s, c, x)
  {
  }

  lemma FollowsAfter<T>(s: Sched<T>, c: nat, back: Sched<T>, i: nat, k: nat)
    requires Shape(s) && c < |s.cpus| && back == StepBack(s, c)
    requires i < |s.queue| && s.queue[i] == s.cpus[c].current && 1 <= k <= |s.queue|
    ensures After(s.queue, s.queue[i])[k - 1] == Onward(s.queue, i, k) && Onward(s.queue, i, k) in s.tasks
    ensures FollowsAt(s, c, i, k) <==> Eligible(back, c, Onward(s.queue, i, k))
  {
    AfterAt(s.queue, i, k - 1);
    assert Onward(s.queue, i, k) in s.queue;
    BackEligible(s, c, back, Onward(s.queue, i, k));
  }

  lemma NextIsFirst<T>(s: Sched<T>, c: nat, back: Sched<T>, next: T) returns (i: nat, k: nat)
    requires Shape(s) && c < |s.cpus| && back == StepBack(s, c) && Next(back, c) == Some(next)
    ensures FirstToFollow(s, c, i, k) && next == Onward(s.queue, i, k)
  {
    i := IndexOf(s.queue, s.cpus[c].current);
    var place := NextPlace(back, c, next);
    k := place + 1;
    FollowsAfter(s, c, back, i, k);
    forall j: nat | 1 <= j < k ensures !FollowsAt(s, c, i, j) {
      FollowsAfter(s, c, back, i, j);
    }
  }

  lemma NextPlace<T>(back: Sched<T>, c: nat, next: T) returns (k: nat)
    requires Shape(back) && c < |back.cpus| && Next(back, c) == Some(next)
    ensures var order := After(back.queue, back.cpus[c].current);
            && k < |order| && order[k] == next
            && (forall x | x in order :: x in back.tasks)
            && forall j | 0 <= j < k :: !Eligible(back, c, order[j])
  {
    AfterMembers(back.queue, back.cpus[c].current);
    k := FirstIsLeast(back, c, After(back.queue, back.cpus[c].current));
  }

  lemma NoneFollows<T>(s: Sched<T>, c: nat, back: Sched<T>)
    requires Shape(s) && c < |s.cpus| && back == StepBack(s, c)
    ensures Switch(s, c).None? <==> forall x | x in s.queue :: !MayFollow(s, c, x)
  {
    RoundRobinChoice(back, c);
    forall x | x in s.queue ensures Eligible(back, c, x) <==> MayFollow(s, c, x) {
      BackEligible(s, c, back, x);
    }
  }

  /** Charging changes nobody's turn to follow. */
  lemma SameFollowers<T>(s: Sched<T>, c: nat, r: Sched<T>, x: T)
    requires Shape(s) && Shape(r) && c < |s.cpus| && Frame(s, c, r) && SameStatus(s, r) && r.cpus == s.cpus
    ensures MayFollow(r, c, x) <==> MayFollow(s, c, x)
  {
  }

  lemma SameFirst<T>(s: Sched<T>, c: nat, r: Sched<T>, i: nat, k: nat)
    requires Shape(s) && Shape(r) && c < |s.cpus| && Frame(s, c, r) && SameStatus(s, r) && r.cpus == s.cpus
    requires FirstToFollow(r, c, i, k)
    ensures FirstToFollow(s, c, i, k)
  {
    SameFollowers(s, c, r, Onward(s.queue, i, k));
    forall j: nat | 1 <= j < k ensures !FollowsAt(s, c, i, j) {
      assert !FollowsAt(r, c, i, j);
      SameFollowers(s, c, r, Onward(s.queue, i, j));
    }
  }

  lemma FrameChain<T>(s: Sched<T>, c: nat, timed: Sched<T>, r: Sched<T>)
    requires Frame(s, c, timed) && timed.cpus == s.cpus && Frame(timed, c, r)
    ensures Frame(s, c, r)
  {
  }

  lemma AccountsChain<T>(s: Sched<T>, c: nat, timed: Sched<T>, r: Sched<T>)
    requires Shape(s) && c < |s.cpus| && Accounts(s, c, timed) && SameTimes(timed, r) && r.last == timed.last
    ensures Accounts(s, c, r)
  {
    ChargedSame(s.tasks, timed, r, s.cpus[c].current, timed.last - s.last);
  }

  lemma ChargedSame<T>(tasks: map<T, Task<T>>, timed: Sched<T>, r: Sched<T>, t: T, dt: int)
    requires Charged(tasks, timed.tasks, t, dt) && SameTimes(timed, r)
    ensures Charged(tasks, r.tasks, t, dt)
  {
  }

  lemma HandsOverChain<T>(s: Sched<T>, timed: Sched<T>, r: Sched<T>, was: T, next: T)
    requires SameStatus(s, timed) && HandsOver(timed, r, was, next)
    ensures HandsOver(s, r, was, next)
  {
  }

  /** `schedule_yield` returns exactly if some task may follow, and then CPU `c` hands over. */
  lemma YieldExact<T>(s: Sched<T>, c: nat)
    requires Shape(s) && c < |s.cpus|
    ensures Yield(s, c).None? <==> forall x | x in s.queue :: !MayFollow(s, c, x)
    ensures Yield(s, c).Some? ==> Moves(s, c, Yield(s, c).value)
  {
    var timed := Timed(s, c);
    var back := StepBack(timed, c);
    TimedFrame(s, c, timed);
    NoneFollows(timed, c, back);
    forall x | x in s.queue ensures MayFollow(timed, c, x) <==> MayFollow(s, c, x) {
      SameFollowers(s, c, timed, x);
    }
    if Yield(s, c).Some? { YieldMoves(s, c, timed, back, Yield(s, c).value); }
  }

  lemma YieldMoves<T>(s: Sched<T>, c: nat, timed: Sched<T>, back: Sched<T>, r: Sched<T>)
    requires Shape(s) && c < |s.cpus| && timed == Timed(s, c) && back == StepBack(timed, c) && Switch(timed, c) == Some(r)
    ensures Moves(s, c, r)
  {
    TimedFrame(s, c, timed);
    SwitchEffect(timed, c, back, r);
    FrameChain(s, c, timed, r);
    AccountsChain(s, c, timed, r);
    HandsOverChain(s, timed, r, s.cpus[c].current, r.cpus[c].current);
    var i, k := NextIsFirst(timed, c, back, r.cpus[c].current);
    SameFirst(s, c, timed, i, k);
  }

  /** `schedule` on any CPU: while the turn of that CPU's own current task is not over it goes on;
      otherwise the CPU hands over as in a yield. */
  lemma ScheduleExact<T>(s: Sched<T>, c: nat)
    requires Shape(s) && c < |s.cpus|
    ensures Schedule(s, c).None? <==> TurnOver(s, c) && forall x | x in s.queue :: !MayFollow(s, c, x)
    ensures Schedule(s, c).Some? ==> Scheduled(s, c, Schedule(s, c).value)
  {
    var timed := Timed(s, c);
    TestsOwnTask(s, c, timed);
    TimedFrame(s, c, timed);
    YieldExact(s, c);
    assert Schedule(s, c) == if TurnOver(s, c) then Yield(s, c) else Some(timed);
  }

  /** The state once CPU `c`'s clock has counted a tick, of a millisecond. */
  function AfterTick<T>(s: Sched<T>, c: nat): (at: Sched<T>)
    requires Shape(s) && c < |s.cpus|
    ensures Shape(at) && |at.cpus| == |s.cpus| && at.cpus[c].current == s.cpus[c].current
    ensures s.cpus[c].nsec <= 999000000 && s.cpus[c].nsec % 1000000 == 0 ==> Micros(at.cpus[c]) == Micros(s.cpus[c]) + 1000
  {
    var cpu := s.cpus[c];
    var full := cpu.nsec >= 999000000;
    s.(cpus := s.cpus[c := Cpu(cpu.current, if full then cpu.sec + 1 else cpu.sec, if full then 0 else cpu.nsec + 1000000)])
  }

  lemma TickEffect<T>(s: Sched<T>, c: nat, at: Sched<T>)
    requires Shape(s) && c < |s.cpus| && at == AfterTick(s, c)
    ensures Interrupt(s, c) == Schedule(at, c)
    ensures forall x | x in s.queue :: MayFollow(at, c, x) <==> MayFollow(s, c, x)
  {
    assert at == s.(cpus := s.cpus[c := Tick(s.cpus[c])]);
  }

  /** The timer interrupt on any CPU: its clock counts a tick and no other does; then, as `schedule`, it
      tests the time of its own current task and no other. */
  lemma InterruptExact<T>(s: Sched<T>, c: nat, at: Sched<T>)
    requires Shape(s) && c < |s.cpus| && at == AfterTick(s, c)
    ensures Interrupt(s, c).None? <==> TurnOver(at, c) && forall x | x in s.queue :: !MayFollow(s, c, x)
    ensures Interrupt(s, c).Some? ==> Scheduled(at, c, Interrupt(s, c).value)
  {
    TickEffect(s, c, at);
    ScheduleExact(at, c);
  }
}
