/** Threads waiting on and posting to a semaphore.  A wait loads the value until it is not zero and
    then, in a separate step, decrements it. */
module Semaphore {

  /** `Loaded`: has read a value that is not zero and will decrement next. */
  datatype Pc = Outside | Waiting | Loaded

  datatype State = State(value: int, pcs: seq<Pc>)

  datatype Step =
    | Call(t: nat)      // enters sem_wait
    | Load(t: nat)      // one turn of its loop
    | TryLoad(t: nat)   // the test of sem_trywait
    | Decrement(t: nat)
    | Post(t: nat)

  function Init(value: nat, threads: nat): State {
    State(value, seq(threads, _ => Outside))
  }

  predicate Enabled(s: State, step: Step) {
    step.t < |s.pcs| &&
    match step
    case Call(t) => s.pcs[t].Outside?
    case Load(t) => s.pcs[t].Waiting?
    case TryLoad(t) => s.pcs[t].Outside?
    case Decrement(t) => s.pcs[t].Loaded?
    case Post(t) => s.pcs[t].Outside?
  }

  function Next(s: State, step: Step): State
    requires Enabled(s, step)
  {
    match step
    case Call(t) => s.(pcs := s.pcs[t := Waiting])
    case Load(t) => if s.value == 0 then s else s.(pcs := s.pcs[t := Loaded])
    case TryLoad(t) => if s.value == 0 then s else s.(pcs := s.pcs[t := Loaded])
    case Decrement(t) => s.(value := s.value - 1, pcs := s.pcs[t := Outside])
    case Post(t) => s.(value := s.value + 1)
  }

  ghost predicate Runs(s: State, steps: seq<Step>, last: State)
    decreases |steps|
  {
    if steps == [] then last == s
    else Enabled(s, steps[0]) && Runs(Next(s, steps[0]), steps[1..], last)
  }

  /** The posts and the decrements among the steps of a run. */
  ghost function Posts(steps: seq<Step>): nat {
    if steps == [] then 0 else (if steps[0].Post? then 1 else 0) + Posts(steps[1..])
  }

  ghost function Decrements(steps: seq<Step>): nat {
    if steps == [] then 0 else (if steps[0].Decrement? then 1 else 0) + Decrements(steps[1..])
  }

  lemma {:induction false} RunBalances(s: State, steps: seq<Step>, last: State)
    requires Runs(s, steps, last)
    ensures last.value == s.value + Posts(steps) - Decrements(steps)
    ensures |last.pcs| == |s.pcs|
    decreases |steps|
  {
    if steps != [] { RunBalances(Next(s, steps[0]), steps[1..], last); }
  }

  /** The value is the initial one plus one for every post of the run and minus one for every wait that
      went through, for any number of threads and any interleaving. */
  lemma ValueBalance(value: nat, threads: nat, steps: seq<Step>, last: State)
    requires Runs(Init(value, threads), steps, last)
    ensures last.value == value + Posts(steps) - Decrements(steps)
  {
    RunBalances(Init(value, threads), steps, last);
  }

  // ---------------------------------------------------------------- progress

  /** A load goes on exactly if the value is not zero; where it does not, nothing changes.  The decrement
      ends the wait. */
  lemma WaitGoesOn(s: State, t: nat)
    requires t < |s.pcs|
    ensures s.pcs[t].Waiting? ==> (Next(s, Load(t)).pcs[t].Loaded? <==> s.value != 0)
    ensures s.pcs[t].Waiting? && s.value == 0 ==> Next(s, Load(t)) == s
    ensures s.pcs[t].Outside? ==> (Next(s, TryLoad(t)).pcs[t].Loaded? <==> s.value != 0)
    ensures s.pcs[t].Outside? && s.value == 0 ==> Next(s, TryLoad(t)) == s
    ensures s.pcs[t].Loaded? ==> Next(s, Decrement(t)).pcs[t].Outside?
  {
  }

  /** Nobody else's step moves a thread. */
  lemma OthersStay(s: State, step: Step, u: nat)
    requires Enabled(s, step) && u < |s.pcs| && u != step.t
    ensures Next(s, step).pcs[u] == s.pcs[u]
  {
  }

  /** Steps of other threads that leave some value: then a waiter's load gets through, and its decrement
      takes one unit of what is there. */
  lemma {:induction false} PostWakesWaiter(s: State, t: nat, steps: seq<Step>, mid: State)
    requires t < |s.pcs| && s.pcs[t].Waiting? && Runs(s, steps, mid)
    requires forall k | 0 <= k < |steps| :: steps[k].t != t
    ensures t < |mid.pcs| && mid.pcs[t].Waiting?
    ensures s.value + Posts(steps) != Decrements(steps) <==> Next(mid, Load(t)).pcs[t].Loaded?
    ensures s.value + Posts(steps) != Decrements(steps) ==>
              var last := Next(Next(mid, Load(t)), Decrement(t));
              last.pcs[t].Outside? && last.value == s.value + Posts(steps) - Decrements(steps) - 1
    decreases |steps|
  {
    if steps == [] {
      WaitGoesOn(s, t);
    } else {
      OthersStay(s, steps[0], t);
      PostWakesWaiter(Next(s, steps[0]), t, steps[1..], mid);
    }
  }

  // ------------------------------------------------------------ negativeness

  ghost function Pending(s: State): set<nat> {
    set t: nat | t < |s.pcs| && s.pcs[t].Loaded?
  }

  /** There is a unit for every thread that is about to take one. */
  ghost predicate Backed(s: State) {
    s.value >= |Pending(s)|
  }

  /** How a thread's new place changes who is pending. */
  lemma PendingUpdate(s: State, r: State, t: nat, pc: Pc)
    requires t < |s.pcs| && r.pcs == s.pcs[t := pc]
    ensures Pending(r) == if pc.Loaded? then Pending(s) + {t} else Pending(s) - {t}
    ensures t in Pending(s) <==> s.pcs[t].Loaded?
  {
  }

  lemma NextPending(s: State, step: Step)
    requires Enabled(s, step)
    ensures var r := Next(s, step);
            |Pending(r)| == |Pending(s)| + (match step
                                            case Decrement(_) => -1
                                            case Load(_) => if s.value == 0 then 0 else 1
                                            case TryLoad(_) => if s.value == 0 then 0 else 1
                                            case _ => 0)
  {
    var r, t := Next(s, step), step.t;
    assert r.pcs == s.pcs[t := r.pcs[t]];
    PendingUpdate(s, r, t, r.pcs[t]);
  }

  /** A step keeps the semaphore backed exactly unless it is a load that finds a value which the
      threads before it are already about to take. */
  lemma NextBacked(s: State, step: Step)
    requires Backed(s) && Enabled(s, step)
    ensures Backed(Next(s, step)) <==>
              !((step.Load? || step.TryLoad?) && s.value != 0 && s.value == |Pending(s)|)
  {
    NextPending(s, step);
  }

  /** The states a run goes through. */
  ghost function Trace(s: State, steps: seq<Step>, last: State): (r: seq<State>)
    requires Runs(s, steps, last)
    decreases |steps|
  {
    if steps == [] then [s] else [s] + Trace(Next(s, steps[0]), steps[1..], last)
  }

  /** At most one thread is ever between its load and its decrement. */
  ghost predicate OneAtATime(s: State, steps: seq<Step>, last: State)
    requires Runs(s, steps, last)
  {
    forall x | x in Trace(s, steps, last) :: |Pending(x)| <= 1
  }

  lemma {:induction false} RunNonNegative(s: State, steps: seq<Step>, last: State)
    requires Runs(s, steps, last) && Backed(s) && OneAtATime(s, steps, last)
    ensures forall x | x in Trace(s, steps, last) :: x.value >= 0
    decreases |steps|
  {
    if steps != [] {
      var next := Next(s, steps[0]);
      NextPending(s, steps[0]);
      assert Trace(s, steps, last)[1] == Trace(next, steps[1..], last)[0] == next;
      assert next in Trace(s, steps, last);
      RunNonNegative(next, steps[1..], last);
    }
  }

  /** As long as at most one thread is between its load and its decrement, the value is never
      negative. */
  lemma NonNegative(value: nat, threads: nat, steps: seq<Step>, last: State)
    requires Runs(Init(value, threads), steps, last) && OneAtATime(Init(value, threads), steps, last)
    ensures forall x | x in Trace(Init(value, threads), steps, last) :: x.value >= 0
  {
    assert Pending(Init(value, threads)) == {};
    RunNonNegative(Init(value, threads), steps, last);
  }

  lemma Prepend(s: State, step: Step, next: State, rest: seq<Step>, last: State) returns (steps: seq<Step>)
    requires Enabled(s, step) && next == Next(s, step) && Runs(next, rest, last)
    ensures steps == [step] + rest && Runs(s, steps, last)
    ensures Trace(s, steps, last) == [s] + Trace(next, rest, last)
  {
    steps := [step] + rest;
    assert steps[1..] == rest;
  }

  /** Without that: two threads load the same 1, both decrement, and the value is -1. */
  lemma TwoWaiters() returns (steps: seq<Step>, last: State)
    ensures Runs(Init(1, 2), steps, last) && last.value == -1
    ensures exists x :: x in Trace(Init(1, 2), steps, last) && |Pending(x)| == 2
  {
    var both := State(1, [Loaded, Loaded]);
    last := State(-1, [Outside, Outside]);
    steps := Prepend(State(0, [Outside, Loaded]), Decrement(1), last, [], last);
    steps := Prepend(both, Decrement(0), State(0, [Outside, Loaded]), steps, last);
    steps := Prepend(State(1, [Loaded, Waiting]), Load(1), both, steps, last);
    steps := Prepend(State(1, [Waiting, Waiting]), Load(0), State(1, [Loaded, Waiting]), steps, last);
    steps := Prepend(State(1, [Waiting, Outside]), Call(1), State(1, [Waiting, Waiting]), steps, last);
    steps := Prepend(Init(1, 2), Call(0), State(1, [Waiting, Outside]), steps, last);
    assert Pending(both) == {0, 1};
    assert |{0, 1}| == 2;
  }

  /** The condition is exact: letting the pending threads finish takes one unit each, so from a
      state that is not backed they drive the value below zero. */
  lemma {:induction false} Drain(s: State) returns (steps: seq<Step>, last: State)
    ensures Runs(s, steps, last) && Pending(last) == {} && last.value == s.value - |Pending(s)|
    ensures Backed(s) <==> last.value >= 0
    decreases |Pending(s)|
  {
    if Pending(s) == {} {
      steps, last := [], s;
    } else {
      var t :| t in Pending(s);
      NextPending(s, Decrement(t));
      var rest, end := Drain(Next(s, Decrement(t)));
      steps, last := [Decrement(t)] + rest, end;
      assert steps[1..] == rest;
    }
  }
}
