/** Threads taking a spinlock, one atomic operation at a time in any interleaving. */
module Spinlock {

  /** Where a thread is: outside, in the loop of `spinlock_lock`, or holding the lock. */
  datatype Pc = Outside | Spinning | Holding

  datatype State = State(word: bool, pcs: seq<Pc>)

  datatype Step =
    | Call(t: nat)     // enters spinlock_lock
    | TestAndSet(t: nat)
    | TryLock(t: nat)
    | Unlock(t: nat)

  function Init(threads: nat): State {
    State(false, seq(threads, _ => Outside))
  }

  /** A thread unlocks only what it holds, and takes the lock only when it does not. */
  predicate Enabled(s: State, step: Step) {
    step.t < |s.pcs| &&
    match step
    case Call(t) => s.pcs[t].Outside?
    case TestAndSet(t) => s.pcs[t].Spinning?
    case TryLock(t) => s.pcs[t].Outside?
    case Unlock(t) => s.pcs[t].Holding?
  }

  /** Test-and-set returns the old word, and the thread that reads a clear one has the lock. */
  function Next(s: State, step: Step): State
    requires Enabled(s, step)
  {
    match step
    case Call(t) => s.(pcs := s.pcs[t := Spinning])
    case TestAndSet(t) => State(true, s.pcs[t := if s.word then Spinning else Holding])
    case TryLock(t) => State(true, s.pcs[t := if s.word then Outside else Holding])
    case Unlock(t) => State(false, s.pcs[t := Outside])
  }

  ghost predicate Runs(s: State, steps: seq<Step>, last: State)
    decreases |steps|
  {
    if steps == [] then last == s
    else Enabled(s, steps[0]) && Runs(Next(s, steps[0]), steps[1..], last)
  }

  ghost function Holders(s: State): set<nat> {
    set t: nat | t < |s.pcs| && s.pcs[t].Holding?
  }

  /** The word is set exactly when one thread holds the lock, and otherwise none does. */
  ghost predicate Exclusive(s: State) {
    |Holders(s)| == if s.word then 1 else 0
  }

  /** Taking: test-and-set and trylock make the thread the holder exactly if the word is clear, and set
      it.  Letting go: unlock clears the word.  Nobody else moves. */
  lemma TakesClearLock(s: State, step: Step)
    requires Enabled(s, step)
    ensures var r := Next(s, step);
            && |r.pcs| == |s.pcs|
            && (step.TestAndSet? || step.TryLock? ==> r.word && (r.pcs[step.t].Holding? <==> !s.word))
            && (step.TestAndSet? && s.word ==> r.pcs[step.t].Spinning?)
            && (step.TryLock? && s.word ==> r.pcs[step.t].Outside?)
            && (step.Unlock? ==> !r.word && r.pcs[step.t].Outside?)
            && (step.Call? ==> r.word == s.word && r.pcs[step.t].Spinning?)
            && forall u: nat | u < |s.pcs| && u != step.t :: r.pcs[u] == s.pcs[u]
  {
  }

  lemma NextExclusive(s: State, step: Step)
    requires Exclusive(s) && Enabled(s, step)
    ensures Exclusive(Next(s, step))
  {
    var r, t := Next(s, step), step.t;
    match step
    case Call(_) =>
      assert Holders(r) == Holders(s);
    case TestAndSet(_) =>
      assert Holders(r) == if s.word then Holders(s) else Holders(s) + {t};
    case TryLock(_) =>
      assert Holders(r) == if s.word then Holders(s) else Holders(s) + {t};
    case Unlock(_) =>
      assert t in Holders(s);
      assert Holders(r) == Holders(s) - {t};
  }

  lemma {:induction false} RunExclusive(s: State, steps: seq<Step>, last: State)
    requires Exclusive(s) && Runs(s, steps, last)
    ensures Exclusive(last)
    decreases |steps|
  {
    if steps != [] {
      NextExclusive(s, steps[0]);
      RunExclusive(Next(s, steps[0]), steps[1..], last);
    }
  }

  /** Whatever the interleaving and however many threads, two never hold the lock together, and the
      word says whether one does. */
  lemma MutualExclusion(threads: nat, steps: seq<Step>, last: State)
    requires Runs(Init(threads), steps, last)
    ensures forall t, u | 0 <= t < u < |last.pcs| :: !(last.pcs[t].Holding? && last.pcs[u].Holding?)
    ensures last.word <==> exists t :: 0 <= t < |last.pcs| && last.pcs[t].Holding?
  {
    assert Holders(Init(threads)) == {};
    RunExclusive(Init(threads), steps, last);
    forall t: nat, u: nat | t < u < |last.pcs| ensures !(last.pcs[t].Holding? && last.pcs[u].Holding?) {
      HoldersCount(last, t, u);
    }
    forall t: nat | t < |last.pcs| ensures last.pcs[t].Holding? ==> last.word {
      HoldersCount(last, t, t);
    }
    if last.word {
      assert Holders(last) != {};
      var t :| t in Holders(last);
    }
  }

  lemma HoldersCount(s: State, t: nat, u: nat)
    requires t < |s.pcs| && u < |s.pcs|
    ensures s.pcs[t].Holding? && s.pcs[u].Holding? ==> |Holders(s)| >= if t == u then 1 else 2
  {
    if s.pcs[t].Holding? && s.pcs[u].Holding? {
      assert Holders(s) == (Holders(s) - {t, u}) + {t, u};
      assert |{t, u}| == if t == u then 1 else 2;
    }
  }

  /** Whatever the run: when the holder lets go, the next spinning thread to try has the lock. */
  lemma HandOver(threads: nat, steps: seq<Step>, s: State, t: nat, u: nat)
    requires Runs(Init(threads), steps, s) && t < |s.pcs| && u < |s.pcs|
    requires s.pcs[t].Holding? && s.pcs[u].Spinning?
    ensures var free := Next(s, Unlock(t));
            Enabled(free, TestAndSet(u)) && Holders(Next(free, TestAndSet(u))) == {u}
  {
    assert Holders(Init(threads)) == {};
    RunExclusive(Init(threads), steps, s);
    HoldersCount(s, t, t);
    var free := Next(s, Unlock(t));
    TakesClearLock(s, Unlock(t));
    TakesClearLock(free, TestAndSet(u));
    NextExclusive(s, Unlock(t));
    assert Holders(free) == {};
    assert Holders(Next(free, TestAndSet(u))) == {u};
  }

  /** Clearing the word while another thread holds the lock is what breaks this: unlocking keeps it
      for every thread exactly if the thread holds the lock or nobody does. */
  lemma UnlockBy(s: State, t: nat)
    requires Exclusive(s) && t < |s.pcs|
    ensures Exclusive(State(false, s.pcs[t := Outside])) <==> s.pcs[t].Holding? || !s.word
  {
    var r := State(false, s.pcs[t := Outside]);
    assert Holders(r) == Holders(s) - {t};
    assert s.pcs[t].Holding? <==> t in Holders(s);
  }
}
