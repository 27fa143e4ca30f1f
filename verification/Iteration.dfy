/** Repeating a step. */
module Iteration {
  import opened Outcomes

  /** `k` applications of a step that may fail to return. */
  ghost function Iterate<S>(f: S -> Option<S>, s: S, k: nat): Option<S>
    decreases k
  {
    if k == 0 then Some(s) else if f(s).None? then None else Iterate(f, f(s).value, k - 1)
  }

  ghost function Repeat<A>(step: A -> A, a: A, k: nat): A
    decreases k
  {
    if k == 0 then a else Repeat(step, step(a), k - 1)
  }

  lemma {:induction false} RepeatAdd<A>(step: A -> A, a: A, j: nat, k: nat)
    ensures Repeat(step, a, j + k) == Repeat(step, Repeat(step, a, j), k)
    decreases j
  {
    if j > 0 { RepeatAdd(step, step(a), j - 1, k); }
  }

  lemma RepeatLast<A>(step: A -> A, a: A, k: nat)
    ensures Repeat(step, a, k + 1) == step(Repeat(step, a, k))
  {
    RepeatAdd(step, a, k, 1);
    assert Repeat(step, Repeat(step, a, k), 1) == Repeat(step, step(Repeat(step, a, k)), 0);
  }

  /** A relation that survives one step of `f` and `step` survives whole runs. */
  lemma {:induction false} Simulation<S, A>(
    f: S -> Option<S>, step: A -> A, rel: (S, A) -> bool, s: S, a: A, k: nat) returns (r: S)
    requires forall s: S, a: A {:trigger f(s), rel(s, a)} | rel(s, a) :: f(s).Some? && rel(f(s).value, step(a))
    requires rel(s, a)
    ensures Iterate(f, s, k) == Some(r) && rel(r, Repeat(step, a, k))
    decreases k
  {
    if k == 0 {
      r := s;
    } else {
      r := Simulation(f, step, rel, f(s).value, step(a), k - 1);
    }
  }
}
