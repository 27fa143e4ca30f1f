/** The turn-taking of one CPU with everything but the turns stripped away: task `i` of the queue
    has used `used[i]` microseconds, a 32-bit counter, and on every tick the current one uses 1000
    more and passes the CPU to its successor when the quantum test says so. */
module TurnTaking {
  import opened Bits
  import opened Iteration
  import opened TurnLength

  datatype Ring = Ring(cur: nat, used: seq<Word>, q: seq<nat>)

  ghost predicate Valid(g: Ring) {
    |g.used| == |g.q| && g.cur < |g.q| && forall i | 0 <= i < |g.q| :: g.q[i] >= 1
  }

  function Succ(n: nat, i: nat): (j: nat)
    requires i < n
    ensures j < n
  {
    if i + 1 < n then i + 1 else 0
  }

  function Step(g: Ring): (r: Ring)
    requires Valid(g)
    ensures Valid(r) && r.q == g.q
  {
    var u := Later(g.used[g.cur], 1);
    Ring(if Passes(u, g.q[g.cur]) then Succ(|g.q|, g.cur) else g.cur, g.used[g.cur := u], g.q)
  }

  ghost function StepTotal(): Ring -> Ring {
    (g: Ring) => if Valid(g) then Step(g) else g
  }

  lemma StepTotalIs(g: Ring)
    requires Valid(g)
    ensures StepTotal()(g) == Step(g)
  {
  }

  ghost function Steps(g: Ring, k: nat): Ring {
    Repeat(StepTotal(), g, k)
  }

  lemma StepsAdd(g: Ring, a: nat, b: nat)
    ensures Steps(g, a + b) == Steps(Steps(g, a), b)
  {
    RepeatAdd(StepTotal(), g, a, b);
  }

  lemma StepsNext(g: Ring, k: nat)
    requires Valid(Steps(g, k))
    ensures Steps(g, k + 1) == Step(Steps(g, k))
  {
    RepeatLast(StepTotal(), g, k);
    StepTotalIs(Steps(g, k));
  }

  // --------------------------------------------------------------- one turn

  /** How long each task's next turn is, or what is left of it. */
  function Lengths(g: Ring): (ls: seq<nat>)
    requires Valid(g)
    ensures |ls| == |g.q| && forall i | 0 <= i < |ls| :: ls[i] == Length(g.used[i], g.q[i])
  {
    seq(|g.q|, i requires 0 <= i < |g.q| => Length(g.used[i], g.q[i]))
  }

  /** The current task after `i` ticks of its turn, and whether it still has the CPU. */
  ghost function DuringTurn(g: Ring, i: nat): (r: Ring)
    requires Valid(g)
    ensures Valid(r) && r.q == g.q
  {
    var k := Length(g.used[g.cur], g.q[g.cur]);
    Ring(if i < k then g.cur else Succ(|g.q|, g.cur), g.used[g.cur := Later(g.used[g.cur], i)], g.q)
  }

  lemma DuringStart(g: Ring)
    requires Valid(g)
    ensures DuringTurn(g, 0) == g
  {
    WrapWord(g.used[g.cur]);
    assert g.used[g.cur := Later(g.used[g.cur], 0)] == g.used;
  }

  lemma DuringNext(g: Ring, i: nat)
    requires Valid(g) && i < Length(g.used[g.cur], g.q[g.cur])
    ensures Step(DuringTurn(g, i)) == DuringTurn(g, i + 1)
  {
    var u, q := g.used[g.cur], g.q[g.cur];
    LaterLater(u, i, 1);
    LengthIsFirst(u, q);
    assert Passes(Later(u, i + 1), q) <==> i + 1 == Length(u, q);
  }

  /** The current task keeps the CPU for exactly the ticks its turn has left, then its successor has it. */
  lemma {:induction false} Turn(g: Ring, i: nat)
    requires Valid(g) && i <= Length(g.used[g.cur], g.q[g.cur])
    ensures Steps(g, i) == DuringTurn(g, i)
    decreases i
  {
    if i == 0 {
      DuringStart(g);
    } else {
      Turn(g, i - 1);
      StepsNext(g, i - 1);
      DuringNext(g, i - 1);
    }
  }

  // ------------------------------------------------------------- many turns

  /** The index `j` places after `i`. */
  function Ahead(n: nat, i: nat, j: nat): (r: nat)
    requires i < n
    ensures r < n
    decreases j
  {
    if j == 0 then i else Succ(n, Ahead(n, i, j - 1))
  }

  lemma {:induction false} AheadIs(n: nat, i: nat, j: nat)
    requires i < n && j <= n
    ensures Ahead(n, i, j) == if i + j < n then i + j else i + j - n
    decreases j
  {
    if j > 0 { AheadIs(n, i, j - 1); }
  }

  /** Places from `c` forward to `i`. */
  function Distance(n: nat, c: nat, i: nat): (d: nat)
    requires c < n && i < n
    ensures d < n
  {
    if i >= c then i - c else i + n - c
  }

  /** The sum of `j` entries in cyclic order from `i`. */
  function CyclicSum(w: seq<nat>, i: nat, j: nat): nat
    requires i < |w|
    decreases j
  {
    if j == 0 then 0 else CyclicSum(w, i, j - 1) + w[Ahead(|w|, i, j - 1)]
  }

  /** `r` is `g` after `j` whole turns: the next `j` tasks have used their turns, the others nothing. */
  ghost predicate AfterTurns(g: Ring, r: Ring, j: nat)
    requires Valid(g)
  {
    && r.q == g.q && |r.used| == |g.used|
    && r.cur == Ahead(|g.q|, g.cur, j)
    && forall i | 0 <= i < |g.q| ::
         r.used[i] == if Distance(|g.q|, g.cur, i) < j then Later(g.used[i], Lengths(g)[i]) else g.used[i]
  }

  lemma OneMoreTurn(g: Ring, m: Ring, r: Ring, j: nat)
    requires Valid(g) && j < |g.q| && AfterTurns(g, m, j) && Valid(m)
    requires r == Ring(Succ(|g.q|, m.cur), m.used[m.cur := Later(m.used[m.cur], Lengths(g)[m.cur])], m.q)
    ensures AfterTurns(g, r, j + 1)
  {
    AheadIs(|g.q|, g.cur, j);
    assert Distance(|g.q|, g.cur, m.cur) == j;
  }

  /** The turn that starts after `j` turns is as long as it was to be expected at the start. */
  lemma TurnAfter(g: Ring, k: nat, m: Ring, j: nat, i: nat)
    requires Valid(g) && j < |g.q| && m == Steps(g, k) && AfterTurns(g, m, j) && i <= Lengths(g)[Ahead(|g.q|, g.cur, j)]
    ensures Valid(m) && Length(m.used[m.cur], m.q[m.cur]) == Lengths(g)[m.cur]
    ensures Steps(g, k + i) == DuringTurn(m, i)
  {
    AheadIs(|g.q|, g.cur, j);
    assert Distance(|g.q|, g.cur, m.cur) == j;
    Turn(m, i);
    StepsAdd(g, k, i);
  }

  /** From anywhere, up to a whole round of turns takes exactly as long as the turns add up to, each
      as it was to be expected at the start.  (`== true` keeps the verifier from splitting a fact
      that the induction only passes along.) */
  lemma {:induction false} WholeTurns(g: Ring, j: nat)
    requires Valid(g) && j <= |g.q|
    ensures AfterTurns(g, Steps(g, CyclicSum(Lengths(g), g.cur, j)), j) == true
    decreases j
  {
    if j == 0 {
      NoTurns(g);
    } else {
      WholeTurns(g, j - 1);
      NextTurn(g, CyclicSum(Lengths(g), g.cur, j - 1), j - 1);
    }
  }

  lemma NoTurns(g: Ring)
    requires Valid(g)
    ensures AfterTurns(g, Steps(g, 0), 0)
  {
  }

  lemma NextTurn(g: Ring, k: nat, j: nat)
    requires Valid(g) && j < |g.q| && AfterTurns(g, Steps(g, k), j) == true
    ensures AfterTurns(g, Steps(g, k + Lengths(g)[Ahead(|g.q|, g.cur, j)]), j + 1) == true
  {
    var m := Steps(g, k);
    var l := Lengths(g)[m.cur];
    TurnAfter(g, k, m, j, l);
    OneMoreTurn(g, m, DuringTurn(m, l), j);
  }

  ghost predicate CurrentIs(g: Ring, i: nat, t: nat) {
    Steps(g, i).cur == t
  }

  lemma DuringNextTurn(g: Ring, j: nat, k: nat, i: nat)
    requires Valid(g) && j < |g.q| && AfterTurns(g, Steps(g, k), j) == true
    requires k <= i < k + Lengths(g)[Ahead(|g.q|, g.cur, j)]
    ensures CurrentIs(g, i, Ahead(|g.q|, g.cur, j)) == true
  {
    TurnAfter(g, k, Steps(g, k), j, i - k);
  }

  lemma InTurn(g: Ring, j: nat, i: nat)
    requires Valid(g) && j < |g.q| && CyclicSum(Lengths(g), g.cur, j) <= i < CyclicSum(Lengths(g), g.cur, j + 1)
    ensures CurrentIs(g, i, Ahead(|g.q|, g.cur, j)) == true
  {
    WholeTurns(g, j);
    DuringNextTurn(g, j, CyclicSum(Lengths(g), g.cur, j), i);
  }

  /** While `j` turns are not over, the current task is one of the first `j` from the start. */
  lemma {:induction false} AmongFirst(g: Ring, j: nat, i: nat) returns (t: nat)
    requires Valid(g) && j <= |g.q| && i < CyclicSum(Lengths(g), g.cur, j)
    ensures t < j && CurrentIs(g, i, Ahead(|g.q|, g.cur, t)) == true
    decreases j
  {
    if i < CyclicSum(Lengths(g), g.cur, j - 1) {
      t := AmongFirst(g, j - 1, i);
    } else {
      t := j - 1;
      InTurn(g, t, i);
    }
  }

  /** How long a task waits for the CPU. */
  function WaitOf(g: Ring, x: nat): nat
    requires Valid(g) && x < |g.q|
  {
    CyclicSum(Lengths(g), g.cur, Distance(|g.q|, g.cur, x))
  }

  /** That is exactly when it next has it: not before, and then. */
  lemma WaitIsExact(g: Ring, x: nat)
    requires Valid(g) && x < |g.q| && x != g.cur
    ensures Steps(g, WaitOf(g, x)).cur == x
    ensures forall i: nat | i < WaitOf(g, x) :: Steps(g, i).cur != x
  {
    var n, d := |g.q|, Distance(|g.q|, g.cur, x);
    WholeTurns(g, d);
    AheadIs(n, g.cur, d);
    forall i: nat | i < WaitOf(g, x) ensures Steps(g, i).cur != x {
      var t := AmongFirst(g, d, i);
      AheadIs(n, g.cur, t);
    }
  }

  // ------------------------------------------------------------------ bounds

  function Sum(w: seq<nat>): nat {
    if w == [] then 0 else w[0] + Sum(w[1..])
  }

  lemma {:induction false} CyclicSumAdd(w: seq<nat>, i: nat, a: nat, b: nat)
    requires i < |w| && a + b <= |w|
    ensures CyclicSum(w, i, a + b) == CyclicSum(w, i, a) + CyclicSum(w, Ahead(|w|, i, a), b)
    decreases b
  {
    if b > 0 {
      CyclicSumAdd(w, i, a, b - 1);
      AheadIs(|w|, i, a);
      AheadIs(|w|, Ahead(|w|, i, a), b - 1);
      AheadIs(|w|, i, a + b - 1);
    }
  }

  lemma {:induction false} CyclicSumHead(w: seq<nat>, j: nat)
    requires 0 < |w| && j <= |w|
    ensures CyclicSum(w, 0, j) + Sum(w[j..]) == Sum(w)
    decreases j
  {
    if j == 0 {
      assert w[0..] == w;
    } else {
      CyclicSumHead(w, j - 1);
      AheadIs(|w|, 0, j - 1);
      assert w[j - 1..][1..] == w[j..];
    }
  }

  /** Once around from anywhere is the sum of all. */
  lemma FullCircle(w: seq<nat>, i: nat)
    requires i < |w|
    ensures CyclicSum(w, i, |w|) == Sum(w)
  {
    var n := |w|;
    CyclicSumHead(w, n);
    CyclicSumAdd(w, 0, i, n - i);
    CyclicSumAdd(w, i, n - i, i);
    AheadIs(n, 0, i);
    AheadIs(n, i, n - i);
    assert w[n..] == [];
  }

  /** Adding up at most `w[t]` for each of the first `j`. */
  lemma {:induction false} CyclicSumLe(v: seq<nat>, w: seq<nat>, i: nat, j: nat, x: nat)
    requires |v| == |w| && i < |w| && x < |w| && j <= Distance(|w|, i, x)
    requires forall t | 0 <= t < |w| && t != x :: v[t] <= w[t]
    ensures CyclicSum(v, i, j) <= CyclicSum(w, i, j)
    decreases j
  {
    if j > 0 {
      CyclicSumLe(v, w, i, j - 1, x);
      AheadIs(|w|, i, j - 1);
    }
  }

  /** All entries but `w[x]`, in cyclic order up to `x`, are at most the sum without it. */
  lemma SumWithout(w: seq<nat>, i: nat, x: nat)
    requires i < |w| && x < |w|
    ensures CyclicSum(w, i, Distance(|w|, i, x)) <= Sum(w) - w[x]
  {
    var n, d := |w|, Distance(|w|, i, x);
    FullCircle(w, i);
    AheadIs(n, i, d);
    CyclicSumAdd(w, i, d + 1, n - d - 1);
  }

  lemma {:induction false} CyclicSumFirst(w: seq<nat>, i: nat, j: nat)
    requires i < |w| && 1 <= j
    ensures w[i] <= CyclicSum(w, i, j)
    decreases j
  {
    if j > 1 { CyclicSumFirst(w, i, j - 1); }
  }

  /** A task that is not current waits at most as long as the others' turns may add up to. */
  lemma WaitsForOthers(g: Ring, x: nat, w: seq<nat>)
    requires Valid(g) && x < |g.q| == |w| && x != g.cur
    requires forall t | 0 <= t < |w| && t != x :: Lengths(g)[t] <= w[t]
    ensures 1 <= WaitOf(g, x) <= Sum(w) - w[x]
  {
    var d := Distance(|w|, g.cur, x);
    CyclicSumLe(Lengths(g), w, g.cur, d, x);
    SumWithout(w, g.cur, x);
    CyclicSumFirst(Lengths(g), g.cur, d);
  }

  /** A full round from anywhere lasts the sum of the turns, gives every task its turn, and ends where
      it began. */
  lemma FullRound(g: Ring, r: Ring)
    requires Valid(g) && r == Steps(g, Sum(Lengths(g)))
    ensures r.cur == g.cur && |r.used| == |g.q|
    ensures forall i | 0 <= i < |g.q| :: r.used[i] == Later(g.used[i], Lengths(g)[i])
  {
    FullCircle(Lengths(g), g.cur);
    WholeTurns(g, |g.q|);
    AheadIs(|g.q|, g.cur, |g.q|);
  }

  // --------------------------------------------------------- two from the start

  /** Two tasks of quanta `q` and 20 that have used `a` and `b` milliseconds, the second one current. */
  function Pair(q: nat, a: nat, b: nat): Ring
    requires a <= 2147483 && b <= 2147483
  {
    Ring(1, [1000 * a, 1000 * b], [q, 20])
  }

  /** At turn boundaries, as long as the first does not meet 2^31, the turns last the quanta. */
  lemma PairLengths(q: nat, a: nat, b: nat)
    requires q > 0 && a <= 2147483 && b + 20 <= 2147483 && Rem(a, q) == 0 && Rem(b, 20) == 0
    ensures Valid(Pair(q, a, b)) && Lengths(Pair(q, a, b))[1] == 20
    ensures a + q <= 2147483 ==> Lengths(Pair(q, a, b)) == [q, 20]
    ensures a + q > 2147483 ==> Lengths(Pair(q, a, b))[0] == LateLength(q)
  {
    FirstCrossingTurn(a, q);
    FirstCrossingTurn(b, 20);
  }

  lemma PairRound(q: nat, a: nat, b: nat)
    requires q > 0 && a + q <= 2147483 && b + 20 <= 2147483 && Rem(a, q) == 0 && Rem(b, 20) == 0
    ensures Steps(Pair(q, a, b), q + 20) == Pair(q, a + q, b + 20)
  {
    var g := Pair(q, a, b);
    PairLengths(q, a, b);
    assert [q, 20][1..] == [20] && [20][1..] == [] && Sum([q, 20]) == q + 20;
    var r := Steps(g, q + 20);
    FullRound(g, r);
    KeepsQuanta(g, q + 20);
    LaterMs(a, q);
    LaterMs(b, 20);
    assert r.used == [1000 * (a + q), 1000 * (b + 20)];
  }

  lemma LaterMs(a: nat, i: nat)
    requires a + i <= 2147483
    ensures Later(1000 * a, i) == 1000 * (a + i)
  {
    WrapWord(1000 * (a + i));
  }

  lemma {:induction false} KeepsQuanta(g: Ring, k: nat)
    requires Valid(g)
    ensures Valid(Steps(g, k)) && Steps(g, k).q == g.q
    decreases k
  {
    if k > 0 {
      KeepsQuanta(g, k - 1);
      StepsNext(g, k - 1);
    }
  }

  /** So both keep to their quanta round after round, until the first cannot have another whole turn
      below 2^31. */
  lemma {:induction false} PairRounds(q: nat, a: nat, b: nat) returns (n: nat, a': nat, b': nat)
    requires 20 < q && a <= 2147483 && 21 * b <= 20 * a && Rem(a, q) == 0 && Rem(b, 20) == 0
    ensures a' <= 2147483 < a' + q && 21 * b' <= 20 * a' && Rem(a', q) == 0 && Rem(b', 20) == 0
    ensures Steps(Pair(q, a, b), n) == Pair(q, a', b')
    decreases 2147483 - a
  {
    if a + q > 2147483 {
      n, a', b' := 0, a, b;
    } else {
      PairRound(q, a, b);
      RemNextMultiple(a, q);
      RemNextMultiple(b, 20);
      n, a', b' := PairRounds(q, a + q, b + 20);
      StepsAdd(Pair(q, a, b), q + 20, n);
      n := q + 20 + n;
    }
  }

  lemma RemNextMultiple(a: nat, q: nat)
    requires q > 0 && Rem(a, q) == 0
    ensures Rem(a + q, q) == 0
  {
  }

  lemma LastTurn(start: Ring, k: nat, q: nat, a: nat, b: nat) returns (g: Ring)
    requires q > 0 && a <= 2147483 < a + q && b + 20 <= 2147483 && Rem(a, q) == 0 && Rem(b, 20) == 0
    requires Steps(start, k) == Pair(q, a, b)
    ensures g == Steps(start, k + 20) && Valid(g)
    ensures g.cur == 0 && g.q == [q, 20] && Length(g.used[0], q) == LateLength(q)
  {
    PairLengths(q, a, b);
    Turn(Pair(q, a, b), 20);
    StepsAdd(start, k, 20);
    g := DuringTurn(Pair(q, a, b), 20);
  }

  /** When the second has had its turn after that, the first is current and starts a turn of twice the
      rest of 2147483 by its quantum, plus one. */
  lemma LateTurn(start: Ring, q: nat) returns (n: nat, g: Ring)
    requires 20 < q && start == Pair(q, 0, 0)
    ensures g == Steps(start, n) && Valid(g)
    ensures g.cur == 0 && g.q == [q, 20] && Length(g.used[0], q) == LateLength(q)
  {
    var k, a, b := PairRounds(q, 0, 0);
    g := LastTurn(start, k, q, a, b);
    n := k + 20;
  }
}
