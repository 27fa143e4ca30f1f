/** How long a task keeps the CPU.  `schedule` lets the current task go on while its milliseconds,
    read from a 32-bit microsecond counter as a signed `int`, are not a multiple of its quantum.
    Past 2^31 microseconds the `int` is negative and counts back up to zero, past 2^32 the counter
    starts again, so a turn that meets 2^31 need not last its quantum. */
module TurnLength {
  import opened Bits

  const HALF := 0x8000_0000

  /** `(int) utime`. */
  function AsInt(w: Word): int {
    if w < HALF then w else w - WORD
  }

  /** C division of an `int` by a positive number truncates toward zero. */
  function CDiv(x: int, d: nat): int
    requires d > 0
  {
    if x >= 0 then x / d else -((-x) / d)
  }

  /** Whether `x % q` is zero in C; the sign of `x` does not matter for that. */
  predicate Divides(q: nat, x: int)
    requires q > 0
  {
    Rem(if x >= 0 then x else -x, q) == 0
  }

  lemma DividesIsMod(q: nat, x: int)
    requires q > 0
    ensures Divides(q, x) <==> x % q == 0
  {
    var m: nat := if x >= 0 then x else -x;
    RemIsMod(m, q);
    if x < 0 { NegativeMod(m, q); }
  }

  lemma NegativeMod(m: nat, q: nat)
    requires q > 0
    ensures (-(m as int)) % q == 0 <==> m % q == 0
  {
    var d, r := m / q, m % q;
    assert m == d * q + r;
    if r == 0 {
      DivModUnique(-(m as int), q, -(d as int), 0);
    } else {
      assert -(m as int) == (-(d as int) - 1) * q + (q - r);
      DivModUnique(-(m as int), q, -(d as int) - 1, q - r);
    }
  }

  /** The quantum test: the turn of a task with this time and quantum is over. */
  predicate Passes(u: Word, q: nat)
    requires q > 0
  {
    Divides(q, CDiv(AsInt(u), 1000))
  }

  /** The counter after `i` more ticks. */
  function Later(u: Word, i: nat): Word {
    Wrap(u + 1000 * i)
  }

  lemma LaterLater(u: Word, i: nat, j: nat)
    ensures Later(Later(u, i), j) == Later(u, i + j)
  {
    WrapAdd(u + 1000 * i, 1000 * j);
  }

  // --------------------------------------------------------- the closed form

  /** Milliseconds from the counter up to its wrap at 2^32. */
  function Missing(u: nat): nat
    requires u <= WORD
  {
    (WORD - u) / 1000
  }

  /** The tick that takes a counter below 2^31 to 2^31 or beyond. */
  function Crossing(u: nat): (j: nat)
    requires u < HALF
    ensures j >= 1 && u + 1000 * j >= HALF && u + 1000 * (j - 1) < HALF
  {
    (HALF - u + 999) / 1000
  }

  /** Ticks from a negative count to its next multiple of `q`. */
  function Back(n: nat, q: nat): (k: nat)
    requires q > 0
    ensures 1 <= k <= q
  {
    if n == 0 then 1 else if Rem(n, q) == 0 then q else Rem(n, q)
  }

  /** The ticks until the turn is over, from any time on. */
  function Length(u: Word, q: nat): (k: nat)
    requires q > 0
    ensures 1 <= k <= 2 * q - 1
  {
    if u >= HALF then Back(Missing(u), q)
    else
      var k := q - Rem(u / 1000, q);
      if u + 1000 * k < HALF then k
      else Crossing(u) + Rem(Missing(u + 1000 * Crossing(u)), q)
  }

  // ------------------------------------------------------------- remainders

  lemma {:induction false} RemSum(x: nat, y: nat, q: nat)
    requires q > 0 && Rem(x, q) == 0 && y < q
    ensures Rem(x + y, q) == y
    decreases x
  {
    if x >= q { RemSum(x - q, y, q); }
  }

  /** Counting up, the next multiple is `q - Rem(m, q)` ahead. */
  lemma {:induction false} RemAhead(m: nat, q: nat, i: nat)
    requires q > 0 && i <= q - Rem(m, q)
    ensures Rem(m + i, q) == if i == q - Rem(m, q) then 0 else Rem(m, q) + i
    decreases i
  {
    if i > 0 {
      RemAhead(m, q, i - 1);
      RemNext(m + i - 1, q);
    }
  }

  /** Counting down, it is `Rem(n, q)` behind, or `q` from a multiple. */
  lemma {:induction false} RemBehind(n: nat, q: nat, i: nat)
    requires q > 0 && i <= Rem(n, q) && i <= n
    ensures Rem(n - i, q) == Rem(n, q) - i
    decreases i
  {
    if i > 0 {
      RemBehind(n, q, i - 1);
      RemNext(n - i, q);
    }
  }

  lemma RemBehindMultiple(n: nat, q: nat, i: nat)
    requires q > 0 && Rem(n, q) == 0 && n > 0 && 1 <= i <= q
    ensures q <= n && Rem(n - i, q) == q - i
  {
    if i < q { RemSum(n - q, q - i, q); }
  }

  // ------------------------------------------------------- the three regions

  lemma UpPasses(u: Word, q: nat, i: nat)
    requires q > 0 && u + 1000 * i < HALF
    ensures Passes(Later(u, i), q) <==> Rem(u / 1000 + i, q) == 0
  {
    WrapWord(u + 1000 * i);
    assert (u + 1000 * i) / 1000 == u / 1000 + i;
  }

  /** Below zero the milliseconds are those missing. */
  lemma NegativePasses(v: Word, q: nat)
    requires q > 0 && v >= HALF
    ensures Passes(v, q) <==> Rem(Missing(v), q) == 0
  {
    assert CDiv(AsInt(v), 1000) == -(Missing(v) as int);
  }

  lemma DownPasses(u: Word, q: nat, i: nat)
    requires q > 0 && u >= HALF && i <= Missing(u)
    ensures Passes(Later(u, i), q) <==> Rem(Missing(u) - i, q) == 0
  {
    var v := u + 1000 * i;
    assert v <= WORD && Missing(v) == Missing(u) - i;
    if v < WORD {
      WrapWord(v);
      NegativePasses(v, q);
    }
  }

  /** The last tick before the wrap ends the turn if none before it did. */
  lemma WrapPasses(u: Word, q: nat)
    requires q > 0 && u >= HALF && Missing(u) == 0
    ensures Passes(Later(u, 1), q)
  {
  }

  /** `k` is the first tick whose test passes. */
  ghost predicate FirstPass(u: Word, q: nat, k: nat)
    requires q > 0
  {
    k >= 1 && Passes(Later(u, k), q) && forall i: nat | 1 <= i < k :: !Passes(Later(u, i), q)
  }

  lemma BackIsFirst(u: Word, q: nat)
    requires q > 0 && u >= HALF
    ensures FirstPass(u, q, Back(Missing(u), q))
  {
    var n := Missing(u);
    var k := Back(n, q);
    if n == 0 {
      WrapPasses(u, q);
    } else {
      forall i: nat | 1 <= i <= k ensures Passes(Later(u, i), q) <==> i == k {
        if Rem(n, q) == 0 {
          RemBehindMultiple(n, q, i);
        } else {
          RemAtMost(n, q);
          RemBehind(n, q, i);
        }
        DownPasses(u, q, i);
      }
    }
  }

  lemma {:induction false} RemAtMost(n: nat, q: nat)
    requires q > 0
    ensures Rem(n, q) <= n
  {
    if n >= q { RemAtMost(n - q, q); }
  }

  lemma AheadIsFirst(u: Word, q: nat, k: nat)
    requires q > 0 && k == q - Rem(u / 1000, q) && u + 1000 * k < HALF
    ensures FirstPass(u, q, k)
  {
    forall i: nat | 1 <= i <= k ensures Passes(Later(u, i), q) <==> i == k {
      RemAhead(u / 1000, q, i);
      UpPasses(u, q, i);
    }
  }

  /** Below 2^31 no tick before the next multiple passes. */
  lemma NotBefore(u: Word, q: nat, i: nat)
    requires q > 0 && 1 <= i < q - Rem(u / 1000, q) && u + 1000 * i < HALF
    ensures !Passes(Later(u, i), q)
  {
    RemAhead(u / 1000, q, i);
    UpPasses(u, q, i);
  }

  /** From 2^31 on, the first to pass is as far away as the rest of the count. */
  lemma FromHalf(v: Word, q: nat, i: nat)
    requires q > 0 && v >= HALF && i <= Rem(Missing(v), q)
    ensures Passes(Later(v, i), q) <==> i == Rem(Missing(v), q)
  {
    RemAtMost(Missing(v), q);
    RemBehind(Missing(v), q, i);
    DownPasses(v, q, i);
  }

  lemma CrossingLands(u: Word, j: nat)
    requires u < HALF && j == Crossing(u)
    ensures Later(u, j) == u + 1000 * j && Later(u, j) >= HALF
  {
  }

  lemma CrossingPasses(u: Word, q: nat, j: nat, v: Word, rest: nat, i: nat)
    requires q > 0 && u < HALF && j == Crossing(u) && u + 1000 * (q - Rem(u / 1000, q)) >= HALF
    requires v == Later(u, j) >= HALF && rest == Rem(Missing(v), q) && 1 <= i <= j + rest
    ensures Passes(Later(u, i), q) <==> i == j + rest
  {
    if i < j {
      NotBefore(u, q, i);
    } else {
      LaterLater(u, j, i - j);
      FromHalf(v, q, i - j);
    }
  }

  lemma CrossingIsFirst(u: Word, q: nat, j: nat)
    requires q > 0 && u < HALF && j == Crossing(u) && u + 1000 * (q - Rem(u / 1000, q)) >= HALF
    ensures FirstPass(u, q, j + Rem(Missing(u + 1000 * j), q))
  {
    CrossingLands(u, j);
    var v := Later(u, j);
    var rest := Rem(Missing(v), q);
    forall i: nat | 1 <= i <= j + rest ensures Passes(Later(u, i), q) <==> i == j + rest {
      CrossingPasses(u, q, j, v, rest, i);
    }
  }

  /** The closed form is right for every time and quantum: the test fails on every tick before and
      passes on that one. */
  lemma LengthIsFirst(u: Word, q: nat)
    requires q > 0
    ensures FirstPass(u, q, Length(u, q))
  {
    if u >= HALF {
      BackIsFirst(u, q);
    } else {
      var k := q - Rem(u / 1000, q);
      if u + 1000 * k < HALF {
        AheadIsFirst(u, q, k);
      } else {
        CrossingIsFirst(u, q, Crossing(u));
      }
    }
  }

  // ------------------------------------------------------------ what it gives

  /** The last whole milliseconds below 2^31 of a counter with `x` microseconds beyond a millisecond. */
  function LastBefore(x: nat): nat {
    if x < 648 then 2147483 else 2147482
  }

  /** The milliseconds, counted back from zero, of its first tick at or above 2^31. */
  function FirstAfter(x: nat): nat {
    if 296 < x < 648 then 2147482 else 2147483
  }

  lemma CrossingInNumbers(u: Word)
    requires u < HALF
    ensures u / 1000 <= LastBefore(u % 1000)
    ensures Crossing(u) == LastBefore(u % 1000) + 1 - u / 1000
    ensures Missing(u + 1000 * Crossing(u)) == FirstAfter(u % 1000)
    ensures forall k: nat :: u + 1000 * k < HALF <==> u / 1000 + k <= LastBefore(u % 1000)
  {
  }

  /** What is left of the turn of a counter below 2^31 if it meets it: the ticks up to it, and those from
      the first beyond it to the next multiple. */
  function CrossingTurn(u: Word, q: nat): nat
    requires q > 0 && u < HALF
  {
    CrossingInNumbers(u);
    LastBefore(u % 1000) + 1 - u / 1000 + Rem(FirstAfter(u % 1000), q)
  }

  lemma LengthInNumbers(u: Word, q: nat)
    requires q > 0 && u < HALF
    ensures Length(u, q) ==
            if u / 1000 + q - Rem(u / 1000, q) <= LastBefore(u % 1000) then q - Rem(u / 1000, q) else CrossingTurn(u, q)
  {
    CrossingInNumbers(u);
    var k: nat := q - Rem(u / 1000, q);
    assert u + 1000 * k < HALF <==> u / 1000 + k <= LastBefore(u % 1000);
  }

  /** The turn does not meet 2^31, or meets it so that it still ends within the quantum. */
  predicate Regular(u: Word, q: nat)
    requires q > 0
  {
    || u >= HALF
    || u / 1000 + q - Rem(u / 1000, q) <= LastBefore(u % 1000)
    || CrossingTurn(u, q) <= q
  }

  lemma LengthWithin(u: Word, q: nat)
    requires q > 0
    ensures Length(u, q) <= q <==> Regular(u, q)
  {
    if u < HALF { LengthInNumbers(u, q); }
  }

  /** The quantum test passes within the next `q` ticks exactly under that condition. */
  lemma WithinQuantum(u: Word, q: nat)
    requires q > 0
    ensures (exists k: nat :: 1 <= k <= q && Passes(Later(u, k), q)) <==> Regular(u, q)
  {
    LengthIsFirst(u, q);
    LengthWithin(u, q);
    if Regular(u, q) {
      assert 1 <= Length(u, q) <= q && Passes(Later(u, Length(u, q)), q);
    }
  }

  lemma OneFirst(u: Word, q: nat, k: nat)
    requires q > 0
    ensures FirstPass(u, q, k) <==> k == Length(u, q)
  {
    LengthIsFirst(u, q);
  }

  /** From a turn boundary with the counter below 2^31: the test passes next after exactly the quantum
      if and only if that is below 2^31, or the part before and the part after add up to it. */
  lemma TurnIsQuantum(u: Word, q: nat)
    requires q > 0 && u < HALF && Passes(u, q)
    ensures FirstPass(u, q, q) <==> u / 1000 + q <= LastBefore(u % 1000) || CrossingTurn(u, q) == q
  {
    UpPasses(u, q, 0);
    LengthInNumbers(u, q);
    OneFirst(u, q, q);
  }

  /** Above 2^31 a turn from a boundary lasts the quantum, except the last one before the wrap. */
  lemma NegativeTurnIsQuantum(u: Word, q: nat)
    requires q > 0 && u >= HALF && Passes(u, q)
    ensures FirstPass(u, q, q) <==> Missing(u) > 0 || q == 1
  {
    DownPasses(u, q, 0);
    OneFirst(u, q, q);
  }

  /** The first time a task's counter meets 2^31 it holds whole milliseconds.  Then a turn from a
      boundary lasts the quantum exactly if it ends by millisecond 2147483, or if twice the rest of
      2147483 plus one is the quantum. */
  lemma FirstCrossingTurn(ms: nat, q: nat)
    requires q > 0 && ms <= 2147483 && Rem(ms, q) == 0
    ensures ms + q <= 2147483 ==> Length(1000 * ms, q) == q
    ensures ms + q > 2147483 ==> Length(1000 * ms, q) == LateLength(q)
  {
    FirstCrossing(ms, q, 2147483);
  }

  /** The length of that turn. */
  function LateLength(q: nat): nat
    requires q > 0
  {
    2 * Rem(2147483, q) + 1
  }

  lemma FirstCrossing(ms: nat, q: nat, top: nat)
    requires q > 0 && top == 2147483 && ms <= top && Rem(ms, q) == 0
    ensures ms + q <= top ==> Length(1000 * ms, q) == q
    ensures ms + q > top ==> Length(1000 * ms, q) == 2 * Rem(top, q) + 1
  {
    var u: Word := 1000 * ms;
    assert u / 1000 == ms;
    if ms + q > top {
      assert Crossing(u) == top + 1 - ms;
      assert Missing(u + 1000 * Crossing(u)) == top;
      RemSum(ms, top - ms, q);
    }
  }

  /** A task of priority -19 at a turn boundary of 2147457 ms keeps the CPU for 53 ticks, not 39. */
  lemma LongTurn()
    ensures Passes(2147457000, 39) && Length(2147457000, 39) == 53 == LateLength(39)
  {
    RemIsMod(2147457, 39);
    RemIsMod(2147483, 39);
    FirstCrossingTurn(2147457, 39);
  }
}
