/** Unsigned machine words and the bitwise operators the kernel applies to them.

    A 32-bit word is a natural number below 2^32.  The operators are defined digit by digit,
    and the lemmas say what each one does to a single bit, which is how the page bitmap, the
    affinity masks and the rounding masks are reasoned about. */
module Bits {

  const WORD: nat := 0x1_0000_0000

  type Word = w: nat | w < WORD
  type Byte = b: nat | b < 256

  /** Unsigned 32-bit arithmetic keeps the low word. */
  function Wrap(x: int): Word {
    x % 0x1_0000_0000
  }

  lemma WrapAdd(x: int, y: int)
    ensures Wrap(Wrap(x) + y) == Wrap(x + y)
  {
  }

  lemma WrapSub(x: int, y: int)
    ensures Wrap(x - Wrap(y)) == Wrap(x - y)
  {
  }

  lemma WrapWord(x: Word)
    ensures Wrap(x) == x
  {
  }

  /** `1 << n`. */
  function Pow2(n: nat): (p: nat)
    ensures p > 0
  {
    if n == 0 then 1 else 2 * Pow2(n - 1)
  }

  /** Whether bit `i` of `x` is set. */
  predicate Bit(x: nat, i: nat) {
    if i == 0 then x % 2 == 1 else Bit(x / 2, i - 1)
  }

  /** `x & y`. */
  function And(x: nat, y: nat): nat {
    if x == 0 then 0 else (if x % 2 == 1 && y % 2 == 1 then 1 else 0) + 2 * And(x / 2, y / 2)
  }

  /** `x | y`. */
  function Or(x: nat, y: nat): nat
    decreases x + y
  {
    if x == 0 && y == 0 then 0
    else (if x % 2 == 1 || y % 2 == 1 then 1 else 0) + 2 * Or(x / 2, y / 2)
  }

  /** `~x` on a 32-bit word. */
  function Not(x: Word): Word {
    WORD - 1 - x
  }

  lemma {:induction false} ZeroBit(i: nat)
    ensures !Bit(0, i)
  {
    if i > 0 { ZeroBit(i - 1); }
  }

  lemma AndParts(x: nat, y: nat)
    ensures And(x, y) % 2 == 1 <==> x % 2 == 1 && y % 2 == 1
    ensures And(x, y) / 2 == And(x / 2, y / 2)
  {
  }

  lemma {:induction false} AndBit(x: nat, y: nat, i: nat)
    ensures Bit(And(x, y), i) <==> Bit(x, i) && Bit(y, i)
    decreases i
  {
    AndParts(x, y);
    if i > 0 { AndBit(x / 2, y / 2, i - 1); }
  }

  lemma OrParts(x: nat, y: nat)
    ensures Or(x, y) % 2 == 1 <==> x % 2 == 1 || y % 2 == 1
    ensures Or(x, y) / 2 == Or(x / 2, y / 2)
  {
  }

  lemma {:induction false} OrBit(x: nat, y: nat, i: nat)
    ensures Bit(Or(x, y), i) <==> Bit(x, i) || Bit(y, i)
    decreases i
  {
    OrParts(x, y);
    if i > 0 { OrBit(x / 2, y / 2, i - 1); }
  }

  /** `1 << j` has exactly bit `j` set. */
  lemma {:induction false} ShiftBit(j: nat, i: nat)
    ensures Bit(Pow2(j), i) <==> i == j
  {
    if j == 0 {
      if i > 0 { ZeroBit(i - 1); }
    } else if i > 0 {
      assert Pow2(j) / 2 == Pow2(j - 1);
      ShiftBit(j - 1, i - 1);
    }
  }

  /** Complementing within `n` bits flips each of them. */
  lemma {:induction false} ComplementBit(x: nat, n: nat, i: nat)
    requires x < Pow2(n) && i < n
    ensures Bit(Pow2(n) - 1 - x, i) <==> !Bit(x, i)
  {
    var y := Pow2(n) - 1 - x;
    assert y % 2 == 1 - x % 2;
    if i > 0 {
      assert y / 2 == Pow2(n - 1) - 1 - x / 2;
      ComplementBit(x / 2, n - 1, i - 1);
    }
  }

  lemma WordIsPow2()
    ensures Pow2(32) == WORD
  {
    assert Pow2(8) == 256;
    assert Pow2(16) == 65536;
    assert Pow2(24) == 16777216;
  }

  lemma NotBit(x: Word, i: nat)
    requires i < 32
    ensures Bit(Not(x), i) <==> !Bit(x, i)
  {
    WordIsPow2();
    ComplementBit(x, 32, i);
  }

  lemma {:induction false} Pow2Monotone(i: nat, j: nat)
    requires i <= j
    ensures Pow2(i) <= Pow2(j)
    decreases j
  {
    if i < j { Pow2Monotone(i, j - 1); }
  }

  lemma ShiftIsWord(j: nat)
    requires j < 32
    ensures Pow2(j) < WORD
  {
    WordIsPow2();
    Pow2Monotone(j + 1, 32);
  }

  lemma {:induction false} OrBound(x: nat, y: nat, n: nat)
    requires x < Pow2(n) && y < Pow2(n)
    ensures Or(x, y) < Pow2(n)
    decreases n
  {
    if n > 0 && (x != 0 || y != 0) { OrBound(x / 2, y / 2, n - 1); }
  }

  lemma {:induction false} AndBound(x: nat, y: nat)
    ensures And(x, y) <= x
  {
    if x != 0 { AndBound(x / 2, y / 2); }
  }

  /** Two values below 2^n with the same low n bits are equal. */
  lemma {:induction false} SameBits(x: nat, y: nat, n: nat)
    requires x < Pow2(n) && y < Pow2(n)
    requires forall i: nat | i < n :: Bit(x, i) == Bit(y, i)
    ensures x == y
  {
    if n > 0 {
      assert Bit(x, 0) == Bit(y, 0);
      forall i: nat | i < n - 1 ensures Bit(x / 2, i) == Bit(y / 2, i) {
        assert Bit(x, i + 1) == Bit(y, i + 1);
      }
      SameBits(x / 2, y / 2, n - 1);
    }
  }

  /** `w | (1 << j)`. */
  function SetBit(w: Word, j: nat): (r: Word)
    requires j < 32
    ensures forall i: nat :: Bit(r, i) <==> i == j || Bit(w, i)
  {
    WordIsPow2();
    ShiftIsWord(j);
    OrBound(w, Pow2(j), 32);
    assert forall i: nat :: Bit(Or(w, Pow2(j)), i) <==> i == j || Bit(w, i) by {
      forall i: nat ensures Bit(Or(w, Pow2(j)), i) <==> i == j || Bit(w, i) {
        OrBit(w, Pow2(j), i);
        ShiftBit(j, i);
      }
    }
    Or(w, Pow2(j))
  }

  /** `w & ~(1 << j)`. */
  function ClearBit(w: Word, j: nat): (r: Word)
    requires j < 32
    ensures forall i: nat | i < 32 :: Bit(r, i) <==> i != j && Bit(w, i)
  {
    ShiftIsWord(j);
    AndBound(w, Not(Pow2(j)));
    assert forall i: nat | i < 32 :: Bit(And(w, Not(Pow2(j))), i) <==> i != j && Bit(w, i) by {
      forall i: nat | i < 32 ensures Bit(And(w, Not(Pow2(j))), i) <==> i != j && Bit(w, i) {
        AndBit(w, Not(Pow2(j)), i);
        NotBit(Pow2(j), i);
        ShiftBit(j, i);
      }
    }
    And(w, Not(Pow2(j)))
  }

  /** `w & (1 << j)` as a truth value. */
  predicate TestBit(w: Word, j: nat)
    requires j < 32
  {
    And(w, Pow2(j)) != 0
  }

  lemma TestIsBit(w: Word, j: nat)
    requires j < 32
    ensures TestBit(w, j) <==> Bit(w, j)
  {
    var a := And(w, Pow2(j));
    forall i: nat ensures Bit(a, i) <==> i == j && Bit(w, j) {
      AndBit(w, Pow2(j), i);
      ShiftBit(j, i);
    }
    if a == 0 {
      ZeroBit(j);
    } else if !Bit(w, j) {
      AndBound(w, Pow2(j));
      WordIsPow2();
      forall i: nat | i < 32 ensures Bit(a, i) == Bit(0, i) { ZeroBit(i); }
      SameBits(a, 0, 32);
    }
  }

  /** All 32 bits of a word are set. */
  ghost predicate Full(w: Word) {
    forall i: nat | i < 32 :: Bit(w, i)
  }

  /** A word equals 0xFFFFFFFF exactly when it is full. */
  lemma FullWord(w: Word)
    ensures w == WORD - 1 <==> Full(w)
  {
    WordIsPow2();
    var full := Not(0);
    forall i: nat | i < 32 ensures Bit(full, i) {
      ZeroBit(i);
      NotBit(0, i);
    }
    if w == WORD - 1 {
      assert w == full;
    } else if Full(w) {
      SameBits(w, full, 32);
    }
  }

  // --------------------------------------------------------------- remainder

  /** `x % q` on naturals, by repeated subtraction. */
  function Rem(x: nat, q: nat): (r: nat)
    requires q > 0
    ensures r < q
  {
    if x < q then x else Rem(x - q, q)
  }

  lemma {:induction false} RemIsMod(x: nat, q: nat)
    requires q > 0
    ensures Rem(x, q) == x % q
    decreases x
  {
    if x >= q {
      RemIsMod(x - q, q);
      var d := (x - q) / q;
      assert x - q == d * q + (x - q) % q;
      assert x == (d + 1) * q + (x - q) % q;
      DivModUnique(x, q, d + 1, (x - q) % q);
    }
  }

  /** Counting up by one. */
  lemma {:induction false} RemNext(x: nat, q: nat)
    requires q > 0
    ensures Rem(x + 1, q) == if Rem(x, q) + 1 == q then 0 else Rem(x, q) + 1
    decreases x
  {
    if x >= q { RemNext(x - q, q); }
  }

  // ---------------------------------------------------------------- rounding

  /** The arithmetic meaning of rounding down and up to a multiple of `a`. */
  function RoundDown(x: nat, a: nat): (r: nat)
    requires a > 0
    ensures r <= x < r + a && r % a == 0
  {
    assert x == x / a * a + x % a;
    MultipleMod(x / a, a);
    x - x % a
  }

  lemma MultipleMod(q: nat, a: nat)
    requires a > 0
    ensures q * a % a == 0
  {
    DivModUnique(q * a, a, q, 0);
  }

  lemma DivModUnique(x: int, a: nat, q: int, r: int)
    requires a > 0 && 0 <= r < a && x == q * a + r
    ensures x / a == q && x % a == r
  {
    var q', r' := x / a, x % a;
    var k := q - q';
    assert q * a == q' * a + k * a;
    SmallMultiple(k, a);
  }

  /** The only multiple of `a` strictly between -a and a is zero. */
  lemma SmallMultiple(k: int, a: int)
    requires a > 0
    ensures k >= 1 ==> k * a >= a
    ensures k <= -1 ==> k * a <= -a
  {
    if k >= 1 {
      assert (k - 1) * a >= 0;
    } else if k <= -1 {
      assert (-k - 1) * a >= 0;
    }
  }

  /** Halving commutes with reduction modulo a power of two. */
  lemma HalfMod(x: nat, k: nat)
    requires k > 0
    ensures x % Pow2(k) == 2 * (x / 2 % Pow2(k - 1)) + x % 2
  {
    var m := Pow2(k - 1);
    var q, r := x / 2 / m, x / 2 % m;
    assert x / 2 == q * m + r;
    calc {
      x;
      2 * (x / 2) + x % 2;
      2 * (q * m + r) + x % 2;
      q * (2 * m) + (2 * r + x % 2);
    }
    DivModUnique(x, 2 * m, q, 2 * r + x % 2);
  }

  lemma AndEven(x: nat, y: nat)
    ensures And(x, 2 * y) == 2 * And(x / 2, y)
  {
    AndParts(x, 2 * y);
    assert 2 * y / 2 == y && 2 * y % 2 == 0;
  }

  lemma AndOdd(x: nat, y: nat)
    ensures And(x, 2 * y + 1) == 2 * And(x / 2, y) + x % 2
  {
    AndParts(x, 2 * y + 1);
    assert (2 * y + 1) / 2 == y && (2 * y + 1) % 2 == 1;
  }

  /** The number the lowest `k` bits make. */
  function LowBits(x: nat, k: nat): nat
    decreases k
  {
    if k == 0 then 0 else 2 * LowBits(x / 2, k - 1) + x % 2
  }

  lemma {:induction false} LowBitsMod(x: nat, k: nat)
    ensures LowBits(x, k) == x % Pow2(k)
    decreases k
  {
    if k > 0 {
      LowBitsMod(x / 2, k - 1);
      HalfMod(x, k);
    }
  }

  /** `k` zeros below ones, `n` bits in all. */
  function Mask(n: nat, k: nat): nat {
    if n == 0 then 0 else if k == 0 then 2 * Mask(n - 1, 0) + 1 else 2 * Mask(n - 1, k - 1)
  }

  lemma {:induction false} MaskIs(n: nat, k: nat)
    requires k <= n
    ensures Mask(n, k) == Pow2(n) - Pow2(k)
  {
    if n > 0 { MaskIs(n - 1, if k == 0 then 0 else k - 1); }
  }

  lemma {:induction false} HighMask(x: nat, n: nat, k: nat)
    requires k <= n && x < Pow2(n)
    ensures And(x, Mask(n, k)) == x - LowBits(x, k)
    decreases n
  {
    if n > 0 {
      if k == 0 {
        AndOdd(x, Mask(n - 1, 0));
        HighMask(x / 2, n - 1, 0);
      } else {
        AndEven(x, Mask(n - 1, k - 1));
        HighMask(x / 2, n - 1, k - 1);
      }
    }
  }

  /** `x & ~(2^k - 1)` rounds `x` down to a multiple of 2^k. */
  lemma MaskRoundsDown(x: Word, k: nat)
    requires k < 32
    ensures Pow2(k) - 1 < WORD
    ensures And(x, Not(Pow2(k) - 1)) == RoundDown(x, Pow2(k))
  {
    ShiftIsWord(k);
    WordIsPow2();
    MaskIs(32, k);
    HighMask(x, 32, k);
    LowBitsMod(x, k);
    assert Not(Pow2(k) - 1) == Pow2(32) - Pow2(k);
  }
}
