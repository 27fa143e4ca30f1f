/** Mapping and unmapping intervals of an address space, page by page, and the growing and
    shrinking of one map.  Page-table writes are insertions into and removals from a set of pages. */
module Paging {
  import opened Bits
  import opened Outcomes
  import opened PageSet

  /** An address space between `start` and `limit`, its mapped pages, and its `size` counter. */
  datatype Space = Space(start: Word, limit: Word, pages: set<nat>, size: int)

  datatype Map = Map(start: Word, end: Word)

  /** How a call ends: it returns, the kernel stops, or a loop in it never ends. */
  datatype Ending<+T> = Returns(value: T) | Stops | Spins

  /** The number of pages from that of `address` to that of `address + length`. */
  function Count(address: nat, length: nat): (n: nat)
    ensures n == |Span(address, address + length)|
  {
    PagesCount(address / PAGE, (address + length) / PAGE);
    (address + length) / PAGE - address / PAGE + 1
  }

  function Mapped(a: Space, address: nat, length: nat): Space {
    a.(pages := a.pages + Span(address, address + length), size := a.size + PAGE * Count(address, length))
  }

  function Unmapped(a: Space, address: nat, length: nat): Space {
    a.(pages := a.pages - Span(address, address + length), size := a.size - PAGE * Count(address, length))
  }

  /** Rounding up as `aspace_enlarge_map` does it. */
  function RoundUp(x: nat): (r: nat)
    ensures x <= r < x + PAGE && r % PAGE == 0
  {
    RemIsMod(x, PAGE);
    if Rem(x, PAGE) != 0 then x - Rem(x, PAGE) + PAGE else x
  }

  /** Growing a map, as intended.  A map that ends at address zero is refused because `arch_mmap`
      answers with the address it was given. */
  function Enlarged(a: Space, m: Map, incr: nat): Ending<(Space, Map)> {
    if incr == 0 then Stops else EnlargedBy(a, m, RoundUp(incr))
  }

  function EnlargedBy(a: Space, m: Map, n: nat): Ending<(Space, Map)>
    requires n > 0
  {
    if m.end + n > a.limit || m.end == 0 then Stops
    else Returns((Mapped(a, m.end, n - 1), m.(end := m.end + n)))
  }

  /** Shrinking it.  The length passed on is one less than `decr`, so a `decr` of one is refused too. */
  function Shrunk(a: Space, m: Map, decr: nat): Ending<(Space, Map)> {
    if decr <= 1 || m.end - decr < a.start then Stops
    else Returns((Unmapped(a, m.end - decr, decr - 1), m.(end := m.end - decr)))
  }

  /** What dropping the last reference to a map does to the space it is dropped from. */
  function Removed(a: Space, m: Map): Space {
    if m.end > m.start then Unmapped(a, m.start, m.end - m.start) else a
  }

  // --------------------------------------------------------------- coverage

  /** The pages that hold a byte of `[start, end)`. */
  function PagesOf(m: Map): set<nat> {
    if m.start < m.end then Span(m.start, m.end - 1) else {}
  }

  ghost predicate Aligned(m: Map) {
    m.start % PAGE == 0 && m.end % PAGE == 0 && m.start <= m.end
  }

  /** The space maps the pages of `m` and, beside them, `others`, and `base` bytes are not `m`'s. */
  ghost predicate Covers(a: Space, m: Map, others: set<nat>, base: int) {
    a.pages == others + PagesOf(m) && others !! PagesOf(m) && a.size == base + (m.end - m.start)
  }

  /** No other page is mapped where the map may grow. */
  ghost predicate RoomAbove(start: nat, limit: nat, others: set<nat>) {
    forall p: nat | p in others :: !Inside(p, start, limit)
  }

  predicate Inside(p: nat, start: nat, end: nat) {
    start <= p * PAGE < end
  }

  lemma AlignedPages(m: Map, p: nat)
    requires Aligned(m)
    ensures p in PagesOf(m) <==> Inside(p, m.start, m.end)
    ensures |PagesOf(m)| * PAGE == m.end - m.start
  {
    if m.start < m.end { PagesCount(m.start / PAGE, (m.end - 1) / PAGE); }
  }

  lemma EnlargePages(m: Map, m': Map, n: nat)
    requires Aligned(m) && n > 0 && n % PAGE == 0 && m'.start == m.start && m'.end == m.end + n
    ensures Aligned(m') && PagesOf(m') == PagesOf(m) + Span(m.end, m.end + n - 1)
    ensures PAGE * Count(m.end, n - 1) == n
  {
    var lo, hi := m.end / PAGE, n / PAGE;
    assert m.end == PAGE * lo && n == PAGE * hi;
    assert m'.end == PAGE * (lo + hi);
  }

  lemma RoomIsFree(m: Map, limit: nat, others: set<nat>)
    requires Aligned(m) && m.end <= limit && RoomAbove(m.start, limit, others)
    ensures others !! PagesOf(m)
  {
    forall p: nat | p in PagesOf(m) ensures p !in others {
      AlignedPages(m, p);
    }
  }

  lemma EnlargeBy(a: Space, m: Map, n: nat, others: set<nat>, base: int, m': Map)
    requires Aligned(m) && Covers(a, m, others, base) && RoomAbove(m.start, a.limit, others)
    requires n > 0 && n % PAGE == 0 && m'.start == m.start && m'.end == m.end + n <= a.limit
    ensures Aligned(m') && Covers(Mapped(a, m.end, n - 1), m', others, base)
  {
    EnlargePages(m, m', n);
    RoomIsFree(m', a.limit, others);
    assert others + PagesOf(m) + Span(m.end, m.end + n - 1) == others + PagesOf(m');
  }

  /** Growing a page-aligned map maps exactly the pages between its old end and its new one. */
  lemma EnlargeCovers(a: Space, m: Map, incr: nat, others: set<nat>, base: int, a': Space, m': Map)
    requires Aligned(m) && Covers(a, m, others, base) && RoomAbove(m.start, a.limit, others)
    requires Enlarged(a, m, incr) == Returns((a', m'))
    ensures Aligned(m') && Covers(a', m', others, base) && a'.limit == a.limit
    ensures m'.start == m.start && m'.end == m.end + RoundUp(incr)
  {
    EnlargeBy(a, m, RoundUp(incr), others, base, m');
  }

  lemma ShrinkPages(m: Map, m': Map, n: nat)
    requires Aligned(m) && 0 < n <= m.end - m.start && n % PAGE == 0 && m' == m.(end := m.end - n)
    ensures Aligned(m') && PagesOf(m) - Span(m'.end, m.end - 1) == PagesOf(m')
    ensures Span(m'.end, m.end - 1) <= PagesOf(m) && PAGE * Count(m'.end, n - 1) == n
  {
    var lo, hi := m'.end / PAGE, n / PAGE;
    assert n == PAGE * hi && m.end == PAGE * (m.end / PAGE);
    assert m'.end == PAGE * (m.end / PAGE - hi);
    assert m.end == PAGE * (lo + hi);
  }

  lemma TakeAway(others: set<nat>, mine: set<nat>, part: set<nat>)
    requires others !! mine && part <= mine
    ensures others + mine - part == others + (mine - part) && others !! (mine - part)
  {
  }

  lemma ShrinkBy(a: Space, m: Map, n: nat, others: set<nat>, base: int, m': Map)
    requires Aligned(m) && Covers(a, m, others, base)
    requires 0 < n <= m.end - m.start && n % PAGE == 0 && m' == m.(end := m.end - n)
    ensures Aligned(m') && Covers(Unmapped(a, m'.end, n - 1), m', others, base)
  {
    ShrinkPages(m, m', n);
    TakeAway(others, PagesOf(m), Span(m'.end, m.end - 1));
  }

  lemma ShrinkCovers(a: Space, m: Map, decr: nat, others: set<nat>, base: int, a': Space, m': Map)
    requires Aligned(m) && Covers(a, m, others, base) && decr <= m.end - m.start && decr % PAGE == 0
    requires Shrunk(a, m, decr) == Returns((a', m'))
    ensures Aligned(m') && Covers(a', m', others, base) && a'.limit == a.limit && m'.start == m.start
  {
    ShrinkBy(a, m, decr, others, base, m');
  }

  /** The page a map then ends in still holds bytes of it, and is among those unmapped. */
  lemma PartOfPage(m: Map, m': Map, n: nat)
    requires Aligned(m) && 0 < n <= m.end - m.start && n % PAGE != 0 && m' == m.(end := m.end - n)
    ensures m'.end / PAGE in PagesOf(m') && m'.end / PAGE in Span(m'.end, m.end - 1)
  {
    assert m'.end % PAGE != 0;
    assert (m'.end - 1) / PAGE == m'.end / PAGE;
  }

  // ------------------------------------------------------------------ masks

  lemma {:induction false} LowMask(x: nat, k: nat)
    ensures And(x, Pow2(k) - 1) == LowBits(x, k)
    decreases k
  {
    if k == 0 {
      AndZero(x);
    } else {
      AndOdd(x, Pow2(k - 1) - 1);
      LowMask(x / 2, k - 1);
    }
  }

  lemma {:induction false} AndZero(x: nat)
    ensures And(x, 0) == 0
  {
    if x != 0 { AndZero(x / 2); }
  }

  lemma PageIsPow2()
    ensures Pow2(12) == PAGE
  {
    assert Pow2(6) == 64;
  }

  /** `x & ~(PAGE_SIZE - 1)`. */
  function PageBase(x: Word): (r: Word)
    ensures r == x / PAGE * PAGE
  {
    PageIsPow2();
    MaskRoundsDown(x, 12);
    And(x, Not(4095))
  }

  /** `x & (PAGE_SIZE - 1)`. */
  function PageOffset(x: Word): (r: nat)
    ensures r == x % PAGE
  {
    PageIsPow2();
    LowMask(x, 12);
    LowBitsMod(x, 12);
    And(x, 4095)
  }

  lemma NextPage(x: nat)
    ensures (x + PAGE) / PAGE == x / PAGE + 1
  {
  }

  // ------------------------------------------------------ 32-bit arithmetic

  /** The pages the loop of `arch_mmap` visits, if it ends. */
  ghost function MmapPages(address: Word, length: Word): set<nat> {
    Pages(address / PAGE, Wrap(address + length) / PAGE)
  }

  /** The pages the loop of `arch_munmap` visits. */
  ghost function MunmapPages(address: Word, length: Word): set<nat> {
    Below(address / PAGE, Wrap(address + length + PAGE) / PAGE)
  }

  ghost function Mmapped(a: Space, address: Word, length: Word): Space {
    var ps := MmapPages(address, length);
    a.(pages := a.pages + ps, size := a.size + PAGE * |ps|)
  }

  ghost function Munmapped(a: Space, address: Word, length: Word): Space {
    var ps := MunmapPages(address, length);
    a.(pages := a.pages - ps, size := a.size - PAGE * |ps|)
  }

  /** The loop of `arch_mmap` runs while `s <= e`; with the last page for `e` it never ends. */
  predicate Endless(address: Word, length: Word) {
    Wrap(address + length) >= WORD - PAGE
  }

  /** `arch_mmap`: an empty interval fails its assertion. */
  ghost function MmapWord(a: Space, address: Word, length: Word): Ending<Space> {
    if length == 0 then Stops else if Endless(address, length) then Spins else Returns(Mmapped(a, address, length))
  }

  /** `arch_munmap`. */
  ghost function MunmapWord(a: Space, address: Word, length: Word): Ending<Space> {
    if length == 0 then Stops else Returns(Munmapped(a, address, length))
  }

  /** The loop variable of either after `k` rounds. */
  function RoundAt(address: Word, k: nat): Word {
    Wrap(PageBase(address) + PAGE * k)
  }

  /** The guard of the mapping loop holds in every round exactly if the end lies in the last page. */
  lemma EndlessExact(address: Word, length: Word)
    ensures Endless(address, length) <==>
            forall k: nat :: RoundAt(address, k) <= PageBase(Wrap(address + length))
  {
    var w := Wrap(address + length);
    LastPage(w);
    if w < WORD - PAGE {
      LeavesLoop(address, w);
    } else {
      forall k: nat ensures RoundAt(address, k) <= PageBase(w) {
        RoundIsPage(address, k);
        LastPage(RoundAt(address, k));
      }
    }
  }

  lemma RoundIsPage(address: Word, k: nat)
    ensures RoundAt(address, k) % PAGE == 0
  {
    assert PageBase(address) + PAGE * k == PAGE * (address / PAGE + k);
  }

  /** The round after that of the end's page, or the first if the address lies above the end. */
  lemma LeavesLoop(address: Word, w: Word)
    requires w < WORD - PAGE
    ensures exists k: nat :: RoundAt(address, k) > PageBase(w)
  {
    var k: nat := if address / PAGE > w / PAGE then 0 else w / PAGE + 1 - address / PAGE;
    var s := PageBase(address) + PAGE * k;
    assert PageBase(w) < s < WORD;
    WrapWord(s);
    assert RoundAt(address, k) > PageBase(w);
  }

  lemma LastPage(w: Word)
    ensures w >= WORD - PAGE <==> w / PAGE == 0xF_FFFF
    ensures w / PAGE <= 0xF_FFFF
    ensures w % PAGE == 0 ==> w == w / PAGE * PAGE
  {
  }

  lemma BelowIsPages(lo: nat, hi: nat)
    ensures hi > 0 ==> Below(lo, hi) == Pages(lo, hi - 1)
    ensures hi == 0 ==> Below(lo, hi) == {}
    ensures |Below(lo, hi)| == if lo < hi then hi - lo else 0
  {
    if hi > 0 {
      assert Below(lo, hi) == Pages(lo, hi - 1);
      PagesCount(lo, hi - 1);
    } else {
      assert Below(lo, hi) == {};
    }
  }

  lemma AllMmapped(a: Space, address: Word, length: Word, k: nat, r: Space)
    requires var first, past := address / PAGE, Wrap(address + length) / PAGE + 1;
             && first <= k && past <= k && (k <= past || k == first)
             && r == a.(pages := a.pages + Below(first, k), size := a.size + PAGE * (k - first))
    ensures r == Mmapped(a, address, length)
  {
    SameBelow(address / PAGE, Wrap(address + length) / PAGE + 1, k);
    BelowIsPages(address / PAGE, Wrap(address + length) / PAGE + 1);
  }

  lemma AllMunmapped(a: Space, address: Word, length: Word, k: nat, r: Space)
    requires var first, past := address / PAGE, Wrap(address + length + PAGE) / PAGE;
             && first <= k && past <= k && (k <= past || k == first)
             && r == a.(pages := a.pages - Below(first, k), size := a.size - PAGE * (k - first))
    ensures r == Munmapped(a, address, length)
  {
    SameBelow(address / PAGE, Wrap(address + length + PAGE) / PAGE, k);
  }

  /** Where a loop over the pages `lo..hi` stops. */
  lemma SameBelow(lo: nat, hi: nat, k: nat)
    requires lo <= k && hi <= k && (k <= hi || k == lo)
    ensures Below(lo, k) == Below(lo, hi) && |Below(lo, hi)| == k - lo
  {
    BelowIsPages(lo, k);
    BelowIsPages(lo, hi);
  }

  /** `arch_mmap` maps the pages of the interval exactly if it is not empty and ends below the last page. */
  lemma MmapAgrees(a: Space, address: Word, length: Word)
    ensures MmapWord(a, address, length) == Returns(Mapped(a, address, length)) <==>
            length != 0 && address + length < WORD - PAGE
  {
    PagesCount(address / PAGE, Wrap(address + length) / PAGE);
    if address + length >= WORD {
      assert Count(address, length) >= 2;
      DivModUnique(address + length, WORD, 1, address + length - WORD);
    } else {
      WrapWord(address + length);
    }
  }

  /** The two loops, with their different guards, visit the same pages whenever the first one ends. */
  lemma SamePages(address: Word, length: Word)
    requires !Endless(address, length)
    ensures MmapPages(address, length) == MunmapPages(address, length)
  {
    var w := Wrap(address + length);
    WrapAdd(address + length, PAGE);
    WrapWord(w + PAGE);
    NextPage(w);
    BelowIsPages(address / PAGE, w / PAGE + 1);
  }

  /** Whatever `arch_mmap` mapped over free pages, `arch_munmap` with the same arguments undoes, pages
      and size. */
  lemma UnmapUndoesMap(a: Space, address: Word, length: Word, b: Space)
    requires MmapWord(a, address, length) == Returns(b) && MmapPages(address, length) !! a.pages
    ensures MunmapWord(b, address, length) == Returns(a)
  {
    SamePages(address, length);
    var ps := MmapPages(address, length);
    assert a.pages + ps - ps == a.pages;
  }

  /** `arch_munmap` unmaps the pages of the interval exactly if it is not empty and ends below the last
      page. */
  lemma MunmapAgrees(a: Space, address: Word, length: Word)
    ensures MunmapWord(a, address, length) == Returns(Unmapped(a, address, length)) <==>
            length != 0 && address + length < WORD - PAGE
  {
    var hi := Wrap(address + length + PAGE) / PAGE;
    BelowIsPages(address / PAGE, hi);
    if address + length < WORD - PAGE {
      NextPage(address + length);
    } else if address + length < WORD {
      assert hi == 0;
    } else {
      assert Count(address, length) >= 2;
      assert hi <= address / PAGE + 1;
    }
  }

  lemma RoundUpParts(x: Word)
    ensures RoundUp(x) == if x % PAGE != 0 then x / PAGE * PAGE + PAGE else x
    ensures RoundUp(x) <= WORD && (x > 0 ==> RoundUp(x) > 0)
  {
    RemIsMod(x, PAGE);
  }

  /** The rounding of `aspace_enlarge_map` with masks, aspace.c:122-123. */
  function PageUp(x: Word): (r: Word)
    ensures r == Wrap(RoundUp(x))
  {
    RoundUpParts(x);
    if PageOffset(x) != 0 then Wrap(PageBase(x) + PAGE) else x
  }

  lemma WholePages(x: Word)
    ensures PageUp(x) != 1
  {
    if RoundUp(x) < WORD { WrapWord(RoundUp(x)); } else { RoundUpParts(x); }
  }

  /** `aspace_enlarge_map`. */
  ghost function EnlargedWord(a: Space, m: Map, incr: Word): Ending<(Space, Map)> {
    if incr == 0 then Stops else EnlargedByWord(a, m, PageUp(incr))
  }

  ghost function EnlargedByWord(a: Space, m: Map, n: Word): Ending<(Space, Map)> {
    if Wrap(m.end + n) > a.limit then Stops
    else
      match MmapWord(a, m.end, Wrap(n - 1))
      case Stops => Stops
      case Spins => Spins
      case Returns(b) => if m.end == 0 then Stops else Returns((b, m.(end := Wrap(m.end + n))))
  }

  lemma OneLess(n: Word)
    ensures Wrap(n) == n && (n != 1 ==> Wrap(n - 1) != 0)
  {
    WrapWord(n);
    DivModUnique(n - 1, WORD, if n == 0 then -1 else 0, if n == 0 then WORD - 1 else n - 1);
  }

  lemma EnlargeFits(a: Space, m: Map, n: nat)
    requires 1 < n && m.end + n <= WORD - PAGE
    ensures EnlargedByWord(a, m, Wrap(n)) == EnlargedBy(a, m, n)
  {
    WrapWord(n);
    WrapWord(n - 1);
    WrapWord(m.end + n);
    MmapAgrees(a, m.end, n - 1);
  }

  /** Growth into the last page is not intended where it gets past the limit, because it never ends. */
  lemma EnlargeSpinsBy(a: Space, m: Map, n: nat)
    requires 1 < n && WORD - PAGE < m.end + n < WORD && m.end + n <= a.limit
    ensures EnlargedByWord(a, m, Wrap(n)) == Spins
  {
    WrapWord(n);
    WrapWord(n - 1);
    WrapWord(m.end + n);
    WrapWord(m.end + n - 1);
  }

  lemma EnlargeByAgrees(a: Space, m: Map, n: nat)
    requires 1 < n <= WORD
    ensures EnlargedByWord(a, m, Wrap(n)) == EnlargedBy(a, m, n) <==>
            m.end + n <= WORD - PAGE || Wrap(m.end + Wrap(n)) > a.limit
  {
    WrapAdd(n, m.end);
    if m.end + n <= WORD - PAGE {
      EnlargeFits(a, m, n);
    } else if m.end + n < WORD {
      WrapWord(m.end + n);
      if m.end + n <= a.limit { EnlargeSpinsBy(a, m, n); }
    } else if m.end == 0 {
      EnlargeAllSpins(a, m);
    }
  }

  /** Growing a map that ends at zero by 4 GiB. */
  lemma EnlargeAllSpins(a: Space, m: Map)
    requires m.end == 0
    ensures EnlargedByWord(a, m, Wrap(WORD)) == Spins
  {
    assert Wrap(WORD) == 0 && Wrap(0 - 1) == WORD - 1;
  }

  /** Growing a map does what is intended exactly if it is refused, or if its new end lies at or below
      the last page. */
  lemma EnlargeAgrees(a: Space, m: Map, incr: Word)
    ensures EnlargedWord(a, m, incr) == Enlarged(a, m, incr) <==>
            incr == 0 || Wrap(m.end + PageUp(incr)) > a.limit || m.end + RoundUp(incr) <= WORD - PAGE
  {
    if incr != 0 {
      RoundUpParts(incr);
      EnlargeByAgrees(a, m, RoundUp(incr));
    }
  }

  /** A map that ends inside a page, grown to just below 2^32: the loop never ends. */
  lemma EnlargeSpins(a: Space, incr: Word)
    requires a.limit == 0xFFFF_FFFF && incr == 0xF7FA_FF64
    ensures EnlargedWord(a, Map(0x0804_8000, 0x0804_FF9C), incr) == Spins
    ensures Enlarged(a, Map(0x0804_8000, 0x0804_FF9C), incr).Returns?
  {
    RoundUpParts(incr);
    WrapWord(0xF7FB_0000);
    EnlargeSpinsBy(a, Map(0x0804_8000, 0x0804_FF9C), RoundUp(incr));
  }

  /** `aspace_shrink_map`. */
  ghost function ShrunkWord(a: Space, m: Map, decr: Word): Ending<(Space, Map)> {
    if decr <= 1 || Wrap(m.end - decr) < a.start then Stops
    else Returns((Munmapped(a, Wrap(m.end - decr), decr - 1), m.(end := Wrap(m.end - decr))))
  }

  /** Shrinking a map does what is intended exactly if it is refused, or if the map is at least that
      long from address zero and ends at or below the last page. */
  lemma ShrinkAgrees(a: Space, m: Map, decr: Word)
    ensures ShrunkWord(a, m, decr) == Shrunk(a, m, decr) <==>
            decr <= 1 || Wrap(m.end - decr) < a.start || decr <= m.end <= WORD - PAGE
  {
    if 1 < decr <= m.end {
      MunmapAgrees(a, m.end - decr, decr - 1);
    }
  }

  /** A map grown by 0x70000000 from 0xA0000000 ends at 0x10000000 without a page mapped. */
  lemma EnlargeWraps(a: Space, incr: Word)
    requires a.limit == 0xC000_0000 && incr == 0x7000_0000
    ensures EnlargedWord(a, Map(4096, 0xA000_0000), incr) == Returns((a, Map(4096, 0x1000_0000)))
  {
    RoundUpParts(incr);
    WrapWord(incr);
    assert PageUp(incr) == incr;
    EnlargeByWraps(a, incr);
  }

  lemma EnlargeByWraps(a: Space, n: Word)
    requires a.limit == 0xC000_0000 && n == 0x7000_0000
    ensures EnlargedByWord(a, Map(4096, 0xA000_0000), n) == Returns((a, Map(4096, 0x1000_0000)))
  {
    WrapWord(n - 1);
    assert MmapPages(0xA000_0000, n - 1) == {};
    assert a.pages + {} == a.pages;
  }

  /** A map of one page shrunk by three ends at the last page without a page unmapped. */
  lemma ShrinkWraps(a: Space)
    requires a.start == 0
    ensures ShrunkWord(a, Map(4096, 8192), 12288) == Returns((a, Map(4096, 0xFFFF_F000)))
  {
    assert Wrap(8192 - 12288) == 0xFFFF_F000;
    assert MunmapPages(0xFFFF_F000, 12287) == {};
    assert a.pages - {} == a.pages;
  }

  /** What dropping the last reference does in 32-bit arithmetic. */
  ghost function RemovedWord(a: Space, m: Map): Space {
    if m.end > m.start then Munmapped(a, m.start, m.end - m.start) else a
  }

  lemma RemoveAgrees(a: Space, m: Map)
    ensures RemovedWord(a, m) == Removed(a, m) <==> m.end <= m.start || m.end < WORD - PAGE
  {
    if m.end > m.start { MunmapAgrees(a, m.start, m.end - m.start); }
  }

  /** Shrinking a page-aligned map keeps it covered exactly if it shrinks by whole pages. */
  lemma ShrinkExact(a: Space, m: Map, decr: Word, others: set<nat>, base: int, a': Space, m': Map)
    requires Aligned(m) && Covers(a, m, others, base) && decr <= m.end - m.start
    requires ShrunkWord(a, m, decr) == Returns((a', m'))
    ensures a'.pages == others + PagesOf(m') <==> decr % PAGE == 0
  {
    AlignedEnd(m);
    ShrinkAgrees(a, m, decr);
    if decr % PAGE == 0 {
      ShrinkCovers(a, m, decr, others, base, a', m');
    } else {
      PartOfPage(m, m', decr);
      assert m'.end / PAGE !in a'.pages;
    }
  }

  lemma AlignedEnd(m: Map)
    requires Aligned(m)
    ensures m.end <= WORD - PAGE
  {
    LastPage(m.end);
  }

  /** Shrinking an eight-kilobyte map by two bytes unmaps its whole second page. */
  lemma ShrinkLosesPage()
    ensures var a, m := Space(0, 65536, {1, 2}, 8192), Map(4096, 12288);
            ShrunkWord(a, m, 2) == Returns((Space(0, 65536, {1}, 4096), Map(4096, 12286)))
            && 12285 / PAGE == 2
  {
    var a, m := Space(0, 65536, {1, 2}, 8192), Map(4096, 12288);
    ShrinkAgrees(a, m, 2);
    assert Span(12286, 12287) == {2};
    assert {1, 2} - {2} == {1};
  }

  /** Which pages the removal of a map below the last page leaves: the page its end lies in goes too. */
  lemma RemovedPages(a: Space, m: Map, others: set<nat>)
    requires m.start < m.end < WORD - PAGE && a.pages == others + PagesOf(m) && others !! PagesOf(m)
    ensures RemovedWord(a, m).pages == others - {m.end / PAGE}
  {
    RemoveAgrees(a, m);
    assert Span(m.start, m.end) == PagesOf(m) + {m.end / PAGE};
    assert others + PagesOf(m) - Span(m.start, m.end) == others - {m.end / PAGE};
  }

  lemma EndPage(m: Map)
    requires m.start < m.end
    ensures m.end / PAGE in PagesOf(m) <==> m.end % PAGE != 0
  {
  }

  /** Removing a map, whatever its bounds, leaves exactly the other pages if and only if it ends below
      the last page and, where it ends at a page boundary, nothing is mapped right after it. */
  lemma RemoveExact(a: Space, m: Map, others: set<nat>)
    requires m.start < m.end && a.pages == others + PagesOf(m) && others !! PagesOf(m)
    ensures RemovedWord(a, m).pages == others <==>
            m.end < WORD - PAGE && (m.end % PAGE != 0 || m.end / PAGE !in others)
  {
    EndPage(m);
    if m.end < WORD - PAGE {
      RemovedPages(a, m, others);
    } else {
      NothingRemoved(a, m);
      assert m.start / PAGE in PagesOf(m);
    }
  }

  /** From the last page on, the end of the interval wraps and the loop does nothing. */
  lemma NothingRemoved(a: Space, m: Map)
    requires m.start < m.end && m.end >= WORD - PAGE
    ensures RemovedWord(a, m) == a
  {
    DivModUnique(m.end + PAGE, WORD, 1, m.end + PAGE - WORD);
    BelowIsPages(m.start / PAGE, 0);
    assert a.pages - {} == a.pages;
  }

  /** For a page-aligned map `size` ends a page short, or is left as it was at the last page. */
  lemma RemovedSize(a: Space, m: Map, others: set<nat>, base: int)
    requires Aligned(m) && m.start < m.end && Covers(a, m, others, base)
    ensures RemovedWord(a, m).size == if m.end < WORD - PAGE then base - PAGE else a.size
  {
    if m.end < WORD - PAGE {
      RemoveAgrees(a, m);
      AlignedPages(m, 0);
    } else {
      NothingRemoved(a, m);
    }
  }

  /** Of two adjacent maps, removing the first unmaps the first page of the second. */
  lemma RemoveTakesNeighbour()
    ensures RemovedWord(Space(0, 65536, {1, 2}, 8192), Map(4096, 8192)) == Space(0, 65536, {}, 0)
  {
    RemoveAgrees(Space(0, 65536, {1, 2}, 8192), Map(4096, 8192));
    assert Span(4096, 8192) == {1, 2};
    assert {1, 2} - {1, 2} == {};
  }

  /** Removing a map that ends at the last page unmaps nothing. */
  lemma RemoveKeepsLast(a: Space)
    ensures RemovedWord(a, Map(0xFFFF_E000, 0xFFFF_F000)) == a
  {
    NothingRemoved(a, Map(0xFFFF_E000, 0xFFFF_F000));
  }

  // ------------------------------------------------------------------- runs

  datatype Change = Enlarge(incr: Word) | Shrink(decr: Word)

  ghost function Resize(a: Space, m: Map, op: Change): Ending<(Space, Map)> {
    match op
    case Enlarge(incr) => EnlargedWord(a, m, incr)
    case Shrink(decr) => ShrunkWord(a, m, decr)
  }

  /** Growing and shrinking one map, up to the call that does not return if there is one. */
  ghost function ResizeAll(a: Space, m: Map, ops: seq<Change>): Ending<(Space, Map)>
    decreases |ops|
  {
    if ops == [] then Returns((a, m))
    else
      match Resize(a, m, ops[0])
      case Returns((b, n)) => ResizeAll(b, n, ops[1..])
      case Stops => Stops
      case Spins => Spins
  }

  /** Growth does not pass 2^32, and shrinking is by whole pages of the map. */
  predicate ByPages(m: Map, op: Change) {
    match op
    case Enlarge(incr) => m.end + RoundUp(incr) < WORD
    case Shrink(decr) => decr <= m.end - m.start && decr % PAGE == 0
  }

  ghost predicate AllByPages(a: Space, m: Map, ops: seq<Change>)
    decreases |ops|
  {
    ops != [] ==>
      ByPages(m, ops[0]) &&
      match Resize(a, m, ops[0])
      case Returns((b, n)) => AllByPages(b, n, ops[1..])
      case _ => true
  }

  /** A page-aligned map with room above it, and no page but its own changed. */
  ghost predicate InOrder(a: Space, m: Map, others: set<nat>, base: int) {
    Aligned(m) && Covers(a, m, others, base) && RoomAbove(m.start, a.limit, others)
  }

  lemma AlignedGrowth(m: Map, incr: Word)
    requires Aligned(m) && m.end + RoundUp(incr) < WORD
    ensures m.end + RoundUp(incr) <= WORD - PAGE
  {
    var e: Word := m.end + RoundUp(incr);
    assert e == PAGE * (m.end / PAGE + RoundUp(incr) / PAGE);
    LastPage(e);
  }

  lemma ResizeCovers(a: Space, m: Map, op: Change, others: set<nat>, base: int)
    requires InOrder(a, m, others, base) && ByPages(m, op)
    ensures !Resize(a, m, op).Spins?
    ensures Resize(a, m, op).Returns? ==>
              var (b, n) := Resize(a, m, op).value; InOrder(b, n, others, base) && n.start == m.start
  {
    match op
    case Enlarge(incr) =>
      AlignedGrowth(m, incr);
      EnlargeAgrees(a, m, incr);
      if Enlarged(a, m, incr).Returns? {
        var (b, n) := Enlarged(a, m, incr).value;
        EnlargeCovers(a, m, incr, others, base, b, n);
      }
    case Shrink(decr) =>
      AlignedEnd(m);
      ShrinkAgrees(a, m, decr);
      if Shrunk(a, m, decr).Returns? {
        var (b, n) := Shrunk(a, m, decr).value;
        ShrinkCovers(a, m, decr, others, base, b, n);
      }
  }

  /** However a page-aligned map grows and shrinks by whole pages, every call returns or stops, the
      pages mapped for it are those of `[start, end)`, no other page changes, and `size` follows. */
  lemma {:induction false} RunCovers(a: Space, m: Map, ops: seq<Change>, others: set<nat>, base: int)
    requires InOrder(a, m, others, base) && AllByPages(a, m, ops)
    ensures !ResizeAll(a, m, ops).Spins?
    ensures ResizeAll(a, m, ops).Returns? ==>
              var (b, n) := ResizeAll(a, m, ops).value; InOrder(b, n, others, base) && n.start == m.start
    decreases |ops|
  {
    if ops != [] {
      ResizeCovers(a, m, ops[0], others, base);
      if Resize(a, m, ops[0]).Returns? {
        var (b, n) := Resize(a, m, ops[0]).value;
        RunCovers(b, n, ops[1..], others, base);
      }
    }
  }

  // ---------------------------------------------------------------- in place

  class MemoryMap {
    const start: Word
    var end: Word

    constructor (start: Word)
      ensures this.start == start && end == start
    {
      this.start, end := start, start;
    }

    ghost function View(): Map
      reads this
    {
      Map(start, end)
    }
  }

  class AddressSpace {
    const start: Word
    const limit: Word
    var pages: set<nat>
    var size: int

    constructor (start: Word, limit: Word, pages: set<nat>)
      ensures View() == Space(start, limit, pages, 0)
    {
      this.start, this.limit, this.pages, size := start, limit, pages, 0;
    }

    ghost function View(): Space
      reads this
    {
      Space(start, limit, pages, size)
    }

    /** `arch_mmap`, vmm.c:36-84.  `ok` is false where its assertion fails. */
    method Mmap(address: Word, length: Word) returns (ok: bool)
      requires MmapWord(View(), address, length) != Spins
      modifies this
      ensures MmapWord(old(View()), address, length) == if ok then Returns(View()) else Stops
      ensures !ok ==> View() == old(View())
    {
      if length == 0 { return false; }
      ghost var first, last := address / PAGE, Wrap(address + length) / PAGE;
      ghost var k := first;
      var s: Word, e: Word := PageBase(address), PageBase(Wrap(address + length));
      assert e == PAGE * last;
      while s <= e
        invariant s == PAGE * k && first <= k && (k <= last + 1 || k == first)
        invariant pages == old(pages) + Below(first, k)
        invariant size == old(size) + PAGE * (k - first)
        decreases last + 1 - k
      {
        BelowNext(first, k);
        assert s / PAGE == k;
        WrapWord(s + PAGE);
        pages := pages + {s / PAGE};
        size := size + PAGE;
        s, k := Wrap(s + PAGE), k + 1;
      }
      AllMmapped(old(View()), address, length, k, View());
      return true;
    }

    /** `arch_munmap`, vmm.c:86-106. */
    method Munmap(address: Word, length: Word) returns (ok: bool)
      modifies this
      ensures MunmapWord(old(View()), address, length) == if ok then Returns(View()) else Stops
      ensures !ok ==> View() == old(View())
    {
      if length == 0 { return false; }
      ghost var first, past := address / PAGE, Wrap(address + length + PAGE) / PAGE;
      ghost var k := first;
      var s: Word, e: Word := PageBase(address), PageBase(Wrap(address + length + PAGE));
      assert e == PAGE * past;
      while s < e
        invariant s == PAGE * k && first <= k && (k <= past || k == first)
        invariant pages == old(pages) - Below(first, k)
        invariant size == old(size) - PAGE * (k - first)
        decreases past - k
      {
        BelowNext(first, k);
        assert s / PAGE == k;
        WrapWord(s + PAGE);
        pages := pages - {s / PAGE};
        size := size - PAGE;
        s, k := Wrap(s + PAGE), k + 1;
      }
      AllMunmapped(old(View()), address, length, k, View());
      return true;
    }

    /** `aspace_enlarge_map`, aspace.c:115-139.  `ok` is false where the kernel stops; for a map that
        ends at zero that is after mapping its pages. */
    method EnlargeMap(mapping: MemoryMap, incr: Word) returns (ok: bool)
      requires EnlargedWord(View(), mapping.View(), incr) != Spins
      modifies this, mapping
      ensures EnlargedWord(old(View()), old(mapping.View()), incr)
           == if ok then Returns((View(), mapping.View())) else Stops
      ensures !ok ==> mapping.View() == old(mapping.View())
      ensures !ok ==> View() == if incr != 0 && PageUp(incr) <= limit && old(mapping.end) == 0
                                then Mmapped(old(View()), 0, Wrap(PageUp(incr) - 1)) else old(View())
    {
      if incr == 0 { return false; }
      WholePages(incr);
      ok := EnlargeBy(mapping, PageUp(incr));
    }

    method EnlargeBy(mapping: MemoryMap, n: Word) returns (ok: bool)
      requires n != 1 && EnlargedByWord(View(), mapping.View(), n) != Spins
      modifies this, mapping
      ensures EnlargedByWord(old(View()), old(mapping.View()), n)
           == if ok then Returns((View(), mapping.View())) else Stops
      ensures !ok ==> mapping.View() == old(mapping.View())
      ensures !ok ==> View() == if n <= limit && old(mapping.end) == 0
                                then Mmapped(old(View()), 0, Wrap(n - 1)) else old(View())
    {
      OneLess(n);
      var end := Wrap(mapping.end + n);
      if end > limit { return false; }
      ok := Mmap(mapping.end, Wrap(n - 1));
      if mapping.end == 0 { return false; }
      mapping.end := end;
    }

    /** `aspace_shrink_map`, aspace.c:142-161. */
    method ShrinkMap(mapping: MemoryMap, decr: Word) returns (ok: bool)
      modifies this, mapping
      ensures ShrunkWord(old(View()), old(mapping.View()), decr)
           == if ok then Returns((View(), mapping.View())) else Stops
      ensures !ok ==> View() == old(View()) && mapping.View() == old(mapping.View())
    {
      if decr == 0 || Wrap(mapping.end - decr) < start { return false; }
      ok := Munmap(Wrap(mapping.end - decr), decr - 1);
      if !ok { return; }
      mapping.end := Wrap(mapping.end - decr);
    }

    method Step(mapping: MemoryMap, op: Change) returns (ok: bool)
      requires Resize(View(), mapping.View(), op) != Spins
      modifies this, mapping
      ensures Resize(old(View()), old(mapping.View()), op) == if ok then Returns((View(), mapping.View())) else Stops
    {
      match op
      case Enlarge(incr) => ok := EnlargeMap(mapping, incr);
      case Shrink(decr) => ok := ShrinkMap(mapping, decr);
    }

    /** Growing and shrinking a map by whole pages, in place, until a call stops the kernel: none spins,
        and the map stays covered. */
    method Execute(mapping: MemoryMap, ops: seq<Change>, ghost others: set<nat>, ghost base: int) returns (ok: bool)
      requires InOrder(View(), mapping.View(), others, base) && AllByPages(View(), mapping.View(), ops)
      modifies this, mapping
      ensures ResizeAll(old(View()), old(mapping.View()), ops) == if ok then Returns((View(), mapping.View())) else Stops
      ensures ok ==> InOrder(View(), mapping.View(), others, base)
    {
      ghost var whole := ResizeAll(View(), mapping.View(), ops);
      assert ops[0..] == ops;
      for i := 0 to |ops|
        invariant InOrder(View(), mapping.View(), others, base)
        invariant AllByPages(View(), mapping.View(), ops[i..])
        invariant whole == ResizeAll(View(), mapping.View(), ops[i..])
      {
        assert ops[i..][0] == ops[i] && ops[i..][1..] == ops[i + 1..];
        ResizeCovers(View(), mapping.View(), ops[i], others, base);
        ok := Step(mapping, ops[i]);
        if !ok { return; }
      }
      return true;
    }

    /** The end of `aspace_remove_map`, aspace.c:264-265. */
    method DropPages(mapping: MemoryMap)
      modifies this
      ensures View() == RemovedWord(old(View()), mapping.View())
    {
      if mapping.end > mapping.start {
        var ok := Munmap(mapping.start, mapping.end - mapping.start);
      }
    }
  }
}
