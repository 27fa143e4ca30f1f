/** The physical page allocator as functions on values: the set of pages whose bit is set and the
    `used` counter.

    Pages are 4096 bytes.  The bitmap has one bit per page but only whole 32-bit words, so pages
    beyond the last whole word have none. */
module PageSet {
  import opened Bits
  import opened Outcomes

  const PAGE := 4096

  /** `words` is the length of the bitmap, `size` the bytes of memory. */
  datatype Memory = Memory(words: nat, size: nat, taken: set<nat>, used: int)

  function Words(size: nat): nat {
    size / PAGE / 32
  }

  function Empty(size: nat): Memory {
    Memory(Words(size), size, {}, 0)
  }

  /** The pages from that of address `start` to that of address `end`, both included. */
  function Span(start: nat, end: nat): set<nat> {
    Pages(start / PAGE, end / PAGE)
  }

  function Pages(lo: nat, hi: nat): (ps: set<nat>)
    ensures forall p: nat :: p in ps <==> lo <= p <= hi
  {
    set p: nat | p <= hi && AtLeast(p, lo)
  }

  predicate AtLeast(p: nat, lo: nat) {
    lo <= p
  }

  /** The pages of `lo..hi`, the last one left out. */
  ghost function Below(lo: nat, hi: nat): set<nat> {
    set p: nat | p < hi && AtLeast(p, lo)
  }

  lemma BelowNext(lo: nat, hi: nat)
    requires lo <= hi
    ensures Below(lo, hi + 1) == Below(lo, hi) + {hi}
  {
  }

  /** What a claim and an unclaim add to `used`, in unsigned arithmetic. */
  function Bytes(start: nat, end: nat): nat {
    Wrap((end / PAGE - start / PAGE) * PAGE)
  }

  function Claim(m: Memory, start: nat, end: nat): Memory {
    if end > m.size then m
    else m.(taken := m.taken + Span(start, end), used := m.used + Bytes(start, end))
  }

  function Unclaim(m: Memory, start: nat, end: nat): Memory {
    if end > m.size then m
    else m.(taken := m.taken - Span(start, end), used := m.used + Bytes(start, end))
  }

  /** The lowest free page of `lo..hi`. */
  function LowestFree(taken: set<nat>, lo: nat, hi: nat): (r: Option<nat>)
    ensures r.Some? ==> lo <= r.value < hi && r.value !in taken && forall q | lo <= q < r.value :: q in taken
    ensures r.None? ==> forall q | lo <= q < hi :: q in taken
    decreases hi - lo
  {
    if lo >= hi then None
    else if lo !in taken then Some(lo)
    else LowestFree(taken, lo + 1, hi)
  }

  /** The lowest free page of the highest word, among the first `words`, that has one. */
  function HighestWordFree(taken: set<nat>, words: nat): (r: Option<nat>)
    ensures r.Some? ==> r.value < 32 * words && r.value !in taken
  {
    if words == 0 then None
    else
      var here := LowestFree(taken, 32 * (words - 1), 32 * words);
      if here.Some? then here else HighestWordFree(taken, words - 1)
  }

  ghost predicate AllTaken(taken: set<nat>, words: nat) {
    forall q: nat | q < 32 * words :: q in taken
  }

  /** (`== true` keeps the verifier from splitting a fact that most proofs only pass along.) */
  ghost predicate HighestChoice(taken: set<nat>, words: nat, p: nat) {
    FirstOfHighest(taken, words, p) == true
  }

  /** The page is free, all pages of higher words are taken, and all lower pages of its own. */
  ghost predicate FirstOfHighest(taken: set<nat>, words: nat, p: nat) {
    && p < 32 * words && p !in taken
    && (forall q: nat | p / 32 * 32 <= q < p :: q in taken)
    && (forall q: nat | (p / 32 + 1) * 32 <= q < 32 * words :: q in taken)
  }

  lemma {:induction false} HighestWordChoice(taken: set<nat>, words: nat)
    ensures HighestWordFree(taken, words).None? <==> AllTaken(taken, words)
    ensures HighestWordFree(taken, words).Some? ==> HighestChoice(taken, words, HighestWordFree(taken, words).value)
  {
    if words > 0 { HighestWordChoice(taken, words - 1); }
  }

  function Lowest(m: Memory): Option<nat> {
    LowestFree(m.taken, 0, 32 * m.words)
  }

  function FromEnd(m: Memory): Option<nat> {
    HighestWordFree(m.taken, m.words)
  }

  function Take(m: Memory, p: nat): Memory {
    m.(taken := m.taken + {p}, used := m.used + PAGE)
  }

  function Release(m: Memory, p: nat): Memory {
    m.(taken := m.taken - {p}, used := m.used - PAGE)
  }

  // ------------------------------------------------------------- accounting

  lemma {:induction false} PagesCount(lo: nat, hi: nat)
    ensures |Pages(lo, hi)| == if lo <= hi then hi - lo + 1 else 0
    decreases hi - lo
  {
    if lo > hi {
      assert Pages(lo, hi) == {};
    } else {
      PagesCount(lo + 1, hi);
      assert Pages(lo, hi) == {lo} + Pages(lo + 1, hi);
    }
  }

  lemma SpanBytes(start: Word, end: Word)
    ensures start / PAGE <= end / PAGE ==> Bytes(start, end) == (|Span(start, end)| - 1) * PAGE
    ensures start / PAGE > end / PAGE ==> Span(start, end) == {} && Bytes(start, end) > 0
  {
    var d: int := end / PAGE - start / PAGE;
    PagesCount(start / PAGE, end / PAGE);
    if start / PAGE > end / PAGE {
      assert -0x10_0000 < d < 0;
      assert Wrap(d * PAGE) == d * PAGE + 0x1_0000_0000;
    }
  }

  lemma Split(a: set<nat>, b: set<nat>)
    ensures |a| == |a - b| + |a * b|
  {
    assert a == (a - b) + (a * b);
    assert (a - b) !! (a * b);
  }

  /** A claim counts its interval one page short, so `used` follows the bits exactly when one page
      of the interval was set already. */
  lemma ClaimAccounting(m: Memory, start: Word, end: Word)
    requires end <= m.size
    ensures var r := Claim(m, start, end);
            r.used - m.used == PAGE * |r.taken - m.taken| <==> |Span(start, end) * m.taken| == 1
  {
    var s := Span(start, end);
    SpanBytes(start, end);
    Split(s, m.taken);
    assert Claim(m, start, end).taken - m.taken == s - m.taken;
    if s == {} { assert s * m.taken == {} && s - m.taken == {}; }
  }

  /** Claiming the first page of empty memory sets a bit and counts nothing. */
  lemma ClaimMiscounts()
    ensures var m := Empty(1_048_576);
            var r := Claim(m, 0, 4095);
            r.taken == {0} && r.used == m.used
  {
    PagesCount(0, 0);
    assert Span(0, 4095) == {0};
  }

  /** Unclaiming adds to `used` as well, so `used` follows the bits only where the interval is one
      page and its bit was clear, that is, where nothing is unclaimed. */
  lemma UnclaimAccounting(m: Memory, start: Word, end: Word)
    requires end <= m.size
    ensures var r := Unclaim(m, start, end);
            m.used - r.used == PAGE * |m.taken - r.taken|
            <==> start / PAGE == end / PAGE && end / PAGE !in m.taken
  {
    var s := Span(start, end);
    SpanBytes(start, end);
    PagesCount(start / PAGE, end / PAGE);
    var r := Unclaim(m, start, end);
    assert m.taken - r.taken == m.taken * s;
    if start / PAGE == end / PAGE {
      assert s == {end / PAGE};
      assert m.taken * s == if end / PAGE in m.taken then s else {};
    } else {
      assert Bytes(start, end) > 0;
    }
  }

  /** Unclaiming the two taken pages of a claim frees both and counts one more as used. */
  lemma UnclaimMiscounts()
    ensures var m := Claim(Empty(1_048_576), 0, 4096);
            var r := Unclaim(m, 0, 4096);
            m.taken == {0, 1} && r.taken == {} && r.used == m.used + PAGE
  {
    PagesCount(0, 1);
    assert Span(0, 4096) == {0, 1};
  }

  /** Claiming then unclaiming an interval that was free restores the pages, not the counter. */
  lemma UnclaimUndoesClaim(m: Memory, start: Word, end: Word)
    requires end <= m.size && Span(start, end) !! m.taken
    ensures var r := Unclaim(Claim(m, start, end), start, end);
            r.taken == m.taken && r.used == m.used + 2 * Bytes(start, end)
  {
  }

  // ------------------------------------------------------------------- boot

  /** An entry of the memory map. */
  datatype Region = Region(available: bool, address: nat, length: nat)

  predicate Skipped(r: Region, size: nat) {
    r.available || r.address + r.length > size
  }

  /** The claims `pmm_init` makes for the memory map. */
  function ClaimRegions(m: Memory, regions: seq<Region>): Memory
    decreases |regions|
  {
    if regions == [] then m
    else
      var r := regions[0];
      ClaimRegions(if Skipped(r, m.size) then m else Claim(m, r.address, r.address + r.length), regions[1..])
  }

  /** `top` is where the kernel ends in physical memory and the bitmap begins. */
  function Init(size: nat, regions: seq<Region>, top: nat): Memory {
    Claim(ClaimRegions(Empty(size), regions), 0, top + 4 * Words(size))
  }

  ghost predicate Holds(r: Region, size: nat, p: nat) {
    !Skipped(r, size) && r.address / PAGE <= p <= (r.address + r.length) / PAGE
  }

  lemma {:induction false} RegionsTaken(m: Memory, regions: seq<Region>, p: nat)
    ensures var r := ClaimRegions(m, regions);
            r.size == m.size && r.words == m.words
            && (p in r.taken <==> p in m.taken || exists i | 0 <= i < |regions| :: Holds(regions[i], m.size, p))
    decreases |regions|
  {
    if regions != [] {
      var r := regions[0];
      var next := if Skipped(r, m.size) then m else Claim(m, r.address, r.address + r.length);
      RegionsTaken(next, regions[1..], p);
      assert p in next.taken <==> p in m.taken || Holds(r, m.size, p);
      if i :| 0 <= i < |regions| && Holds(regions[i], m.size, p) {
        if i > 0 { assert regions[1..][i - 1] == regions[i]; }
      }
    }
  }

  /** After `pmm_init` a page is taken exactly if it is a page, the end page included, of an
      unavailable region that fits in memory or of the kernel and bitmap area. */
  lemma InitReserves(size: nat, regions: seq<Region>, top: nat, p: nat)
    requires top + 4 * Words(size) <= size
    ensures p in Init(size, regions, top).taken <==>
              p <= (top + 4 * Words(size)) / PAGE
              || exists i | 0 <= i < |regions| :: Holds(regions[i], size, p)
  {
    RegionsTaken(Empty(size), regions, p);
  }

  /** Every page that holds a byte of such a region, or of the kernel or the bitmap, is taken. */
  lemma ReservedBytesTaken(size: nat, regions: seq<Region>, top: nat, b: nat)
    requires top + 4 * Words(size) <= size
    requires b < top + 4 * Words(size)
             || exists i | 0 <= i < |regions| ::
                  !Skipped(regions[i], size) && regions[i].address <= b < regions[i].address + regions[i].length
    ensures b / PAGE in Init(size, regions, top).taken
  {
    InitReserves(size, regions, top, b / PAGE);
    if i :| 0 <= i < |regions| && !Skipped(regions[i], size)
            && regions[i].address <= b < regions[i].address + regions[i].length
    {
      assert Holds(regions[i], size, b / PAGE);
    }
  }

  // ------------------------------------------------------------------- runs

  datatype Op = Alloc | AllocFromEnd | Free(p: nat)

  datatype Event = Got(p: nat) | Freed(p: nat)

  /** `owned` are the blocks handed out and not freed since; `strays` counts frees of others. */
  datatype Ledger = Ledger(mem: Memory, owned: set<nat>, strays: nat)

  /** Blocks freed have a bit and are not reserved. */
  ghost predicate Allowed(s: Ledger, reserved: set<nat>, op: Op) {
    op.Free? ==> op.p < 32 * s.mem.words && op.p !in reserved
  }

  function Chosen(s: Ledger, op: Op): Option<nat>
    requires !op.Free?
  {
    if op.Alloc? then Lowest(s.mem) else FromEnd(s.mem)
  }

  /** One operation; `None` where the allocator finds no block and stops the kernel. */
  function Do(s: Ledger, op: Op): Option<(Ledger, Event)> {
    match op
    case Free(p) =>
      Some((Ledger(Release(s.mem, p), s.owned - {p}, if p in s.owned then s.strays else s.strays + 1), Freed(p)))
    case _ =>
      var p := Chosen(s, op);
      if p.None? then None else Some((s.(mem := Take(s.mem, p.value), owned := s.owned + {p.value}), Got(p.value)))
  }

  /** The ledger and the events of a run, up to the operation that stops the kernel if one does. */
  function Run(s: Ledger, ops: seq<Op>): (r: (Ledger, seq<Event>))
    ensures |r.1| <= |ops|
    decreases |ops|
  {
    if ops == [] || Do(s, ops[0]).None? then (s, [])
    else
      var (next, e) := Do(s, ops[0]).value;
      var (last, es) := Run(next, ops[1..]);
      (last, [e] + es)
  }

  ghost predicate AllAllowed(s: Ledger, reserved: set<nat>, ops: seq<Op>) {
    forall i | 0 <= i < |ops| :: Allowed(s, reserved, ops[i])
  }

  /** The bits set are those of reserved pages and of blocks in use, and `used` grew by a page for
      each block in use, less one for each stray free.  (`== true` keeps the verifier from splitting
      a fact that most proofs only pass along.) */
  ghost predicate Good(s: Ledger, reserved: set<nat>, base: int) {
    Balanced(s, reserved, base) == true
  }

  ghost predicate Balanced(s: Ledger, reserved: set<nat>, base: int) {
    && s.mem.taken == reserved + s.owned && reserved !! s.owned
    && s.mem.used == base + PAGE * (|s.owned| - s.strays)
    && forall p | p in s.owned :: p < 32 * s.mem.words
  }

  lemma FreeKeepsGood(s: Ledger, reserved: set<nat>, base: int, p: nat)
    requires Good(s, reserved, base) && p !in reserved
    ensures Good(Do(s, Free(p)).value.0, reserved, base)
  {
    assert s.mem.taken - {p} == reserved + (s.owned - {p});
    assert |s.owned - {p}| == if p in s.owned then |s.owned| - 1 else |s.owned| by {
      if p !in s.owned { assert s.owned - {p} == s.owned; }
    }
  }

  lemma TakeKeepsGood(s: Ledger, reserved: set<nat>, base: int, p: nat)
    requires Good(s, reserved, base) && p !in s.mem.taken && p < 32 * s.mem.words
    ensures Good(s.(mem := Take(s.mem, p), owned := s.owned + {p}), reserved, base)
  {
    var owned := s.owned + {p};
    assert s.mem.taken + {p} == reserved + owned;
    assert |owned| == |s.owned| + 1;
  }

  lemma DoKeepsGood(s: Ledger, reserved: set<nat>, base: int, op: Op)
    requires Good(s, reserved, base) && Allowed(s, reserved, op) && Do(s, op).Some?
    ensures var (r, e) := Do(s, op).value;
            Good(r, reserved, base) && r.mem.words == s.mem.words
            && Moves(s.owned, e, r.owned) && (e.Got? ==> e.p !in reserved && e.p < 32 * s.mem.words)
  {
    if op.Free? {
      FreeKeepsGood(s, reserved, base, op.p);
    } else {
      TakeKeepsGood(s, reserved, base, Chosen(s, op).value);
    }
  }

  /** What one operation of a run leaves for the rest of it. */
  lemma RunStep(s: Ledger, reserved: set<nat>, base: int, ops: seq<Op>, es: seq<Event>)
    returns (next: Ledger, e: Event, rest: seq<Event>)
    requires Good(s, reserved, base) && AllAllowed(s, reserved, ops) && es == Run(s, ops).1 && es != []
    ensures ops != [] && Run(s, ops).0 == Run(next, ops[1..]).0
    ensures e == es[0] && rest == es[1..] == Run(next, ops[1..]).1
    ensures Good(next, reserved, base) && AllAllowed(next, reserved, ops[1..]) && next.mem.words == s.mem.words
    ensures Moves(s.owned, e, next.owned) && (e.Got? ==> e.p !in reserved && e.p < 32 * s.mem.words)
  {
    next, e := Do(s, ops[0]).value.0, Do(s, ops[0]).value.1;
    rest := Run(next, ops[1..]).1;
    DoKeepsGood(s, reserved, base, ops[0]);
  }

  /** Whole runs keep this, so a block handed out was free, is not reserved, and has a bit. */
  lemma {:induction false} RunKeepsGood(s: Ledger, reserved: set<nat>, base: int, ops: seq<Op>)
    requires Good(s, reserved, base) && AllAllowed(s, reserved, ops)
    ensures Good(Run(s, ops).0, reserved, base)
    ensures forall e | e in Run(s, ops).1 && e.Got? :: e.p !in reserved && e.p < 32 * s.mem.words
    decreases |ops|
  {
    if Run(s, ops).1 != [] {
      var next, e, rest := RunStep(s, reserved, base, ops, Run(s, ops).1);
      RunKeepsGood(next, reserved, base, ops[1..]);
    }
  }

  /** What an event does to the blocks in use. */
  ghost predicate Moves(owned: set<nat>, e: Event, owned': set<nat>) {
    match e
    case Got(p) => p !in owned && owned' == owned + {p}
    case Freed(p) => owned' == owned - {p}
  }

  /** The blocks in use before each event and after the last. */
  ghost predicate Follows(owned: seq<set<nat>>, es: seq<Event>) {
    |owned| == |es| + 1 && forall i | 0 <= i < |es| :: Moves(owned[i], es[i], owned[i + 1])
  }

  lemma {:induction false} RunFollows(s: Ledger, reserved: set<nat>, base: int, ops: seq<Op>)
    returns (owned: seq<set<nat>>)
    requires Good(s, reserved, base) && AllAllowed(s, reserved, ops)
    ensures Follows(owned, Run(s, ops).1) && owned[0] == s.owned
    decreases |ops|
  {
    owned := [s.owned];
    var es := Run(s, ops).1;
    if es != [] {
      var next, e, rest := RunStep(s, reserved, base, ops, es);
      var later := RunFollows(next, reserved, base, ops[1..]);
      owned := [s.owned] + later;
      FollowsOne(s.owned, later, es, owned);
    }
  }

  lemma FollowsOne(first: set<nat>, later: seq<set<nat>>, es: seq<Event>, owned: seq<set<nat>>)
    requires es != [] && Follows(later, es[1..]) && Moves(first, es[0], later[0]) && owned == [first] + later
    ensures Follows(owned, es)
  {
    forall i | 0 <= i < |es| ensures Moves(owned[i], es[i], owned[i + 1]) {
      if i > 0 { assert Moves(later[i - 1], es[1..][i - 1], later[i]); }
    }
  }

  /** A block in use is handed out again only after it is freed. */
  lemma BetweenFreed(owned: seq<set<nat>>, es: seq<Event>, i: nat, j: nat) returns (k: nat)
    requires Follows(owned, es) && i < j < |es| && es[i].Got? && es[j] == es[i]
    ensures i < k < j && es[k] == Freed(es[i].p)
  {
    var p := es[i].p;
    assert Moves(owned[i], es[i], owned[i + 1]);
    k := i + 1;
    while k < j && es[k] != Freed(p)
      invariant i < k <= j && p in owned[k]
    {
      assert Moves(owned[k], es[k], owned[k + 1]);
      k := k + 1;
    }
    assert Moves(owned[k], es[k], owned[k + 1]);
  }

  /** The ledger right after `pmm_init`. */
  function Booted(size: nat, regions: seq<Region>, top: nat): Ledger {
    Ledger(Init(size, regions, top), {}, 0)
  }

  /** No block is handed out twice without a free of it in between. */
  ghost predicate FreedBetween(es: seq<Event>) {
    forall i, j | 0 <= i < j < |es| && es[i].Got? && es[j] == es[i] :: exists k :: i < k < j && es[k] == Freed(es[i].p)
  }

  lemma RunFreesBetween(s: Ledger, reserved: set<nat>, base: int, ops: seq<Op>)
    requires Good(s, reserved, base) && AllAllowed(s, reserved, ops)
    ensures FreedBetween(Run(s, ops).1)
  {
    var es := Run(s, ops).1;
    var owned := RunFollows(s, reserved, base, ops);
    forall i, j | 0 <= i < j < |es| && es[i].Got? && es[j] == es[i]
      ensures exists k :: i < k < j && es[k] == Freed(es[i].p)
    {
      var k := BetweenFreed(owned, es, i, j);
    }
  }

  /** After `pmm_init`, whatever allocations and frees follow: no block is handed out twice without
      a free of it in between, and none lies in a reserved region or in the kernel and bitmap area. */
  lemma PageSafety(size: nat, regions: seq<Region>, top: nat, ops: seq<Op>)
    requires var s := Booted(size, regions, top); AllAllowed(s, s.mem.taken, ops)
    ensures var s := Booted(size, regions, top);
            var es := Run(s, ops).1;
            && FreedBetween(es)
            && forall e | e in es && e.Got? :: e.p !in s.mem.taken && HasBit(size, e.p)
  {
    var s := Booted(size, regions, top);
    RegionsTaken(Empty(size), regions, 0);
    RunKeepsGood(s, s.mem.taken, s.mem.used, ops);
    RunFreesBetween(s, s.mem.taken, s.mem.used, ops);
  }

  /** `used` moves by one page per bit changed over a whole run exactly when every block freed was
      in use. */
  lemma RunAccounting(s: Ledger, reserved: set<nat>, ops: seq<Op>)
    requires Good(s, reserved, s.mem.used) && s.owned == {} && s.strays == 0 && AllAllowed(s, reserved, ops)
    ensures var r := Run(s, ops).0;
            r.mem.used - s.mem.used == PAGE * (|r.mem.taken| - |s.mem.taken|) <==> r.strays == 0
  {
    RunKeepsGood(s, reserved, s.mem.used, ops);
    var r := Run(s, ops).0;
    assert |r.mem.taken| == |reserved| + |r.owned|;
    assert s.mem.taken == reserved;
  }

  // ------------------------------------------------------ what the guards give

  predicate HasBit(size: nat, p: nat) {
    p < 32 * Words(size)
  }

  /** A claim that passes the size check stays inside the bitmap exactly if its end lies below the
      last whole word's pages; a claim up to the end of memory never does. */
  lemma ClaimGuard(size: nat, end: nat)
    ensures HasBit(size, end / PAGE) <==> end < 32 * Words(size) * PAGE
    ensures !HasBit(size, size / PAGE)
  {
    var w := Words(size);
    assert 32 * w * PAGE / PAGE == 32 * w;
  }

  /** The assertion of `pmm_free_block` admits only blocks that have a bit exactly if the pages of
      memory fill whole words. */
  lemma FreeGuard(size: nat)
    ensures (forall p: nat | p < size / PAGE :: HasBit(size, p)) <==> size / PAGE % 32 == 0
  {
    if size / PAGE % 32 != 0 {
      assert 32 * Words(size) < size / PAGE && !HasBit(size, 32 * Words(size));
    }
  }

  /** With 33 pages of memory the bitmap is one word: a claim of the last page passes the size check
      and a free of it passes the assertion, yet it has no bit. */
  lemma PageWithoutBit()
    ensures var size := 33 * PAGE;
            var r := Claim(Empty(size), 32 * PAGE, 32 * PAGE);
            r.taken == {32} && 32 < size / PAGE && !HasBit(size, 32)
  {
    PagesCount(32, 32);
    assert Span(32 * PAGE, 32 * PAGE) == {32};
  }
}
