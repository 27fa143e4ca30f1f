/** The page bitmap as the kernel keeps it, in 32-bit words changed bit by bit.  Each operation is
    proved against the page set of `PageSet`. */
module PageAllocator {
  import opened Bits
  import opened Outcomes
  import opened PageSet

  /** The pages whose bit is set. */
  ghost function Taken(ws: seq<Word>): (t: set<nat>)
    ensures forall p: nat | p < 32 * |ws| :: p in t <==> Bit(ws[p / 32], p % 32)
    ensures forall p | p in t :: p < 32 * |ws|
  {
    set p: nat | p < 32 * |ws| && Bit(ws[p / 32], p % 32)
  }

  lemma SetTaken(ws: seq<Word>, p: nat)
    requires p < 32 * |ws|
    ensures Taken(ws[p / 32 := SetBit(ws[p / 32], p % 32)]) == Taken(ws) + {p}
  {
    var r := ws[p / 32 := SetBit(ws[p / 32], p % 32)];
    forall q: nat | q < 32 * |ws| ensures q in Taken(r) <==> q in Taken(ws) + {p} {
      assert q == p <==> q / 32 == p / 32 && q % 32 == p % 32;
    }
  }

  lemma ClearTaken(ws: seq<Word>, p: nat)
    requires p < 32 * |ws|
    ensures Taken(ws[p / 32 := ClearBit(ws[p / 32], p % 32)]) == Taken(ws) - {p}
  {
    var r := ws[p / 32 := ClearBit(ws[p / 32], p % 32)];
    forall q: nat | q < 32 * |ws| ensures q in Taken(r) <==> q in Taken(ws) - {p} {
      assert q == p <==> q / 32 == p / 32 && q % 32 == p % 32;
    }
  }

  /** The lowest clear bit of a word that has one, pmm.c:95-105. */
  method LowestClear(w: Word) returns (j: nat)
    requires !Full(w)
    ensures j < 32 && !Bit(w, j) && forall i: nat | i < j :: Bit(w, i)
  {
    j := 0;
    while TestBit(w, j)
      invariant j < 32 && forall i: nat | i < j :: Bit(w, i)
      decreases 32 - j
    {
      TestIsBit(w, j);
      assert j == 31 ==> Full(w);
      j := j + 1;
    }
    TestIsBit(w, j);
  }

  class PhysicalMemory {
    const bitmap: array<Word>
    const size: nat
    var used: int

    ghost predicate Valid()
      reads this
    {
      bitmap.Length == Words(size)
    }

    ghost function View(): Memory
      reads this, bitmap
    {
      Memory(bitmap.Length, size, Taken(bitmap[..]), used)
    }

    /** `pmm_init_bitmap`, pmm.c:36-42. */
    constructor (size: nat)
      ensures Valid() && View() == Empty(size) && this.size == size && fresh(bitmap)
    {
      this.size, used := size, 0;
      bitmap := new Word[size / PAGE / 8 / 4](_ => 0);
      new;
      forall p: nat ensures !Bit(0, p % 32) { ZeroBit(p % 32); }
      assert Taken(bitmap[..]) == {};
    }

    method SetPage(p: nat)
      requires p < 32 * bitmap.Length
      modifies bitmap
      ensures View() == old(View()).(taken := old(View()).taken + {p})
    {
      SetTaken(bitmap[..], p);
      ghost var ws := bitmap[..];
      bitmap[p / 32] := SetBit(bitmap[p / 32], p % 32);
      assert bitmap[..] == ws[p / 32 := SetBit(ws[p / 32], p % 32)];
    }

    /** The bit and the counter, as both allocators set them. */
    method TakePage(p: nat)
      requires p < 32 * bitmap.Length
      modifies this, bitmap
      ensures View() == Take(old(View()), p)
      ensures View().taken == old(View()).taken + {p} && used == old(used) + PAGE
    {
      SetPage(p);
      used := used + PAGE;
    }

    method ClearPage(p: nat)
      requires p < 32 * bitmap.Length
      modifies bitmap
      ensures View() == old(View()).(taken := old(View()).taken - {p})
    {
      ClearTaken(bitmap[..], p);
      ghost var ws := bitmap[..];
      bitmap[p / 32] := ClearBit(bitmap[p / 32], p % 32);
      assert bitmap[..] == ws[p / 32 := ClearBit(ws[p / 32], p % 32)];
    }

    /** `pmm_claim`, pmm.c:45-62. */
    method ClaimInterval(start: Word, end: Word)
      requires end <= size ==> end / PAGE < 32 * bitmap.Length
      modifies this, bitmap
      ensures View() == Claim(old(View()), start, end)
      ensures end <= size ==>
                forall p: nat :: p in View().taken <==> p in old(View()).taken || start / PAGE <= p <= end / PAGE
    {
      if end > size { return; }
      var p: nat, last: nat := start / PAGE, end / PAGE;
      used := used + Wrap((last - p) * PAGE);
      while p <= last
        invariant start / PAGE <= p
        invariant p <= last + 1 || p == start / PAGE
        invariant View() == Claim(old(View()), start, end).(taken := old(View()).taken + Below(start / PAGE, p))
        decreases last - p
      {
        SetPage(p);
        p := p + 1;
      }
      assert Below(start / PAGE, p) == Span(start, end);
    }

    /** `pmm_unclaim`, pmm.c:65-81. */
    method UnclaimInterval(start: Word, end: Word)
      requires end <= size ==> end / PAGE < 32 * bitmap.Length
      modifies this, bitmap
      ensures View() == Unclaim(old(View()), start, end)
      ensures end <= size ==>
                forall p: nat :: p in View().taken <==> p in old(View()).taken && !(start / PAGE <= p <= end / PAGE)
    {
      if end > size { return; }
      var p: nat, last: nat := start / PAGE, end / PAGE;
      used := used + Wrap((last - p) * PAGE);
      while p <= last
        invariant start / PAGE <= p
        invariant p <= last + 1 || p == start / PAGE
        invariant View() == Unclaim(old(View()), start, end).(taken := old(View()).taken - Below(start / PAGE, p))
        decreases last - p
      {
        ClearPage(p);
        p := p + 1;
      }
      assert Below(start / PAGE, p) == Span(start, end);
    }

    /** `pmm_alloc_block`, pmm.c:83-114: the lowest page that is not taken, which then is.  `None`, where
        the assertion at its end fails, exactly if every page is. */
    method AllocBlock() returns (block: Option<nat>)
      modifies this, bitmap
      ensures block == Lowest(old(View()))
      ensures View() == if block.None? then old(View()) else Take(old(View()), block.value)
      ensures block.None? <==> AllTaken(old(View()).taken, bitmap.Length)
      ensures block.Some? ==>
                && block.value < 32 * bitmap.Length && block.value !in old(View()).taken
                && (forall q: nat | q < block.value :: q in old(View()).taken)
                && View().taken == old(View()).taken + {block.value} && used == old(used) + PAGE
    {
      var i := 0;
      while i < bitmap.Length
        invariant i <= bitmap.Length
        invariant forall q: nat | q < 32 * i :: q in Taken(bitmap[..])
        invariant View() == old(View())
      {
        FullWord(bitmap[i]);
        if bitmap[i] != 0xFFFF_FFFF {
          var j := LowestClear(bitmap[i]);
          LowestPage(bitmap[..], i, j);
          TakePage(32 * i + j);
          return Some(32 * i + j);
        }
        i := i + 1;
      }
      return None;
    }

    /** `pmm_alloc_block_from_end`, pmm.c:117-148: the lowest free page of the highest word that has one. */
    method AllocBlockFromEnd() returns (block: Option<nat>)
      modifies this, bitmap
      ensures block == FromEnd(old(View()))
      ensures View() == if block.None? then old(View()) else Take(old(View()), block.value)
      ensures block.None? <==> AllTaken(old(View()).taken, bitmap.Length)
      ensures block.Some? ==>
                && HighestChoice(old(View()).taken, bitmap.Length, block.value)
                && View().taken == old(View()).taken + {block.value} && used == old(used) + PAGE
    {
      block := SearchFromEnd();
      HighestWordChoice(View().taken, bitmap.Length);
      if block.Some? { TakePage(block.value); }
    }

    /** Its search, from the last word down, pmm.c:122-140. */
    method SearchFromEnd() returns (block: Option<nat>)
      ensures block == HighestWordFree(View().taken, bitmap.Length)
    {
      ghost var ws := bitmap[..];
      var i := bitmap.Length - 1;
      while i >= 0
        invariant -1 <= i < bitmap.Length
        invariant HighestWordFree(Taken(ws), |ws|) == HighestWordFree(Taken(ws), i + 1)
      {
        FullWord(bitmap[i]);
        if bitmap[i] != 0xFFFF_FFFF {
          var j := LowestClear(bitmap[i]);
          HighestFound(ws, i, j);
          return Some(32 * i + j);
        }
        HighestFull(ws, i);
        i := i - 1;
      }
      return None;
    }

    /** `pmm_free_block`, pmm.c:151-162.  `ok` is false where one of its assertions fails. */
    method FreeBlock(p: int) returns (ok: bool)
      requires 0 <= p < size / PAGE ==> p < 32 * bitmap.Length
      modifies this, bitmap
      ensures ok <==> 0 <= p < size / PAGE
      ensures View() == if ok then Release(old(View()), p) else old(View())
      ensures ok ==> View().taken == old(View()).taken - {p} && used == old(used) - PAGE
    {
      if p == -1 || p < 0 || p >= size / PAGE { return false; }
      ClearPage(p);
      used := used - PAGE;
      return true;
    }

    /** Allocations and frees one after another, in place, until one stops the kernel. */
    method Execute(ops: seq<Op>, ghost owned: set<nat>) returns (es: seq<Event>)
      requires Valid() && forall i | 0 <= i < |ops| && ops[i].Free? :: ops[i].p < 32 * bitmap.Length
      modifies this, bitmap
      ensures es == Run(Ledger(old(View()), owned, 0), ops).1
    {
      ghost var s := Ledger(View(), owned, 0);
      ghost var whole := Run(s, ops).1;
      es := [];
      assert ops[0..] == ops && [] + whole == whole;
      for i := 0 to |ops|
        invariant s.mem == View() && whole == es + Run(s, ops[i..]).1
      {
        RunFrom(s, ops, i, es);
        var e := Step(ops[i], s);
        if e.None? { return; }
        es, s := es + [e.value], Do(s, ops[i]).value.0;
      }
      assert es + [] == es;
    }

    /** One of them, as the ledger records it; `None` where the kernel stops. */
    method Step(op: Op, ghost s: Ledger) returns (e: Option<Event>)
      requires Valid() && s.mem == View() && (op.Free? ==> op.p < 32 * bitmap.Length)
      modifies this, bitmap
      ensures e.None? <==> Do(s, op).None?
      ensures e.Some? ==> Do(s, op).value.1 == e.value && Do(s, op).value.0.mem == View()
    {
      match op
      case Alloc =>
        var p := AllocBlock();
        return if p.None? then None else Some(Got(p.value));
      case AllocFromEnd =>
        var p := AllocBlockFromEnd();
        return if p.None? then None else Some(Got(p.value));
      case Free(p) =>
        var ok := FreeBlock(p);
        return Some(Freed(p));
    }

    /** One round of the loop over the memory map, pmm.c:170-183. */
    method ClaimRegion(r: Region)
      requires Valid() && size < WORD && (!Skipped(r, size) ==> HasBit(size, (r.address + r.length) / PAGE))
      modifies this, bitmap
      ensures View() == if Skipped(r, size) then old(View()) else Claim(old(View()), r.address, r.address + r.length)
    {
      if !r.available && r.address <= size && r.address + r.length <= size {
        ClaimInterval(r.address, r.address + r.length);
      }
    }

    /** The claims of `pmm_init`, pmm.c:170-187. */
    method ClaimReserved(regions: seq<Region>, top: nat)
      requires Valid() && size < WORD && top + 4 * Words(size) < WORD
      requires forall r | r in regions && !Skipped(r, size) :: HasBit(size, (r.address + r.length) / PAGE)
      requires top + 4 * Words(size) <= size ==> HasBit(size, (top + 4 * Words(size)) / PAGE)
      requires View() == Empty(size)
      modifies this, bitmap
      ensures View() == Init(size, regions, top)
    {
      var i := 0;
      while i < |regions|
        invariant i <= |regions|
        invariant ClaimRegions(View(), regions[i..]) == ClaimRegions(old(View()), regions)
      {
        assert regions[i..][0] == regions[i] && regions[i..][1..] == regions[i + 1..];
        ClaimRegion(regions[i]);
        i := i + 1;
      }
      ClaimInterval(0, top + 4 * bitmap.Length);
    }
  }

  lemma RunFrom(s: Ledger, ops: seq<Op>, i: nat, es: seq<Event>)
    requires i < |ops|
    ensures es + Run(s, ops[i..]).1 ==
            if Do(s, ops[i]).None? then es
            else es + [Do(s, ops[i]).value.1] + Run(Do(s, ops[i]).value.0, ops[i + 1..]).1
  {
    assert ops[i..][0] == ops[i] && ops[i..][1..] == ops[i + 1..];
    if Do(s, ops[i]).Some? {
      var (next, e) := Do(s, ops[i]).value;
      assert es + ([e] + Run(next, ops[i + 1..]).1) == es + [e] + Run(next, ops[i + 1..]).1;
    }
  }

  /** `pmm_init` and then any allocations and frees of blocks that are not reserved: no block is handed
      out twice without a free in between, and none is reserved. */
  method BootAndAllocate(size: nat, regions: seq<Region>, top: nat, ops: seq<Op>) returns (es: seq<Event>)
    requires size < WORD && top + 4 * Words(size) < WORD
    requires forall r | r in regions && !Skipped(r, size) :: HasBit(size, (r.address + r.length) / PAGE)
    requires top + 4 * Words(size) <= size ==> HasBit(size, (top + 4 * Words(size)) / PAGE)
    requires var s := Booted(size, regions, top); AllAllowed(s, s.mem.taken, ops)
    ensures FreedBetween(es)
    ensures forall e | e in es && e.Got? :: e.p !in Init(size, regions, top).taken && HasBit(size, e.p)
  {
    var memory := new PhysicalMemory(size);
    memory.ClaimReserved(regions, top);
    RegionsTaken(Empty(size), regions, 0);
    assert forall i | 0 <= i < |ops| :: Allowed(Booted(size, regions, top), Init(size, regions, top).taken, ops[i]);
    es := memory.Execute(ops, {});
    PageSafety(size, regions, top, ops);
  }

  lemma LowestPage(ws: seq<Word>, i: nat, j: nat)
    requires i < |ws| && j < 32 && !Bit(ws[i], j) && forall k: nat | k < j :: Bit(ws[i], k)
    requires forall q: nat | q < 32 * i :: q in Taken(ws)
    ensures LowestFree(Taken(ws), 0, 32 * |ws|) == Some(32 * i + j)
  {
    WordPage(ws, i, j);
    SkipTaken(Taken(ws), 0, 32 * i, 32 * |ws|);
    LongerSearch(Taken(ws), 32 * i, 32 * i + 32, 32 * |ws|);
  }

  /** Pages known to be taken can be passed over. */
  lemma {:induction false} SkipTaken(taken: set<nat>, lo: nat, mid: nat, hi: nat)
    requires lo <= mid <= hi && forall q: nat | lo <= q < mid :: q in taken
    ensures LowestFree(taken, lo, hi) == LowestFree(taken, mid, hi)
    decreases mid - lo
  {
    if lo < mid { SkipTaken(taken, lo + 1, mid, hi); }
  }

  lemma {:induction false} LongerSearch(taken: set<nat>, lo: nat, mid: nat, hi: nat)
    requires lo <= mid <= hi && LowestFree(taken, lo, mid).Some?
    ensures LowestFree(taken, lo, hi) == LowestFree(taken, lo, mid)
    decreases mid - lo
  {
    if lo < mid && lo in taken { LongerSearch(taken, lo + 1, mid, hi); }
  }

  lemma PageInWord(ws: seq<Word>, i: nat, j: nat)
    requires i < |ws| && j < 32
    ensures 32 * i + j in Taken(ws) <==> Bit(ws[i], j)
  {
    assert (32 * i + j) / 32 == i && (32 * i + j) % 32 == j;
  }

  lemma WordPage(ws: seq<Word>, i: nat, j: nat)
    requires i < |ws| && j < 32 && !Bit(ws[i], j) && forall k: nat | k < j :: Bit(ws[i], k)
    ensures LowestFree(Taken(ws), 32 * i, 32 * i + 32) == Some(32 * i + j)
  {
    forall q: nat | 32 * i <= q < 32 * i + j ensures q in Taken(ws) {
      PageInWord(ws, i, q - 32 * i);
    }
    PageInWord(ws, i, j);
    SkipTaken(Taken(ws), 32 * i, 32 * i + j, 32 * i + 32);
  }

  lemma HighestFound(ws: seq<Word>, i: nat, j: nat)
    requires i < |ws| && j < 32 && !Bit(ws[i], j) && forall k: nat | k < j :: Bit(ws[i], k)
    ensures HighestWordFree(Taken(ws), i + 1) == Some(32 * i + j)
  {
    WordPage(ws, i, j);
  }

  lemma HighestFull(ws: seq<Word>, i: nat)
    requires i < |ws| && Full(ws[i])
    ensures HighestWordFree(Taken(ws), i + 1) == HighestWordFree(Taken(ws), i)
    ensures forall q: nat | 32 * i <= q < 32 * i + 32 :: q in Taken(ws)
  {
    forall q: nat | 32 * i <= q < 32 * i + 32 ensures q in Taken(ws) {
      assert q / 32 == i && Bit(ws[i], q % 32);
    }
  }
}
