/** The layout and copy loops of `module_init`: every SHF_ALLOC section gets an aligned offset in
    the module's core image, and is then filled from the file or with zeros. */
module SectionLayout {
  import opened Bits
  import opened Outcomes

  // System V gABI, chapter 4, "Sections".
  const SHT_PROGBITS := 1
  const SHT_SYMTAB := 2
  const SHT_DYNAMIC := 6
  const SHT_NOBITS := 8
  const SHT_DYNSYM := 11

  /** A section header and, for SHT_PROGBITS, the bytes at its file offset. */
  datatype Section = Section(kind: nat, alloc: bool, align: Word, size: Word, addr: nat, data: seq<Byte>)

  ghost predicate PowerOfTwo(a: nat) {
    exists k: nat :: k < 32 && a == Pow2(k)
  }

  /** The gABI allows alignments that are zero or a power of two. */
  ghost predicate GoodAlignments(ss: seq<Section>) {
    forall j | 0 <= j < |ss| && ss[j].alloc :: ss[j].align == 0 || PowerOfTwo(ss[j].align)
  }

  /** SHT_PROGBITS sections come with their bytes. */
  predicate HasData(s: Section) {
    s.kind == SHT_PROGBITS ==> |s.data| == s.size
  }

  // ------------------------------------------------------- reference layout

  /** The least multiple of `a` at or above `x`; `x` itself when `a` is zero. */
  function AlignUp(x: nat, a: nat): (r: nat)
    ensures x <= r
    ensures a > 0 ==> r % a == 0 && r < x + a
  {
    if a == 0 then x else RoundDown(x + a - 1, a)
  }

  /** The size of the core after sections 1 to k-1, and the offset section k gets.
      Section 0 is the reserved null section and takes no part. */
  function End(ss: seq<Section>, k: nat): nat
    requires k <= |ss|
    decreases k, 0
  {
    if k <= 1 then 0
    else if ss[k - 1].alloc then Start(ss, k - 1) + ss[k - 1].size
    else End(ss, k - 1)
  }

  function Start(ss: seq<Section>, k: nat): nat
    requires k < |ss|
    decreases k, 1
  {
    AlignUp(End(ss, k), ss[k].align)
  }

  lemma {:induction false} EndMonotone(ss: seq<Section>, j: nat, k: nat)
    requires j <= k <= |ss|
    ensures End(ss, j) <= End(ss, k)
    decreases k
  {
    if j < k { EndMonotone(ss, j, k - 1); }
  }

  predicate Allocated(ss: seq<Section>, j: nat) {
    1 <= j < |ss| && ss[j].alloc
  }

  ghost predicate Apart(a: nat, n: nat, b: nat, m: nat) {
    a + n <= b || b + m <= a
  }

  /** Offsets are aligned, inside the core and pairwise disjoint. */
  lemma LayoutCorrect(ss: seq<Section>)
    ensures forall j: nat | Allocated(ss, j) ::
              && (ss[j].align > 0 ==> Start(ss, j) % ss[j].align == 0)
              && Start(ss, j) + ss[j].size <= End(ss, |ss|)
    ensures forall i: nat, j: nat | Allocated(ss, i) && Allocated(ss, j) && i != j ::
              Apart(Start(ss, i), ss[i].size, Start(ss, j), ss[j].size)
  {
    forall j: nat | Allocated(ss, j) ensures Start(ss, j) + ss[j].size <= End(ss, |ss|) {
      EndMonotone(ss, j + 1, |ss|);
    }
    forall i: nat, j: nat | Allocated(ss, i) && Allocated(ss, j) && i != j
      ensures Apart(Start(ss, i), ss[i].size, Start(ss, j), ss[j].size)
    {
      EndMonotone(ss, if i < j then i + 1 else j + 1, if i < j then j else i);
    }
  }

  /** Nothing smaller would do: an offset is the first aligned one after the previous section. */
  lemma AlignUpLeast(x: nat, a: nat, y: nat)
    requires x <= y && a > 0 && y % a == 0
    ensures AlignUp(x, a) <= y
  {
    var r := AlignUp(x, a);
    if y < r {
      assert y + a > r;
      DivModUnique(r, a, y / a, r - y) by {
        assert y == y / a * a;
      }
      assert false;
    }
  }

  /** The section headers after the layout loop. */
  function Placed(ss: seq<Section>): (ps: seq<Section>)
    ensures |ps| == |ss|
    ensures forall j | 0 <= j < |ss| :: ps[j] == if Allocated(ss, j) then ss[j].(addr := Start(ss, j)) else ss[j]
  {
    seq(|ss|, j requires 0 <= j < |ss| => if Allocated(ss, j) then ss[j].(addr := Start(ss, j)) else ss[j])
  }

  // ------------------------------------------------------------ layout loop

  /** The offset expression of the loop, in 32-bit arithmetic. */
  function MaskUp(x: Word, a: Word): Word {
    if a == 0 then x
    else
      AndBound(Wrap(x + a - 1), Not(a - 1));
      And(Wrap(x + a - 1), Not(a - 1))
  }

  /** `(x + a - 1) & ~(a - 1)` is `AlignUp`, or wraps to zero where that is not a word. */
  lemma MaskAlignsUp(x: Word, a: Word)
    requires a == 0 || PowerOfTwo(a)
    ensures AlignUp(x, a) <= WORD
    ensures MaskUp(x, a) == if AlignUp(x, a) < WORD then AlignUp(x, a) else 0
  {
    if a > 0 {
      var k: nat :| k < 32 && a == Pow2(k);
      WordIsMultiple(k);
      AlignUpLeast(x, a, WORD);
      MaskRoundsDown(Wrap(x + a - 1), k);
      if AlignUp(x, a) < WORD { AlignStays(x, a); } else { AlignWraps(x, a); }
    }
  }

  lemma MaskUpAligned(x: Word, a: Word)
    requires PowerOfTwo(a)
    ensures a > 0 && MaskUp(x, a) % a == 0
  {
    PowerIsWord(a);
    MaskAlignsUp(x, a);
    DivModUnique(0, a, 0, 0);
  }

  lemma WordIsMultiple(k: nat)
    requires k < 32
    ensures WORD % Pow2(k) == 0
  {
    WordIsPow2();
    PowerDivides(k, 32);
  }

  lemma AlignStays(x: Word, a: Word)
    requires a > 0 && WORD % a == 0 && AlignUp(x, a) < WORD
    ensures Wrap(x + a - 1) == x + a - 1
  {
    NextMultiple(AlignUp(x, a), WORD, a);
  }

  lemma AlignWraps(x: Word, a: Word)
    requires a > 0 && x + a - 1 >= WORD
    ensures RoundDown(Wrap(x + a - 1), a) == 0
  {
    var y := x + a - 1 - WORD;
    DivModUnique(x + a - 1, WORD, 1, y);
    DivModUnique(y, a, 0, y);
  }

  lemma {:induction false} PowerDivides(k: nat, n: nat)
    requires k <= n
    ensures Pow2(n) % Pow2(k) == 0
    decreases n
  {
    if k == n {
      DivModUnique(Pow2(n), Pow2(n), 1, 0);
    } else {
      PowerDivides(k, n - 1);
      var q := Pow2(n - 1) / Pow2(k);
      assert Pow2(n) == 2 * q * Pow2(k);
      DivModUnique(Pow2(n), Pow2(k), 2 * q, 0);
    }
  }

  lemma PowerIsWord(a: nat)
    requires PowerOfTwo(a)
    ensures 0 < a < WORD
  {
    var k: nat :| k < 32 && a == Pow2(k);
    ShiftIsWord(k);
  }

  /** Distinct multiples of `a` are at least `a` apart. */
  lemma NextMultiple(x: nat, y: nat, a: nat)
    requires a > 0 && x < y && x % a == 0 && y % a == 0
    ensures x + a <= y
  {
    var k := y / a - x / a;
    assert x == x / a * a && y == y / a * a;
    assert k * a == y - x;
    SmallMultiple(k, a);
  }

  /** What the loop computes: the size of the core after sections 1 to k-1, and section k's offset. */
  function CoreSize(ss: seq<Section>, k: nat): Word
    requires k <= |ss|
    decreases k, 0
  {
    if k <= 1 then 0
    else if ss[k - 1].alloc then Wrap(Offset(ss, k - 1) + ss[k - 1].size)
    else CoreSize(ss, k - 1)
  }

  function Offset(ss: seq<Section>, k: nat): Word
    requires k < |ss|
    decreases k, 1
  {
    MaskUp(CoreSize(ss, k), ss[k].align)
  }

  /** module.c:453-469. */
  method Layout(sections: array<Section>) returns (size: Word)
    modifies sections
    ensures size == CoreSize(old(sections[..]), sections.Length)
    ensures forall j | 0 <= j < sections.Length ::
              var was := old(sections[j]);
              sections[j] == if Allocated(old(sections[..]), j) then was.(addr := Offset(old(sections[..]), j)) else was
  {
    ghost var ss := sections[..];
    size := 0;
    var j := 1;
    while j < sections.Length
      invariant 1 <= j && (j <= sections.Length || sections.Length == 0)
      invariant size == CoreSize(ss, if j <= |ss| then j else 0)
      invariant forall i | 0 <= i < sections.Length ::
                  sections[i] == if i < j && Allocated(ss, i) then ss[i].(addr := Offset(ss, i)) else ss[i]
    {
      if sections[j].alloc {
        var addr := MaskUp(size, sections[j].align);
        sections[j] := sections[j].(addr := addr);
        size := Wrap(addr + sections[j].size);
      }
      j := j + 1;
    }
  }

  lemma NextSection(ss: seq<Section>, j: nat)
    requires GoodAlignments(ss) && Allocated(ss, j)
    ensures Start(ss, j) >= End(ss, j) && End(ss, j + 1) == Start(ss, j) + ss[j].size
    ensures CoreSize(ss, j + 1) == Wrap(Offset(ss, j) + ss[j].size)
    ensures CoreSize(ss, j) == End(ss, j) ==>
              Start(ss, j) <= WORD && Offset(ss, j) == if Start(ss, j) < WORD then Start(ss, j) else 0
  {
    MaskAlignsUp(CoreSize(ss, j), ss[j].align);
  }

  /** As long as the reference layout fits 32 bits, the loop computes it. */
  lemma {:induction false} LoopFits(ss: seq<Section>, k: nat)
    requires GoodAlignments(ss) && k <= |ss| && End(ss, k) < WORD
    ensures CoreSize(ss, k) == End(ss, k)
    ensures forall j: nat | j < k && Allocated(ss, j) :: Offset(ss, j) == Start(ss, j)
    decreases k
  {
    if k > 1 {
      EndMonotone(ss, k - 1, k);
      LoopFits(ss, k - 1);
      if ss[k - 1].alloc { NextSection(ss, k - 1); }
    }
  }

  /** Every allocated section lies inside the core, and no two overlap. */
  ghost predicate GoodOffsets(ss: seq<Section>) {
    && (forall j: nat | Allocated(ss, j) :: Offset(ss, j) + ss[j].size <= CoreSize(ss, |ss|))
    && (forall i: nat, j: nat | Allocated(ss, i) && Allocated(ss, j) && i != j ::
          Apart(Offset(ss, i), ss[i].size, Offset(ss, j), ss[j].size))
  }

  /** The section at which the reference layout leaves the 32-bit range. */
  lemma {:induction false} FirstBeyond(ss: seq<Section>, n: nat) returns (k: nat)
    requires n <= |ss| && End(ss, n) >= WORD
    ensures k < n && Allocated(ss, k) && End(ss, k) < WORD <= End(ss, k + 1)
    decreases n
  {
    if End(ss, n - 1) >= WORD { k := FirstBeyond(ss, n - 1); } else { k := n - 1; }
  }

  /** If anything has been laid out, the first section that is not empty starts the core. */
  lemma {:induction false} FirstFilled(ss: seq<Section>, n: nat) returns (i: nat)
    requires n <= |ss| && End(ss, n) > 0
    ensures i < n && Allocated(ss, i) && ss[i].size > 0 && Start(ss, i) == 0 == End(ss, i)
    decreases n
  {
    if End(ss, n - 1) > 0 {
      i := FirstFilled(ss, n - 1);
    } else {
      i := n - 1;
      AlignZero(ss[i].align);
    }
  }

  lemma AlignZero(a: nat)
    ensures AlignUp(0, a) == 0
  {
    if a > 0 { AlignUpLeast(0, a, 0); }
  }

  /** From a core of size zero, the next section that is not empty starts it; otherwise it stays empty. */
  lemma {:induction false} NextFilled(ss: seq<Section>, k: nat) returns (j: nat)
    requires GoodAlignments(ss) && 1 <= k <= |ss| && CoreSize(ss, k) == 0
    ensures k <= j <= |ss|
    ensures j < |ss| ==> Allocated(ss, j) && ss[j].size > 0 && Offset(ss, j) == 0
    ensures j == |ss| ==> CoreSize(ss, |ss|) == 0
    decreases |ss| - k
  {
    j := k;
    if k < |ss| {
      if ss[k].alloc {
        AlignZero(ss[k].align);
        MaskAlignsUp(0, ss[k].align);
      }
      if !ss[k].alloc || ss[k].size == 0 { j := NextFilled(ss, k + 1); }
    }
  }

  /** A section whose offset wraps restarts the core, where the first section already lies. */
  lemma RestartIsBad(ss: seq<Section>, k: nat)
    requires GoodAlignments(ss) && Allocated(ss, k) && 0 < End(ss, k) < WORD && Offset(ss, k) == 0
    ensures !GoodOffsets(ss)
  {
    LoopFits(ss, k);
    var i := FirstFilled(ss, k);
    assert Offset(ss, i) == 0;
    var j := k;
    if ss[k].size == 0 { j := NextFilled(ss, k + 1); }
    if j < |ss| {
      assert !Apart(Offset(ss, i), ss[i].size, Offset(ss, j), ss[j].size);
    }
  }

  /** A layout beyond 32 bits puts a section outside the core or two at its start. */
  lemma BeyondIsBad(ss: seq<Section>)
    requires GoodAlignments(ss) && End(ss, |ss|) >= WORD
    ensures !GoodOffsets(ss)
  {
    var k := FirstBeyond(ss, |ss|);
    LoopFits(ss, k);
    NextSection(ss, k);
    if Start(ss, k) == WORD {
      AlignZero(ss[k].align);
      RestartIsBad(ss, k);
    }
  }

  /** Whatever the sizes, offsets are aligned; they are inside the core and disjoint exactly if the
      reference layout ends below 2^32. */
  lemma LayoutExact(ss: seq<Section>)
    requires GoodAlignments(ss)
    ensures forall j: nat | Allocated(ss, j) && ss[j].align > 0 :: Offset(ss, j) % ss[j].align == 0
    ensures GoodOffsets(ss) <==> End(ss, |ss|) < WORD
  {
    forall j: nat | Allocated(ss, j) && ss[j].align > 0 ensures Offset(ss, j) % ss[j].align == 0 {
      MaskUpAligned(CoreSize(ss, j), ss[j].align);
    }
    if End(ss, |ss|) < WORD {
      LoopFits(ss, |ss|);
      LayoutCorrect(ss);
    } else {
      BeyondIsBad(ss);
    }
  }

  /** Two sections that end one byte past 2^32: the core is one byte, and the first is not inside it. */
  lemma WrapsAround(ss: seq<Section>)
    requires ss == [Section(0, false, 0, 0, 0, []), Section(SHT_NOBITS, true, 0, 0xFFFF_FFFF, 0, []),
                    Section(SHT_NOBITS, true, 0, 2, 0, [])]
    ensures CoreSize(ss, 3) == 1 && !GoodOffsets(ss)
  {
    assert CoreSize(ss, 1) == 0 && Offset(ss, 1) == 0;
    assert CoreSize(ss, 2) == 0xFFFF_FFFF;
    assert Allocated(ss, 1);
  }

  // -------------------------------------------------------------- copy loop

  predicate Copyable(kind: nat) {
    kind == SHT_PROGBITS || kind == SHT_NOBITS
  }

  /** What a section puts into the image: its file content, or zeros. */
  function Content(s: Section): (c: seq<Byte>)
    requires HasData(s)
    ensures |c| == s.size
  {
    if s.kind == SHT_PROGBITS then s.data else seq(s.size, i => 0)
  }

  /** Every allocated section lies inside an image of `size` bytes. */
  predicate Inside(ss: seq<Section>, size: nat) {
    forall j | 0 <= j < |ss| :: HasData(ss[j]) && (ss[j].alloc ==> ss[j].addr + ss[j].size <= size)
  }

  /** The image after the copy loop has handled sections 1 to k-1. */
  function Copied(ss: seq<Section>, k: nat, img: seq<Byte>): (out: Outcome<seq<Byte>>)
    requires k <= |ss| && Inside(ss, |img|)
    ensures out.Ok? ==> |out.value| == |img|
  {
    if k <= 1 then Ok(img)
    else
      var before :- Copied(ss, k - 1, img);
      var s := ss[k - 1];
      if !s.alloc then Ok(before)
      else if !Copyable(s.kind) then Panic(InvalidSectionType(s.kind))
      else Ok(before[..s.addr] + Content(s) + before[s.addr + s.size..])
  }

  method CopyInto(core: array<Byte>, at: nat, content: seq<Byte>)
    requires at + |content| <= core.Length
    modifies core
    ensures core[..] == old(core[..at]) + content + old(core[at + |content|..])
  {
    forall i | 0 <= i < |content| {
      core[at + i] := content[i];
    }
  }

  /** module.c:477-513: `memcpy` for SHT_PROGBITS, `memset` for SHT_NOBITS. */
  method CopySections(ss: seq<Section>, core: array<Byte>) returns (failed: Option<Reason>)
    requires Inside(ss, core.Length)
    modifies core
    ensures failed.None? ==> Copied(ss, |ss|, old(core[..])) == Ok(core[..])
    ensures failed.Some? ==> Copied(ss, |ss|, old(core[..])) == Panic(failed.value) && failed.value.InvalidSectionType?
  {
    ghost var start := core[..];
    var j := 1;
    while j < |ss|
      invariant 1 <= j && (j <= |ss| || ss == [])
      invariant j <= |ss| ==> Copied(ss, j, start) == Ok(core[..])
      invariant ss == [] ==> core[..] == start
    {
      if ss[j].alloc {
        if !Copyable(ss[j].kind) {
          CopyPanicStays(ss, j + 1, |ss|, start);
          return Some(InvalidSectionType(ss[j].kind));
        }
        CopyInto(core, ss[j].addr, Content(ss[j]));
      }
      j := j + 1;
    }
    return None;
  }

  lemma {:induction false} CopyPanicStays(ss: seq<Section>, j: nat, k: nat, img: seq<Byte>)
    requires j <= k <= |ss| && Inside(ss, |img|) && Copied(ss, j, img).Panic?
    ensures Copied(ss, k, img) == Copied(ss, j, img)
    decreases k
  {
    if j < k { CopyPanicStays(ss, j, k - 1, img); }
  }

  ghost predicate Separate(ss: seq<Section>) {
    forall i: nat, j: nat | Allocated(ss, i) && Allocated(ss, j) && i != j ::
      Apart(ss[i].addr, ss[i].size, ss[j].addr, ss[j].size)
  }

  ghost predicate Covered(ss: seq<Section>, k: nat, i: nat) {
    exists j: nat | j < k && Allocated(ss, j) :: ss[j].addr <= i < ss[j].addr + ss[j].size
  }

  ghost predicate CopyDone(ss: seq<Section>, k: nat, img: seq<Byte>, done: seq<Byte>)
    requires k <= |ss| && Inside(ss, |img|)
  {
    && |done| == |img|
    && (forall j: nat | j < k && Allocated(ss, j) :: done[ss[j].addr..ss[j].addr + ss[j].size] == Content(ss[j]))
    && (forall i: nat | i < |img| && !Covered(ss, k, i) :: done[i] == img[i])
  }

  /** With disjoint sections the copy succeeds exactly when every allocated section is PROGBITS or
      NOBITS; then every section holds its content and every other byte is as `kmalloc` left it. */
  lemma {:induction false} CopyCorrect(ss: seq<Section>, k: nat, img: seq<Byte>)
    requires k <= |ss| && Inside(ss, |img|) && Separate(ss)
    ensures Copied(ss, k, img).Ok? <==> forall j: nat | j < k && Allocated(ss, j) :: Copyable(ss[j].kind)
    ensures Copied(ss, k, img).Ok? ==> CopyDone(ss, k, img, Copied(ss, k, img).value)
    decreases k
  {
    CopySucceeds(ss, k, img);
    if k > 1 {
      CopyCorrect(ss, k - 1, img);
      if Copied(ss, k, img).Ok? {
        CopyStep(ss, k - 1, img, Copied(ss, k - 1, img).value, Copied(ss, k, img).value);
      }
    }
  }

  lemma {:induction false} CopySucceeds(ss: seq<Section>, k: nat, img: seq<Byte>)
    requires k <= |ss| && Inside(ss, |img|)
    ensures Copied(ss, k, img).Ok? <==> forall j: nat | j < k && Allocated(ss, j) :: Copyable(ss[j].kind)
    decreases k
  {
    if k > 1 { CopySucceeds(ss, k - 1, img); }
  }

  lemma CopyStep(ss: seq<Section>, k: nat, img: seq<Byte>, before: seq<Byte>, done: seq<Byte>)
    requires 1 <= k < |ss| && Inside(ss, |img|) && Separate(ss) && CopyDone(ss, k, img, before)
    requires done == if ss[k].alloc
                     then before[..ss[k].addr] + Content(ss[k]) + before[ss[k].addr + ss[k].size..]
                     else before
    ensures CopyDone(ss, k + 1, img, done)
  {
    forall j: nat | j < k + 1 && Allocated(ss, j)
      ensures done[ss[j].addr..ss[j].addr + ss[j].size] == Content(ss[j])
    {
      var a, n := ss[j].addr, ss[j].size;
      if j < k {
        assert before[a..a + n] == Content(ss[j]);
        if ss[k].alloc {
          assert Allocated(ss, k) && Apart(ss[j].addr, ss[j].size, ss[k].addr, ss[k].size);
        }
        assert done[a..a + n] == before[a..a + n];
      }
    }
    forall i: nat | i < |img| && !Covered(ss, k + 1, i) ensures done[i] == img[i] {
      assert !Covered(ss, k, i);
      assert Allocated(ss, k) ==> !(ss[k].addr <= i < ss[k].addr + ss[k].size);
    }
  }

  ghost predicate WellFormed(ss: seq<Section>) {
    forall j | 0 <= j < |ss| :: HasData(ss[j]) && (ss[j].alloc ==> j != 0)
  }

  lemma PlacedFits(ss: seq<Section>)
    requires WellFormed(ss)
    ensures Inside(Placed(ss), End(ss, |ss|)) && Separate(Placed(ss))
  {
    var ps := Placed(ss);
    LayoutCorrect(ss);
    forall j | 0 <= j < |ps|
      ensures HasData(ps[j]) && (ps[j].alloc ==> ps[j].addr + ps[j].size <= End(ss, |ss|))
    {
      assert ss[j].alloc ==> Allocated(ss, j);
    }
    forall i: nat, j: nat | Allocated(ps, i) && Allocated(ps, j) && i != j
      ensures Apart(ps[i].addr, ps[i].size, ps[j].addr, ps[j].size)
    {
      assert Allocated(ss, i) && Allocated(ss, j);
    }
  }

  /** Layout followed by copy: for any number of sections, each one's bytes in the image are its
      file content or zeros. */
  lemma ImageHoldsSections(ss: seq<Section>, img: seq<Byte>)
    requires WellFormed(ss) && |img| == End(ss, |ss|)
    ensures Inside(Placed(ss), |img|)
    ensures Copied(Placed(ss), |ss|, img).Ok? ==>
              CopyDone(Placed(ss), |ss|, img, Copied(Placed(ss), |ss|, img).value)
    ensures Copied(Placed(ss), |ss|, img).Ok? <==> forall j: nat | Allocated(ss, j) :: Copyable(ss[j].kind)
  {
    PlacedFits(ss);
    CopyCorrect(Placed(ss), |ss|, img);
    assert forall j: nat :: Allocated(ss, j) <==> Allocated(Placed(ss), j);
  }
}
