/** The i386 relocation passes of `module_run`: SHT_REL entries take their addend from the
    slot, SHT_RELA entries carry it.  Arithmetic is modulo 2^32 and the image is little-endian. */
module Relocation {
  import opened Bits
  import opened Outcomes

  // Intel386 psABI, chapter 4, "Relocation Types".
  const R_386_NONE := 0
  const R_386_32 := 1
  const R_386_PC32 := 2
  const R_386_COPY := 5
  const R_386_GLOB_DAT := 6
  const R_386_JMP_SLOT := 7
  const R_386_RELATIVE := 8

  /** One entry: the section it patches, the offset there, its symbol and type.
      `addend` is `None` for an Elf_Rel entry. */
  datatype Reloc = Reloc(section: nat, offset: nat, sym: nat, kind: nat, addend: Option<Word>)

  /** Where the module was placed and what its symbols resolved to. */
  datatype Env = Env(base: Word, sectionAddr: seq<Word>, values: seq<Word>)

  /** The number a little-endian byte string denotes, and its inverse. */
  function FromBytes(bs: seq<Byte>): nat {
    if bs == [] then 0 else bs[0] as nat + 256 * FromBytes(bs[1..])
  }

  function ToBytes(w: nat, n: nat): (bs: seq<Byte>)
    ensures |bs| == n
  {
    if n == 0 then [] else [w % 256] + ToBytes(w / 256, n - 1)
  }

  lemma {:induction false} BytesRoundTrip(w: nat, n: nat)
    requires w < Pow2(8 * n)
    ensures FromBytes(ToBytes(w, n)) == w
  {
    if n > 0 {
      var m := 8 * (n - 1);
      assert Pow2(m + 8) == 256 * Pow2(m) by {
        assert Pow2(m + 8) == 4 * Pow2(m + 6) && Pow2(m + 6) == 4 * Pow2(m + 4);
        assert Pow2(m + 4) == 4 * Pow2(m + 2) && Pow2(m + 2) == 4 * Pow2(m);
      }
      BytesRoundTrip(w / 256, n - 1);
      assert ToBytes(w, n)[1..] == ToBytes(w / 256, n - 1);
    }
  }

  lemma {:induction false} FromBytesBound(bs: seq<Byte>)
    ensures FromBytes(bs) < Pow2(8 * |bs|)
  {
    if bs != [] {
      var m := 8 * (|bs| - 1);
      assert Pow2(m + 8) == 256 * Pow2(m) by {
        assert Pow2(m + 8) == 4 * Pow2(m + 6) && Pow2(m + 6) == 4 * Pow2(m + 4);
        assert Pow2(m + 4) == 4 * Pow2(m + 2) && Pow2(m + 2) == 4 * Pow2(m);
      }
      FromBytesBound(bs[1..]);
    }
  }

  function ReadWord(img: seq<Byte>, o: nat): (w: Word)
    requires o + 4 <= |img|
  {
    FromBytesBound(img[o..o + 4]);
    WordIsPow2();
    FromBytes(img[o..o + 4])
  }

  function WriteWord(img: seq<Byte>, o: nat, w: Word): (r: seq<Byte>)
    requires o + 4 <= |img|
    ensures |r| == |img|
    ensures ReadWord(r, o) == w
    ensures forall i | 0 <= i < |img| && !(o <= i < o + 4) :: r[i] == img[i]
  {
    var r := img[..o] + ToBytes(w, 4) + img[o + 4..];
    WordIsPow2();
    BytesRoundTrip(w, 4);
    assert r[o..o + 4] == ToBytes(w, 4);
    r
  }

  function Slot(env: Env, r: Reloc): nat
    requires r.section < |env.sectionAddr|
  {
    env.sectionAddr[r.section] + r.offset
  }

  predicate Stores(kind: nat) {
    kind in {R_386_32, R_386_PC32, R_386_GLOB_DAT, R_386_JMP_SLOT, R_386_RELATIVE}
  }

  predicate Known(kind: nat) {
    kind == R_386_NONE || kind == R_386_COPY || Stores(kind)
  }

  /** The entry's section and symbol exist and its slot lies inside the image. */
  predicate InRange(env: Env, r: Reloc, size: nat) {
    && r.section < |env.sectionAddr|
    && r.sym < |env.values|
    && Slot(env, r) + 4 <= size
  }

  predicate AllInRange(env: Env, rs: seq<Reloc>, size: nat) {
    forall i | 0 <= i < |rs| :: InRange(env, rs[i], size)
  }

  function AddendOf(env: Env, r: Reloc, img: seq<Byte>): Word
    requires InRange(env, r, |img|)
  {
    if r.addend.Some? then r.addend.value else ReadWord(img, Slot(env, r))
  }

  function Place(env: Env, r: Reloc): Word
    requires r.section < |env.sectionAddr|
  {
    Wrap(env.base + Slot(env, r))
  }

  /** The word the switch in `module_run` stores. */
  function NewWord(kind: nat, s: Word, a: Word, p: Word, b: Word): Word
    requires Stores(kind)
  {
    if kind == R_386_32 then Wrap(s + a)
    else if kind == R_386_PC32 then Wrap(s + a - p)
    else if kind == R_386_RELATIVE then Wrap(b + a)
    else s
  }

  function Apply(env: Env, r: Reloc, img: seq<Byte>): (out: Outcome<seq<Byte>>)
    requires InRange(env, r, |img|)
    ensures out.Ok? ==> |out.value| == |img|
  {
    if Stores(r.kind) then
      Ok(WriteWord(img, Slot(env, r),
                   NewWord(r.kind, env.values[r.sym], AddendOf(env, r, img), Place(env, r), env.base)))
    else if Known(r.kind) then Ok(img)
    else Panic(UnknownRelocation(r.kind))
  }

  /** The image after the first `k` entries of `rs`. */
  function ApplyFirst(env: Env, rs: seq<Reloc>, k: nat, img: seq<Byte>): (out: Outcome<seq<Byte>>)
    requires k <= |rs| && AllInRange(env, rs, |img|)
    ensures out.Ok? ==> |out.value| == |img|
  {
    if k == 0 then Ok(img)
    else
      var before :- ApplyFirst(env, rs, k - 1, img);
      Apply(env, rs[k - 1], before)
  }

  function Relocated(env: Env, rs: seq<Reloc>, img: seq<Byte>): Outcome<seq<Byte>>
    requires AllInRange(env, rs, |img|)
  {
    ApplyFirst(env, rs, |rs|, img)
  }

  /** The loops at module.c:206-295 and 300-389: patch the image in place, entry by entry. */
  method Relocate(image: array<Byte>, env: Env, rs: seq<Reloc>) returns (failed: Option<Reason>)
    requires AllInRange(env, rs, image.Length)
    modifies image
    ensures failed.None? ==> Relocated(env, rs, old(image[..])) == Ok(image[..])
    ensures failed.Some? ==> Relocated(env, rs, old(image[..])) == Panic(failed.value)
  {
    ghost var start := image[..];
    for j := 0 to |rs|
      invariant ApplyFirst(env, rs, j, start) == Ok(image[..])
    {
      assert InRange(env, rs[j], image.Length);
      var kind, obj := rs[j].kind, Slot(env, rs[j]);
      ghost var before := image[..];
      if Stores(kind) {
        var a := if rs[j].addend.Some? then rs[j].addend.value else ReadWord(image[..], obj);
        var bytes := ToBytes(NewWord(kind, env.values[rs[j].sym], a, Place(env, rs[j]), env.base), 4);
        forall i | 0 <= i < 4 {
          image[obj + i] := bytes[i];
        }
        assert image[..] == before[..obj] + bytes + before[obj + 4..];
      } else if !Known(kind) {
        PanicStays(env, rs, j + 1, |rs|, start);
        return Some(UnknownRelocation(kind));
      }
    }
    return None;
  }

  lemma {:induction false} PanicStays(env: Env, rs: seq<Reloc>, j: nat, k: nat, img: seq<Byte>)
    requires j <= k <= |rs| && AllInRange(env, rs, |img|)
    requires ApplyFirst(env, rs, j, img).Panic?
    ensures ApplyFirst(env, rs, k, img) == ApplyFirst(env, rs, j, img)
    decreases k
  {
    if j < k { PanicStays(env, rs, j, k - 1, img); }
  }

  // ------------------------------------------------------------ correctness

  /** No two stored slots overlap. */
  ghost predicate DisjointSlots(env: Env, rs: seq<Reloc>, size: nat)
    requires AllInRange(env, rs, size)
  {
    forall i, j | 0 <= i < j < |rs| && Stores(rs[i].kind) && Stores(rs[j].kind) ::
      Slot(env, rs[i]) + 4 <= Slot(env, rs[j]) || Slot(env, rs[j]) + 4 <= Slot(env, rs[i])
  }

  /** What the psABI table asks of the stored word, as congruences modulo 2^32: an absolute word
      is S + A, a PC-relative one reaches S + A from its own place, a GOT or PLT slot holds S and
      a relative one is B + A. */
  ghost predicate Meets(kind: nat, w: Word, s: Word, a: Word, p: Word, b: Word) {
    if kind == R_386_32 then w == Wrap(s + a)
    else if kind == R_386_PC32 then Wrap(p + w) == Wrap(s + a)
    else if kind == R_386_RELATIVE then w == Wrap(a + b)
    else w == s
  }

  ghost predicate SlotDone(env: Env, r: Reloc, img: seq<Byte>, done: seq<Byte>)
    requires |done| == |img| && InRange(env, r, |img|)
  {
    Meets(r.kind, ReadWord(done, Slot(env, r)), env.values[r.sym], AddendOf(env, r, img), Place(env, r), env.base)
  }

  ghost predicate Touched(env: Env, rs: seq<Reloc>, k: nat, size: nat, i: nat)
    requires k <= |rs| && AllInRange(env, rs, size)
  {
    exists j | 0 <= j < k :: Stores(rs[j].kind) && Slot(env, rs[j]) <= i < Slot(env, rs[j]) + 4
  }

  /** After a prefix of the entries every slot of the prefix holds its formula over the original
      image, and every byte outside those slots is still the original one. */
  ghost predicate PrefixDone(env: Env, rs: seq<Reloc>, k: nat, img: seq<Byte>, done: seq<Byte>)
    requires k <= |rs| && AllInRange(env, rs, |img|)
  {
    && |done| == |img|
    && (forall i: nat | i < |img| && !Touched(env, rs, k, |img|, i) :: done[i] == img[i])
    && (forall j | 0 <= j < k && Stores(rs[j].kind) :: SlotDone(env, rs[j], img, done))
  }

  lemma NewWordMeets(kind: nat, s: Word, a: Word, p: Word, b: Word)
    requires Stores(kind)
    ensures Meets(kind, NewWord(kind, s, a, p, b), s, a, p, b)
  {
  }

  lemma SlotUntouched(env: Env, rs: seq<Reloc>, k: nat, img: seq<Byte>, done: seq<Byte>)
    requires k < |rs| && AllInRange(env, rs, |img|) && DisjointSlots(env, rs, |img|)
    requires PrefixDone(env, rs, k, img, done) && Stores(rs[k].kind)
    ensures ReadWord(done, Slot(env, rs[k])) == ReadWord(img, Slot(env, rs[k]))
  {
    var o := Slot(env, rs[k]);
    forall i: nat | o <= i < o + 4 ensures done[i] == img[i] {
      assert !Touched(env, rs, k, |img|, i);
    }
    assert done[o..o + 4] == img[o..o + 4];
  }

  lemma PrefixStep(env: Env, rs: seq<Reloc>, k: nat, img: seq<Byte>, before: seq<Byte>)
    requires k < |rs| && AllInRange(env, rs, |img|) && DisjointSlots(env, rs, |img|)
    requires PrefixDone(env, rs, k, img, before) && Known(rs[k].kind)
    ensures Apply(env, rs[k], before).Ok?
    ensures PrefixDone(env, rs, k + 1, img, Apply(env, rs[k], before).value)
  {
    var done := Apply(env, rs[k], before).value;
    forall i: nat | i < |img| && !Touched(env, rs, k + 1, |img|, i) ensures done[i] == img[i] {
      assert !Touched(env, rs, k, |img|, i);
    }
    forall j | 0 <= j < k + 1 && Stores(rs[j].kind) ensures SlotDone(env, rs[j], img, done) {
      if j < k {
        assert SlotDone(env, rs[j], img, before);
        if Stores(rs[k].kind) {
          var o := Slot(env, rs[j]);
          assert done[o..o + 4] == before[o..o + 4];
        }
      } else {
        SlotUntouched(env, rs, k, img, before);
        NewWordMeets(rs[k].kind, env.values[rs[k].sym], AddendOf(env, rs[k], before), Place(env, rs[k]), env.base);
      }
    }
  }

  /** With disjoint slots, relocation succeeds exactly when every type is known, and then every
      slot meets its formula over the original image while every other byte is unchanged. */
  lemma {:induction false} RelocationCorrect(env: Env, rs: seq<Reloc>, k: nat, img: seq<Byte>)
    requires k <= |rs| && AllInRange(env, rs, |img|) && DisjointSlots(env, rs, |img|)
    ensures ApplyFirst(env, rs, k, img).Ok? <==> forall j | 0 <= j < k :: Known(rs[j].kind)
    ensures ApplyFirst(env, rs, k, img).Ok? ==> PrefixDone(env, rs, k, img, ApplyFirst(env, rs, k, img).value)
    decreases k
  {
    if k > 0 {
      RelocationCorrect(env, rs, k - 1, img);
      if ApplyFirst(env, rs, k - 1, img).Ok? && Known(rs[k - 1].kind) {
        PrefixStep(env, rs, k - 1, img, ApplyFirst(env, rs, k - 1, img).value);
      }
    }
  }

  // --------------------------------------------------------------- REL, RELA

  /** The same entry with its addend made explicit, taken from the original slot. */
  function Explicit(env: Env, r: Reloc, img: seq<Byte>): Reloc
    requires InRange(env, r, |img|)
  {
    r.(addend := Some(AddendOf(env, r, img)))
  }

  function AllExplicit(env: Env, rs: seq<Reloc>, img: seq<Byte>): (xs: seq<Reloc>)
    requires AllInRange(env, rs, |img|)
    ensures |xs| == |rs| && AllInRange(env, xs, |img|)
    ensures forall i | 0 <= i < |rs| :: xs[i] == Explicit(env, rs[i], img)
  {
    seq(|rs|, i requires 0 <= i < |rs| => Explicit(env, rs[i], img))
  }

  lemma ExplicitStep(env: Env, r: Reloc, img: seq<Byte>, before: seq<Byte>)
    requires |before| == |img| && InRange(env, r, |img|)
    requires Stores(r.kind) ==> ReadWord(before, Slot(env, r)) == ReadWord(img, Slot(env, r))
    ensures Apply(env, Explicit(env, r, img), before) == Apply(env, r, before)
  {
  }

  lemma ExplicitNext(env: Env, rs: seq<Reloc>, xs: seq<Reloc>, k: nat, img: seq<Byte>)
    requires k < |rs| == |xs| && AllInRange(env, rs, |img|) && AllInRange(env, xs, |img|)
    requires DisjointSlots(env, rs, |img|) && xs[k] == Explicit(env, rs[k], img)
    requires ApplyFirst(env, xs, k, img) == ApplyFirst(env, rs, k, img)
    ensures ApplyFirst(env, xs, k + 1, img) == ApplyFirst(env, rs, k + 1, img)
  {
    var before := ApplyFirst(env, rs, k, img);
    if before.Ok? {
      SlotAsBefore(env, rs, k, img, before.value);
      ExplicitStep(env, rs[k], img, before.value);
    }
  }

  /** A SHT_REL entry does what the SHT_RELA entry with the old slot content as addend does. */
  lemma {:induction false} RelEqualsRela(env: Env, rs: seq<Reloc>, k: nat, img: seq<Byte>)
    requires k <= |rs| && AllInRange(env, rs, |img|) && DisjointSlots(env, rs, |img|)
    ensures ApplyFirst(env, AllExplicit(env, rs, img), k, img) == ApplyFirst(env, rs, k, img)
    decreases k
  {
    if k > 0 {
      RelEqualsRela(env, rs, k - 1, img);
      ExplicitNext(env, rs, AllExplicit(env, rs, img), k - 1, img);
    }
  }

  /** A slot not applied yet still has its old content. */
  lemma SlotAsBefore(env: Env, rs: seq<Reloc>, k: nat, img: seq<Byte>, before: seq<Byte>)
    requires k < |rs| && AllInRange(env, rs, |img|) && DisjointSlots(env, rs, |img|)
    requires ApplyFirst(env, rs, k, img) == Ok(before)
    ensures |before| == |img| && InRange(env, rs[k], |img|)
    ensures Stores(rs[k].kind) ==> ReadWord(before, Slot(env, rs[k])) == ReadWord(img, Slot(env, rs[k]))
  {
    RelocationCorrect(env, rs, k, img);
    if Stores(rs[k].kind) {
      SlotUntouched(env, rs, k, img, before);
    }
  }

  // --------------------------------------------------------------- rebasing

  /** `moved` is `env` with the image `d` bytes further up: symbols defined in a section of the
      module move with it, resolved and absolute ones stay. */
  ghost predicate Rebased(env: Env, moved: Env, local: seq<bool>, d: Word) {
    && |local| == |env.values| == |moved.values|
    && moved.base == Wrap(env.base + d)
    && moved.sectionAddr == env.sectionAddr
    && forall i | 0 <= i < |local| :: moved.values[i] == if local[i] then Wrap(env.values[i] + d) else env.values[i]
  }

  /** How far the stored word moves when the base moves by `d`. */
  function Shift(kind: nat, local: bool, d: int): int {
    if kind == R_386_PC32 then if local then 0 else -d
    else if kind == R_386_RELATIVE then d
    else if local then d else 0
  }

  lemma ShiftAbsolute(s: int, a: int, d: int)
    ensures Wrap(Wrap(s + d) + a) == Wrap(Wrap(s + a) + d)
  {
    WrapAdd(s + d, a);
    WrapAdd(s + a, d);
  }

  lemma ShiftPcLocal(s: int, a: int, p: int, d: int)
    ensures Wrap(Wrap(s + d) + a - Wrap(p + d)) == Wrap(Wrap(s + a - p))
  {
    WrapAdd(s + d, a - Wrap(p + d));
    WrapSub(s + d + a, p + d);
    WrapAdd(s + a - p, 0);
  }

  lemma ShiftPcExternal(s: int, a: int, p: int, d: int)
    ensures Wrap(s + a - Wrap(p + d)) == Wrap(Wrap(s + a - p) - d)
  {
    WrapSub(s + a, p + d);
    WrapAdd(s + a - p, -d);
  }

  lemma NewWordShifts(kind: nat, local: bool, s: Word, a: Word, p: Word, b: Word, d: Word)
    requires Stores(kind)
    ensures NewWord(kind, if local then Wrap(s + d) else s, a, Wrap(p + d), Wrap(b + d))
         == Wrap(NewWord(kind, s, a, p, b) + Shift(kind, local, d))
  {
    WrapWord(NewWord(kind, s, a, p, b));
    if kind == R_386_PC32 {
      if local { ShiftPcLocal(s, a, p, d); } else { ShiftPcExternal(s, a, p, d); }
    } else if kind == R_386_RELATIVE {
      ShiftAbsolute(b, a, d);
    } else if kind == R_386_32 {
      if local { ShiftAbsolute(s, a, d); }
    }
  }

  /** The psABI congruence determines the word. */
  lemma UniqueWord(kind: nat, w: Word, s: Word, a: Word, p: Word, b: Word)
    requires Stores(kind) && Meets(kind, w, s, a, p, b)
    ensures w == NewWord(kind, s, a, p, b)
  {
    if kind == R_386_PC32 {
      UniqueOffset(w, s + a, p);
    } else if kind == R_386_RELATIVE {
      assert a + b == b + a;
    }
  }

  lemma UniqueOffset(w: Word, t: int, p: int)
    requires Wrap(p + w) == Wrap(t)
    ensures w == Wrap(t - p)
  {
    WrapSub(0, p);
    WrapAdd(p + w, -p);
    WrapAdd(t, -p);
  }

  /** What a finished slot holds. */
  lemma SlotWord(env: Env, r: Reloc, img: seq<Byte>, done: seq<Byte>)
    requires |done| == |img| && InRange(env, r, |img|) && Stores(r.kind) && SlotDone(env, r, img, done)
    ensures ReadWord(done, Slot(env, r))
         == NewWord(r.kind, env.values[r.sym], AddendOf(env, r, img), Place(env, r), env.base)
  {
    UniqueWord(r.kind, ReadWord(done, Slot(env, r)), env.values[r.sym], AddendOf(env, r, img), Place(env, r), env.base);
  }

  lemma PlaceShifts(env: Env, moved: Env, r: Reloc, d: Word)
    requires moved.base == Wrap(env.base + d) && moved.sectionAddr == env.sectionAddr
    requires r.section < |env.sectionAddr|
    ensures Slot(moved, r) == Slot(env, r)
    ensures Place(moved, r) == Wrap(Place(env, r) + d)
  {
    WrapAdd(env.base + d, Slot(env, r));
    WrapAdd(env.base + Slot(env, r), d);
  }

  lemma SlotShifts(env: Env, moved: Env, local: seq<bool>, d: Word, r: Reloc, img: seq<Byte>, one: seq<Byte>, two: seq<Byte>)
    requires Rebased(env, moved, local, d)
    requires |one| == |two| == |img| && InRange(env, r, |img|) && InRange(moved, r, |img|) && Stores(r.kind)
    requires SlotDone(env, r, img, one) && SlotDone(moved, r, img, two)
    ensures ReadWord(two, Slot(env, r)) == Wrap(ReadWord(one, Slot(env, r)) + Shift(r.kind, local[r.sym], d))
  {
    var s, a, p, b := env.values[r.sym], AddendOf(env, r, img), Place(env, r), env.base;
    PlaceShifts(env, moved, r, d);
    SlotWord(env, r, img, one);
    SlotWord(moved, r, img, two);
    NewWordShifts(r.kind, local[r.sym], s, a, p, b, d);
  }

  lemma RebasedRanges(env: Env, moved: Env, local: seq<bool>, d: Word, rs: seq<Reloc>, size: nat)
    requires Rebased(env, moved, local, d)
    requires AllInRange(env, rs, size) && DisjointSlots(env, rs, size)
    ensures AllInRange(moved, rs, size) && DisjointSlots(moved, rs, size)
    ensures forall i: nat :: Touched(moved, rs, |rs|, size, i) == Touched(env, rs, |rs|, size, i)
  {
    forall i | 0 <= i < |rs| ensures InRange(moved, rs[i], size) && Slot(moved, rs[i]) == Slot(env, rs[i]) {
      assert InRange(env, rs[i], size);
    }
  }

  lemma RebasedImages(env: Env, moved: Env, local: seq<bool>, d: Word, rs: seq<Reloc>, img: seq<Byte>, one: seq<Byte>, two: seq<Byte>)
    requires Rebased(env, moved, local, d)
    requires AllInRange(env, rs, |img|) && AllInRange(moved, rs, |img|) && DisjointSlots(env, rs, |img|)
    requires PrefixDone(env, rs, |rs|, img, one) && PrefixDone(moved, rs, |rs|, img, two)
    ensures forall j | 0 <= j < |rs| && Stores(rs[j].kind) ::
              ReadWord(two, Slot(env, rs[j]))
              == Wrap(ReadWord(one, Slot(env, rs[j])) + Shift(rs[j].kind, local[rs[j].sym], d))
    ensures forall i: nat | i < |img| && !Touched(env, rs, |rs|, |img|, i) :: two[i] == one[i]
  {
    RebasedRanges(env, moved, local, d, rs, |img|);
    forall j | 0 <= j < |rs| && Stores(rs[j].kind)
      ensures ReadWord(two, Slot(env, rs[j]))
           == Wrap(ReadWord(one, Slot(env, rs[j])) + Shift(rs[j].kind, local[rs[j].sym], d))
    {
      SlotShifts(env, moved, local, d, rs[j], img, one, two);
    }
  }

  /** Moving the image by `d` moves absolute slots to local symbols by +d, leaves PC-relative
      slots to local symbols alone, moves PC-relative slots to external symbols by -d, and
      changes no byte outside the slots. */
  lemma Rebasing(env: Env, moved: Env, local: seq<bool>, d: Word, rs: seq<Reloc>, img: seq<Byte>, one: seq<Byte>)
    returns (two: seq<Byte>)
    requires Rebased(env, moved, local, d)
    requires AllInRange(env, rs, |img|) && DisjointSlots(env, rs, |img|) && Relocated(env, rs, img) == Ok(one)
    ensures AllInRange(moved, rs, |img|) && Relocated(moved, rs, img) == Ok(two)
    ensures |one| == |two| == |img|
    ensures forall j | 0 <= j < |rs| && Stores(rs[j].kind) ::
              ReadWord(two, Slot(env, rs[j]))
              == Wrap(ReadWord(one, Slot(env, rs[j])) + Shift(rs[j].kind, local[rs[j].sym], d))
    ensures forall i: nat | i < |img| && !Touched(env, rs, |rs|, |img|, i) :: two[i] == one[i]
  {
    RebasedRanges(env, moved, local, d, rs, |img|);
    RelocationCorrect(env, rs, |rs|, img);
    RelocationCorrect(moved, rs, |rs|, img);
    two := Relocated(moved, rs, img).value;
    RebasedImages(env, moved, local, d, rs, img, one, two);
  }
}
