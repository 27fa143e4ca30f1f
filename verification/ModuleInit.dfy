/** `module_init` from the boot modules to the running ones: place and fill each image, queue the
    module under its name, then run the queue.  The last lemma collects what a completed
    `module_init` guarantees about every byte of every image. */
module ModuleInit {
  import opened Bits
  import opened Outcomes
  import opened Relocation
  import opened SectionLayout
  import opened Loader
  import opened LoaderTheorems
  import opened ModuleLoader
  import Completion = LoaderCompletion

  /** A boot module: an ET_REL file already split into headers, symbols and relocations. */
  datatype File = File(name: string, deps: string, sections: seq<Section>, syms: seq<Sym>, relocs: seq<Reloc>)

  function Addresses(ss: seq<Section>): (a: seq<Word>)
    requires forall j | 0 <= j < |ss| :: ss[j].addr < WORD
    ensures |a| == |ss| && forall j | 0 <= j < |ss| :: a[j] == ss[j].addr
  {
    seq(|ss|, j requires 0 <= j < |ss| => ss[j].addr)
  }

  ghost predicate AddressesFit(ss: seq<Section>) {
    && SectionLayout.WellFormed(ss)
    && GoodAlignments(ss)
    && End(ss, |ss|) < WORD
    && forall j | 0 <= j < |ss| :: ss[j].addr < WORD
  }

  lemma PlacedAddressesFit(ss: seq<Section>)
    requires AddressesFit(ss)
    ensures forall j | 0 <= j < |ss| :: Placed(ss)[j].addr < WORD
  {
    LayoutCorrect(ss);
  }

  ghost function PlacedAddresses(ss: seq<Section>): seq<Word>
    requires AddressesFit(ss)
  {
    PlacedAddressesFit(ss);
    Addresses(Placed(ss))
  }

  /** What the loader takes for granted about a file: sections that fit 32-bit addresses, and
      symbols and relocations that stay inside them. */
  ghost predicate FileOk(f: File) {
    && AddressesFit(f.sections)
    && ModuleOk(Module(f.name, f.deps, f.syms, f.relocs, PlacedAddresses(f.sections), 0,
                       seq(End(f.sections, |f.sections|), i => 0)))
  }

  /** `m` is the file placed at `base`, its image holding the content of every section. */
  ghost predicate IsPlaced(f: File, base: Word, m: Module)
    requires FileOk(f)
  {
    && m.name == f.name && m.deps == f.deps && m.syms == f.syms && m.relocs == f.relocs
    && m.base == base
    && m.sectionAddr == PlacedAddresses(f.sections)
    && |m.image| == End(f.sections, |f.sections|)
    && forall j: nat | Allocated(f.sections, j) :: HoldsSection(f.sections, j, m.image)
  }

  ghost predicate HoldsSection(ss: seq<Section>, j: nat, image: seq<Byte>)
    requires SectionLayout.WellFormed(ss) && Allocated(ss, j)
  {
    var a := Start(ss, j);
    a + ss[j].size <= |image| && image[a..a + ss[j].size] == Content(ss[j])
  }

  lemma CopiedHoldsSections(ss: seq<Section>, img: seq<Byte>, done: seq<Byte>)
    requires SectionLayout.WellFormed(ss) && |img| == End(ss, |ss|) && Inside(Placed(ss), |img|)
    requires CopyDone(Placed(ss), |ss|, img, done)
    ensures forall j: nat | Allocated(ss, j) :: HoldsSection(ss, j, done)
  {
    forall j: nat | Allocated(ss, j) ensures HoldsSection(ss, j, done) {
      CopiedHolds(ss, Placed(ss), img, done, j);
    }
  }

  lemma CopiedHolds(ss: seq<Section>, ps: seq<Section>, img: seq<Byte>, done: seq<Byte>, j: nat)
    requires SectionLayout.WellFormed(ss) && Allocated(ss, j) && |ps| == |ss| && Inside(ps, |img|)
    requires ps[j] == ss[j].(addr := Start(ss, j)) && CopyDone(ps, |ps|, img, done)
    ensures HoldsSection(ss, j, done)
  {
    assert Allocated(ps, j);
    assert Content(ps[j]) == Content(ss[j]);
  }

  lemma PlacedIsOk(f: File, base: Word, m: Module)
    requires FileOk(f) && IsPlaced(f, base, m)
    ensures ModuleOk(m)
  {
    var m0 := Module(f.name, f.deps, f.syms, f.relocs, PlacedAddresses(f.sections), 0,
                     seq(End(f.sections, |f.sections|), i => 0));
    forall j | 0 <= j < |m.relocs| ensures InRange(EnvOf(m, FileValues(m)), m.relocs[j], |m.image|) {
      assert InRange(EnvOf(m0, FileValues(m0)), m0.relocs[j], |m0.image|);
    }
  }

  ghost predicate AllCopyable(f: File) {
    forall j: nat | Allocated(f.sections, j) :: Copyable(f.sections[j].kind)
  }

  /** The assertions inside the layout loop, module.c:455-456: they test the section whose number is
      that of the boot module. */
  predicate DynamicAt(f: File, i: nat) {
    1 < |f.sections| && i < |f.sections| && (f.sections[i].kind == SHT_DYNAMIC || f.sections[i].kind == SHT_DYNSYM)
  }

  predicate HasSymtab(f: File) {
    exists j :: 1 <= j < |f.sections| && f.sections[j].kind == SHT_SYMTAB
  }

  ghost predicate Preparable(f: File, i: nat) {
    !DynamicAt(f, i) && AllCopyable(f) && HasSymtab(f)
  }

  /** Layout and copy of a file's sections, module.c:453-513. */
  method Place(f: File, base: Word) returns (out: Outcome<Module>)
    requires FileOk(f)
    ensures out.Ok? ==> IsPlaced(f, base, out.value) && ModuleOk(out.value)
    ensures out.Ok? <==> AllCopyable(f)
  {
    var ss := f.sections;
    PlacedAddressesFit(ss);
    PlacedFits(ss);
    var sections := new Section[|ss|](j requires 0 <= j < |ss| => ss[j]);
    assert sections[..] == ss;
    var size := Layout(sections);
    LoopFits(ss, |ss|);
    assert sections[..] == Placed(ss);
    var core := new Byte[size];
    ghost var raw := core[..];
    ImageHoldsSections(ss, raw);
    var failed := CopySections(sections[..], core);
    if failed.Some? { return Panic(failed.value); }
    CopiedHoldsSections(ss, raw, core[..]);
    var m := Module(f.name, f.deps, f.syms, f.relocs, Addresses(sections[..]), base, core[..]);
    PlacedIsOk(f, base, m);
    return Ok(m);
  }

  /** One round of the first loop of `module_init`, for boot module `i`, module.c:453-516. */
  method Prepare(f: File, i: nat, base: Word) returns (out: Outcome<Module>)
    requires FileOk(f)
    ensures out.Ok? ==> IsPlaced(f, base, out.value) && ModuleOk(out.value)
    ensures out.Ok? <==> Preparable(f, i)
  {
    if DynamicAt(f, i) { return Panic(DynamicSection(i)); }
    out := Place(f, base);
    if out.Ok? && !HasSymtab(f) { return Panic(NoSymbolTable); }
  }

  ghost predicate DistinctNames(ms: seq<Module>) {
    forall i, j | 0 <= i < j < |ms| :: ms[i].name != ms[j].name
  }

  /** The first `n` files have distinct names and can be prepared. */
  ghost predicate LoadableFirst(files: seq<File>, n: nat)
    requires n <= |files|
  {
    && (forall i, j | 0 <= i < j < n :: files[i].name != files[j].name)
    && (forall i | 0 <= i < n :: Preparable(files[i], i + 1))
  }

  ghost predicate Loadable(files: seq<File>) {
    LoadableFirst(files, |files|)
  }

  /** The first loop of `module_init`, over boot modules 1 and up: a duplicate name, a section it cannot
      copy or a missing symbol table stops the kernel. */
  method QueueModules(files: seq<File>, bases: seq<Word>) returns (out: Outcome<seq<Module>>)
    requires |bases| == |files| && forall i | 0 <= i < |files| :: FileOk(files[i])
    ensures out.Ok? ==> |out.value| == |files| && DistinctNames(out.value)
    ensures out.Ok? ==> forall i | 0 <= i < |files| :: IsPlaced(files[i], bases[i], out.value[i]) && ModuleOk(out.value[i])
    ensures out.Ok? <==> Loadable(files)
  {
    var queue: seq<Module> := [];
    for i := 0 to |files|
      invariant QueuedSoFar(files, bases, i, queue)
    {
      var m := Prepare(files[i], i + 1, bases[i]);
      if m.Panic? { return Panic(m.why); }
      var k := FindName(queue, m.value.name);
      if k < i {
        assert files[k].name == files[i].name;
        return Panic(DuplicateModule(m.value.name));
      }
      OneMorePlaced(files, bases, queue, m.value);
      PlacedNames(files, bases, queue + [m.value]);
      OneMoreName(files, queue, m.value);
      queue := queue + [m.value];
    }
    return Ok(queue);
  }

  /** The `list_each(m_queue, v)` search for a module of that name: where it is, or the length. */
  method FindName(queue: seq<Module>, name: string) returns (k: nat)
    ensures k <= |queue| && (k < |queue| ==> queue[k].name == name)
    ensures k == |queue| ==> forall j | 0 <= j < |queue| :: queue[j].name != name
  {
    k := 0;
    while k < |queue| && queue[k].name != name
      invariant k <= |queue| && forall j | 0 <= j < k :: queue[j].name != name
    {
      k := k + 1;
    }
  }

  /** The first `i` files are queued, and nothing has stopped the kernel. */
  ghost predicate QueuedSoFar(files: seq<File>, bases: seq<Word>, i: nat, queue: seq<Module>)
    requires |bases| == |files| && forall k | 0 <= k < |files| :: FileOk(files[k])
  {
    && |queue| == i <= |files|
    && AllPlaced(files, bases, queue)
    && DistinctNames(queue)
    && LoadableFirst(files, i)
  }

  ghost predicate AllPlaced(files: seq<File>, bases: seq<Word>, queue: seq<Module>)
    requires |queue| <= |files| == |bases| && forall k | 0 <= k < |files| :: FileOk(files[k])
  {
    forall k | 0 <= k < |queue| :: IsPlaced(files[k], bases[k], queue[k]) && ModuleOk(queue[k])
  }

  ghost predicate SameNames(files: seq<File>, queue: seq<Module>) {
    |queue| <= |files| && forall k | 0 <= k < |queue| :: queue[k].name == files[k].name
  }

  lemma PlacedNames(files: seq<File>, bases: seq<Word>, queue: seq<Module>)
    requires |queue| <= |files| == |bases| && forall k | 0 <= k < |files| :: FileOk(files[k])
    requires AllPlaced(files, bases, queue)
    ensures SameNames(files, queue)
  {
  }

  lemma OneMorePlaced(files: seq<File>, bases: seq<Word>, queue: seq<Module>, m: Module)
    requires |queue| < |files| == |bases| && forall k | 0 <= k < |files| :: FileOk(files[k])
    requires AllPlaced(files, bases, queue) && IsPlaced(files[|queue|], bases[|queue|], m) && ModuleOk(m)
    ensures AllPlaced(files, bases, queue + [m])
  {
  }

  lemma OneMoreName(files: seq<File>, queue: seq<Module>, m: Module)
    requires SameNames(files, queue + [m]) && DistinctNames(queue)
    requires forall j | 0 <= j < |queue| :: queue[j].name != m.name
    requires LoadableFirst(files, |queue|) && Preparable(files[|queue|], |queue| + 1)
    ensures DistinctNames(queue + [m]) && LoadableFirst(files, |queue| + 1)
  {
    forall k | 0 <= k < |queue| ensures files[k].name != files[|queue|].name {
      assert (queue + [m])[k] == queue[k];
    }
  }

  /** The modules queued can be loaded, with the `find` macro as it is written. */
  ghost predicate RunsThrough(modules: seq<Module>, kernel: map<string, Word>)
    requires forall i | 0 <= i < |modules| :: ModuleOk(modules[i])
  {
    Completion.CanLoad(System(modules, GraphAsWritten(modules), kernel))
  }

  /** `module_init`: queue the boot modules, then run them in queue order.  It completes exactly if all
      can be queued and what is queued can be loaded. */
  method LoadModules(files: seq<File>, bases: seq<Word>, kernel: map<string, Word>)
    returns (out: Outcome<State>, modules: seq<Module>)
    requires |bases| == |files| && forall i | 0 <= i < |files| :: FileOk(files[i])
    ensures Loadable(files) ==> RanOn(files, bases, kernel, modules, out)
    ensures !Loadable(files) ==> out.Panic?
    ensures Loadable(files) ==> (out.Ok? <==> RunsThrough(modules, kernel))
  {
    var queued := QueueModules(files, bases);
    if queued.Panic? { return Panic(queued.why), []; }
    modules := queued.value;
    out := RunQueued(modules, kernel);
  }

  /** The second loop of `module_init`, module.c:532-533, on a queue just built. */
  method RunQueued(modules: seq<Module>, kernel: map<string, Word>) returns (out: Outcome<State>)
    requires forall i | 0 <= i < |modules| :: ModuleOk(modules[i])
    ensures LoadAll(System(modules, GraphAsWritten(modules), kernel)) == out
    ensures out.Ok? <==> RunsThrough(modules, kernel)
  {
    var loader := new KernelLoader(modules, kernel);
    var failed := loader.RunAll();
    if failed.Some? { return Panic(failed.value); }
    var images := Snapshot(loader.images);
    out := Ok(State(loader.status, loader.symtab, loader.values, images, loader.calls));
    assert images == loader.View().images;
  }

  method Snapshot(cores: seq<array<Byte>>) returns (images: seq<seq<Byte>>)
    ensures |images| == |cores| && forall i | 0 <= i < |cores| :: images[i] == cores[i][..]
  {
    images := [];
    for i := 0 to |cores|
      invariant |images| == i && forall j | 0 <= j < i :: images[j] == cores[j][..]
    {
      images := images + [cores[i][..]];
    }
  }

  /** `modules` are the files placed at `bases`, and loading them came out as `out`. */
  ghost predicate RanOn(files: seq<File>, bases: seq<Word>, kernel: map<string, Word>, modules: seq<Module>, out: Outcome<State>)
    requires |bases| == |files| && forall i | 0 <= i < |files| :: FileOk(files[i])
  {
    && |modules| == |files| && DistinctNames(modules)
    && (forall i | 0 <= i < |files| :: IsPlaced(files[i], bases[i], modules[i]) && ModuleOk(modules[i]))
    && LoadAll(System(modules, GraphAsWritten(modules), kernel)) == out
  }

  /** After a completed `module_init`, in every module whose relocation slots are disjoint, each slot
      meets its psABI formula with the bound symbol values, and every other byte of every section is
      the file's content or zero. */
  lemma ImagesAfterLoad(files: seq<File>, bases: seq<Word>, kernel: map<string, Word>, modules: seq<Module>, st: State, i: nat)
    requires |bases| == |files| && forall i | 0 <= i < |files| :: FileOk(files[i])
    requires RanOn(files, bases, kernel, modules, Ok(st)) && i < |files|
    requires AllInRange(EnvOf(modules[i], FileValues(modules[i])), modules[i].relocs, |modules[i].image|)
    requires DisjointSlots(EnvOf(modules[i], FileValues(modules[i])), modules[i].relocs, |modules[i].image|)
    ensures |st.values| == |st.images| == |files| && |st.values[i]| == |modules[i].syms|
    ensures AllInRange(EnvOf(modules[i], st.values[i]), modules[i].relocs, |modules[i].image|)
    ensures PrefixDone(EnvOf(modules[i], st.values[i]), modules[i].relocs, |modules[i].relocs|, modules[i].image, st.images[i])
    ensures forall j: nat, k: nat | Allocated(files[i].sections, j) && k < files[i].sections[j].size ::
              SectionByte(files[i].sections, j, k, modules[i], st.values[i], st.images[i])
  {
    var sys, m := System(modules, GraphAsWritten(modules), kernel), modules[i];
    LinkingCoherence(sys, st);
    assert ModuleLinked(sys, st, i);
    SameSlots(m, FileValues(m), st.values[i]);
    RelocationCorrect(EnvOf(m, st.values[i]), m.relocs, |m.relocs|, m.image);
    SectionBytes(files[i], bases[i], m, st.values[i], st.images[i]);
  }

  lemma SectionBytes(f: File, base: Word, m: Module, values: seq<Word>, image: seq<Byte>)
    requires FileOk(f) && IsPlaced(f, base, m)
    requires AllInRange(EnvOf(m, values), m.relocs, |m.image|)
    requires PrefixDone(EnvOf(m, values), m.relocs, |m.relocs|, m.image, image)
    ensures forall j: nat, k: nat | Allocated(f.sections, j) && k < f.sections[j].size ::
              SectionByte(f.sections, j, k, m, values, image)
  {
    var ss := f.sections;
    forall j: nat, k: nat | Allocated(ss, j) && k < ss[j].size ensures SectionByte(ss, j, k, m, values, image) {
      assert HoldsSection(ss, j, m.image);
      HeldByte(ss, j, k, m.image);
    }
  }

  lemma HeldByte(ss: seq<Section>, j: nat, k: nat, image: seq<Byte>)
    requires SectionLayout.WellFormed(ss) && Allocated(ss, j) && k < ss[j].size && HoldsSection(ss, j, image)
    ensures Start(ss, j) + k < |image| && image[Start(ss, j) + k] == Content(ss[j])[k]
  {
    var a := Start(ss, j);
    assert image[a..a + ss[j].size][k] == image[a + k];
  }

  /** Byte `k` of section `j` is the file's, unless a relocation slot covers it. */
  ghost predicate SectionByte(ss: seq<Section>, j: nat, k: nat, m: Module, values: seq<Word>, image: seq<Byte>)
    requires SectionLayout.WellFormed(ss) && Allocated(ss, j) && k < ss[j].size
    requires AllInRange(EnvOf(m, values), m.relocs, |m.image|)
  {
    && Start(ss, j) + k < |image|
    && (Touched(EnvOf(m, values), m.relocs, |m.relocs|, |m.image|, Start(ss, j) + k)
        || image[Start(ss, j) + k] == Content(ss[j])[k])
  }

  lemma SameSlots(m: Module, values: seq<Word>, values': seq<Word>)
    requires ModuleOk(m) && |values| == |values'| == |m.syms|
    requires AllInRange(EnvOf(m, values), m.relocs, |m.image|)
    requires DisjointSlots(EnvOf(m, values), m.relocs, |m.image|)
    ensures AllInRange(EnvOf(m, values'), m.relocs, |m.image|)
    ensures DisjointSlots(EnvOf(m, values'), m.relocs, |m.image|)
  {
    SlotsStayInRange(m, values');
    forall j | 0 <= j < |m.relocs| ensures Slot(EnvOf(m, values'), m.relocs[j]) == Slot(EnvOf(m, values), m.relocs[j]) {}
  }
}
