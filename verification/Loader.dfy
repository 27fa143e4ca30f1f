/** `module_export`, `module_resolve` and `module_run` as functions on values: the loader's state
    is the status of every queued module, the global symbol table, the symbol values and images
    being patched, and the log of `init` calls. */
module Loader {
  import opened Bits
  import opened Outcomes
  import opened Relocation

  datatype Status = Ready | Loading | Loaded

  /** `st_shndx`: SHN_UNDEF, SHN_ABS or a section of the file. */
  datatype Index = Undef | Abs | InSection(k: nat)

  datatype Sym = Sym(name: string, shndx: Index, value: Word, isFunc: bool, isGlobal: bool)

  /** A queued module: its symbol table, its relocations (the SHT_REL ones first), where its
      sections and its image were put, and the image as the copy loop left it. */
  datatype Module = Module(
    name: string, deps: string, syms: seq<Sym>, relocs: seq<Reloc>,
    sectionAddr: seq<Word>, base: Word, image: seq<Byte>)

  /** An entry of `m_symtab`. */
  datatype Symbol = Symbol(name: string, address: Word)

  /** One call `m->init(m->args)`. */
  datatype Call = Call(m: nat, entry: Word)

  /** The queue, the dependencies each module's list resolves to (`None` when a name is not
      queued) and the kernel's own symbols as `core_get_address` sees them. */
  datatype System = System(modules: seq<Module>, deps: seq<Option<seq<nat>>>, kernel: map<string, Word>)

  datatype State = State(
    status: seq<Status>, symtab: seq<Symbol>, values: seq<seq<Word>>, images: seq<seq<Byte>>, calls: seq<Call>)

  function EnvOf(m: Module, values: seq<Word>): Env {
    Env(m.base, m.sectionAddr, values)
  }

  function FileValues(m: Module): (vs: seq<Word>)
    ensures |vs| == |m.syms|
  {
    seq(|m.syms|, s requires 0 <= s < |m.syms| => m.syms[s].value)
  }

  /** Section indices of symbols and the slots of relocations lie inside the module. */
  predicate ModuleOk(m: Module) {
    && (forall s | 0 <= s < |m.syms| && m.syms[s].shndx.InSection? :: m.syms[s].shndx.k < |m.sectionAddr|)
    && AllInRange(EnvOf(m, FileValues(m)), m.relocs, |m.image|)
  }

  predicate Queued(ds: seq<nat>, n: nat) {
    forall k | 0 <= k < |ds| :: ds[k] < n
  }

  /** (`== true` keeps the verifier from splitting a fact that most proofs only pass along.) */
  predicate WellFormed(sys: System) {
    Sound(sys) == true
  }

  /** Every module is in order, and dependencies are queued modules. */
  predicate Sound(sys: System) {
    && |sys.deps| == |sys.modules|
    && (forall i | 0 <= i < |sys.modules| :: ModuleOk(sys.modules[i]))
    && (forall i | 0 <= i < |sys.deps| && sys.deps[i].Some? :: Queued(sys.deps[i].value, |sys.modules|))
  }

  predicate Shape(sys: System, st: State) {
    && |st.status| == |st.values| == |st.images| == |sys.modules|
    && (forall i | 0 <= i < |sys.modules| :: |st.values[i]| == |sys.modules[i].syms|)
    && (forall i | 0 <= i < |sys.modules| :: |st.images[i]| == |sys.modules[i].image|)
  }

  function Initial(sys: System): (st: State)
    ensures Shape(sys, st)
  {
    var n := |sys.modules|;
    State(seq(n, i => Ready), [], seq(n, i requires 0 <= i < n => FileValues(sys.modules[i])),
          seq(n, i requires 0 <= i < n => sys.modules[i].image), [])
  }

  // ----------------------------------------------------------- symbol table

  function Lookup(tab: seq<Symbol>, name: string): Option<Word> {
    if tab == [] then None
    else if tab[0].name == name then Some(tab[0].address)
    else Lookup(tab[1..], name)
  }

  /** Entry `i` has the name, and none before it. */
  ghost predicate FirstNamed(tab: seq<Symbol>, name: string, i: nat) {
    i < |tab| && tab[i].name == name && forall j | 0 <= j < i :: tab[j].name != name
  }

  ghost predicate Unnamed(tab: seq<Symbol>, name: string) {
    forall i | 0 <= i < |tab| :: tab[i].name != name
  }

  /** The search answers the first entry with the name, and nothing exactly if none has it. */
  lemma {:induction false} LookupExact(tab: seq<Symbol>, name: string)
    ensures Lookup(tab, name).None? <==> Unnamed(tab, name)
    ensures forall i: nat | FirstNamed(tab, name, i) :: Lookup(tab, name) == Some(tab[i].address)
  {
    if tab != [] && tab[0].name != name {
      LookupExact(tab[1..], name);
      assert forall i | 1 <= i < |tab| :: tab[1..][i - 1] == tab[i];
      forall i: nat | FirstNamed(tab, name, i) ensures Lookup(tab, name) == Some(tab[i].address) {
        assert FirstNamed(tab[1..], name, i - 1);
      }
    }
  }

  /** Names `module_export` keeps out of the table when a module exports them. */
  predicate Reserved(name: string) {
    name == "init" || name == "dnit" || name == "__module_name__" || name == "__module_deps__"
  }

  /** `module_export` once the reserved names are out of the way. */
  function Export(tab: seq<Symbol>, name: string, address: Word): Outcome<seq<Symbol>> {
    if address == 0 then Panic(NullAddress(name))
    else if Lookup(tab, name).Some? then Panic(AlreadyDefined(name))
    else Ok(tab + [Symbol(name, address)])
  }

  function KernelAddress(kernel: map<string, Word>, name: string): Word {
    if name in kernel then kernel[name] else 0
  }

  /** `module_resolve`: the table first, then the kernel, whose answer is cached in the table. */
  function Resolve(kernel: map<string, Word>, tab: seq<Symbol>, name: string): Outcome<(seq<Symbol>, Word)> {
    var found := Lookup(tab, name);
    if found.Some? then Ok((tab, found.value))
    else
      var p := KernelAddress(kernel, name);
      if p == 0 then Panic(UndefinedReference(name))
      else
        var tab' :- Export(tab, name, p);
        Ok((tab', p))
  }

  // ------------------------------------------------------------ symbol pass

  /** What the symbol loop of `module_run` updates. */
  datatype Link = Link(tab: seq<Symbol>, values: seq<Word>, init: Word, dnit: Word)

  function ExportFrom(l: Link, name: string, address: Word): Outcome<Link> {
    if address == 0 then Panic(NullAddress(name))
    else if name == "init" then Ok(l.(init := address))
    else if name == "dnit" then Ok(l.(dnit := address))
    else if Reserved(name) then Ok(l)
    else
      var tab :- Export(l.tab, name, address);
      Ok(l.(tab := tab))
  }

  function LinkSym(kernel: map<string, Word>, m: Module, s: nat, l: Link): (out: Outcome<Link>)
    requires ModuleOk(m) && s < |m.syms| == |l.values|
    ensures out.Ok? ==> |out.value.values| == |m.syms|
  {
    var sym := m.syms[s];
    match sym.shndx
    case Abs => Ok(l)
    case Undef =>
      var r :- Resolve(kernel, l.tab, sym.name);
      Ok(l.(tab := r.0, values := l.values[s := r.1]))
    case InSection(k) =>
      var v := Wrap(l.values[s] + m.base + m.sectionAddr[k]);
      var l' := l.(values := l.values[s := v]);
      if sym.isFunc && sym.isGlobal then ExportFrom(l', sym.name, v) else Ok(l')
  }

  /** The symbol loop after its first `k` rounds. */
  function LinkFirst(kernel: map<string, Word>, m: Module, k: nat, l: Link): (out: Outcome<Link>)
    requires ModuleOk(m) && k <= |m.syms| == |l.values|
    ensures out.Ok? ==> |out.value.values| == |m.syms|
  {
    if k == 0 then Ok(l)
    else
      var before :- LinkFirst(kernel, m, k - 1, l);
      LinkSym(kernel, m, k - 1, before)
  }

  lemma SlotsStayInRange(m: Module, values: seq<Word>)
    requires ModuleOk(m) && |values| == |m.syms|
    ensures AllInRange(EnvOf(m, values), m.relocs, |m.image|)
  {
    forall j | 0 <= j < |m.relocs| ensures InRange(EnvOf(m, values), m.relocs[j], |m.image|) {
      assert InRange(EnvOf(m, FileValues(m)), m.relocs[j], |m.image|);
    }
  }

  /** Everything `module_run` does to a module once its dependencies are in: symbols, entry points,
      relocations, the `init` call and the LOADED status. */
  function LinkModule(sys: System, st: State, i: nat): (out: Outcome<State>)
    requires WellFormed(sys) && Shape(sys, st) && i < |sys.modules|
    ensures out.Ok? ==> Shape(sys, out.value) && out.value.status == st.status[i := Loaded]
  {
    var m := sys.modules[i];
    var l :- LinkFirst(sys.kernel, m, |m.syms|, Link(st.symtab, st.values[i], 0, 0));
    if l.init == 0 || l.dnit == 0 then Panic(MissingEntryPoint(i))
    else
      SlotsStayInRange(m, l.values);
      var image :- Relocated(EnvOf(m, l.values), m.relocs, st.images[i]);
      Ok(State(st.status[i := Loaded], l.tab, st.values[i := l.values], st.images[i := image],
               st.calls + [Call(i, l.init)]))
  }

  // ----------------------------------------------------- dependency recursion

  ghost function ReadyOnes(status: seq<Status>): set<nat> {
    set i: nat | i < |status| && status[i].Ready?
  }

  /** `module_run`. */
  function Run(sys: System, st: State, i: nat): (out: Outcome<State>)
    requires WellFormed(sys) && Shape(sys, st) && i < |sys.modules|
    ensures out.Ok? ==> Shape(sys, out.value) && ReadyOnes(out.value.status) <= ReadyOnes(st.status)
    ensures out.Ok? ==> forall j | 0 <= j < |sys.modules| && st.status[j].Loading? :: out.value.status[j].Loading?
    decreases ReadyOnes(st.status), 0
  {
    match st.status[i]
    case Loaded => Ok(st)
    case Loading => Panic(DependencyLoop(i))
    case Ready =>
      var marked := st.(status := st.status[i := Loading]);
      assert i in ReadyOnes(st.status) && i !in ReadyOnes(marked.status);
      if sys.deps[i].None? then Panic(UnresolvedDependency(i))
      else
        var ds := sys.deps[i].value;
        var after :- RunDeps(sys, marked, ds, |ds|);
        LinkModule(sys, after, i)
  }

  /** The `while(i) module_run(deps[--i])` loop: the last of the first `k` dependencies goes first. */
  function RunDeps(sys: System, st: State, ds: seq<nat>, k: nat): (out: Outcome<State>)
    requires WellFormed(sys) && Shape(sys, st) && k <= |ds| && Queued(ds, |sys.modules|)
    ensures out.Ok? ==> Shape(sys, out.value) && ReadyOnes(out.value.status) <= ReadyOnes(st.status)
    ensures out.Ok? ==> forall j | 0 <= j < |sys.modules| && st.status[j].Loading? :: out.value.status[j].Loading?
    decreases ReadyOnes(st.status), 1, k
  {
    if k == 0 then Ok(st)
    else
      var after :- Run(sys, st, ds[k - 1]);
      RunDeps(sys, after, ds, k - 1)
  }

  /** The loop at the end of `module_init` over modules `k` onwards. */
  function RunFrom(sys: System, st: State, k: nat): (out: Outcome<State>)
    requires WellFormed(sys) && Shape(sys, st) && k <= |sys.modules|
    ensures out.Ok? ==> Shape(sys, out.value)
    decreases |sys.modules| - k
  {
    if k == |sys.modules| then Ok(st)
    else
      var after :- Run(sys, st, k);
      RunFrom(sys, after, k + 1)
  }

  function LoadAll(sys: System): Outcome<State>
    requires WellFormed(sys)
  {
    RunFrom(sys, Initial(sys), 0)
  }

  // -------------------------------------------------- dependency resolution

  predicate HasComma(s: string) { ',' in s }

  /** The pieces `strtok(s, ",")` yields: maximal comma-free stretches, empty ones skipped. */
  function Tokens(s: string): seq<string> {
    if s == [] then []
    else if s[0] == ',' then Tokens(s[1..])
    else
      var n := TokenLength(s);
      [s[..n]] + Tokens(s[n..])
  }

  function TokenLength(s: string): (n: nat)
    ensures n <= |s| && ',' !in s[..n]
    ensures n < |s| ==> s[n] == ','
    ensures s != [] && s[0] != ',' ==> n > 0
  {
    if s == [] || s[0] == ',' then 0
    else
      assert s[..1 + TokenLength(s[1..])] == [s[0]] + s[1..][..TokenLength(s[1..])];
      1 + TokenLength(s[1..])
  }

  /** The names a dependency list stands for: none, the whole string, or its tokens. */
  function DependencyNames(deps: string): seq<string> {
    if deps == [] then []
    else if !HasComma(deps) then [deps]
    else Tokens(deps)
  }

  /** The first queued module called `name`, at position `k` or later. */
  function Find(modules: seq<Module>, name: string, k: nat): (r: Option<nat>)
    requires k <= |modules|
    ensures r.Some? ==> k <= r.value < |modules| && modules[r.value].name == name
    ensures r.Some? ==> forall j | k <= j < r.value :: modules[j].name != name
    ensures r.None? ==> forall j | k <= j < |modules| :: modules[j].name != name
    decreases |modules| - k
  {
    if k == |modules| then None
    else if modules[k].name == name then Some(k)
    else Find(modules, name, k + 1)
  }

  predicate QueuedName(modules: seq<Module>, name: string) {
    exists j | 0 <= j < |modules| :: modules[j].name == name
  }

  /** All of a module's names looked up in order; `None`, the unresolved-dependency panic, exactly if
      one of them is not queued. */
  function FindAll(modules: seq<Module>, names: seq<string>): (r: Option<seq<nat>>)
    ensures r.None? <==> exists k | 0 <= k < |names| :: !QueuedName(modules, names[k])
    ensures r.Some? ==> |r.value| == |names|
    ensures r.Some? ==> forall k | 0 <= k < |names| :: Find(modules, names[k], 0) == Some(r.value[k])
  {
    if names == [] then Some([])
    else
      var d, ds := Find(modules, names[0], 0), FindAll(modules, names[1..]);
      assert forall k | 0 < k < |names| :: names[1..][k - 1] == names[k];
      assert d.Some? ==> modules[d.value].name == names[0];
      if d.Some? && ds.Some? then Some([d.value] + ds.value) else None
  }

  /** The dependency graph of a queue. */
  function GraphOf(modules: seq<Module>): (g: seq<Option<seq<nat>>>)
    ensures |g| == |modules|
    ensures forall i | 0 <= i < |g| && g[i].Some? :: Queued(g[i].value, |modules|)
  {
    seq(|modules|, i requires 0 <= i < |modules| => FindAll(modules, DependencyNames(modules[i].deps)))
  }

  /** A list that names exactly one module, taken by the branch without `strtok`. */
  predicate SingleName(deps: string) { deps != [] && !HasComma(deps) }

  /** The `find` macro in that branch: its loop variable hides the module being run, so it looks for
      a module whose own name is its own dependency list. */
  function FindHidden(modules: seq<Module>, k: nat): (r: Option<nat>)
    requires k <= |modules|
    ensures r.Some? ==> r.value < |modules| && modules[r.value].name == modules[r.value].deps
    decreases |modules| - k
  {
    if k == |modules| then None
    else if modules[k].name == modules[k].deps then Some(k)
    else FindHidden(modules, k + 1)
  }

  /** The dependency graph with the macro expanded as it is written. */
  function GraphAsWritten(modules: seq<Module>): (g: seq<Option<seq<nat>>>)
    ensures |g| == |modules|
    ensures forall i | 0 <= i < |g| && g[i].Some? :: Queued(g[i].value, |modules|)
  {
    seq(|modules|, i requires 0 <= i < |modules| =>
      if SingleName(modules[i].deps)
      then (match FindHidden(modules, 0) case None => None case Some(r) => Some([r]))
      else FindAll(modules, DependencyNames(modules[i].deps)))
  }
}
