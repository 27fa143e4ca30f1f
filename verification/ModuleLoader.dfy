/** The loader as the kernel runs it: module status, symbol table, symbol values and images are
    updated in place.  Each method is proved against the functions of `Loader`. */
module ModuleLoader {
  import opened Bits
  import opened Outcomes
  import opened Relocation
  import opened Loader
  import Completion = LoaderCompletion

  class KernelLoader {
    const sys: System
    var status: seq<Status>
    var symtab: seq<Symbol>
    var values: seq<seq<Word>>
    var init: seq<Word>
    var dnit: seq<Word>
    var calls: seq<Call>
    const images: seq<array<Byte>>

    /** (`== true` keeps the verifier from splitting a fact that most proofs only pass along.) */
    ghost predicate Valid()
      reads this
    {
      Consistent() == true
    }

    /** The dependencies are those of the queue, and every module has its own image. */
    ghost predicate Consistent()
      reads this
    {
      && WellFormed(sys)
      && sys.deps == GraphAsWritten(sys.modules)
      && |status| == |values| == |init| == |dnit| == |images| == |sys.modules|
      && (forall i | 0 <= i < |sys.modules| :: |values[i]| == |sys.modules[i].syms|)
      && (forall i | 0 <= i < |sys.modules| :: images[i].Length == |sys.modules[i].image|)
      && (forall i, j | 0 <= i < j < |images| :: images[i] != images[j])
    }

    /** `kcalloc` left the entry points of every module not yet linked at NULL. */
    ghost predicate NoEarlyEntry()
      requires Valid()
      reads this
    {
      forall i | 0 <= i < |sys.modules| && !status[i].Loaded? :: init[i] == 0 && dnit[i] == 0
    }

    ghost function View(): (st: State)
      requires Valid()
      reads this, images
      ensures Shape(sys, st)
    {
      State(status, symtab, values,
            seq(|images|, i requires 0 <= i < |images| reads this, images => images[i][..]), calls)
    }

    constructor (modules: seq<Module>, kernel: map<string, Word>)
      requires forall i | 0 <= i < |modules| :: ModuleOk(modules[i])
      ensures Valid() && NoEarlyEntry() && sys == System(modules, GraphAsWritten(modules), kernel) && View() == Initial(sys)
      ensures fresh(images)
    {
      sys := System(modules, GraphAsWritten(modules), kernel);
      var n := |modules|;
      status := seq(n, i => Ready);
      symtab := [];
      values := seq(n, i requires 0 <= i < n => FileValues(modules[i]));
      init, dnit := seq(n, i => 0), seq(n, i => 0);
      calls := [];
      var cores: seq<array<Byte>> := [];
      for j := 0 to n
        invariant |cores| == j && fresh(cores)
        invariant forall i | 0 <= i < j :: cores[i][..] == modules[i].image
        invariant forall i, k | 0 <= i < k < j :: cores[i] != cores[k]
      {
        var core := new Byte[|modules[j].image|](k requires 0 <= k < |modules[j].image| => modules[j].image[k]);
        assert core[..] == modules[j].image;
        cores := cores + [core];
      }
      images := cores;
    }

    /** module.c:41-76.  `m` is the exporting module, or `None` when a kernel symbol is cached.  A null
        address stops the kernel.  A module's reserved names stay out of the table, and set its entry
        points; any other name becomes the last entry, unless the table has it, which stops the kernel. */
    method Export(m: Option<nat>, name: string, address: Word) returns (failed: Option<Reason>)
      requires Valid() && (m.Some? ==> m.value < |sys.modules|)
      modifies this`symtab, this`init, this`dnit
      ensures |init| == |dnit| == |status|
      ensures m.Some? ==> init == old(init)[m.value := init[m.value]] && dnit == old(dnit)[m.value := dnit[m.value]]
      ensures m.None? ==> init == old(init) && dnit == old(dnit)
      ensures m.Some? ==>
                var out := ExportFrom(Link(old(symtab), [], old(init)[m.value], old(dnit)[m.value]), name, address);
                if failed.Some? then out == Panic(failed.value)
                else out == Ok(Link(symtab, [], init[m.value], dnit[m.value]))
      ensures m.None? ==>
                var out := Loader.Export(old(symtab), name, address);
                if failed.Some? then out == Panic(failed.value) else out == Ok(symtab)
      ensures var kept := m.Some? && Reserved(name);
              && failed == (if address == 0 then Some(NullAddress(name))
                            else if kept || Unnamed(old(symtab), name) then None
                            else Some(AlreadyDefined(name)))
              && symtab == (if failed.Some? || kept then old(symtab) else old(symtab) + [Symbol(name, address)])
      ensures m.Some? && failed.None? ==>
                && init[m.value] == (if name == "init" then address else old(init)[m.value])
                && dnit[m.value] == (if name == "dnit" then address else old(dnit)[m.value])
    {
      LookupExact(symtab, name);
      if address == 0 { return Some(NullAddress(name)); }
      if m.Some? {
        if name == "init" { init := init[m.value := address]; return None; }
        if name == "dnit" { dnit := dnit[m.value := address]; return None; }
        if Reserved(name) { return None; }
      }
      var v := Search(name);
      if v.Some? { return Some(AlreadyDefined(name)); }
      symtab := symtab + [Symbol(name, address)];
      return None;
    }

    /** The `list_each(m_symtab, v)` search shared by export and resolve. */
    method Search(name: string) returns (found: Option<Word>)
      ensures found == Lookup(symtab, name)
      ensures found.None? <==> Unnamed(symtab, name)
      ensures forall i: nat | FirstNamed(symtab, name, i) :: found == Some(symtab[i].address)
    {
      LookupExact(symtab, name);
      for k := 0 to |symtab|
        invariant Lookup(symtab, name) == Lookup(symtab[k..], name)
      {
        assert symtab[k..][0] == symtab[k] && symtab[k..][1..] == symtab[k + 1..];
        if symtab[k].name == name { return Some(symtab[k].address); }
      }
      return None;
    }

    /** module.c:80-94.  An entry of the table answers, and the table stays; otherwise the kernel's own
        address does and becomes the last entry; it stops the kernel exactly if there is neither. */
    method ResolveName(name: string) returns (out: Outcome<Word>)
      requires Valid()
      modifies this`symtab, this`init, this`dnit
      ensures init == old(init) && dnit == old(dnit)
      ensures forall i: nat | FirstNamed(old(symtab), name, i) ::
                out == Ok(old(symtab)[i].address) && symtab == old(symtab)
      ensures Unnamed(old(symtab), name) && name in sys.kernel && sys.kernel[name] != 0 ==>
                out == Ok(sys.kernel[name]) && symtab == old(symtab) + [Symbol(name, sys.kernel[name])]
      ensures out.Panic? <==> Unnamed(old(symtab), name) && (name !in sys.kernel || sys.kernel[name] == 0)
      ensures out.Panic? ==> out.why == UndefinedReference(name) && symtab == old(symtab)
      ensures var r := Resolve(sys.kernel, old(symtab), name);
              if out.Panic? then r == Panic(out.why) else r == Ok((symtab, out.value))
    {
      LookupExact(symtab, name);
      var v := Search(name);
      if v.Some? { return Ok(v.value); }
      var p := KernelAddress(sys.kernel, name);
      if p == 0 { return Panic(UndefinedReference(name)); }
      var _ := Export(None, name, p);
      return Ok(p);
    }

    /** What the symbol loop has made of module `m` so far. */
    ghost function LinkOf(m: nat): Link
      requires Valid() && m < |sys.modules|
      reads this
    {
      Link(symtab, values[m], init[m], dnit[m])
    }

    /** Nothing but module `m` has changed. */
    ghost predicate OnlyModule(m: nat, values0: seq<seq<Word>>, init0: seq<Word>, dnit0: seq<Word>)
      reads this
    {
      && m < |values| == |values0| && m < |init| == |init0| && m < |dnit| == |dnit0|
      && values == values0[m := values[m]] && init == init0[m := init[m]] && dnit == dnit0[m := dnit[m]]
    }

    /** One round of the symbol loop, module.c:173-192. */
    method LinkSymbol(m: nat, s: nat) returns (failed: Option<Reason>)
      requires Valid() && m < |sys.modules| && s < |sys.modules[m].syms|
      modifies this`symtab, this`values, this`init, this`dnit
      ensures Valid()
      ensures OnlyModule(m, old(values), old(init), old(dnit))
      ensures LinkSym(sys.kernel, sys.modules[m], s, old(LinkOf(m)))
           == if failed.Some? then Panic(failed.value) else Ok(LinkOf(m))
    {
      var mod, sym := sys.modules[m], sys.modules[m].syms[s];
      failed := None;
      match sym.shndx {
        case Abs =>
        case Undef =>
          var r := ResolveName(sym.name);
          if r.Panic? { return Some(r.why); }
          values := values[m := values[m][s := r.value]];
        case InSection(k) =>
          var v := Wrap(values[m][s] + mod.base + mod.sectionAddr[k]);
          values := values[m := values[m][s := v]];
          if sym.isFunc && sym.isGlobal {
            ExportIgnoresValues(LinkOf(m), sym.name, v);
            failed := Export(Some(m), sym.name, v);
          }
      }
    }

    method LinkNext(m: nat, s: nat, ghost l0: Link) returns (failed: Option<Reason>)
      requires Valid() && m < |sys.modules| && s < |sys.modules[m].syms| == |l0.values|
      requires LinkFirst(sys.kernel, sys.modules[m], s, l0) == Ok(LinkOf(m))
      modifies this`symtab, this`values, this`init, this`dnit
      ensures Valid() && OnlyModule(m, old(values), old(init), old(dnit))
      ensures LinkFirst(sys.kernel, sys.modules[m], if failed.Some? then |sys.modules[m].syms| else s + 1, l0)
           == if failed.Some? then Panic(failed.value) else Ok(LinkOf(m))
    {
      failed := LinkSymbol(m, s);
      LinkFirstStep(sys.kernel, sys.modules[m], s, l0, if failed.Some? then Panic(failed.value) else Ok(LinkOf(m)));
    }

    /** The symbol loop, module.c:167-196. */
    method LinkSymbols(m: nat) returns (failed: Option<Reason>)
      requires Valid() && m < |sys.modules|
      modifies this`symtab, this`values, this`init, this`dnit
      ensures Valid()
      ensures OnlyModule(m, old(values), old(init), old(dnit))
      ensures LinkFirst(sys.kernel, sys.modules[m], |sys.modules[m].syms|, old(LinkOf(m)))
           == if failed.Some? then Panic(failed.value) else Ok(LinkOf(m))
    {
      ghost var l0 := LinkOf(m);
      ghost var mod := sys.modules[m];
      for s := 0 to |sys.modules[m].syms|
        invariant Valid()
        invariant OnlyModule(m, old(values), old(init), old(dnit))
        invariant LinkFirst(sys.kernel, mod, s, l0) == Ok(LinkOf(m))
      {
        failed := LinkNext(m, s, l0);
        if failed.Some? { return; }
      }
      return None;
    }

    /** `find` over the queue for one name, module.c:117-131. */
    method FindByName(name: string) returns (r: Option<nat>)
      ensures r == Find(sys.modules, name, 0)
    {
      for k := 0 to |sys.modules|
        invariant Find(sys.modules, name, 0) == Find(sys.modules, name, k)
      {
        if sys.modules[k].name == name { return Some(k); }
      }
      return None;
    }

    /** `find(m->deps)`, where the loop's own `m` hides the module being run. */
    method FindHiding() returns (r: Option<nat>)
      ensures r == FindHidden(sys.modules, 0)
    {
      for k := 0 to |sys.modules|
        invariant FindHidden(sys.modules, 0) == FindHidden(sys.modules, k)
      {
        if sys.modules[k].name == sys.modules[k].deps { return Some(k); }
      }
      return None;
    }

    /** The dependency list of `m`: none, one name, or looked up token by token, module.c:136-154. */
    method FindDependencies(m: nat) returns (r: Option<seq<nat>>)
      requires Valid() && m < |sys.modules|
      ensures r == sys.deps[m]
    {
      var deps := sys.modules[m].deps;
      if deps == [] { return Some([]); }
      if HasComma(deps) {
        r := LookUp(Tokens(deps));
      } else {
        var d := FindHiding();
        r := if d.None? then None else Some([d.value]);
      }
    }

    method LookUp(names: seq<string>) returns (r: Option<seq<nat>>)
      ensures r == FindAll(sys.modules, names)
    {
      var found: seq<nat> := [];
      assert names[0..] == names;
      PrefixedNone(FindAll(sys.modules, names));
      for k := 0 to |names|
        invariant |found| == k && FindAll(sys.modules, names) == Prefixed(found, FindAll(sys.modules, names[k..]))
      {
        assert names[k..][0] == names[k] && names[k..][1..] == names[k + 1..];
        var d := FindByName(names[k]);
        if d.None? { return None; }
        PrefixedOne(found, d.value, FindAll(sys.modules, names[k + 1..]));
        found := found + [d.value];
      }
      assert names[|names|..] == [] && found + [] == found;
      return Some(found);
    }

    /** module.c:99-396. */
    method Run(m: nat) returns (failed: Option<Reason>)
      requires Valid() && NoEarlyEntry() && m < |sys.modules|
      modifies this, images
      ensures Valid() && (failed.None? ==> NoEarlyEntry())
      ensures Loader.Run(sys, old(View()), m) == if failed.Some? then Panic(failed.value) else Ok(View())
      decreases ReadyOnes(status), 0
    {
      if status[m].Loaded? { return None; }
      if status[m].Loading? { return Some(DependencyLoop(m)); }
      ghost var ready := ReadyOnes(status);
      status := status[m := Loading];
      assert m in ready && m !in ReadyOnes(status);
      var deps := FindDependencies(m);
      if deps.None? { return Some(UnresolvedDependency(m)); }
      ghost var before := old(View());
      assert View() == before.(status := before.status[m := Loading]);
      failed := RunDependencies(deps.value);
      ghost var ran := if failed.Some? then Panic(failed.value) else Ok(View());
      if failed.Some? {
        RunReady(sys, before, m, deps.value, ran, ran);
        return;
      }
      failed := Finish(m);
      RunReady(sys, before, m, deps.value, ran, if failed.Some? then Panic(failed.value) else Ok(View()));
    }

    /** module.c:156-157. */
    method RunDependencies(deps: seq<nat>) returns (failed: Option<Reason>)
      requires Valid() && NoEarlyEntry() && Queued(deps, |sys.modules|)
      modifies this, images
      ensures Valid() && (failed.None? ==> NoEarlyEntry())
      ensures RunDeps(sys, old(View()), deps, |deps|) == if failed.Some? then Panic(failed.value) else Ok(View())
      decreases ReadyOnes(status), 1
    {
      ghost var start := View();
      var i := |deps|;
      while i > 0
        invariant 0 <= i <= |deps| && Valid() && NoEarlyEntry()
        invariant ReadyOnes(status) <= old(ReadyOnes(status))
        invariant RunDeps(sys, start, deps, |deps|) == RunDeps(sys, View(), deps, i)
      {
        i := i - 1;
        failed := Run(deps[i]);
        if failed.Some? { return; }
      }
      return None;
    }

    /** module.c:166-394: symbols, entry points, relocations, `init`, LOADED. */
    method Finish(m: nat) returns (failed: Option<Reason>)
      requires Valid() && NoEarlyEntry() && m < |sys.modules| && status[m].Loading?
      modifies this, images
      ensures Valid() && (failed.None? ==> NoEarlyEntry())
      ensures LinkModule(sys, old(View()), m) == if failed.Some? then Panic(failed.value) else Ok(View())
    {
      failed := LinkSymbols(m);
      if failed.Some? { return; }
      if init[m] == 0 || dnit[m] == 0 { return Some(MissingEntryPoint(m)); }
      var mod := sys.modules[m];
      SlotsStayInRange(mod, values[m]);
      failed := Relocate(images[m], EnvOf(mod, values[m]), mod.relocs);
      if failed.Some? { return; }
      calls := calls + [Call(m, init[m])];
      status := status[m := Loaded];
      assert View().images == old(View()).images[m := images[m][..]];
    }

    /** How running modules `k` onwards will come out. */
    ghost function OutcomeFrom(k: nat): Outcome<State>
      requires Valid() && k <= |sys.modules|
      reads this, images
    {
      RunFrom(sys, View(), k)
    }

    /** One round of the loop at module.c:532-533. */
    method RunNext(k: nat) returns (failed: Option<Reason>)
      requires Valid() && NoEarlyEntry() && k < |sys.modules|
      modifies this, images
      ensures Valid() && (failed.None? ==> NoEarlyEntry())
      ensures old(OutcomeFrom(k)) == if failed.Some? then Panic(failed.value) else OutcomeFrom(k + 1)
    {
      ghost var before := View();
      failed := Run(k);
      RunFromStep(sys, before, k, if failed.Some? then Panic(failed.value) else Ok(View()));
    }

    /** module.c:532-533.  From the state after the queue is built it ends exactly if the queue can be
        loaded. */
    method RunAll() returns (failed: Option<Reason>)
      requires Valid() && NoEarlyEntry()
      modifies this, images
      ensures Valid()
      ensures RunFrom(sys, old(View()), 0) == if failed.Some? then Panic(failed.value) else Ok(View())
      ensures old(View()) == Initial(sys) ==> (failed.None? <==> Completion.CanLoad(sys))
    {
      Completion.LoadCompletes(sys);
      ghost var whole := OutcomeFrom(0);
      for k := 0 to |sys.modules|
        invariant Valid() && NoEarlyEntry()
        invariant whole == OutcomeFrom(k)
      {
        failed := RunNext(k);
        if failed.Some? { return; }
      }
      return None;
    }
  }

  ghost function Prefixed(found: seq<nat>, rest: Option<seq<nat>>): Option<seq<nat>> {
    if rest.None? then None else Some(found + rest.value)
  }

  lemma PrefixedNone(rest: Option<seq<nat>>)
    ensures Prefixed([], rest) == rest
  {
    if rest.Some? { assert [] + rest.value == rest.value; }
  }

  lemma PrefixedOne(found: seq<nat>, d: nat, rest: Option<seq<nat>>)
    ensures rest.Some? ==> Prefixed(found, Some([d] + rest.value)) == Prefixed(found + [d], rest)
  {
    if rest.Some? { assert found + ([d] + rest.value) == found + [d] + rest.value; }
  }

  lemma RunFromStep(sys: System, st: State, k: nat, out: Outcome<State>)
    requires WellFormed(sys) && Shape(sys, st) && k < |sys.modules| && Run(sys, st, k) == out
    ensures RunFrom(sys, st, k) == if out.Panic? then Panic(out.why) else RunFrom(sys, out.value, k + 1)
  {
  }

  lemma ExportIgnoresValues(l: Link, name: string, address: Word)
    ensures var out, bare := ExportFrom(l, name, address), ExportFrom(l.(values := []), name, address);
            if bare.Ok? then out == Ok(bare.value.(values := l.values)) else out == bare
  {
  }

  lemma LinkFirstStep(kernel: map<string, Word>, m: Module, s: nat, l: Link, out: Outcome<Link>)
    requires ModuleOk(m) && s < |m.syms| == |l.values|
    requires LinkFirst(kernel, m, s, l).Ok? && LinkSym(kernel, m, s, LinkFirst(kernel, m, s, l).value) == out
    ensures if out.Ok? then LinkFirst(kernel, m, s + 1, l) == out else LinkFirst(kernel, m, |m.syms|, l) == out
  {
    if out.Panic? { LinkPanicStays(kernel, m, s + 1, |m.syms|, l, out); }
  }

  /** `module_run` on a READY module whose dependencies resolve to `ds`. */
  lemma RunReady(sys: System, st: State, m: nat, ds: seq<nat>, deps: Outcome<State>, out: Outcome<State>)
    requires WellFormed(sys) && Shape(sys, st) && m < |sys.modules|
    requires st.status[m].Ready? && sys.deps[m] == Some(ds)
    requires RunDeps(sys, st.(status := st.status[m := Loading]), ds, |ds|) == deps
    requires if deps.Panic? then out == Panic(deps.why) else LinkModule(sys, deps.value, m) == out
    ensures Run(sys, st, m) == out
  {
  }

  lemma LinkPanicNext(kernel: map<string, Word>, m: Module, k: nat, l: Link, out: Outcome<Link>)
    requires ModuleOk(m) && k < |m.syms| == |l.values| && LinkFirst(kernel, m, k, l) == out && out.Panic?
    ensures LinkFirst(kernel, m, k + 1, l) == out
  {
  }

  lemma {:induction false} LinkPanicStays(
    kernel: map<string, Word>, m: Module, j: nat, k: nat, l: Link, out: Outcome<Link>)
    requires ModuleOk(m) && j <= k <= |m.syms| == |l.values|
    requires LinkFirst(kernel, m, j, l) == out && out.Panic?
    ensures LinkFirst(kernel, m, k, l) == out
    decreases k
  {
    if j < k {
      LinkPanicStays(kernel, m, j, k - 1, l, out);
      LinkPanicNext(kernel, m, k - 1, l, out);
    }
  }
}
