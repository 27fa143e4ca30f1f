/** When a load completes: exactly if the dependency graph is resolved and has no cycle, and every
    module, at its place in the order that graph gives, finds the names it needs and brings none that
    is taken. */
module LoaderCompletion {
  import opened Bits
  import opened Outcomes
  import opened Relocation
  import opened Loader
  import opened LoaderTheorems

  // ------------------------------------------------------------------ names

  ghost predicate HasKernel(sys: System, n: string) {
    n in sys.kernel && sys.kernel[n] != 0
  }

  /** One of the first `k` symbols of `m` is exported as `n`. */
  ghost predicate ExportsFirst(m: Module, k: nat, n: string) {
    exists s: nat :: s < k && Exports(m, s) && m.syms[s].name == n
  }

  /** One of the first `k` symbols of `m` is an undefined reference to `n`. */
  ghost predicate AsksFirst(m: Module, k: nat, n: string) {
    exists s: nat :: s < k && s < |m.syms| && m.syms[s].shndx.Undef? && m.syms[s].name == n
  }

  ghost predicate ExportedIn(sys: System, before: seq<nat>, n: string) {
    exists p: nat :: p < |before| && before[p] < |sys.modules|
      && ExportsFirst(sys.modules[before[p]], |sys.modules[before[p]].syms|, n)
  }

  ghost predicate AskedIn(sys: System, before: seq<nat>, n: string) {
    exists p: nat :: p < |before| && before[p] < |sys.modules|
      && AsksFirst(sys.modules[before[p]], |sys.modules[before[p]].syms|, n)
  }

  /** `n` is exported by the modules `before`, or by the first `k` symbols of `m`. */
  ghost predicate Offered(sys: System, before: seq<nat>, m: Module, k: nat, n: string) {
    ExportedIn(sys, before, n) || ExportsFirst(m, k, n)
  }

  /** `n` is exported there or asked for there. */
  ghost predicate Used(sys: System, before: seq<nat>, m: Module, k: nat, n: string) {
    Offered(sys, before, m, k, n) || AskedIn(sys, before, n) || AsksFirst(m, k, n)
  }

  // ------------------------------------------------------- when a module links

  ghost predicate GlobalFunction(m: Module, s: nat) {
    s < |m.syms| && m.syms[s].shndx.InSection? && m.syms[s].isFunc && m.syms[s].isGlobal
  }

  /** With the modules `before` linked and the symbols of `m` before `s` done, symbol `s` can be done: an
      undefined name is in the kernel or exported by then; a global function is not at NULL and, unless
      its name is reserved, that name was neither exported nor asked for before. */
  ghost predicate SymbolOk(sys: System, before: seq<nat>, m: Module, s: nat)
    requires ModuleOk(m) && s < |m.syms|
  {
    var n := m.syms[s].name;
    && (m.syms[s].shndx.Undef? ==> HasKernel(sys, n) || Offered(sys, before, m, s, n))
    && (GlobalFunction(m, s) ==> Address(m, s) != 0)
    && (Exports(m, s) ==> !Used(sys, before, m, s, n))
  }

  ghost predicate SymbolsOk(sys: System, before: seq<nat>, m: Module, k: nat)
    requires ModuleOk(m) && k <= |m.syms|
  {
    forall s: nat | s < k :: SymbolOk(sys, before, m, s)
  }

  /** One of the first `k` symbols is a global function of this name. */
  ghost predicate HasEntry(m: Module, k: nat, n: string) {
    exists s: nat :: s < k && GlobalFunction(m, s) && m.syms[s].name == n
  }

  /** Module `i` links once the modules `before` have. */
  ghost predicate Links(sys: System, before: seq<nat>, i: nat)
    requires WellFormed(sys) && i < |sys.modules|
  {
    var m := sys.modules[i];
    && SymbolsOk(sys, before, m, |m.syms|)
    && HasEntry(m, |m.syms|, "init") && HasEntry(m, |m.syms|, "dnit")
    && forall j | 0 <= j < |m.relocs| :: Known(m.relocs[j].kind)
  }

  // ------------------------------------------------------------- symbol table

  /** The table has the names used so far, and those of them that nobody exports the kernel has. */
  ghost predicate NameAt(sys: System, before: seq<nat>, m: Module, k: nat, tab: seq<Symbol>, n: string) {
    && (Unnamed(tab, n) <==> !Used(sys, before, m, k, n))
    && (Used(sys, before, m, k, n) ==> Offered(sys, before, m, k, n) || HasKernel(sys, n))
  }

  ghost predicate TableAt(sys: System, before: seq<nat>, m: Module, k: nat, tab: seq<Symbol>) {
    forall n {:trigger NameAt(sys, before, m, k, tab, n)} :: NameAt(sys, before, m, k, tab, n)
  }

  lemma UnnamedMore(tab: seq<Symbol>, e: Symbol, n: string)
    ensures Unnamed(tab + [e], n) <==> Unnamed(tab, n) && e.name != n
  {
    assert (tab + [e])[|tab|] == e;
    if Unnamed(tab + [e], n) {
      forall i | 0 <= i < |tab| ensures tab[i].name != n { assert (tab + [e])[i] == tab[i]; }
    }
  }

  lemma FirstMore(m: Module, k: nat, n: string)
    requires k < |m.syms|
    ensures ExportsFirst(m, k + 1, n) <==> ExportsFirst(m, k, n) || (Exports(m, k) && m.syms[k].name == n)
    ensures AsksFirst(m, k + 1, n) <==> AsksFirst(m, k, n) || (m.syms[k].shndx.Undef? && m.syms[k].name == n)
    ensures HasEntry(m, k + 1, n) <==> HasEntry(m, k, n) || (GlobalFunction(m, k) && m.syms[k].name == n)
  {
  }

  /** What a symbol adds to the table: nothing, or its name if that is new. */
  ghost predicate Adds(m: Module, k: nat, tab: seq<Symbol>, tab': seq<Symbol>)
    requires k < |m.syms|
  {
    if m.syms[k].shndx.Undef? || Exports(m, k)
    then (tab' == tab && !Unnamed(tab, m.syms[k].name))
         || exists a: Word :: tab' == tab + [Symbol(m.syms[k].name, a)]
    else tab' == tab
  }

  lemma NameNext(sys: System, before: seq<nat>, m: Module, k: nat, tab: seq<Symbol>, tab': seq<Symbol>, n: string)
    requires ModuleOk(m) && k < |m.syms| && NameAt(sys, before, m, k, tab, n)
    requires SymbolOk(sys, before, m, k) && Adds(m, k, tab, tab')
    ensures NameAt(sys, before, m, k + 1, tab', n)
  {
    FirstMore(m, k, n);
    if tab' != tab {
      var a: Word :| tab' == tab + [Symbol(m.syms[k].name, a)];
      UnnamedMore(tab, Symbol(m.syms[k].name, a), n);
    }
  }

  lemma TableNext(sys: System, before: seq<nat>, m: Module, k: nat, next: nat, tab: seq<Symbol>, tab': seq<Symbol>)
    requires ModuleOk(m) && k < |m.syms| && next == k + 1 && TableAt(sys, before, m, k, tab)
    requires SymbolOk(sys, before, m, k) && Adds(m, k, tab, tab')
    ensures TableAt(sys, before, m, next, tab')
  {
    forall n ensures NameAt(sys, before, m, next, tab', n) {
      assert NameAt(sys, before, m, k, tab, n);
      NameNext(sys, before, m, k, tab, tab', n);
    }
  }

  /** One round of the symbol loop ends exactly if the symbol can be done. */
  lemma SymbolExact(sys: System, before: seq<nat>, m: Module, k: nat, l: Link)
    requires ModuleOk(m) && k < |m.syms| == |l.values| && l.values[k] == m.syms[k].value
    requires TableAt(sys, before, m, k, l.tab)
    ensures LinkSym(sys.kernel, m, k, l).Ok? <==> SymbolOk(sys, before, m, k)
    ensures LinkSym(sys.kernel, m, k, l).Ok? ==> SymbolDone(m, k, l, LinkSym(sys.kernel, m, k, l).value)
  {
    var n := m.syms[k].name;
    LookupExact(l.tab, n);
    assert NameAt(sys, before, m, k, l.tab, n);
  }

  /** What such a round changes. */
  ghost predicate SymbolDone(m: Module, k: nat, l: Link, l': Link)
    requires ModuleOk(m) && k < |m.syms| == |l.values|
  {
    && |l'.values| == |l.values| && (forall s: nat | s < |l.values| && s != k :: l'.values[s] == l.values[s])
    && Adds(m, k, l.tab, l'.tab)
    && l'.init == (if GlobalFunction(m, k) && m.syms[k].name == "init" then Address(m, k) else l.init)
    && l'.dnit == (if GlobalFunction(m, k) && m.syms[k].name == "dnit" then Address(m, k) else l.dnit)
  }

  /** The symbol loop after its first `k` rounds. */
  ghost predicate LinkAt(sys: System, before: seq<nat>, m: Module, k: nat, l: Link)
    requires ModuleOk(m)
  {
    && k <= |m.syms| == |l.values| && (forall s: nat | k <= s < |m.syms| :: l.values[s] == m.syms[s].value)
    && TableAt(sys, before, m, k, l.tab)
    && (l.init != 0 <==> HasEntry(m, k, "init")) && (l.dnit != 0 <==> HasEntry(m, k, "dnit"))
  }

  lemma LinkAtNext(sys: System, before: seq<nat>, m: Module, k: nat, l: Link, l': Link)
    requires ModuleOk(m) && k < |m.syms| && LinkAt(sys, before, m, k, l)
    requires SymbolOk(sys, before, m, k) && SymbolDone(m, k, l, l')
    ensures LinkAt(sys, before, m, k + 1, l')
  {
    FirstMore(m, k, "init");
    FirstMore(m, k, "dnit");
    TableNext(sys, before, m, k, k + 1, l.tab, l'.tab);
  }

  /** The symbol loop ends exactly if every symbol can be done. */
  lemma {:induction false} SymbolsExact(sys: System, before: seq<nat>, m: Module, k: nat, l: Link)
    requires ModuleOk(m) && k <= |m.syms| && LinkAt(sys, before, m, 0, l) == true
    ensures LinkFirst(sys.kernel, m, k, l).Ok? == SymbolsOk(sys, before, m, k)
    ensures LinkFirst(sys.kernel, m, k, l).Ok? ==>
              LinkAt(sys, before, m, k, LinkFirst(sys.kernel, m, k, l).value) == true
    decreases k
  {
    if k > 0 {
      SymbolsExact(sys, before, m, k - 1, l);
      SymbolsOkNext(sys, before, m, k - 1);
      LastRound(sys, before, m, k, l, LinkFirst(sys.kernel, m, k - 1, l));
    }
  }

  lemma SymbolsOkNext(sys: System, before: seq<nat>, m: Module, k: nat)
    requires ModuleOk(m) && k < |m.syms|
    ensures SymbolsOk(sys, before, m, k + 1) <==> SymbolsOk(sys, before, m, k) && SymbolOk(sys, before, m, k)
  {
  }

  lemma LastRound(sys: System, before: seq<nat>, m: Module, k: nat, l: Link, out: Outcome<Link>)
    requires ModuleOk(m) && 0 < k <= |m.syms| == |l.values| && LinkFirst(sys.kernel, m, k - 1, l) == out
    requires out.Ok? ==> LinkAt(sys, before, m, k - 1, out.value) == true
    ensures LinkFirst(sys.kernel, m, k, l).Ok? <==> out.Ok? && SymbolOk(sys, before, m, k - 1)
    ensures LinkFirst(sys.kernel, m, k, l).Ok? ==>
              LinkAt(sys, before, m, k, LinkFirst(sys.kernel, m, k, l).value) == true
  {
    if out.Ok? { RoundExact(sys, before, m, k - 1, out.value); }
  }

  lemma RoundExact(sys: System, before: seq<nat>, m: Module, k: nat, l: Link)
    requires ModuleOk(m) && k < |m.syms| == |l.values| && LinkAt(sys, before, m, k, l)
    ensures LinkSym(sys.kernel, m, k, l).Ok? <==> SymbolOk(sys, before, m, k)
    ensures LinkSym(sys.kernel, m, k, l).Ok? ==>
              LinkAt(sys, before, m, k + 1, LinkSym(sys.kernel, m, k, l).value) == true
  {
    SymbolExact(sys, before, m, k, l);
    if SymbolOk(sys, before, m, k) {
      LinkAtNext(sys, before, m, k, l, LinkSym(sys.kernel, m, k, l).value);
    }
  }

  /** The table once the modules `before` are linked. */
  ghost predicate NameAfter(sys: System, before: seq<nat>, tab: seq<Symbol>, n: string) {
    && (Unnamed(tab, n) <==> !ExportedIn(sys, before, n) && !AskedIn(sys, before, n))
    && (AskedIn(sys, before, n) ==> ExportedIn(sys, before, n) || HasKernel(sys, n))
  }

  ghost predicate TableAfter(sys: System, before: seq<nat>, tab: seq<Symbol>) {
    forall n {:trigger NameAfter(sys, before, tab, n)} :: NameAfter(sys, before, tab, n)
  }

  lemma TableStarts(sys: System, before: seq<nat>, m: Module, tab: seq<Symbol>)
    requires TableAfter(sys, before, tab)
    ensures TableAt(sys, before, m, 0, tab)
  {
    forall n ensures NameAt(sys, before, m, 0, tab, n) {
      assert NameAfter(sys, before, tab, n);
    }
  }

  lemma InMore(sys: System, before: seq<nat>, i: nat, n: string)
    requires i < |sys.modules|
    ensures var m := sys.modules[i];
            && (ExportedIn(sys, before + [i], n) <==> ExportedIn(sys, before, n) || ExportsFirst(m, |m.syms|, n))
            && (AskedIn(sys, before + [i], n) <==> AskedIn(sys, before, n) || AsksFirst(m, |m.syms|, n))
  {
    var more := before + [i];
    assert more[|before|] == i;
    if ExportedIn(sys, before, n) {
      var p: nat :| p < |before| && before[p] < |sys.modules|
        && ExportsFirst(sys.modules[before[p]], |sys.modules[before[p]].syms|, n);
      assert more[p] == before[p];
    }
    if AskedIn(sys, before, n) {
      var p: nat :| p < |before| && before[p] < |sys.modules|
        && AsksFirst(sys.modules[before[p]], |sys.modules[before[p]].syms|, n);
      assert more[p] == before[p];
    }
  }

  lemma TableEnds(sys: System, before: seq<nat>, i: nat, tab: seq<Symbol>)
    requires i < |sys.modules| && TableAt(sys, before, sys.modules[i], |sys.modules[i].syms|, tab)
    ensures TableAfter(sys, before + [i], tab)
  {
    forall n ensures NameAfter(sys, before + [i], tab, n) {
      assert NameAt(sys, before, sys.modules[i], |sys.modules[i].syms|, tab, n);
      InMore(sys, before, i, n);
    }
  }

  /** Relocation ends exactly if every type is known. */
  lemma {:induction false} RelocationEnds(env: Env, rs: seq<Reloc>, k: nat, img: seq<Byte>)
    requires k <= |rs| && AllInRange(env, rs, |img|)
    ensures ApplyFirst(env, rs, k, img).Ok? <==> forall j | 0 <= j < k :: Known(rs[j].kind)
    decreases k
  {
    if k > 0 {
      RelocationEnds(env, rs, k - 1, img);
      assert InRange(env, rs[k - 1], |img|);
    }
  }

  lemma LinkStarts(sys: System, before: seq<nat>, m: Module, tab: seq<Symbol>)
    requires ModuleOk(m) && TableAfter(sys, before, tab)
    ensures LinkAt(sys, before, m, 0, Link(tab, FileValues(m), 0, 0))
  {
    TableStarts(sys, before, m, tab);
  }

  /** Everything done to a module ends exactly if it links at that point. */
  lemma LinkExact(sys: System, st: State, i: nat, before: seq<nat>)
    requires WellFormed(sys) && Shape(sys, st) && i < |sys.modules| && st.values[i] == FileValues(sys.modules[i])
    requires TableAfter(sys, before, st.symtab)
    ensures LinkModule(sys, st, i).Ok? <==> Links(sys, before, i)
    ensures LinkModule(sys, st, i).Ok? ==> Linked(sys, st, i, before, LinkModule(sys, st, i).value)
  {
    var m := sys.modules[i];
    var l := Link(st.symtab, st.values[i], 0, 0);
    LinkStarts(sys, before, m, st.symtab);
    SymbolsExact(sys, before, m, |m.syms|, l);
    var out := LinkFirst(sys.kernel, m, |m.syms|, l);
    if out.Ok? {
      SlotsStayInRange(m, out.value.values);
      RelocationEnds(EnvOf(m, out.value.values), m.relocs, |m.relocs|, st.images[i]);
      TableEnds(sys, before, i, out.value.tab);
    }
  }

  ghost predicate Linked(sys: System, st: State, i: nat, before: seq<nat>, st': State)
    requires i < |sys.modules|
  {
    && Shape(sys, st) && Shape(sys, st') && st'.status == st.status[i := Loaded]
    && TableAfter(sys, before + [i], st'.symtab)
    && (forall j: nat | j < |sys.modules| && j != i :: st'.values[j] == st.values[j])
    && |st'.calls| == |st.calls| + 1 && st'.calls[..|st.calls|] == st.calls && st'.calls[|st.calls|].m == i
  }

  // -------------------------------------------------------------------- order

  predicate GraphOk(g: seq<Option<seq<nat>>>) {
    forall i | 0 <= i < |g| && g[i].Some? :: Queued(g[i].value, |g|)
  }

  function Off(g: seq<Option<seq<nat>>>, path: set<nat>): set<nat> {
    set i: nat | i < |g| && i !in path
  }

  /** The modules linked, in order, once module `i` has been asked for after `done` and on `path`: its
      dependencies before it, the last one first. */
  function Order(g: seq<Option<seq<nat>>>, done: seq<nat>, path: set<nat>, i: nat): (w: seq<nat>)
    requires GraphOk(g) && i < |g|
    ensures done <= w && forall x | x in w :: x in done || x < |g|
    decreases Off(g, path), 0
  {
    if i in done || i in path || g[i].None? then done
    else
      assert i in Off(g, path) && i !in Off(g, path + {i});
      OrderDeps(g, done, path + {i}, g[i].value, |g[i].value|) + [i]
  }

  function OrderDeps(g: seq<Option<seq<nat>>>, done: seq<nat>, path: set<nat>, ds: seq<nat>, k: nat): (w: seq<nat>)
    requires GraphOk(g) && k <= |ds| && Queued(ds, |g|)
    ensures done <= w && forall x | x in w :: x in done || x < |g|
    decreases Off(g, path), 1, k
  {
    if k == 0 then done else OrderDeps(g, Order(g, done, path, ds[k - 1]), path, ds, k - 1)
  }

  function OrderFrom(g: seq<Option<seq<nat>>>, done: seq<nat>, k: nat): (w: seq<nat>)
    requires GraphOk(g) && k <= |g|
    ensures done <= w && forall x | x in w :: x in done || x < |g|
    decreases |g| - k
  {
    if k == |g| then done else OrderFrom(g, Order(g, done, {}, k), k + 1)
  }

  /** The order in which a dependency graph has its modules linked. */
  function LinkOrder(g: seq<Option<seq<nat>>>): seq<nat>
    requires GraphOk(g)
  {
    OrderFrom(g, [], 0)
  }

  /** From place `lo` on, module after module links once those before it have. */
  ghost predicate AllLink(sys: System, w: seq<nat>, lo: nat)
    requires WellFormed(sys)
  {
    forall j: nat | lo <= j < |w| :: LinksAt(sys, w, j)
  }

  ghost predicate LinksAt(sys: System, w: seq<nat>, j: nat)
    requires WellFormed(sys) && j < |w|
  {
    w[j] < |sys.modules| && Links(sys, w[..j], w[j])
  }

  // ------------------------------------------------------------------- states

  /** The modules `done` are linked, in this order, and those on `path` are waiting. */
  ghost predicate At(sys: System, st: State, done: seq<nat>, path: set<nat>)
    requires WellFormed(sys)
  {
    Reached(sys, st, done, path) == true
  }

  ghost predicate Reached(sys: System, st: State, done: seq<nat>, path: set<nat>)
    requires WellFormed(sys)
  {
    && Shape(sys, st) && TableAfter(sys, done, st.symtab)
    && (forall i: nat | i < |sys.modules| :: StatusAt(sys, st, done, path, i))
    && |st.calls| == |done| && forall p | 0 <= p < |done| :: st.calls[p].m == done[p]
  }

  ghost predicate StatusAt(sys: System, st: State, done: seq<nat>, path: set<nat>, i: nat)
    requires Shape(sys, st) && i < |sys.modules|
  {
    && (st.status[i].Loaded? <==> i in done)
    && (st.status[i].Loading? <==> i in path)
    && (i !in done ==> st.values[i] == FileValues(sys.modules[i]))
  }

  lemma MarkAt(sys: System, st: State, done: seq<nat>, path: set<nat>, i: nat)
    requires WellFormed(sys) && At(sys, st, done, path) && i < |sys.modules| && st.status[i].Ready?
    ensures At(sys, st.(status := st.status[i := Loading]), done, path + {i})
  {
    var marked := st.(status := st.status[i := Loading]);
    forall j: nat | j < |sys.modules| ensures StatusAt(sys, marked, done, path + {i}, j) {
      assert StatusAt(sys, st, done, path, j);
    }
  }

  lemma LinkedAt(sys: System, st: State, done: seq<nat>, path: set<nat>, i: nat, st': State)
    requires WellFormed(sys) && At(sys, st, done, path + {i}) && i < |sys.modules| && i !in path
    requires Linked(sys, st, i, done, st')
    ensures At(sys, st', done + [i], path)
  {
    assert StatusAt(sys, st, done, path + {i}, i);
    forall j: nat | j < |sys.modules| ensures StatusAt(sys, st', done + [i], path, j) {
      assert StatusAt(sys, st, done, path + {i}, j);
    }
    forall p | 0 <= p < |done| + 1 ensures st'.calls[p].m == (done + [i])[p] {
      if p < |done| { assert st'.calls[..|done|][p] == st.calls[p]; }
    }
  }

  // ---------------------------------------------------------------- recursion

  /** How a run that should lead from `done` to `w` comes out: it gets there and every module on the way
      links, or it stops for a loop, for an unresolved dependency, or at a module that does not link. */
  ghost predicate ComesOut(sys: System, out: Outcome<State>, done: seq<nat>, w: seq<nat>, path: set<nat>)
    requires WellFormed(sys)
  {
    EndsOrStops(sys, out, done, w, path) == true
  }

  ghost predicate EndsOrStops(sys: System, out: Outcome<State>, done: seq<nat>, w: seq<nat>, path: set<nat>)
    requires WellFormed(sys)
  {
    if out.Ok? then At(sys, out.value, w, path) && AllLink(sys, w, |done|)
    else out.why.DependencyLoop? || !Resolved(sys) || !AllLink(sys, w, |done|)
  }

  ghost predicate Resolved(sys: System) {
    forall i | 0 <= i < |sys.deps| :: sys.deps[i].Some?
  }

  lemma AllLinkJoins(sys: System, done: seq<nat>, mid: seq<nat>, w: seq<nat>)
    requires WellFormed(sys) && done <= mid <= w
    ensures AllLink(sys, w, |done|) <==> AllLink(sys, mid, |done|) && AllLink(sys, w, |mid|)
  {
    forall j: nat | j < |mid| ensures LinksAt(sys, mid, j) <==> LinksAt(sys, w, j) {
      assert mid[..j] == w[..j];
    }
  }

  lemma AllLinkLast(sys: System, w: seq<nat>, i: nat)
    requires WellFormed(sys) && i < |sys.modules|
    ensures AllLink(sys, w + [i], |w|) <==> Links(sys, w, i)
  {
    assert (w + [i])[..|w|] == w && (w + [i])[|w|] == i;
    assert LinksAt(sys, w + [i], |w|) <==> Links(sys, w, i);
  }

  /** One call, and then the rest. */
  lemma ThenRest(
    sys: System, first: Outcome<State>, rest: Outcome<State>, done: seq<nat>, mid: seq<nat>, w: seq<nat>, path: set<nat>)
    requires WellFormed(sys) && done <= mid <= w && ComesOut(sys, first, done, mid, path)
    requires if first.Panic? then rest == Panic(first.why) else ComesOut(sys, rest, mid, w, path)
    ensures ComesOut(sys, rest, done, w, path)
  {
    AllLinkJoins(sys, done, mid, w);
  }

  lemma {:induction false} RunOrder(sys: System, st: State, i: nat, done: seq<nat>, path: set<nat>)
    requires WellFormed(sys) && GraphOk(sys.deps) && At(sys, st, done, path) && i < |sys.modules|
    ensures ComesOut(sys, Run(sys, st, i), done, Order(sys.deps, done, path, i), path)
    decreases Remaining(st.status), 0
  {
    assert StatusAt(sys, st, done, path, i);
    if st.status[i].Ready? && sys.deps[i].Some? {
      var marked := st.(status := st.status[i := Loading]);
      var ds := sys.deps[i].value;
      OneFewer(st.status, i);
      MarkAt(sys, st, done, path, i);
      RunDepsOrder(sys, marked, ds, |ds|, done, path + {i});
      Finishes(sys, RunDeps(sys, marked, ds, |ds|), i, done, OrderDeps(sys.deps, done, path + {i}, ds, |ds|), path);
    }
  }

  /** Once the dependencies came out, so does the module. */
  lemma Finishes(sys: System, deps: Outcome<State>, i: nat, done: seq<nat>, w: seq<nat>, path: set<nat>)
    requires WellFormed(sys) && i < |sys.modules| && i !in path && done <= w && ComesOut(sys, deps, done, w, path + {i})
    ensures deps.Panic? ==> ComesOut(sys, Panic(deps.why), done, w + [i], path)
    ensures deps.Ok? ==> Shape(sys, deps.value) && ComesOut(sys, LinkModule(sys, deps.value, i), done, w + [i], path)
  {
    AllLinkJoins(sys, done, w, w + [i]);
    AllLinkLast(sys, w, i);
    if deps.Ok? {
      assert StatusAt(sys, deps.value, w, path + {i}, i);
      LinkExact(sys, deps.value, i, w);
      if Links(sys, w, i) {
        LinkedAt(sys, deps.value, w, path, i, LinkModule(sys, deps.value, i).value);
      }
    }
  }

  lemma {:induction false} RunDepsOrder(sys: System, st: State, ds: seq<nat>, k: nat, done: seq<nat>, path: set<nat>)
    requires WellFormed(sys) && GraphOk(sys.deps) && At(sys, st, done, path)
    requires k <= |ds| && Queued(ds, |sys.modules|)
    ensures ComesOut(sys, RunDeps(sys, st, ds, k), done, OrderDeps(sys.deps, done, path, ds, k), path)
    decreases Remaining(st.status), 1, k
  {
    if k > 0 {
      var mid, first := Order(sys.deps, done, path, ds[k - 1]), Run(sys, st, ds[k - 1]);
      RunOrder(sys, st, ds[k - 1], done, path);
      if first.Ok? {
        FewerRemaining(first.value.status, st.status);
        RunDepsOrder(sys, first.value, ds, k - 1, mid, path);
      }
      ThenRest(sys, first, RunDeps(sys, st, ds, k), done, mid, OrderDeps(sys.deps, mid, path, ds, k - 1), path);
    }
  }

  lemma {:induction false} RunFromOrder(sys: System, st: State, k: nat, done: seq<nat>)
    requires WellFormed(sys) && GraphOk(sys.deps) && At(sys, st, done, {}) && k <= |sys.modules|
    ensures ComesOut(sys, RunFrom(sys, st, k), done, OrderFrom(sys.deps, done, k), {})
    decreases |sys.modules| - k
  {
    if k < |sys.modules| {
      var mid, first := Order(sys.deps, done, {}, k), Run(sys, st, k);
      RunOrder(sys, st, k, done, {});
      if first.Ok? { RunFromOrder(sys, first.value, k + 1, mid); }
      ThenRest(sys, first, RunFrom(sys, st, k), done, mid, OrderFrom(sys.deps, mid, k + 1), {});
    }
  }

  lemma StartsAt(sys: System)
    requires WellFormed(sys)
    ensures GraphOk(sys.deps) && At(sys, Initial(sys), [], {})
  {
    forall n ensures NameAfter(sys, [], [], n) {
    }
  }

  /** Every dependency is queued, the graph has no cycle, and every module of the order links once those
      before it have. */
  ghost predicate CanLoad(sys: System)
    requires WellFormed(sys)
  {
    Resolved(sys) && !Cyclic(sys) && GraphOk(sys.deps) && AllLink(sys, LinkOrder(sys.deps), 0)
  }

  /** A load completes exactly if all of that holds.  The modules are then called in that order. */
  lemma LoadCompletes(sys: System)
    requires WellFormed(sys)
    ensures GraphOk(sys.deps)
    ensures LoadAll(sys).Ok? <==> CanLoad(sys)
    ensures LoadAll(sys).Ok? ==>
              var calls, w := LoadAll(sys).value.calls, LinkOrder(sys.deps);
              |calls| == |w| && forall p | 0 <= p < |w| :: calls[p].m == w[p]
  {
    StartsAt(sys);
    RunFromOrder(sys, Initial(sys), 0, []);
    CycleDetectionExact(sys);
    if LoadAll(sys).Ok? {
      CompletedIsResolved(sys, LoadAll(sys).value);
    }
  }

  lemma CompletedIsResolved(sys: System, st: State)
    requires WellFormed(sys) && LoadAll(sys) == Ok(st)
    ensures Resolved(sys)
  {
    LoadKeeps(sys, st);
    forall i: nat | i < |sys.deps| ensures sys.deps[i].Some? {
      assert CalledBefore(st.calls, |st.calls|, i);
      var p :| 0 <= p < |st.calls| && st.calls[p].m == i;
      assert CallOk(sys, st.calls, p);
    }
  }

  // ------------------------------------------------------------ what the order is

  /** The same graph, with modules that have nothing but their entry points. */
  function Bare(sys: System): (b: System)
    requires WellFormed(sys)
    ensures WellFormed(b) && b.deps == sys.deps && |b.modules| == |sys.modules|
    ensures forall i | 0 <= i < |b.modules| :: b.modules[i] == Plain("", "")
  {
    System(seq(|sys.modules|, _ => Plain("", "")), sys.deps, map[])
  }

  lemma BareLinks(sys: System, before: seq<nat>, i: nat)
    requires WellFormed(sys) && i < |sys.modules| && sys.modules[i] == Plain("", "")
    ensures Links(sys, before, i)
  {
    var m := sys.modules[i];
    assert m.syms[0].name == "init" && m.syms[1].name == "dnit" && GlobalFunction(m, 0) && GlobalFunction(m, 1);
    assert Address(m, 0) == 4100 && Address(m, 1) == 4104;
  }

  /** In a resolved graph without cycles the order lists every module once, after all it depends on. */
  lemma OrderTopological(sys: System, w: seq<nat>)
    requires WellFormed(sys) && Resolved(sys) && !Cyclic(sys) && GraphOk(sys.deps) && w == LinkOrder(sys.deps)
    ensures forall p, q | 0 <= p < q < |w| :: w[p] != w[q]
    ensures forall i: nat | i < |sys.modules| :: i in w
    ensures forall p: nat | p < |w| :: w[p] < |sys.modules| && forall d | d in sys.deps[w[p]].value :: d in w[..p]
  {
    var bare := Bare(sys);
    assert forall c :: Cycle(bare, c) ==> Cycle(sys, c) by {
      assert forall i: nat, j: nat :: Edge(bare, i, j) == Edge(sys, i, j);
    }
    forall j: nat | j < |w| ensures LinksAt(bare, w, j) {
      assert w[j] in w;
      BareLinks(bare, w[..j], w[j]);
    }
    LoadCompletes(bare);
    CalledInOrder(bare, LoadAll(bare).value, w);
  }

  lemma CalledInOrder(sys: System, st: State, w: seq<nat>)
    requires WellFormed(sys) && LoadAll(sys) == Ok(st)
    requires |st.calls| == |w| && forall p | 0 <= p < |w| :: st.calls[p].m == w[p]
    ensures forall p, q | 0 <= p < q < |w| :: w[p] != w[q]
    ensures forall i: nat | i < |sys.modules| :: i in w
    ensures forall p: nat | p < |w| ::
              w[p] < |sys.modules| && sys.deps[w[p]].Some? && forall d | d in sys.deps[w[p]].value :: d in w[..p]
  {
    LoadKeeps(sys, st);
    forall i: nat | i < |sys.modules| ensures i in w {
      assert CalledBefore(st.calls, |st.calls|, i);
      var p :| 0 <= p < |st.calls| && st.calls[p].m == i;
      assert w[p] == i;
    }
    forall p: nat | p < |w|
      ensures w[p] < |sys.modules| && sys.deps[w[p]].Some? && forall d | d in sys.deps[w[p]].value :: d in w[..p]
    {
      assert CallOk(sys, st.calls, p);
      forall d | d in sys.deps[w[p]].value ensures d in w[..p] {
        assert CalledBefore(st.calls, p, d);
        var q :| 0 <= q < p && st.calls[q].m == d;
        assert w[..p][q] == d;
      }
    }
  }
}
