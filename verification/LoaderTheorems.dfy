/** What every run of the loader keeps, and what a completed load guarantees: linking coherence,
    initialisation order, and exact detection of dependency loops. */
module LoaderTheorems {
  import opened Bits
  import opened Outcomes
  import opened Relocation
  import opened Loader

  // ------------------------------------------------------------ definitions

  /** Symbol `s` of `m` is a function other modules may bind to. */
  predicate Exports(m: Module, s: nat) {
    s < |m.syms| && m.syms[s].shndx.InSection? && m.syms[s].isFunc && m.syms[s].isGlobal && !Reserved(m.syms[s].name)
  }

  /** Where a symbol defined in a section ends up. */
  function Address(m: Module, s: nat): Word
    requires ModuleOk(m) && s < |m.syms| && m.syms[s].shndx.InSection?
  {
    Wrap(m.syms[s].value + m.base + m.sectionAddr[m.syms[s].shndx.k])
  }

  /** Some module of `who` exports `name` at address `a`. */
  ghost predicate ExportedBy(sys: System, who: set<nat>, name: string, a: Word)
    requires WellFormed(sys)
  {
    exists i: nat, s: nat :: i in who && i < |sys.modules| && Exports(sys.modules[i], s)
      && sys.modules[i].syms[s].name == name && Address(sys.modules[i], s) == a
  }

  ghost function LoadedOnes(status: seq<Status>): set<nat> {
    set i: nat | i < |status| && status[i].Loaded?
  }

  ghost function LoadingOnes(status: seq<Status>): set<nat> {
    set i: nat | i < |status| && status[i].Loading?
  }

  // ------------------------------------------------------- table invariants

  ghost predicate UniqueNames(tab: seq<Symbol>) {
    forall a, b | 0 <= a < b < |tab| :: tab[a].name != tab[b].name
  }

  /** Every entry came from a loaded module's export or is the kernel's own address. */
  ghost predicate Justified(sys: System, who: set<nat>, e: Symbol)
    requires WellFormed(sys)
  {
    || ExportedBy(sys, who, e.name, e.address)
    || (e.address != 0 && e.address == KernelAddress(sys.kernel, e.name))
  }

  ghost predicate TableInv(sys: System, who: set<nat>, tab: seq<Symbol>)
    requires WellFormed(sys)
  {
    && UniqueNames(tab)
    && forall e | e in tab :: Justified(sys, who, e)
  }

  /** Symbol `s` holds its final value, and is in the table if other modules may bind to it. */
  ghost predicate SymLinked(m: Module, s: nat, tab: seq<Symbol>, values: seq<Word>)
    requires ModuleOk(m) && s < |m.syms| == |values|
  {
    match m.syms[s].shndx
    case Undef => Lookup(tab, m.syms[s].name) == Some(values[s])
    case Abs => values[s] == m.syms[s].value
    case InSection(_) =>
      && values[s] == Address(m, s)
      && (Exports(m, s) ==> Lookup(tab, m.syms[s].name) == Some(Address(m, s)))
  }

  ghost predicate ModuleLinked(sys: System, st: State, i: nat)
    requires WellFormed(sys) && Shape(sys, st) && i < |sys.modules|
  {
    var m := sys.modules[i];
    && (forall s: nat | s < |m.syms| :: SymLinked(m, s, st.symtab, st.values[i]))
    && AllInRange(EnvOf(m, st.values[i]), m.relocs, |m.image|)
    && Relocated(EnvOf(m, st.values[i]), m.relocs, m.image) == Ok(st.images[i])
  }

  /** A module that is not LOADED is still as its file left it. */
  ghost predicate Pristine(sys: System, st: State, i: nat)
    requires Shape(sys, st) && i < |sys.modules|
  {
    st.values[i] == FileValues(sys.modules[i]) && st.images[i] == sys.modules[i].image
  }

  ghost predicate LinkInv(sys: System, st: State)
    requires WellFormed(sys) && Shape(sys, st)
  {
    && TableInv(sys, LoadedOnes(st.status), st.symtab)
    && forall i: nat {:trigger Settled(sys, st, i)} | i < |sys.modules| :: Settled(sys, st, i)
  }

  ghost predicate Settled(sys: System, st: State, i: nat)
    requires WellFormed(sys) && Shape(sys, st) && i < |sys.modules|
  {
    if st.status[i].Loaded? then ModuleLinked(sys, st, i) else Pristine(sys, st, i)
  }

  // ------------------------------------------------------- order invariants

  ghost predicate CalledBefore(calls: seq<Call>, p: nat, m: nat)
    requires p <= |calls|
  {
    exists q | 0 <= q < p :: calls[q].m == m
  }

  /** `entry` is the address of a global function called `init` of module `m`. */
  ghost predicate IsInitOf(m: Module, entry: Word)
    requires ModuleOk(m)
  {
    exists s: nat :: s < |m.syms| && m.syms[s].shndx.InSection? && m.syms[s].name == "init"
      && m.syms[s].isFunc && m.syms[s].isGlobal && Address(m, s) == entry
  }

  /** Call `p` went to its module's own `init`, after those of all its dependencies. */
  ghost predicate CallOk(sys: System, calls: seq<Call>, p: nat)
    requires WellFormed(sys) && p < |calls|
  {
    var i := calls[p].m;
    && i < |sys.modules|
    && IsInitOf(sys.modules[i], calls[p].entry)
    && sys.deps[i].Some?
    && forall d | d in sys.deps[i].value :: CalledBefore(calls, p, d)
  }

  ghost predicate OrderInv(sys: System, st: State)
    requires WellFormed(sys) && Shape(sys, st)
  {
    && (forall p, q | 0 <= p < q < |st.calls| :: st.calls[p].m != st.calls[q].m)
    && (forall i: nat {:trigger CalledBefore(st.calls, |st.calls|, i)} | i < |sys.modules| ::
          st.status[i].Loaded? <==> CalledBefore(st.calls, |st.calls|, i))
    && (forall p: nat | p < |st.calls| :: CallOk(sys, st.calls, p))
  }

  /** What every run keeps.  As in other places below, `== true` keeps the verifier from splitting
      a fact that most proofs only pass along into its parts. */
  ghost predicate Inv(sys: System, st: State)
    requires WellFormed(sys)
  {
    Consistent(sys, st) == true
  }

  ghost predicate Consistent(sys: System, st: State)
    requires WellFormed(sys)
  {
    Shape(sys, st) && LinkInv(sys, st) && OrderInv(sys, st)
  }

  /** What one call leaves alone: the table and the log only grow, loaded modules stay loaded, and
      the modules being loaded are the same again. */
  ghost predicate Grows(before: State, after: State) {
    Grown(before, after) == true
  }

  ghost predicate Grown(before: State, after: State) {
    && |after.status| == |before.status|
    && before.symtab <= after.symtab
    && before.calls <= after.calls
    && LoadedOnes(before.status) <= LoadedOnes(after.status)
    && LoadingOnes(before.status) == LoadingOnes(after.status)
  }

  // ------------------------------------------------------------ symbol pass

  lemma {:induction false} LookupMember(tab: seq<Symbol>, name: string)
    ensures Lookup(tab, name).Some? ==> Symbol(name, Lookup(tab, name).value) in tab
    ensures Lookup(tab, name).None? ==> forall e | e in tab :: e.name != name
  {
    if tab != [] { LookupMember(tab[1..], name); }
  }

  lemma {:induction false} LookupGrows(tab: seq<Symbol>, more: seq<Symbol>, name: string)
    requires Lookup(tab, name).Some?
    ensures Lookup(tab + more, name) == Lookup(tab, name)
  {
    if tab[0].name != name {
      assert (tab + more)[1..] == tab[1..] + more;
      LookupGrows(tab[1..], more, name);
    }
  }

  lemma {:induction false} LookupNew(tab: seq<Symbol>, e: Symbol)
    requires Lookup(tab, e.name).None?
    ensures Lookup(tab + [e], e.name) == Some(e.address)
  {
    if tab != [] {
      assert (tab + [e])[1..] == tab[1..] + [e];
      LookupNew(tab[1..], e);
    }
  }

  lemma LookupPrefix(tab: seq<Symbol>, tab': seq<Symbol>, name: string)
    requires tab <= tab' && Lookup(tab, name).Some?
    ensures Lookup(tab', name) == Lookup(tab, name)
  {
    LookupGrows(tab, tab'[|tab|..], name);
    assert tab' == tab + tab'[|tab|..];
  }

  lemma ExportKeeps(sys: System, who: set<nat>, tab: seq<Symbol>, name: string, a: Word)
    requires WellFormed(sys) && TableInv(sys, who, tab) && Export(tab, name, a).Ok?
    requires Justified(sys, who, Symbol(name, a))
    ensures TableInv(sys, who, Export(tab, name, a).value)
    ensures tab <= Export(tab, name, a).value
    ensures Lookup(Export(tab, name, a).value, name) == Some(a)
  {
    LookupMember(tab, name);
    LookupNew(tab, Symbol(name, a));
  }

  lemma ResolveKeeps(sys: System, who: set<nat>, tab: seq<Symbol>, name: string)
    requires WellFormed(sys) && TableInv(sys, who, tab) && Resolve(sys.kernel, tab, name).Ok?
    ensures var (tab', a) := Resolve(sys.kernel, tab, name).value;
            TableInv(sys, who, tab') && tab <= tab' && Lookup(tab', name) == Some(a)
  {
    if Lookup(tab, name).None? {
      ExportKeeps(sys, who, tab, name, KernelAddress(sys.kernel, name));
    }
  }

  /** The symbol loop part-way: the first `k` symbols are final, the others untouched. */
  ghost predicate HalfLinked(sys: System, who: set<nat>, i: nat, k: nat, tab0: seq<Symbol>, l: Link)
    requires WellFormed(sys) && i < |sys.modules| && k <= |sys.modules[i].syms| == |l.values|
  {
    var m := sys.modules[i];
    && TableInv(sys, who, l.tab)
    && tab0 <= l.tab
    && (forall s: nat | s < k :: SymLinked(m, s, l.tab, l.values))
    && (forall s: nat | k <= s < |m.syms| :: l.values[s] == m.syms[s].value)
    && (l.init != 0 ==> IsInitOf(m, l.init))
  }

  lemma LinkSymKeeps(sys: System, who: set<nat>, i: nat, k: nat, tab0: seq<Symbol>, l: Link)
    requires WellFormed(sys) && i in who && i < |sys.modules| && k < |sys.modules[i].syms| == |l.values|
    requires HalfLinked(sys, who, i, k, tab0, l)
    requires LinkSym(sys.kernel, sys.modules[i], k, l).Ok?
    ensures HalfLinked(sys, who, i, k + 1, tab0, LinkSym(sys.kernel, sys.modules[i], k, l).value)
  {
    var m := sys.modules[i];
    var sym := m.syms[k];
    var l' := LinkSym(sys.kernel, m, k, l).value;
    match sym.shndx
    case Abs =>
    case Undef =>
      ResolveKeeps(sys, who, l.tab, sym.name);
      SymsStayLinked(m, k, l, l');
    case InSection(_) =>
      if Exports(m, k) {
        ExportKeeps(sys, who, l.tab, sym.name, Address(m, k));
      }
      SymsStayLinked(m, k, l, l');
  }

  lemma SymsStayLinked(m: Module, k: nat, l: Link, l': Link)
    requires ModuleOk(m) && k <= |m.syms| == |l.values| == |l'.values|
    requires l.tab <= l'.tab && l.values[..k] == l'.values[..k]
    requires forall s: nat | s < k :: SymLinked(m, s, l.tab, l.values)
    ensures forall s: nat | s < k :: SymLinked(m, s, l'.tab, l'.values)
  {
    forall s: nat | s < k ensures SymLinked(m, s, l'.tab, l'.values) {
      assert SymLinked(m, s, l.tab, l.values);
      assert l.values[..k][s] == l'.values[..k][s];
      if Lookup(l.tab, m.syms[s].name).Some? {
        LookupPrefix(l.tab, l'.tab, m.syms[s].name);
      }
    }
  }

  lemma {:induction false} LinkFirstKeeps(sys: System, who: set<nat>, i: nat, k: nat, l: Link, l': Link)
    requires WellFormed(sys) && i in who && i < |sys.modules| && k <= |sys.modules[i].syms|
    requires l.values == FileValues(sys.modules[i]) && l.init == 0 && TableInv(sys, who, l.tab)
    requires LinkFirst(sys.kernel, sys.modules[i], k, l) == Ok(l')
    ensures HalfLinked(sys, who, i, k, l.tab, l') == true
    decreases k
  {
    if k > 0 {
      var before := LinkFirst(sys.kernel, sys.modules[i], k - 1, l).value;
      LinkFirstKeeps(sys, who, i, k - 1, l, before);
      LinkSymKeeps(sys, who, i, k - 1, l.tab, before);
    }
  }

  lemma TableInvGrows(sys: System, who: set<nat>, more: set<nat>, tab: seq<Symbol>)
    requires WellFormed(sys) && TableInv(sys, who, tab) && who <= more
    ensures TableInv(sys, more, tab)
  {
    forall e | e in tab ensures Justified(sys, more, e) {
      assert Justified(sys, who, e);
    }
  }

  // ------------------------------------------------------------ one module

  lemma LinkModuleLinks(sys: System, st: State, i: nat)
    requires WellFormed(sys) && Shape(sys, st) && i < |sys.modules| && LinkInv(sys, st)
    requires !st.status[i].Loaded? && LinkModule(sys, st, i).Ok?
    ensures LinkInv(sys, LinkModule(sys, st, i).value)
    ensures st.symtab <= LinkModule(sys, st, i).value.symtab
    ensures IsInitOf(sys.modules[i], LinkModule(sys, st, i).value.calls[|st.calls|].entry)
  {
    var m, st' := sys.modules[i], LinkModule(sys, st, i).value;
    var who, who' := LoadedOnes(st.status), LoadedOnes(st'.status);
    var l := Link(st.symtab, st.values[i], 0, 0);
    assert Settled(sys, st, i);
    TableInvGrows(sys, who, who', st.symtab);
    LinkFirstKeeps(sys, who', i, |m.syms|, l, LinkFirst(sys.kernel, m, |m.syms|, l).value);
    SlotsStayInRange(m, st'.values[i]);
    assert ModuleLinked(sys, st', i);
    forall j: nat | j < |sys.modules| && j != i
      ensures Settled(sys, st', j)
    {
      if st'.status[j].Loaded? {
        assert Settled(sys, st, j);
        var mj := sys.modules[j];
        SymsStayLinked(mj, |mj.syms|, Link(st.symtab, st.values[j], 0, 0), Link(st'.symtab, st'.values[j], 0, 0));
      } else {
        assert Settled(sys, st, j);
      }
    }
  }

  lemma LinkModuleOrders(sys: System, st: State, i: nat)
    requires WellFormed(sys) && Inv(sys, st) && i < |sys.modules|
    requires !st.status[i].Loaded? && LinkModule(sys, st, i).Ok?
    requires sys.deps[i].Some? && forall d | d in sys.deps[i].value :: d < |sys.modules| && st.status[d].Loaded?
    ensures OrderInv(sys, LinkModule(sys, st, i).value)
  {
    LinkModuleLinks(sys, st, i);
    var st' := LinkModule(sys, st, i).value;
    var n := |st.calls|;
    assert st'.calls[..n] == st.calls && st'.calls[n].m == i;
    forall p: nat | p < |st'.calls| ensures CallOk(sys, st'.calls, p) {
      if p < n {
        assert CallOk(sys, st.calls, p);
      } else {
        forall d | d in sys.deps[i].value ensures CalledBefore(st'.calls, n, d) {
          assert CalledBefore(st.calls, n, d);
        }
      }
    }
    forall j: nat | j < |sys.modules|
      ensures st'.status[j].Loaded? <==> CalledBefore(st'.calls, |st'.calls|, j)
    {
      assert st.status[j].Loaded? <==> CalledBefore(st.calls, n, j);
      assert j == i ==> st'.calls[n].m == j;
    }
    assert !CalledBefore(st.calls, n, i);
  }

  // --------------------------------------------------------------- recursion

  lemma MarkKeeps(sys: System, st: State, i: nat)
    requires WellFormed(sys) && Inv(sys, st) && i < |sys.modules| && st.status[i].Ready?
    ensures Inv(sys, st.(status := st.status[i := Loading]))
  {
    var st' := st.(status := st.status[i := Loading]);
    assert LoadedOnes(st'.status) == LoadedOnes(st.status);
    forall j: nat | j < |sys.modules|
      ensures Settled(sys, st', j)
    {
      assert Settled(sys, st, j);
    }
    assert OrderInv(sys, st');
  }

  /** How many modules are READY: what the recursion of `module_run` uses up. */
  ghost function Remaining(status: seq<Status>): nat {
    |ReadyOnes(status)|
  }

  lemma OneFewer(status: seq<Status>, i: nat)
    requires i < |status| && status[i].Ready?
    ensures Remaining(status[i := Loading]) == Remaining(status) - 1
  {
    assert ReadyOnes(status[i := Loading]) == ReadyOnes(status) - {i};
  }

  lemma FewerRemaining(a: seq<Status>, b: seq<Status>)
    requires ReadyOnes(a) <= ReadyOnes(b)
    ensures Remaining(a) <= Remaining(b)
  {
    assert ReadyOnes(b) == ReadyOnes(a) + (ReadyOnes(b) - ReadyOnes(a));
  }

  /** Every successful `module_run` keeps the invariants and leaves its module LOADED. */
  lemma {:induction false} RunKeeps(sys: System, st: State, i: nat, st': State)
    requires WellFormed(sys) && Inv(sys, st) && i < |sys.modules| && Run(sys, st, i) == Ok(st')
    ensures Inv(sys, st') && Grows(st, st') && st'.status[i].Loaded?
    decreases Remaining(st.status), 0
  {
    if st.status[i].Ready? {
      var marked := st.(status := st.status[i := Loading]);
      var ds := sys.deps[i].value;
      OneFewer(st.status, i);
      MarkKeeps(sys, st, i);
      var after := RunDeps(sys, marked, ds, |ds|).value;
      RunDepsKeeps(sys, marked, ds, |ds|, after);
      forall d | d in ds ensures d < |sys.modules| && after.status[d].Loaded? {
        var j :| 0 <= j < |ds| && ds[j] == d;
        assert IsLoaded(after.status, ds[j]);
      }
      assert i in LoadingOnes(marked.status);
      LinkModuleLinks(sys, after, i);
      LinkModuleOrders(sys, after, i);
      RunGrows(sys, st, after, i);
    }
  }

  lemma RunGrows(sys: System, st: State, after: State, i: nat)
    requires WellFormed(sys) && Shape(sys, st) && Shape(sys, after) && i < |sys.modules| && st.status[i].Ready?
    requires LinkInv(sys, after) && Grows(st.(status := st.status[i := Loading]), after)
    requires !after.status[i].Loaded? && LinkModule(sys, after, i).Ok?
    ensures Grows(st, LinkModule(sys, after, i).value)
  {
    LinkModuleLinks(sys, after, i);
    var marked, st' := st.(status := st.status[i := Loading]), LinkModule(sys, after, i).value;
    forall j | j in LoadedOnes(st.status) ensures j in LoadedOnes(st'.status) {
      assert j in LoadedOnes(marked.status);
      assert j in LoadedOnes(after.status);
    }
    forall j: nat ensures j in LoadingOnes(st.status) <==> j in LoadingOnes(st'.status) {
      assert j in LoadingOnes(marked.status) <==> j == i || j in LoadingOnes(st.status);
      assert j in LoadingOnes(st'.status) <==> j != i && j in LoadingOnes(after.status);
    }
  }

  lemma GrowsTransitive(a: State, b: State, c: State)
    requires Grows(a, b) && Grows(b, c)
    ensures Grows(a, c)
  {
  }

  ghost predicate IsLoaded(status: seq<Status>, d: nat) {
    d < |status| && status[d].Loaded?
  }

  ghost predicate FirstLoaded(ds: seq<nat>, k: nat, status: seq<Status>)
    requires k <= |ds|
  {
    forall j | 0 <= j < k :: IsLoaded(status, ds[j])
  }

  /** The dependency loop got from `st` to `st'` with the first `k` dependencies loaded. */
  ghost predicate DepsDone(sys: System, st: State, ds: seq<nat>, k: nat, st': State)
    requires WellFormed(sys) && k <= |ds|
  {
    Inv(sys, st') && Grows(st, st') && FirstLoaded(ds, k, st'.status)
  }

  lemma NothingDone(sys: System, st: State, ds: seq<nat>)
    requires WellFormed(sys) && Inv(sys, st)
    ensures DepsDone(sys, st, ds, 0, st)
  {
  }

  lemma OneMoreDone(sys: System, st: State, after: State, ds: seq<nat>, k: nat, st': State)
    requires WellFormed(sys) && 0 < k <= |ds| && DepsDone(sys, after, ds, k - 1, st') == true
    requires Grows(st, after) && IsLoaded(after.status, ds[k - 1])
    ensures DepsDone(sys, st, ds, k, st')
  {
    GrowsTransitive(st, after, st');
    assert ds[k - 1] in LoadedOnes(after.status) && ds[k - 1] in LoadedOnes(st'.status);
  }

  /** One round of the dependency loop. */
  lemma {:induction false} RunDepKeeps(sys: System, st: State, ds: seq<nat>, k: nat, st': State) returns (after: State)
    requires WellFormed(sys) && Inv(sys, st) && 0 < k <= |ds| && Queued(ds, |sys.modules|)
    requires RunDeps(sys, st, ds, k) == Ok(st')
    ensures Inv(sys, after) && Grows(st, after) && IsLoaded(after.status, ds[k - 1])
    ensures Remaining(after.status) <= Remaining(st.status) && RunDeps(sys, after, ds, k - 1) == Ok(st')
    decreases Remaining(st.status), 1, k, 0
  {
    after := Run(sys, st, ds[k - 1]).value;
    RunKeeps(sys, st, ds[k - 1], after);
    FewerRemaining(after.status, st.status);
  }

  lemma {:induction false} RunDepsKeeps(sys: System, st: State, ds: seq<nat>, k: nat, st': State)
    requires WellFormed(sys) && Inv(sys, st) && k <= |ds| && Queued(ds, |sys.modules|)
    requires RunDeps(sys, st, ds, k) == Ok(st')
    ensures DepsDone(sys, st, ds, k, st') == true
    decreases Remaining(st.status), 1, k, 1
  {
    if k == 0 {
      NothingDone(sys, st, ds);
    } else {
      var after := RunDepKeeps(sys, st, ds, k, st');
      RestKeeps(sys, st, after, ds, k, st');
    }
  }

  /** The rounds after the first. */
  lemma {:induction false} RestKeeps(sys: System, st: State, after: State, ds: seq<nat>, k: nat, st': State)
    requires WellFormed(sys) && Inv(sys, after) && 0 < k <= |ds| && Queued(ds, |sys.modules|)
    requires Grows(st, after) && IsLoaded(after.status, ds[k - 1]) && RunDeps(sys, after, ds, k - 1) == Ok(st')
    ensures DepsDone(sys, st, ds, k, st') == true
    decreases Remaining(after.status), 1, k - 1, 2
  {
    RunDepsKeeps(sys, after, ds, k - 1, st');
    OneMoreDone(sys, st, after, ds, k, st');
  }

  lemma {:induction false} RunFromKeeps(sys: System, st: State, k: nat, st': State)
    requires WellFormed(sys) && Inv(sys, st) && k <= |sys.modules| && RunFrom(sys, st, k) == Ok(st')
    ensures Inv(sys, st') && Grows(st, st')
    ensures forall j: nat | k <= j < |sys.modules| :: j in LoadedOnes(st'.status)
    decreases |sys.modules| - k, 0
  {
    if k < |sys.modules| {
      var after := Run(sys, st, k).value;
      RunKeeps(sys, st, k, after);
      RunRestKeeps(sys, st, after, k, st');
    }
  }

  lemma {:induction false} RunRestKeeps(sys: System, st: State, after: State, k: nat, st': State)
    requires WellFormed(sys) && Inv(sys, after) && Grows(st, after) && IsLoaded(after.status, k)
    requires k < |sys.modules| && RunFrom(sys, after, k + 1) == Ok(st')
    ensures Inv(sys, st') && Grows(st, st')
    ensures forall j: nat | k <= j < |sys.modules| :: j in LoadedOnes(st'.status)
    decreases |sys.modules| - k - 1, 1
  {
    assert k in LoadedOnes(after.status);
    RunFromKeeps(sys, after, k + 1, st');
    GrowsTransitive(st, after, st');
  }

  lemma InitialInv(sys: System)
    requires WellFormed(sys)
    ensures Inv(sys, Initial(sys))
  {
    var st := Initial(sys);
    forall i: nat | i < |sys.modules| ensures Settled(sys, st, i) {}
    assert LinkInv(sys, st);
  }

  /** A completed load satisfies the invariants with every module LOADED. */
  lemma LoadKeeps(sys: System, st: State)
    requires WellFormed(sys) && LoadAll(sys) == Ok(st)
    ensures Inv(sys, st) && forall j | 0 <= j < |sys.modules| :: st.status[j].Loaded?
  {
    InitialInv(sys);
    RunFromKeeps(sys, Initial(sys), 0, st);
    forall j | 0 <= j < |sys.modules| ensures st.status[j].Loaded? {
      assert j in LoadedOnes(st.status);
    }
  }

  // ------------------------------------------------------ linking coherence

  /** Some queued module exports `name` at address `a`. */
  ghost predicate Exported(sys: System, name: string, a: Word)
    requires WellFormed(sys)
  {
    exists i: nat, s: nat :: i < |sys.modules| && Exports(sys.modules[i], s)
      && sys.modules[i].syms[s].name == name && Address(sys.modules[i], s) == a
  }

  /** The address `name` means once everything is loaded: the exporting module's function if any
      module exports the name, otherwise the kernel's. */
  ghost predicate Means(sys: System, name: string, a: Word)
    requires WellFormed(sys)
  {
    if exists b: Word :: Exported(sys, name, b)
    then forall b: Word :: Exported(sys, name, b) <==> b == a
    else a != 0 && a == KernelAddress(sys.kernel, name)
  }

  /** In a completed load every undefined reference to a name, from any module, was bound to the one
      address the name means, and the relocated image of each module was built from those values. */
  lemma LinkingCoherence(sys: System, st: State)
    requires WellFormed(sys) && LoadAll(sys) == Ok(st)
    ensures Shape(sys, st)
    ensures forall i: nat, s: nat | i < |sys.modules| && s < |sys.modules[i].syms|
                                    && sys.modules[i].syms[s].shndx.Undef? ::
              Means(sys, sys.modules[i].syms[s].name, st.values[i][s])
    ensures forall i: nat | i < |sys.modules| :: ModuleLinked(sys, st, i)
  {
    LoadKeeps(sys, st);
    forall i: nat | i < |sys.modules| ensures ModuleLinked(sys, st, i) {
      assert st.status[i].Loaded? && Settled(sys, st, i);
    }
    forall i: nat, s: nat | i < |sys.modules| && s < |sys.modules[i].syms| && sys.modules[i].syms[s].shndx.Undef?
      ensures Means(sys, sys.modules[i].syms[s].name, st.values[i][s])
    {
      assert Settled(sys, st, i);
      assert SymLinked(sys.modules[i], s, st.symtab, st.values[i]);
      BoundMeans(sys, st, sys.modules[i].syms[s].name, st.values[i][s]);
    }
  }

  lemma ExportsAreInTable(sys: System, st: State, name: string, b: Word)
    requires WellFormed(sys) && Shape(sys, st)
    requires forall i: nat | i < |sys.modules| :: ModuleLinked(sys, st, i)
    requires Exported(sys, name, b)
    ensures Lookup(st.symtab, name) == Some(b)
  {
    var i: nat, s: nat :| i < |sys.modules| && Exports(sys.modules[i], s)
      && sys.modules[i].syms[s].name == name && Address(sys.modules[i], s) == b;
    assert ModuleLinked(sys, st, i);
    assert SymLinked(sys.modules[i], s, st.symtab, st.values[i]);
  }

  lemma BoundMeans(sys: System, st: State, name: string, a: Word)
    requires WellFormed(sys) && Inv(sys, st) && Lookup(st.symtab, name) == Some(a)
    requires forall i: nat | i < |sys.modules| :: st.status[i].Loaded? && ModuleLinked(sys, st, i)
    ensures Means(sys, name, a)
  {
    LookupMember(st.symtab, name);
    assert Justified(sys, LoadedOnes(st.status), Symbol(name, a));
    if ExportedBy(sys, LoadedOnes(st.status), name, a) {
      assert Exported(sys, name, a);
    }
    forall b: Word | Exported(sys, name, b) ensures b == a {
      ExportsAreInTable(sys, st, name, b);
    }
  }

  // ------------------------------------------------------------- init order

  predicate Edge(sys: System, i: nat, j: nat) {
    i < |sys.deps| && sys.deps[i].Some? && j in sys.deps[i].value
  }

  /** A chain of dependencies: each module depends on the next. */
  ghost predicate Walk(sys: System, w: seq<nat>) {
    forall k | 0 <= k < |w| - 1 :: Edge(sys, w[k], w[k + 1])
  }

  lemma {:induction false} WalkOrder(sys: System, calls: seq<Call>, w: seq<nat>, p: nat)
    requires WellFormed(sys) && p < |calls| && forall p: nat | p < |calls| :: CallOk(sys, calls, p)
    requires |w| >= 2 && Walk(sys, w) && calls[p].m == w[0]
    ensures CalledBefore(calls, p, w[|w| - 1])
  {
    assert CallOk(sys, calls, p) && Edge(sys, w[0], w[1]);
    assert CalledBefore(calls, p, w[1]);
    if |w| > 2 {
      var q :| 0 <= q < p && calls[q].m == w[1];
      var rest := w[1..];
      forall k | 0 <= k < |rest| - 1 ensures Edge(sys, rest[k], rest[k + 1]) {
        assert Edge(sys, w[k + 1], w[k + 2]);
      }
      WalkOrder(sys, calls, rest, q);
    }
  }

  /** If loading completes, every module's own `init` ran exactly once, after the `init` of every
      module it depends on directly or through any chain. */
  lemma InitOrder(sys: System, st: State)
    requires WellFormed(sys) && LoadAll(sys) == Ok(st)
    ensures |st.status| == |sys.modules| && forall i | 0 <= i < |sys.modules| :: st.status[i].Loaded?
    ensures forall p, q | 0 <= p < q < |st.calls| :: st.calls[p].m != st.calls[q].m
    ensures forall i: nat | i < |sys.modules| :: CalledBefore(st.calls, |st.calls|, i)
    ensures forall p: nat | p < |st.calls| ::
              st.calls[p].m < |sys.modules| && IsInitOf(sys.modules[st.calls[p].m], st.calls[p].entry)
    ensures forall p: nat, w: seq<nat> | p < |st.calls| && |w| >= 2 && Walk(sys, w) && st.calls[p].m == w[0] ::
              CalledBefore(st.calls, p, w[|w| - 1])
  {
    LoadKeeps(sys, st);
    forall p: nat | p < |st.calls|
      ensures st.calls[p].m < |sys.modules| && IsInitOf(sys.modules[st.calls[p].m], st.calls[p].entry)
    {
      assert CallOk(sys, st.calls, p);
    }
    forall p: nat, w: seq<nat> | p < |st.calls| && |w| >= 2 && Walk(sys, w) && st.calls[p].m == w[0]
      ensures CalledBefore(st.calls, p, w[|w| - 1])
    {
      WalkOrder(sys, st.calls, w, p);
    }
  }

  // --------------------------------------------------------- cycle detection

  ghost predicate Cycle(sys: System, w: seq<nat>) {
    |w| >= 2 && Walk(sys, w) && w[0] == w[|w| - 1] && w[0] < |sys.modules|
  }

  ghost predicate Cyclic(sys: System) {
    exists w :: Cycle(sys, w)
  }

  /** The modules being loaded are exactly those on `path`, each waiting for the next, and the
      last one waits for `i`. */
  ghost predicate OnPath(sys: System, st: State, path: seq<nat>, i: nat) {
    && (forall j: nat :: j in LoadingOnes(st.status) <==> j in path)
    && Walk(sys, path + [i])
  }

  /** Module `i` lies on a cycle. */
  ghost predicate OnCycle(sys: System, i: nat) {
    exists w :: Cycle(sys, w) && w[0] == i
  }

  lemma PathCloses(sys: System, path: seq<nat>, i: nat)
    requires Walk(sys, path + [i]) && i in path && i < |sys.modules|
    ensures OnCycle(sys, i)
  {
    var k :| 0 <= k < |path| && path[k] == i;
    var w := path[k..] + [i];
    forall j | 0 <= j < |w| - 1 ensures Edge(sys, w[j], w[j + 1]) {
      assert Edge(sys, (path + [i])[k + j], (path + [i])[k + j + 1]);
    }
    assert Cycle(sys, w);
  }

  lemma PathExtends(sys: System, path: seq<nat>, i: nat, d: nat)
    requires Walk(sys, path + [i]) && Edge(sys, i, d)
    ensures Walk(sys, path + [i] + [d])
  {
    var w, w' := path + [i], path + [i] + [d];
    forall k | 0 <= k < |w'| - 1 ensures Edge(sys, w'[k], w'[k + 1]) {
      if k < |w| - 1 {
        assert Edge(sys, w[k], w[k + 1]);
      }
    }
  }

  /** While the LOADING modules form the current dependency path, a loop panic means a real cycle. */
  lemma {:induction false} RunFindsCycle(sys: System, st: State, i: nat, path: seq<nat>)
    requires WellFormed(sys) && Inv(sys, st) && i < |sys.modules| && OnPath(sys, st, path, i)
    requires Run(sys, st, i).Panic? && Run(sys, st, i).why.DependencyLoop?
    ensures OnCycle(sys, Run(sys, st, i).why.m)
    decreases Remaining(st.status), 0
  {
    if st.status[i].Loading? {
      assert i in LoadingOnes(st.status);
      PathCloses(sys, path, i);
    } else {
      var marked := st.(status := st.status[i := Loading]);
      var ds := sys.deps[i].value;
      OneFewer(st.status, i);
      MarkKeeps(sys, st, i);
      forall j: nat ensures j in LoadingOnes(marked.status) <==> j in path + [i] {
        assert j in LoadingOnes(marked.status) <==> j == i || j in LoadingOnes(st.status);
      }
      if RunDeps(sys, marked, ds, |ds|).Ok? {
        LinkNeverLoops(sys, RunDeps(sys, marked, ds, |ds|).value, i);
        assert false;
      }
      RunDepsFindsCycle(sys, marked, ds, |ds|, path, i);
    }
  }

  lemma {:induction false} RunDepsFindsCycle(sys: System, st: State, ds: seq<nat>, k: nat, path: seq<nat>, i: nat)
    requires WellFormed(sys) && Inv(sys, st) && k <= |ds|
    requires Queued(ds, |sys.modules|) && forall j | 0 <= j < |ds| :: Edge(sys, i, ds[j])
    requires Walk(sys, path + [i]) && forall j: nat :: j in LoadingOnes(st.status) <==> j in path + [i]
    requires RunDeps(sys, st, ds, k).Panic? && RunDeps(sys, st, ds, k).why.DependencyLoop?
    ensures OnCycle(sys, RunDeps(sys, st, ds, k).why.m)
    decreases Remaining(st.status), 1, k
  {
    var d := ds[k - 1];
    var after := Run(sys, st, d);
    if after.Panic? {
      PathExtends(sys, path, i, d);
      RunFindsCycle(sys, st, d, path + [i]);
    } else {
      RunKeeps(sys, st, d, after.value);
      FewerRemaining(after.value.status, st.status);
      RunDepsFindsCycle(sys, after.value, ds, k - 1, path, i);
    }
  }

  lemma {:induction false} LinkSymsNeverLoop(kernel: map<string, Word>, m: Module, k: nat, l: Link)
    requires ModuleOk(m) && k <= |m.syms| == |l.values|
    ensures LinkFirst(kernel, m, k, l).Panic? ==> !LinkFirst(kernel, m, k, l).why.DependencyLoop?
    decreases k
  {
    if k > 0 { LinkSymsNeverLoop(kernel, m, k - 1, l); }
  }

  lemma {:induction false} RelocationNeverLoops(env: Env, rs: seq<Reloc>, k: nat, img: seq<Byte>)
    requires k <= |rs| && AllInRange(env, rs, |img|)
    ensures ApplyFirst(env, rs, k, img).Panic? ==> !ApplyFirst(env, rs, k, img).why.DependencyLoop?
    decreases k
  {
    if k > 0 { RelocationNeverLoops(env, rs, k - 1, img); }
  }

  lemma LinkNeverLoops(sys: System, st: State, i: nat)
    requires WellFormed(sys) && Shape(sys, st) && i < |sys.modules|
    ensures LinkModule(sys, st, i).Panic? ==> !LinkModule(sys, st, i).why.DependencyLoop?
  {
    var m := sys.modules[i];
    var l := Link(st.symtab, st.values[i], 0, 0);
    LinkSymsNeverLoop(sys.kernel, m, |m.syms|, l);
    var out := LinkFirst(sys.kernel, m, |m.syms|, l);
    if out.Ok? {
      SlotsStayInRange(m, out.value.values);
      RelocationNeverLoops(EnvOf(m, out.value.values), m.relocs, |m.relocs|, st.images[i]);
    }
  }

  lemma {:induction false} RunFromFindsCycle(sys: System, st: State, k: nat)
    requires WellFormed(sys) && Inv(sys, st) && k <= |sys.modules| && LoadingOnes(st.status) == {}
    requires RunFrom(sys, st, k).Panic? && RunFrom(sys, st, k).why.DependencyLoop?
    ensures OnCycle(sys, RunFrom(sys, st, k).why.m)
    decreases |sys.modules| - k
  {
    if Run(sys, st, k).Panic? {
      assert OnPath(sys, st, [], k);
      RunFindsCycle(sys, st, k, []);
    } else {
      RunKeeps(sys, st, k, Run(sys, st, k).value);
      RunFromFindsCycle(sys, Run(sys, st, k).value, k + 1);
    }
  }

  /** Loop detection is exact: the module a loop panic names lies on a cycle of the dependency graph,
      and a graph with a cycle never finishes loading. */
  lemma CycleDetectionExact(sys: System)
    requires WellFormed(sys)
    ensures LoadAll(sys).Panic? && LoadAll(sys).why.DependencyLoop? ==> OnCycle(sys, LoadAll(sys).why.m)
    ensures LoadAll(sys).Ok? ==> !Cyclic(sys)
  {
    if LoadAll(sys).Ok? {
      if w :| Cycle(sys, w) {
        NoCycleAfterLoad(sys, LoadAll(sys).value, w);
      }
    } else if LoadAll(sys).why.DependencyLoop? {
      InitialInv(sys);
      RunFromFindsCycle(sys, Initial(sys), 0);
    }
  }

  lemma NoCycleAfterLoad(sys: System, st: State, w: seq<nat>)
    requires WellFormed(sys) && LoadAll(sys) == Ok(st)
    ensures !Cycle(sys, w)
  {
    if Cycle(sys, w) {
      LoadKeeps(sys, st);
      assert CalledBefore(st.calls, |st.calls|, w[0]);
      var p :| 0 <= p < |st.calls| && st.calls[p].m == w[0];
      WalkOrder(sys, st.calls, w, p);
      assert false;
    }
  }

  // ------------------------------------------------------- dependency lists

  ghost predicate GoodName(s: string) { s != [] && ',' !in s }

  /** Names written as one comma-separated list. */
  function Join(names: seq<string>): string {
    if names == [] then [] else if |names| == 1 then names[0] else names[0] + "," + Join(names[1..])
  }

  lemma {:induction false} TokenLengthIs(s: string, rest: string)
    requires ',' !in s && (rest == [] || rest[0] == ',')
    ensures TokenLength(s + rest) == |s|
  {
    if s == [] {
      assert s + rest == rest;
    } else {
      assert (s + rest)[0] == s[0] && (s + rest)[1..] == s[1..] + rest;
      TokenLengthIs(s[1..], rest);
    }
  }

  lemma {:induction false} TokensJoin(names: seq<string>)
    requires names != [] && forall n | n in names :: GoodName(n)
    ensures Tokens(Join(names)) == names
    ensures Tokens("," + Join(names)) == names
  {
    var s := Join(names);
    var first := names[0];
    assert GoodName(first);
    var rest := if |names| == 1 then [] else "," + Join(names[1..]);
    assert s == first + rest && s[0] == first[0] && first[0] in first;
    TokenLengthIs(first, rest);
    assert s[..|first|] == first && s[|first|..] == rest;
    if |names| > 1 {
      TokensJoin(names[1..]);
    }
    assert ("," + s)[1..] == s;
  }

  lemma JoinHasComma(names: seq<string>)
    requires |names| > 1
    ensures HasComma(Join(names))
  {
    assert Join(names)[|names[0]|] == ',';
  }

  /** Parsing a comma-separated list gives back the names it was written from. */
  lemma DependencyRoundTrip(names: seq<string>)
    requires forall n | n in names :: GoodName(n)
    ensures DependencyNames(Join(names)) == names
  {
    if |names| == 1 {
      assert GoodName(names[0]);
    } else if |names| > 1 {
      JoinHasComma(names);
      TokensJoin(names);
    }
  }

  /** Some module's name is its own dependency list and could not stand in a list as one name. */
  ghost predicate OddOwnList(modules: seq<Module>) {
    exists r :: 0 <= r < |modules| && modules[r].name == modules[r].deps && !GoodName(modules[r].name)
  }

  /** As written, the loader completes exactly when no module names a single dependency and the
      lookup by the requester's own list would have completed.  Only where a module is called like its
      own list, and that is empty or has a comma, may a single dependency get by. */
  lemma SingleDependencyNeverLoads(modules: seq<Module>, kernel: map<string, Word>)
    requires forall i | 0 <= i < |modules| :: ModuleOk(modules[i])
    ensures var written := System(modules, GraphAsWritten(modules), kernel);
            var intended := System(modules, GraphOf(modules), kernel);
            && ((forall i | 0 <= i < |modules| :: !SingleName(modules[i].deps)) ==> LoadAll(written) == LoadAll(intended))
            && (!OddOwnList(modules) ==>
                  (LoadAll(written).Ok? <==>
                   LoadAll(intended).Ok? && forall i | 0 <= i < |modules| :: !SingleName(modules[i].deps)))
  {
    var written := System(modules, GraphAsWritten(modules), kernel);
    if i :| 0 <= i < |modules| && SingleName(modules[i].deps) {
      if LoadAll(written).Ok? && !OddOwnList(modules) {
        HiddenFindLoops(written, LoadAll(written).value, i);
      }
    } else {
      assert GraphAsWritten(modules) == GraphOf(modules);
    }
  }

  lemma HiddenFindLoops(sys: System, st: State, i: nat)
    requires WellFormed(sys) && sys.deps == GraphAsWritten(sys.modules) && i < |sys.modules|
    requires !OddOwnList(sys.modules) && SingleName(sys.modules[i].deps)
    ensures LoadAll(sys) != Ok(st)
  {
    if LoadAll(sys) == Ok(st) {
      LoadKeeps(sys, st);
      assert CalledBefore(st.calls, |st.calls|, i);
      var p :| 0 <= p < |st.calls| && st.calls[p].m == i;
      assert CallOk(sys, st.calls, p);
      var r := FindHidden(sys.modules, 0).value;
      assert GoodName(sys.modules[r].name) && SingleName(sys.modules[r].deps);
      assert sys.deps[r] == Some([r]) && Edge(sys, r, r);
      NoCycleAfterLoad(sys, st, [r, r]);
      assert false;
    }
  }

  /** A module that only has its two entry points. */
  function Plain(name: string, deps: string): (m: Module)
    ensures ModuleOk(m)
  {
    var syms := [Sym("init", InSection(0), 4, true, true), Sym("dnit", InSection(0), 8, true, true)];
    Module(name, deps, syms, [], [0], 4096, [])
  }

  lemma PlainSymbols(kernel: map<string, Word>, m: Module, tab: seq<Symbol>)
    requires m == Plain(m.name, m.deps)
    ensures LinkFirst(kernel, m, 2, Link(tab, FileValues(m), 0, 0)) == Ok(Link(tab, [4100, 4104], 4100, 4104))
  {
    var l := Link(tab, FileValues(m), 0, 0);
    assert FileValues(m) == [4, 8] && [4, 8][0 := 4100] == [4100, 8] && [4100, 8][1 := 4104] == [4100, 4104];
    assert "dnit"[0] != "init"[0];
    assert LinkFirst(kernel, m, 0, l) == Ok(l);
    assert LinkFirst(kernel, m, 1, l) == Ok(Link(tab, [4100, 8], 4100, 0));
  }

  lemma PlainLinks(sys: System, st: State, i: nat)
    requires WellFormed(sys) && Shape(sys, st) && i < |sys.modules|
    requires sys.modules[i] == Plain(sys.modules[i].name, sys.modules[i].deps)
    requires st.values[i] == FileValues(sys.modules[i])
    ensures LinkModule(sys, st, i).Ok?
    ensures forall j | 0 <= j < |sys.modules| && j != i :: LinkModule(sys, st, i).value.values[j] == st.values[j]
  {
    PlainSymbols(sys.kernel, sys.modules[i], st.symtab);
  }

  /** Two modules, the second depending on the first: a lookup by the second's own list loads both,
      while the loader as written stops at the second for want of a module named like its own list. */
  lemma TwoModules(modules: seq<Module>, kernel: map<string, Word>)
    requires modules == [Plain("a", ""), Plain("b", "a")]
    ensures LoadAll(System(modules, GraphOf(modules), kernel)).Ok?
    ensures LoadAll(System(modules, GraphAsWritten(modules), kernel)) == Panic(UnresolvedDependency(1))
  {
    var names := ["a"];
    var intended := System(modules, GraphOf(modules), kernel);
    var written := System(modules, GraphAsWritten(modules), kernel);
    assert "b"[0] != "a"[0] && |"a"| != 0;
    assert Find(modules, "a", 0) == Some(0);
    assert FindAll(modules, []) == Some([]);
    assert FindAll(modules, names) == Some([0]) by {
      assert names[1..] == [] && [0] + [] == [0];
    }
    assert intended.deps[0] == Some([]) && intended.deps[1] == Some([0]);
    var st := FirstPlain(intended);
    SecondPlain(intended, st);
    assert FindHidden(modules, 1) == None;
    assert written.deps[0] == Some([]) && written.deps[1] == None;
    var st' := FirstPlain(written);
    assert Run(written, st', 1) == Panic(UnresolvedDependency(1));
  }

  lemma FirstPlain(sys: System) returns (st: State)
    requires WellFormed(sys) && sys.modules == [Plain("a", ""), Plain("b", "a")] && sys.deps[0] == Some([])
    ensures Shape(sys, st) && Run(sys, Initial(sys), 0) == Ok(st) && st.status == [Loaded, Ready]
    ensures st.values[1] == FileValues(sys.modules[1])
    ensures LoadAll(sys) == RunFrom(sys, st, 1)
  {
    var st0 := Initial(sys);
    var marked := st0.(status := st0.status[0 := Loading]);
    assert RunDeps(sys, marked, [], 0) == Ok(marked);
    PlainLinks(sys, marked, 0);
    st := LinkModule(sys, marked, 0).value;
  }

  lemma SecondPlain(sys: System, st: State)
    requires WellFormed(sys) && sys.modules == [Plain("a", ""), Plain("b", "a")] && sys.deps[1] == Some([0])
    requires Shape(sys, st) && st.status == [Loaded, Ready] && st.values[1] == FileValues(sys.modules[1])
    ensures RunFrom(sys, st, 1).Ok?
  {
    var marked := st.(status := st.status[1 := Loading]);
    assert Run(sys, marked, 0) == Ok(marked);
    assert RunDeps(sys, marked, [0], 0) == Ok(marked);
    assert RunDeps(sys, marked, [0], 1) == Ok(marked);
    PlainLinks(sys, marked, 1);
    assert RunFrom(sys, LinkModule(sys, marked, 1).value, 2).Ok?;
  }
}
