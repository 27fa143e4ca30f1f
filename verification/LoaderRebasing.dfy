/** Loading the same modules with one of them placed elsewhere: which of its symbols move with it, and
    hence how its relocated image differs. */
module LoaderRebasing {
  import opened Bits
  import opened Outcomes
  import opened Relocation
  import opened Loader
  import opened LoaderTheorems

  function MovedModule(m: Module, d: Word): Module {
    m.(base := Wrap(m.base + d))
  }

  /** The system with module `i` placed `d` bytes further up. */
  function Moved(sys: System, i: nat, d: Word): (moved: System)
    requires WellFormed(sys) && i < |sys.modules|
    ensures WellFormed(moved) && |moved.modules| == |sys.modules|
  {
    var m, m' := sys.modules[i], MovedModule(sys.modules[i], d);
    MovedOk(m, m', d);
    sys.(modules := sys.modules[i := m'])
  }

  lemma MovedOk(m: Module, m': Module, d: Word)
    requires ModuleOk(m) && m' == MovedModule(m, d)
    ensures ModuleOk(m')
  {
    forall j | 0 <= j < |m'.relocs| ensures InRange(EnvOf(m', FileValues(m')), m'.relocs[j], |m'.image|) {
      assert InRange(EnvOf(m, FileValues(m)), m.relocs[j], |m.image|);
    }
  }

  /** The module itself exports `name`. */
  ghost predicate ExportsName(m: Module, name: string)
    requires ModuleOk(m)
  {
    exists t: nat :: Exports(m, t) && m.syms[t].name == name
  }

  /** Symbols that move with their module: those in its sections, and references to its own exports. */
  ghost predicate Local(m: Module, s: nat)
    requires ModuleOk(m) && s < |m.syms|
  {
    m.syms[s].shndx.InSection? || (m.syms[s].shndx.Undef? && ExportsName(m, m.syms[s].name))
  }

  ghost function Locals(m: Module): (ls: seq<bool>)
    requires ModuleOk(m)
    ensures |ls| == |m.syms| && forall s | 0 <= s < |ls| :: ls[s] == Local(m, s)
  {
    seq(|m.syms|, s requires 0 <= s < |m.syms| => Local(m, s))
  }

  lemma AddressMoves(m: Module, m': Module, d: Word, s: nat)
    requires ModuleOk(m) && ModuleOk(m') && m' == MovedModule(m, d) && s < |m.syms| && m.syms[s].shndx.InSection?
    ensures Address(m', s) == Wrap(Address(m, s) + d)
  {
    var a := m.syms[s].value + m.sectionAddr[m.syms[s].shndx.k];
    WrapAdd(m.base + d, a);
    WrapAdd(m.base + a, d);
  }

  /** What the other modules export stays where it is. */
  lemma ExportedSame(sys: System, i: nat, d: Word, name: string, b: Word)
    requires WellFormed(sys) && i < |sys.modules| && !ExportsName(sys.modules[i], name)
    ensures Exported(sys, name, b) <==> Exported(Moved(sys, i, d), name, b)
  {
    var moved := Moved(sys, i, d);
    if Exported(sys, name, b) {
      var j: nat, s: nat :| j < |sys.modules| && Exports(sys.modules[j], s)
        && sys.modules[j].syms[s].name == name && Address(sys.modules[j], s) == b;
      assert moved.modules[j] == sys.modules[j];
    }
    if Exported(moved, name, b) {
      var j: nat, s: nat :| j < |moved.modules| && Exports(moved.modules[j], s)
        && moved.modules[j].syms[s].name == name && Address(moved.modules[j], s) == b;
      assert j == i ==> Exports(sys.modules[i], s);
      assert moved.modules[j] == sys.modules[j];
    }
  }

  lemma SameMeaning(sys: System, i: nat, d: Word, name: string, a: Word, a': Word)
    requires WellFormed(sys) && i < |sys.modules| && !ExportsName(sys.modules[i], name)
    requires Means(sys, name, a) && Means(Moved(sys, i, d), name, a')
    ensures a' == a
  {
    forall b: Word ensures Exported(sys, name, b) <==> Exported(Moved(sys, i, d), name, b) {
      ExportedSame(sys, i, d, name, b);
    }
  }

  lemma OwnMeaning(sys: System, i: nat, name: string, a: Word, t: nat)
    requires WellFormed(sys) && i < |sys.modules| && Means(sys, name, a)
    requires Exports(sys.modules[i], t) && sys.modules[i].syms[t].name == name
    ensures a == Address(sys.modules[i], t)
  {
    assert Exported(sys, name, Address(sys.modules[i], t));
  }

  lemma ReferenceMoves(sys: System, i: nat, d: Word, name: string, a: Word, a': Word)
    requires WellFormed(sys) && i < |sys.modules|
    requires Means(sys, name, a) && Means(Moved(sys, i, d), name, a')
    ensures a' == if ExportsName(sys.modules[i], name) then Wrap(a + d) else a
  {
    var m, moved := sys.modules[i], Moved(sys, i, d);
    if ExportsName(m, name) {
      var t: nat :| Exports(m, t) && m.syms[t].name == name;
      assert Exports(moved.modules[i], t);
      OwnMeaning(sys, i, name, a, t);
      OwnMeaning(moved, i, name, a', t);
      AddressMoves(m, moved.modules[i], d, t);
    } else {
      SameMeaning(sys, i, d, name, a, a');
    }
  }

  /** Module `i` is linked, and its undefined references are bound to what their names mean. */
  ghost predicate LinkedAt(sys: System, st: State, i: nat)
    requires WellFormed(sys) && i < |sys.modules|
  {
    && Shape(sys, st) && ModuleLinked(sys, st, i)
    && forall s: nat | s < |sys.modules[i].syms| && sys.modules[i].syms[s].shndx.Undef? ::
         Means(sys, sys.modules[i].syms[s].name, st.values[i][s])
  }

  lemma LoadLinks(sys: System, st: State, i: nat)
    requires WellFormed(sys) && i < |sys.modules| && LoadAll(sys) == Ok(st)
    ensures LinkedAt(sys, st, i)
  {
    LinkingCoherence(sys, st);
  }

  /** What symbol `s` of module `i` is to be worth. */
  ghost predicate Worth(sys: System, i: nat, s: nat, v: Word)
    requires WellFormed(sys) && i < |sys.modules| && s < |sys.modules[i].syms|
  {
    var m := sys.modules[i];
    match m.syms[s].shndx
    case Abs => v == m.syms[s].value
    case Undef => Means(sys, m.syms[s].name, v)
    case InSection(_) => v == Address(m, s)
  }

  lemma LinkedWorth(sys: System, st: State, i: nat, s: nat)
    requires WellFormed(sys) && i < |sys.modules| && LinkedAt(sys, st, i) && s < |sys.modules[i].syms|
    ensures Worth(sys, i, s, st.values[i][s])
  {
    assert SymLinked(sys.modules[i], s, st.symtab, st.values[i]);
  }

  lemma SymbolMoves(sys: System, i: nat, d: Word, moved: System, s: nat, v: Word, v': Word)
    requires WellFormed(sys) && i < |sys.modules| && moved == Moved(sys, i, d) && s < |sys.modules[i].syms|
    requires Worth(sys, i, s, v) && Worth(moved, i, s, v')
    ensures v' == if Local(sys.modules[i], s) then Wrap(v + d) else v
  {
    var m := sys.modules[i];
    match m.syms[s].shndx
    case Abs =>
    case Undef => ReferenceMoves(sys, i, d, m.syms[s].name, v, v');
    case InSection(_) => AddressMoves(m, moved.modules[i], d, s);
  }

  /** In two completed loads the module's local symbols differ by the distance it was moved, and its
      other symbols are the same. */
  lemma SymbolsMove(sys: System, i: nat, d: Word, moved: System, st: State, st': State)
    requires WellFormed(sys) && i < |sys.modules| && moved == Moved(sys, i, d)
    requires LinkedAt(sys, st, i) && LinkedAt(moved, st', i)
    ensures Rebased(EnvOf(sys.modules[i], st.values[i]), EnvOf(moved.modules[i], st'.values[i]),
                    Locals(sys.modules[i]), d)
  {
    forall s | 0 <= s < |sys.modules[i].syms|
      ensures st'.values[i][s] == if Local(sys.modules[i], s) then Wrap(st.values[i][s] + d) else st.values[i][s]
    {
      LinkedWorth(sys, st, i, s);
      LinkedWorth(moved, st', i, s);
      SymbolMoves(sys, i, d, moved, s, st.values[i][s], st'.values[i][s]);
    }
  }

  /** Two images of `m` differ as its relocations say: absolute slots to its own symbols and relative ones
      by `d`, PC-relative slots to symbols elsewhere by `-d`, PC-relative slots to its own symbols and all
      bytes outside the slots not at all. */
  ghost predicate ImageMoves(m: Module, env: Env, d: Word, one: seq<Byte>, two: seq<Byte>)
    requires ModuleOk(m) && AllInRange(env, m.relocs, |m.image|) && |env.values| == |m.syms|
    requires |one| == |two| == |m.image|
  {
    && (forall j | 0 <= j < |m.relocs| && Stores(m.relocs[j].kind) ::
          ReadWord(two, Slot(env, m.relocs[j]))
          == Wrap(ReadWord(one, Slot(env, m.relocs[j])) + Shift(m.relocs[j].kind, Local(m, m.relocs[j].sym), d)))
    && (forall k: nat | k < |m.image| && !Touched(env, m.relocs, |m.relocs|, |m.image|, k) :: two[k] == one[k])
  }

  lemma ImagesMove(m: Module, env: Env, env': Env, d: Word, one: seq<Byte>, two: seq<Byte>)
    requires ModuleOk(m) && |env.values| == |m.syms| && Rebased(env, env', Locals(m), d)
    requires AllInRange(env, m.relocs, |m.image|) && DisjointSlots(env, m.relocs, |m.image|)
    requires Relocated(env, m.relocs, m.image) == Ok(one)
    requires AllInRange(env', m.relocs, |m.image|) && Relocated(env', m.relocs, m.image) == Ok(two)
    ensures |one| == |two| == |m.image| && ImageMoves(m, env, d, one, two)
  {
    var two' := Rebasing(env, env', Locals(m), d, m.relocs, m.image, one);
    assert two' == two;
    forall j | 0 <= j < |m.relocs| ensures Locals(m)[m.relocs[j].sym] == Local(m, m.relocs[j].sym) {
      assert InRange(env, m.relocs[j], |m.image|);
    }
  }

  /** Loading with module `i` placed `d` bytes further up, if both loads complete and its slots are
      disjoint: its symbols and its final image move as described. */
  lemma LoadRebases(sys: System, i: nat, d: Word, moved: System, st: State, st': State, env: Env)
    requires WellFormed(sys) && i < |sys.modules| && moved == Moved(sys, i, d)
    requires LoadAll(sys) == Ok(st) && LoadAll(moved) == Ok(st')
    requires |st.values| == |sys.modules| && env == EnvOf(sys.modules[i], st.values[i])
    requires AllInRange(env, sys.modules[i].relocs, |sys.modules[i].image|)
    requires DisjointSlots(env, sys.modules[i].relocs, |sys.modules[i].image|)
    ensures LinkedAt(sys, st, i) && LinkedAt(moved, st', i)
    ensures Rebased(env, EnvOf(moved.modules[i], st'.values[i]), Locals(sys.modules[i]), d)
    ensures ImageMoves(sys.modules[i], env, d, st.images[i], st'.images[i])
  {
    LoadLinks(sys, st, i);
    LoadLinks(moved, st', i);
    SymbolsMove(sys, i, d, moved, st, st');
    ImagesMove(sys.modules[i], env, EnvOf(moved.modules[i], st'.values[i]), d, st.images[i], st'.images[i]);
  }
}
