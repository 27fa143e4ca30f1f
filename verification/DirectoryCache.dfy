/** Path lookup in one directory, with the cache of looked-up inodes in front of the file system.

    A file system is its directory map and its inodes; what its callbacks answer where the map does
    not decide it (whether a creation succeeds, and with which inode) comes with the operation. */
module DirectoryCache {
  import opened Lists
  import opened Outcomes

  /** An inode's fields, and which callbacks it has. */
  datatype Inode = Inode(name: string, parent: Option<nat>, hasCreat: bool, hasFinddir: bool, hasUnlink: bool)

  datatype Files = Files(entries: map<(nat, string), nat>, inodes: map<nat, Inode>)

  datatype Vfs = Vfs(files: Files, cache: seq<nat>)

  predicate Dots(n: string) {
    n == "." || n == ".."
  }

  /** The contract of a file system: a name in a directory leads to one inode, an inode has one
      entry, and an inode whose parent is the directory has the name it is listed under. */
  ghost predicate FilesOk(f: Files) {
    && (forall k | k in f.entries :: k.0 in f.inodes && f.entries[k] in f.inodes)
    && (forall k | k in f.entries && f.inodes[f.entries[k]].parent == Some(k.0) :: f.inodes[f.entries[k]].name == k.1)
    && (forall k, l | k in f.entries && l in f.entries && f.entries[k] == f.entries[l] :: k == l)
  }

  /** The `finddir` callback. */
  function FsFind(f: Files, d: nat, n: string): Option<nat> {
    if (d, n) in f.entries then Some(f.entries[(d, n)]) else None
  }

  /** A new inode and its address.  Where the name is taken already it may be `found` under it from then
      on, or come behind the inode that has it. */
  datatype New = New(id: nat, inode: Inode, found: bool)

  /** The `creat` callback. */
  function FsCreat(f: Files, d: nat, n: string, made: New): Files {
    Files(if made.found then f.entries[(d, n) := made.id] else f.entries, f.inodes[made.id := made.inode])
  }

  /** The `unlink` callback, and the freeing of the inode. */
  function FsUnlink(f: Files, d: nat, n: string): Files
    requires (d, n) in f.entries
  {
    Files(f.entries - {(d, n)}, f.inodes - {f.entries[(d, n)]})
  }

  // ------------------------------------------------------- cached operations

  /** The first cached inode with this parent and name. */
  function Cached(f: Files, cache: seq<nat>, d: nat, n: string): (r: Option<nat>)
    ensures r.Some? ==> r.value in cache && r.value in f.inodes && Matches(f.inodes[r.value], d, n)
    ensures r.None? ==> forall e | e in cache && e in f.inodes :: !Matches(f.inodes[e], d, n)
  {
    if cache == [] then None
    else if cache[0] in f.inodes && Matches(f.inodes[cache[0]], d, n) then Some(cache[0])
    else Cached(f, cache[1..], d, n)
  }

  predicate Matches(i: Inode, d: nat, n: string) {
    i.parent == Some(d) && i.name == n
  }

  /** `vfs_dcache_add`; `None` where its assertion fails. */
  function CacheAdd(cache: seq<nat>, id: nat): Option<seq<nat>> {
    if id in cache then None else Some(cache + [id])
  }

  /** What a call answers: an inode or NULL, or whether an unlink succeeded. */
  datatype Answer = Found(r: Option<nat>) | Unlinked(ok: bool)

  datatype Op =
    | Finddir(d: nat, n: string)
    | Creat(d: nat, n: string, made: Option<New>)
    | Unlink(d: nat, n: string, ok: bool)

  /** The inode is added if it belongs to this directory. */
  function Remember(v: Vfs, d: nat, id: nat): Option<Vfs>
    requires id in v.files.inodes
  {
    if v.files.inodes[id].parent != Some(d) then Some(v)
    else
      var c := CacheAdd(v.cache, id);
      if c.None? then None else Some(v.(cache := c.value))
  }

  /** `vfs_finddir`. */
  function Lookup(v: Vfs, d: nat, n: string): Option<(Vfs, Answer)>
    requires d in v.files.inodes && forall k | k in v.files.entries :: v.files.entries[k] in v.files.inodes
  {
    if n == "." then Some((v, Found(Some(d))))
    else if n == ".." then Some((v, Found(v.files.inodes[d].parent)))
    else
      var hit := Cached(v.files, v.cache, d, n);
      if hit.Some? then Some((v, Found(hit)))
      else if !v.files.inodes[d].hasFinddir then Some((v, Found(None)))
      else
        var r := FsFind(v.files, d, n);
        if r.None? then Some((v, Found(None)))
        else
          var v' := Remember(v, d, r.value);
          if v'.None? then None else Some((v'.value, Found(r)))
  }

  /** `vfs_creat`. */
  function Make(v: Vfs, d: nat, n: string, made: Option<New>): Option<(Vfs, Answer)>
    requires d in v.files.inodes
  {
    if !Makes(v.files, d, n, made) then Some((v, Found(None)))
    else
      var v' := Remember(v.(files := FsCreat(v.files, d, n, made.value)), d, made.value.id);
      if v'.None? then None else Some((v'.value, Found(Some(made.value.id))))
  }

  /** The name may be made, and the callback is there and makes it. */
  predicate Makes(f: Files, d: nat, n: string, made: Option<New>)
    requires d in f.inodes
  {
    !Dots(n) && f.inodes[d].hasCreat && made.Some?
  }

  /** `vfs_unlink`; `None` where the name unlinked is not cached. */
  function Remove(v: Vfs, d: nat, n: string, ok: bool): Option<(Vfs, Answer)>
    requires d in v.files.inodes && (ok ==> (d, n) in v.files.entries)
  {
    if Dots(n) || !v.files.inodes[d].hasUnlink || !ok then Some((v, Unlinked(false)))
    else
      var hit := Cached(v.files, v.cache, d, n);
      if hit.None? then None
      else Some((Vfs(FsUnlink(v.files, d, n), RemoveFirst(v.cache, hit.value)), Unlinked(true)))
  }

  /** What the callbacks may answer.  A new inode is at a free address, is found if its name was free,
      and has that name if the directory is its parent; an inode unlinked has no entries. */
  ghost predicate Allowed(f: Files, op: Op) {
    op.d in f.inodes &&
    match op
    case Finddir(d, n) => true
    case Creat(d, n, made) =>
      made.Some? ==>
        && made.value.id !in f.inodes
        && ((d, n) !in f.entries ==> made.value.found)
        && (made.value.inode.parent == Some(d) ==> made.value.inode.name == n)
    case Unlink(d, n, ok) =>
      ok ==> (d, n) in f.entries && forall k | k in f.entries :: k.0 != f.entries[(d, n)]
  }

  ghost function Do(v: Vfs, op: Op): Option<(Vfs, Answer)>
    requires FilesOk(v.files) && Allowed(v.files, op)
  {
    match op
    case Finddir(d, n) => Lookup(v, d, n)
    case Creat(d, n, made) => Make(v, d, n, made)
    case Unlink(d, n, ok) => Remove(v, d, n, ok)
  }

  // ----------------------------------------------------- uncached operations

  /** The same calls with no cache in front of the file system. */
  ghost function Plain(f: Files, op: Op): (Files, Answer)
    requires FilesOk(f) && Allowed(f, op)
  {
    match op
    case Finddir(d, n) => (f, Found(PlainFind(f, d, n)))
    case Creat(d, n, made) =>
      if !Makes(f, d, n, made) then (f, Found(None))
      else (FsCreat(f, d, n, made.value), Found(Some(made.value.id)))
    case Unlink(d, n, ok) =>
      if Dots(n) || !f.inodes[d].hasUnlink || !ok then (f, Unlinked(false))
      else (FsUnlink(f, d, n), Unlinked(true))
  }

  function PlainFind(f: Files, d: nat, n: string): Option<nat>
    requires d in f.inodes
  {
    if n == "." then Some(d)
    else if n == ".." then f.inodes[d].parent
    else if !f.inodes[d].hasFinddir then None
    else FsFind(f, d, n)
  }

  // -------------------------------------------------------------- coherence

  /** A cached inode is the one the directory map has under its parent and name, which is neither
      "." nor "..". */
  ghost predicate EntryOk(f: Files, e: nat) {
    && e in f.inodes && f.inodes[e].parent.Some? && !Dots(f.inodes[e].name)
    && FsFind(f, f.inodes[e].parent.value, f.inodes[e].name) == Some(e)
  }

  ghost predicate Coherent(v: Vfs) {
    && FilesOk(v.files)
    && Distinct(v.cache)
    && (forall e | e in v.cache :: EntryOk(v.files, e))
  }

  /** At most one entry per parent and name. */
  lemma OneEntryPerName(v: Vfs, i: nat, j: nat)
    requires Coherent(v) && i < |v.cache| && j < |v.cache|
    ensures v.cache[i] in v.files.inodes && v.cache[j] in v.files.inodes
    ensures var x, y := v.files.inodes[v.cache[i]], v.files.inodes[v.cache[j]];
            x.parent == y.parent && x.name == y.name ==> i == j
  {
    assert EntryOk(v.files, v.cache[i]) && EntryOk(v.files, v.cache[j]);
    if v.cache[i] == v.cache[j] { DistinctIndex(v.cache, i, j); }
  }

  /** What is cached under a name is what the directory map has there. */
  lemma HitIsEntry(v: Vfs, d: nat, n: string)
    requires Coherent(v) && Cached(v.files, v.cache, d, n).Some?
    ensures FsFind(v.files, d, n) == Cached(v.files, v.cache, d, n) && !Dots(n)
  {
    assert EntryOk(v.files, Cached(v.files, v.cache, d, n).value);
  }

  /** A lookup never stops the kernel, keeps the cache coherent, and answers what the file system
      alone would, exactly if the directory can be searched or the name is not cached. */
  lemma LookupAgrees(v: Vfs, d: nat, n: string)
    requires Coherent(v) && d in v.files.inodes
    ensures Lookup(v, d, n).Some?
    ensures Coherent(Lookup(v, d, n).value.0) && Lookup(v, d, n).value.0.files == v.files
    ensures Lookup(v, d, n).value.1 == Found(PlainFind(v.files, d, n)) <==>
            v.files.inodes[d].hasFinddir || Cached(v.files, v.cache, d, n).None?
  {
    var hit := Cached(v.files, v.cache, d, n);
    if hit.Some? {
      HitIsEntry(v, d, n);
    } else if !Dots(n) && v.files.inodes[d].hasFinddir && FsFind(v.files, d, n).Some? {
      var r := FsFind(v.files, d, n).value;
      assert v.files.entries[(d, n)] == r;
      assert r in v.cache ==> EntryOk(v.files, r);
      if r !in v.cache { DistinctSnoc(v.cache, r); }
    }
  }

  /** A directory that can be written but not searched: what was made there is found all the same. */
  lemma FoundWithoutFinddir()
    ensures var dir := Inode("/", None, true, false, false);
            var v := Vfs(Files(map[(0, "a") := 1], map[0 := dir, 1 := dir.(name := "a", parent := Some(0))]), [1]);
            Coherent(v) && Lookup(v, 0, "a") == Some((v, Found(Some(1)))) && PlainFind(v.files, 0, "a") == None
  {
    assert forall i, j :: Differ([1], i, j);
  }

  lemma MakeKeepsFiles(f: Files, d: nat, n: string, made: New)
    requires FilesOk(f) && Allowed(f, Creat(d, n, Some(made)))
    ensures FilesOk(FsCreat(f, d, n, made))
  {
  }

  /** An entry cached under the name made survives exactly if it is still the one found. */
  lemma MadeEntry(f: Files, d: nat, n: string, made: New, e: nat)
    requires FilesOk(f) && Allowed(f, Creat(d, n, Some(made))) && EntryOk(f, e)
    ensures e != made.id
    ensures EntryOk(FsCreat(f, d, n, made), e) <==> !made.found || !Matches(f.inodes[e], d, n)
  {
  }

  /** The creation leaves the cache coherent: the inode cached for it is the one then found under the
      name, and no other was cached under it. */
  ghost predicate CreatFits(v: Vfs, d: nat, n: string, made: Option<New>)
    requires d in v.files.inodes
  {
    Makes(v.files, d, n, made) ==>
      if made.value.found then Cached(v.files, v.cache, d, n).None? else made.value.inode.parent != Some(d)
  }

  /** A creation never stops the kernel, answers as without the cache, and keeps the cache coherent
      exactly if it fits. */
  lemma MakeAgrees(v: Vfs, d: nat, n: string, made: Option<New>)
    requires Coherent(v) && Allowed(v.files, Creat(d, n, made))
    ensures Make(v, d, n, made).Some?
    ensures (Make(v, d, n, made).value.0.files, Make(v, d, n, made).value.1) == Plain(v.files, Creat(d, n, made))
    ensures Coherent(Make(v, d, n, made).value.0) <==> CreatFits(v, d, n, made)
  {
    if Makes(v.files, d, n, made) {
      CachedAreInodes(v);
      MakeCoherent(v, d, n, made.value, Make(v, d, n, made).value.0);
    }
  }

  lemma MakeCoherent(v: Vfs, d: nat, n: string, made: New, r: Vfs)
    requires Coherent(v) && Allowed(v.files, Creat(d, n, Some(made))) && v.files.inodes[d].hasCreat && !Dots(n)
    requires r == Vfs(FsCreat(v.files, d, n, made), if made.inode.parent == Some(d) then v.cache + [made.id] else v.cache)
    ensures Coherent(r) <==>
            if made.found then Cached(v.files, v.cache, d, n).None? else made.inode.parent != Some(d)
  {
    var f, hit := r.files, Cached(v.files, v.cache, d, n);
    MakeKeepsFiles(v.files, d, n, made);
    forall e | e in v.cache
      ensures e != made.id && e in v.files.inodes
      ensures EntryOk(f, e) <==> !made.found || !Matches(v.files.inodes[e], d, n)
    {
      assert EntryOk(v.files, e);
      MadeEntry(v.files, d, n, made, e);
    }
    DistinctSnoc(v.cache, made.id);
    assert made.inode.parent == Some(d) ==> (EntryOk(f, made.id) <==> made.found);
    if made.found && hit.Some? {
      assert hit.value in r.cache && !EntryOk(f, hit.value);
    }
    if !made.found && made.inode.parent == Some(d) {
      assert made.id in r.cache;
    }
  }

  /** Making "a" in a directory that has one, which nobody has looked up, where the older one is found
      first: a lookup then answers the new inode 2 from the cache, and the file system inode 1. */
  lemma CreatOverExisting()
    ensures var dir := Inode("/", None, true, true, true);
            var one := dir.(name := "a", parent := Some(0));
            var v := Vfs(Files(map[(0, "a") := 1], map[0 := dir, 1 := one]), []);
            Coherent(v) && Allowed(v.files, Creat(0, "a", Some(New(2, one, false))))
            && var r := Make(v, 0, "a", Some(New(2, one, false))).value.0;
               Cached(r.files, r.cache, 0, "a") == Some(2) && FsFind(r.files, 0, "a") == Some(1)
  {
    assert forall i, j :: Differ<nat>([], i, j);
    assert [] + [2] == [2];
  }

  lemma UnlinkKeepsFiles(f: Files, d: nat, n: string)
    requires FilesOk(f) && Allowed(f, Unlink(d, n, true))
    ensures FilesOk(FsUnlink(f, d, n))
  {
  }

  lemma UnlinkKeepsEntries(f: Files, d: nat, n: string, e: nat)
    requires FilesOk(f) && Allowed(f, Unlink(d, n, true)) && EntryOk(f, e) && e != f.entries[(d, n)]
    ensures EntryOk(FsUnlink(f, d, n), e)
  {
  }

  /** An unlink stops the kernel exactly if it succeeds on a name that is not cached. */
  lemma UnlinkAgrees(v: Vfs, d: nat, n: string, ok: bool)
    requires Coherent(v) && Allowed(v.files, Unlink(d, n, ok))
    ensures Remove(v, d, n, ok).None? <==>
              !Dots(n) && v.files.inodes[d].hasUnlink && ok && Cached(v.files, v.cache, d, n).None?
    ensures Remove(v, d, n, ok).Some? ==>
              && Coherent(Remove(v, d, n, ok).value.0)
              && (Remove(v, d, n, ok).value.0.files, Remove(v, d, n, ok).value.1) == Plain(v.files, Unlink(d, n, ok))
  {
    var hit := Cached(v.files, v.cache, d, n);
    if !Dots(n) && v.files.inodes[d].hasUnlink && ok && hit.Some? {
      HitIsEntry(v, d, n);
      RemoveKeepsOrder(v.cache, IndexOf(v.cache, hit.value));
      UnlinkKeepsFiles(v.files, d, n);
      var f := FsUnlink(v.files, d, n);
      forall e | e in RemoveFirst(v.cache, hit.value) ensures EntryOk(f, e) {
        assert EntryOk(v.files, e);
        UnlinkKeepsEntries(v.files, d, n, e);
      }
    }
  }

  /** Unlinking an existing file that nobody has looked up yet stops the kernel. */
  lemma UnlinkStops()
    ensures var dir := Inode("/", None, true, true, true);
            var v := Vfs(Files(map[(0, "a") := 1], map[0 := dir, 1 := dir.(name := "a", parent := Some(0))]), []);
            Coherent(v) && Allowed(v.files, Unlink(0, "a", true)) && Remove(v, 0, "a", true).None?
  {
    assert forall i, j :: Differ<nat>([], i, j);
  }

  // ------------------------------------------------------------------- runs

  /** Directories that have entries, or in which some can be made, have `finddir`; other inodes need
      not. */
  ghost predicate Searchable(f: Files) {
    && (forall k | k in f.entries && k.0 in f.inodes :: f.inodes[k.0].hasFinddir)
    && (forall d | d in f.inodes && f.inodes[d].hasCreat :: f.inodes[d].hasFinddir)
  }

  /** A new inode with `creat` has `finddir` too. */
  ghost predicate Usual(op: Op) {
    op.Creat? && op.made.Some? && op.made.value.inode.hasCreat ==> op.made.value.inode.hasFinddir
  }

  /** A creation that does not fit leaves the cache behind, as `MakeAgrees` says. */
  ghost predicate Fits(v: Vfs, op: Op)
    requires op.d in v.files.inodes
  {
    op.Creat? ==> CreatFits(v, op.d, op.n, op.made)
  }

  lemma DoAgrees(v: Vfs, op: Op)
    requires Coherent(v) && Searchable(v.files) && Allowed(v.files, op) && Usual(op) && Fits(v, op) && Do(v, op).Some?
    ensures var (v', a) := Do(v, op).value;
            Coherent(v') && Searchable(v'.files) && (v'.files, a) == Plain(v.files, op)
  {
    match op
    case Finddir(d, n) =>
      LookupAgrees(v, d, n);
      if Cached(v.files, v.cache, d, n).Some? {
        HitIsEntry(v, d, n);
        assert (d, n) in v.files.entries;
      }
    case Creat(d, n, made) => MakeAgrees(v, d, n, made);
    case Unlink(d, n, ok) => UnlinkAgrees(v, d, n, ok);
  }

  /** A run of calls with the cache goes through its states to these answers. */
  ghost predicate Runs(v: Vfs, ops: seq<Op>, answers: seq<Answer>, last: Vfs)
    decreases |ops|
  {
    if ops == [] then answers == [] && last == v
    else
      && answers != [] && FilesOk(v.files) && Allowed(v.files, ops[0]) && Usual(ops[0]) && Fits(v, ops[0])
      && Do(v, ops[0]).Some? && Do(v, ops[0]).value.1 == answers[0]
      && Runs(Do(v, ops[0]).value.0, ops[1..], answers[1..], last)
  }

  /** The same run without the cache. */
  ghost predicate PlainRuns(f: Files, ops: seq<Op>, answers: seq<Answer>, last: Files)
    decreases |ops|
  {
    if ops == [] then answers == [] && last == f
    else
      && answers != [] && FilesOk(f) && Allowed(f, ops[0])
      && Plain(f, ops[0]).1 == answers[0]
      && PlainRuns(Plain(f, ops[0]).0, ops[1..], answers[1..], last)
  }

  /** Whatever lookups, unlinks and fitting creations follow, the cached calls give the answers of the
      uncached ones and leave the same files, and the cache stays coherent. */
  lemma {:induction false} CacheRefinesLookup(v: Vfs, ops: seq<Op>, answers: seq<Answer>, last: Vfs)
    requires Coherent(v) && Searchable(v.files) && Runs(v, ops, answers, last)
    ensures PlainRuns(v.files, ops, answers, last.files) && Coherent(last)
    decreases |ops|
  {
    if ops != [] {
      DoAgrees(v, ops[0]);
      CacheRefinesLookup(Do(v, ops[0]).value.0, ops[1..], answers[1..], last);
    }
  }

  // ------------------------------------------------- found, kept and unlinked

  /** What a lookup of a name other than "." and ".." does: a cached inode answers and the cache stays;
      otherwise the file system answers, if the directory can be searched, and what it finds is appended
      to the cache exactly if it belongs to this directory. */
  lemma LookupExact(v: Vfs, d: nat, n: string)
    requires Coherent(v) && d in v.files.inodes && !Dots(n) && Lookup(v, d, n).Some?
    ensures var (v', a) := Lookup(v, d, n).value;
            && v'.files == v.files
            && (forall e | e in v.cache && e in v.files.inodes && Matches(v.files.inodes[e], d, n) ::
                 v'.cache == v.cache && a == Found(Some(e)))
            && ((forall e | e in v.cache && e in v.files.inodes :: !Matches(v.files.inodes[e], d, n)) ==>
                 if v.files.inodes[d].hasFinddir && (d, n) in v.files.entries then
                   var e := v.files.entries[(d, n)];
                   a == Found(Some(e))
                   && v'.cache == v.cache + if v.files.inodes[e].parent == Some(d) then [e] else []
                 else v'.cache == v.cache && a == Found(None))
  {
    forall e | e in v.cache && e in v.files.inodes && Matches(v.files.inodes[e], d, n)
      ensures FsFind(v.files, d, n) == Some(e)
    {
      assert EntryOk(v.files, e);
    }
    var hit := Cached(v.files, v.cache, d, n);
    if hit.Some? {
      HitIsEntry(v, d, n);
    } else {
      assert v.cache + [] == v.cache;
    }
  }

  /** So an inode of this directory that a lookup finds is cached under that name. */
  lemma FoundIsCached(v: Vfs, d: nat, n: string, v': Vfs, e: nat)
    requires Coherent(v) && d in v.files.inodes && !Dots(n) && Lookup(v, d, n) == Some((v', Found(Some(e))))
    ensures v'.files == v.files && e in v.files.inodes
    ensures v.files.inodes[e].parent == Some(d) ==> CachedAs(v', d, n, e)
  {
    LookupAgrees(v, d, n);
    LookupExact(v, d, n);
    if Cached(v.files, v.cache, d, n).None? {
      assert v.files.entries[(d, n)] == e;
    }
  }

  ghost predicate CachedAs(v: Vfs, d: nat, n: string, e: nat) {
    e in v.cache && e in v.files.inodes && Matches(v.files.inodes[e], d, n)
  }

  /** It stays cached until that name is unlinked. */
  lemma StaysCached(v: Vfs, op: Op, d: nat, n: string, e: nat)
    requires Coherent(v) && CachedAs(v, d, n, e) && Allowed(v.files, op) && op != Unlink(d, n, true)
    requires Do(v, op).Some?
    ensures CachedAs(Do(v, op).value.0, d, n, e)
  {
    assert EntryOk(v.files, e);
    if op.Unlink? && op.ok && !Dots(op.n) && v.files.inodes[op.d].hasUnlink {
      HitIsEntry(v, op.d, op.n);
      RemoveKeepsOthers(v.cache, Cached(v.files, v.cache, op.d, op.n).value, e);
    }
  }

  lemma {:induction false} RemoveKeepsOthers(q: seq<nat>, x: nat, y: nat)
    requires y in q && y != x
    ensures y in RemoveFirst(q, x)
  {
    if q[0] != x && q[0] != y {
      RemoveKeepsOthers(q[1..], x, y);
    }
  }

  lemma DoKeepsCoherent(v: Vfs, op: Op)
    requires Coherent(v) && Allowed(v.files, op) && Fits(v, op) && Do(v, op).Some?
    ensures Coherent(Do(v, op).value.0)
  {
    match op
    case Finddir(d, n) => LookupAgrees(v, d, n);
    case Creat(d, n, made) => MakeAgrees(v, d, n, made);
    case Unlink(d, n, ok) => UnlinkAgrees(v, d, n, ok);
  }

  lemma {:induction false} RunKeepsCached(
    v: Vfs, ops: seq<Op>, answers: seq<Answer>, last: Vfs, d: nat, n: string, e: nat)
    requires Coherent(v) && Runs(v, ops, answers, last)
    requires CachedAs(v, d, n, e) && forall k | 0 <= k < |ops| :: ops[k] != Unlink(d, n, true)
    ensures CachedAs(last, d, n, e) && Coherent(last)
    decreases |ops|
  {
    if ops != [] {
      DoKeepsCoherent(v, ops[0]);
      StaysCached(v, ops[0], d, n, e);
      RunKeepsCached(Do(v, ops[0]).value.0, ops[1..], answers[1..], last, d, n, e);
    }
  }

  /** Unlinking a cached name never stops the kernel.  Where the directory can unlink, the inode is then
      gone from the file system and the cache. */
  lemma UnlinkCached(v: Vfs, d: nat, n: string, e: nat)
    requires Coherent(v) && CachedAs(v, d, n, e) && Allowed(v.files, Unlink(d, n, true))
    ensures Remove(v, d, n, true).Some?
    ensures v.files.inodes[d].hasUnlink ==>
              var (v', a) := Remove(v, d, n, true).value;
              && a == Unlinked(true) && e !in v'.cache && e !in v'.files.inodes && (d, n) !in v'.files.entries
              && Cached(v'.files, v'.cache, d, n).None?
  {
    assert EntryOk(v.files, e);
    var hit := Cached(v.files, v.cache, d, n);
    HitIsEntry(v, d, n);
    UnlinkAgrees(v, d, n, true);
    RemoveKeepsOrder(v.cache, IndexOf(v.cache, e));
    if v.files.inodes[d].hasUnlink {
      var v' := Remove(v, d, n, true).value.0;
      if Cached(v'.files, v'.cache, d, n).Some? { HitIsEntry(v', d, n); }
    }
  }

  /** A lookup that finds an inode of its directory, any calls after it that do not unlink that name,
      and then the unlink: the kernel is never stopped by it. */
  lemma UnlinkAfterLookup(
    v: Vfs, d: nat, n: string, v': Vfs, e: nat, ops: seq<Op>, answers: seq<Answer>, last: Vfs)
    requires Coherent(v) && d in v.files.inodes && !Dots(n)
    requires Lookup(v, d, n) == Some((v', Found(Some(e)))) && e in v.files.inodes && v.files.inodes[e].parent == Some(d)
    requires Runs(v', ops, answers, last) && forall k | 0 <= k < |ops| :: ops[k] != Unlink(d, n, true)
    requires Allowed(last.files, Unlink(d, n, true))
    ensures Remove(last, d, n, true).Some?
  {
    LookupAgrees(v, d, n);
    FoundIsCached(v, d, n, v', e);
    RunKeepsCached(v', ops, answers, last, d, n, e);
    UnlinkCached(last, d, n, e);
  }

  /** The same after the creation of an inode that belongs to its directory, if it fits. */
  lemma UnlinkAfterCreat(
    v: Vfs, d: nat, n: string, made: New, v': Vfs, ops: seq<Op>, answers: seq<Answer>, last: Vfs)
    requires Coherent(v) && Allowed(v.files, Creat(d, n, Some(made)))
    requires Makes(v.files, d, n, Some(made)) && CreatFits(v, d, n, Some(made)) && made.inode.parent == Some(d)
    requires Make(v, d, n, Some(made)) == Some((v', Found(Some(made.id))))
    requires Runs(v', ops, answers, last) && forall k | 0 <= k < |ops| :: ops[k] != Unlink(d, n, true)
    requires Allowed(last.files, Unlink(d, n, true))
    ensures Remove(last, d, n, true).Some?
  {
    MakeAgrees(v, d, n, Some(made));
    assert CachedAs(v', d, n, made.id);
    RunKeepsCached(v', ops, answers, last, d, n, made.id);
    UnlinkCached(last, d, n, made.id);
  }

  // ----------------------------------------------------------------- rename

  /** A file system's rename of `n` to `m`, which `vfs_rename` does not tell the cache about.  It
      renames the inode in place, whether or not another has the new name: then a lookup finds this one
      or, where it comes `Behind`, still the other.  Or the new name gets an inode of its own. */
  datatype Renaming = InPlace | Behind | Replaced(id: nat, i: Inode)

  ghost predicate RenameAllowed(f: Files, d: nat, n: string, m: string, how: Renaming) {
    && d in f.inodes && (d, n) in f.entries && n != m && !Dots(n) && !Dots(m)
    && (how.Behind? ==> (d, m) in f.entries)
    && (how.Replaced? ==> how.id !in f.inodes && (how.i.parent == Some(d) ==> how.i.name == m))
  }

  function FsRename(f: Files, d: nat, n: string, m: string, how: Renaming): Files
    requires (d, n) in f.entries && f.entries[(d, n)] in f.inodes
  {
    var id := f.entries[(d, n)];
    var rest := f.entries - {(d, n)};
    match how
    case InPlace => Files(rest[(d, m) := id], f.inodes[id := f.inodes[id].(name := m)])
    case Behind => Files(rest, f.inodes[id := f.inodes[id].(name := m)])
    case Replaced(id', i) => Files(rest[(d, m) := id'], f.inodes[id' := i])
  }

  lemma RenameKeepsFiles(f: Files, d: nat, n: string, m: string, how: Renaming)
    requires FilesOk(f) && RenameAllowed(f, d, n, m, how)
    ensures FilesOk(FsRename(f, d, n, m, how))
  {
  }

  /** An entry cached under the old name survives a rename in place that is found, one cached under the
      new name a rename that is not, and every other entry survives. */
  lemma RenamedEntry(v: Vfs, d: nat, n: string, m: string, how: Renaming, e: nat)
    requires Coherent(v) && RenameAllowed(v.files, d, n, m, how) && e in v.cache
    ensures e in v.files.inodes
    ensures EntryOk(FsRename(v.files, d, n, m, how), e) <==>
              && (how.InPlace? || !Matches(v.files.inodes[e], d, n))
              && (how.Behind? || !Matches(v.files.inodes[e], d, m))
  {
    assert EntryOk(v.files, e);
  }

  /** The cache is coherent after a rename exactly if neither name was cached, or the old one was and
      its inode is found under the new name, or the new one was and its inode still is. */
  lemma RenameCoherent(v: Vfs, d: nat, n: string, m: string, how: Renaming)
    requires Coherent(v) && RenameAllowed(v.files, d, n, m, how)
    ensures Coherent(v.(files := FsRename(v.files, d, n, m, how))) <==>
              && (how.InPlace? || Cached(v.files, v.cache, d, n).None?)
              && (how.Behind? || Cached(v.files, v.cache, d, m).None?)
  {
    var f := FsRename(v.files, d, n, m, how);
    RenameKeepsFiles(v.files, d, n, m, how);
    forall e | e in v.cache
      ensures EntryOk(f, e) <==> (how.InPlace? || !Matches(v.files.inodes[e], d, n))
                                 && (how.Behind? || !Matches(v.files.inodes[e], d, m))
    {
      RenamedEntry(v, d, n, m, how, e);
    }
    if Cached(v.files, v.cache, d, n).Some? {
      assert EntryOk(f, Cached(v.files, v.cache, d, n).value) <==> how.InPlace?;
    }
    if Cached(v.files, v.cache, d, m).Some? {
      assert EntryOk(f, Cached(v.files, v.cache, d, m).value) <==> how.Behind?;
    }
  }

  /** Where the old name is cached and its inode is not renamed, the old name still leads to it, though
      the file system finds nothing. */
  lemma StaleAfterRename(v: Vfs, d: nat, n: string, m: string, how: Renaming)
    requires Coherent(v) && RenameAllowed(v.files, d, n, m, how) && how.Replaced?
    requires Cached(v.files, v.cache, d, n).Some?
    ensures var f := FsRename(v.files, d, n, m, how);
            Cached(f, v.cache, d, n).Some? && FsFind(f, d, n).None?
  {
    var f, e := FsRename(v.files, d, n, m, how), Cached(v.files, v.cache, d, n).value;
    assert e in v.cache && e in f.inodes && Matches(f.inodes[e], d, n);
  }

  /** Where only the new name is cached and the renamed inode is now found there, the new name still
      leads to the inode it had before. */
  lemma StaleNewName(v: Vfs, d: nat, n: string, m: string, how: Renaming)
    requires Coherent(v) && RenameAllowed(v.files, d, n, m, how) && !how.Behind?
    requires Cached(v.files, v.cache, d, n).None? && Cached(v.files, v.cache, d, m).Some?
    ensures var f := FsRename(v.files, d, n, m, how);
            Cached(f, v.cache, d, m) == Cached(v.files, v.cache, d, m) != FsFind(f, d, m)
  {
    var f, was := FsRename(v.files, d, n, m, how), Cached(v.files, v.cache, d, m).value;
    HitIsEntry(v, d, m);
    assert was in f.inodes && Matches(f.inodes[was], d, m);
    var e := Cached(f, v.cache, d, m).value;
    assert EntryOk(v.files, e);
  }

  /** A directory 0 with files "a" and "b", of which "b" is cached. */
  function TwoFiles(): Vfs {
    var plain := Inode("a", Some(0), false, false, false);
    Vfs(Files(map[(0, "a") := 1, (0, "b") := 2],
              map[0 := Inode("/", None, true, true, true), 1 := plain, 2 := plain.(name := "b")]), [2])
  }

  lemma TwoFilesOk()
    ensures Coherent(TwoFiles()) && Searchable(TwoFiles().files)
  {
    TwoFilesListed();
    TwoFilesSearchable();
    assert forall i, j :: Differ([2], i, j);
  }

  lemma TwoFilesListed()
    ensures FilesOk(TwoFiles().files)
  {
  }

  lemma TwoFilesSearchable()
    ensures Searchable(TwoFiles().files)
  {
  }

  /** Renaming "a" to "b" in place: a lookup of "b" answers the old inode 2 from the cache, where the
      file system has inode 1. */
  lemma RenameOntoCached()
    ensures var v := TwoFiles();
            Coherent(v) && Searchable(v.files) && RenameAllowed(v.files, 0, "a", "b", InPlace)
            && var f := FsRename(v.files, 0, "a", "b", InPlace);
               FsFind(f, 0, "b") == Some(1) && Cached(f, v.cache, 0, "b") == Some(2)
  {
    var v := TwoFiles();
    TwoFilesOk();
    assert Cached(v.files, [], 0, "a") == None && [2][1..] == [];
    assert Cached(v.files, [2], 0, "a") == None && Cached(v.files, [2], 0, "b") == Some(2);
    StaleNewName(v, 0, "a", "b", InPlace);
  }

  // ---------------------------------------------------------------- in place

  class VirtualFiles {
    var files: Files
    var dcache: seq<nat>

    constructor (files: Files)
      ensures View() == Vfs(files, [])
    {
      this.files, dcache := files, [];
    }

    ghost function View(): Vfs
      reads this
    {
      Vfs(files, dcache)
    }

    /** `vfs_dcache_find`, dcache.c:63-80. */
    method Find(d: nat, n: string) returns (r: Option<nat>)
      requires forall e | e in dcache :: e in files.inodes
      ensures r == Cached(files, dcache, d, n)
    {
      var i := 0;
      while i < |dcache|
        invariant i <= |dcache|
        invariant Cached(files, dcache, d, n) == Cached(files, dcache[i..], d, n)
      {
        var e := dcache[i];
        assert dcache[i..][0] == e && dcache[i..][1..] == dcache[i + 1..];
        if files.inodes[e].parent == Some(d) && files.inodes[e].name == n { return Some(e); }
        i := i + 1;
      }
      return None;
    }

    /** The guarded `vfs_dcache_add`, vfs.c:344-345 and 392-393; false where its assertion fails. */
    method Note(d: nat, id: nat) returns (ok: bool)
      requires id in files.inodes
      modifies `dcache
      ensures ok <==> Remember(old(View()), d, id).Some?
      ensures View() == if ok then Remember(old(View()), d, id).value else old(View())
    {
      if files.inodes[id].parent != Some(d) { return true; }
      if id in dcache { return false; }
      dcache := dcache + [id];
      return true;
    }

    /** `vfs_finddir`, vfs.c:358-402.  Never stops the kernel.  "." is the directory, ".." its parent; a
        cached inode answers for any other name.  Where none is cached the file system answers, if the
        directory can be searched, and what it finds is cached exactly if it belongs to this directory. */
    method FindIn(d: nat, n: string) returns (r: Option<nat>)
      requires Coherent(View()) && d in files.inodes
      modifies `dcache
      ensures Lookup(old(View()), d, n) == Some((View(), Found(r))) && Coherent(View())
      ensures files.inodes[d].hasFinddir ==> r == PlainFind(files, d, n)
      ensures n == "." ==> r == Some(d) && dcache == old(dcache)
      ensures n == ".." ==> r == files.inodes[d].parent && dcache == old(dcache)
      ensures !Dots(n) ==> forall e | e in old(dcache) && e in files.inodes && Matches(files.inodes[e], d, n) ::
                r == Some(e) && dcache == old(dcache)
      ensures !Dots(n) && (forall e | e in old(dcache) && e in files.inodes :: !Matches(files.inodes[e], d, n)) ==>
                && r == (if files.inodes[d].hasFinddir && (d, n) in files.entries then Some(files.entries[(d, n)]) else None)
                && dcache == old(dcache) + if r.Some? && files.inodes[r.value].parent == Some(d) then [r.value] else []
      ensures !Dots(n) && r.Some? && files.inodes[r.value].parent == Some(d) ==> r.value in dcache
    {
      LookupAgrees(View(), d, n);
      CachedAreInodes(View());
      if n == "." { return Some(d); }
      if n == ".." { return files.inodes[d].parent; }
      LookupExact(View(), d, n);
      r := Find(d, n);
      if r.Some? || !files.inodes[d].hasFinddir { return; }
      r := FsFind(files, d, n);
      if r.None? { return; }
      var ok := Note(d, r.value);
    }

    /** `vfs_creat`, vfs.c:321-355.  What is made is cached exactly if it belongs to this directory. */
    method CreateIn(d: nat, n: string, made: Option<New>) returns (r: Option<nat>)
      requires Coherent(View()) && Allowed(files, Creat(d, n, made))
      modifies this
      ensures Make(old(View()), d, n, made) == Some((View(), Found(r)))
      ensures Coherent(View()) <==> CreatFits(old(View()), d, n, made)
      ensures n == "." || n == ".." || !old(files).inodes[d].hasCreat || made.None? ==>
                r == None && View() == old(View())
      ensures n != "." && n != ".." && old(files).inodes[d].hasCreat && made.Some? ==>
                var x := made.value;
                && r == Some(x.id)
                && files.inodes == old(files).inodes[x.id := x.inode]
                && files.entries == (if x.found then old(files).entries[(d, n) := x.id] else old(files).entries)
                && dcache == old(dcache) + if x.inode.parent == Some(d) then [x.id] else []
    {
      MakeAgrees(View(), d, n, made);
      CachedAreInodes(View());
      if !Makes(files, d, n, made) { return None; }
      files := FsCreat(files, d, n, made.value);
      var ok := Note(d, made.value.id);
      return Some(made.value.id);
    }

    /** `vfs_unlink`, vfs.c:485-517.  `None` where the kernel stops, which is where the file system
        unlinks a name that is not cached; otherwise the name, its inode and its cache entry go, and
        nothing else. */
    method UnlinkIn(d: nat, n: string, succeeds: bool) returns (r: Option<bool>)
      requires Coherent(View()) && Allowed(files, Unlink(d, n, succeeds))
      modifies this
      ensures r.None? <==> Remove(old(View()), d, n, succeeds).None?
      ensures r.Some? ==> Remove(old(View()), d, n, succeeds) == Some((View(), Unlinked(r.value))) && Coherent(View())
      ensures n == "." || n == ".." || !old(files).inodes[d].hasUnlink || !succeeds ==>
                r == Some(false) && View() == old(View())
      ensures n != "." && n != ".." && old(files).inodes[d].hasUnlink && succeeds ==>
                && (r.None? <==> forall e | e in old(dcache) && e in old(files).inodes :: !Matches(old(files).inodes[e], d, n))
                && forall i | 0 <= i < |old(dcache)| && old(dcache)[i] in old(files).inodes
                              && Matches(old(files).inodes[old(dcache)[i]], d, n) ::
                     && r == Some(true) && dcache == old(dcache)[..i] + old(dcache)[i + 1..]
                     && files.inodes == old(files).inodes - {old(dcache)[i]}
                     && files.entries == old(files).entries - {(d, n)}
    {
      UnlinkAgrees(View(), d, n, succeeds);
      CachedAreInodes(View());
      if Dots(n) || !files.inodes[d].hasUnlink || !succeeds { return Some(false); }
      var hit := Find(d, n);
      if hit.None? { return None; }
      UnlinkedIndex(View(), d, n);
      files := FsUnlink(files, d, n);
      dcache := RemoveFirst(dcache, hit.value);
      return Some(true);
    }
  }

  lemma UnlinkedIndex(v: Vfs, d: nat, n: string)
    requires Coherent(v) && Cached(v.files, v.cache, d, n).Some?
    ensures forall i | 0 <= i < |v.cache| && v.cache[i] in v.files.inodes && Matches(v.files.inodes[v.cache[i]], d, n) ::
              v.cache[i] == Cached(v.files, v.cache, d, n).value
              && RemoveFirst(v.cache, v.cache[i]) == v.cache[..i] + v.cache[i + 1..]
    ensures FsFind(v.files, d, n) == Cached(v.files, v.cache, d, n)
  {
    HitIsEntry(v, d, n);
    forall i | 0 <= i < |v.cache| && v.cache[i] in v.files.inodes && Matches(v.files.inodes[v.cache[i]], d, n)
      ensures v.cache[i] == Cached(v.files, v.cache, d, n).value
      ensures RemoveFirst(v.cache, v.cache[i]) == v.cache[..i] + v.cache[i + 1..]
    {
      assert EntryOk(v.files, v.cache[i]);
      RemoveKeepsOrder(v.cache, i);
    }
  }

  lemma CachedAreInodes(v: Vfs)
    requires Coherent(v)
    ensures forall e | e in v.cache :: e in v.files.inodes
  {
    forall e | e in v.cache ensures e in v.files.inodes {
      assert EntryOk(v.files, e);
    }
  }
}
