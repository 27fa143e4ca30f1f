/** The cache of loaded inodes a file system keeps: a bounded table filled by `load` on a miss and
    written back by `flush`. */
module InodeCache {
  import opened Outcomes

  /** What `load` returned for an inode, NULL included. */
  type Data = Option<nat>

  datatype Item = Item(ino: nat, data: Data)

  /** `loads` and `flushes` are the callbacks made since the cache was created. */
  datatype Cache = Cache(items: seq<Item>, count: int, capacity: int, loads: seq<Item>, flushes: seq<Item>)

  /** `None` where the assertion on the capacity fails. */
  function Create(capacity: int): Option<Cache> {
    if capacity == 0 then None else Some(Cache([], 0, capacity, [], []))
  }

  function Find(items: seq<Item>, ino: nat): (r: Option<Data>)
    ensures r.Some? <==> exists i | 0 <= i < |items| :: items[i].ino == ino
  {
    if items == [] then None
    else if items[0].ino == ino then assert items[0].ino == ino; Some(items[0].data)
    else
      assert forall i | 0 <= i < |items| && items[i].ino == ino :: i > 0 && items[1..][i - 1] == items[i];
      Find(items[1..], ino)
  }

  /** `vfs_cache_get`, where `load` would return `loaded`; `None` where the cache overflows. */
  function Get(c: Cache, ino: nat, loaded: Data): Option<(Cache, Data)> {
    var hit := if c.count == 0 then None else Find(c.items, ino);
    if hit.Some? then Some((c, hit.value))
    else if c.count == c.capacity then None
    else
      var i := Item(ino, loaded);
      Some((c.(items := c.items + [i], count := c.count + 1, loads := c.loads + [i]), loaded))
  }

  function Flush(c: Cache, ino: nat): Cache {
    var hit := if c.count == 0 then None else Find(c.items, ino);
    if hit.None? then c else c.(flushes := c.flushes + [Item(ino, hit.value)])
  }

  /** The items whose data is not NULL. */
  function Kept(items: seq<Item>): (r: seq<Item>) {
    if items == [] then []
    else Kept(items[..|items| - 1]) + (if items[|items| - 1].data.Some? then [items[|items| - 1]] else [])
  }

  function Destroy(c: Cache): Cache {
    c.(items := [], count := 0, flushes := c.flushes + Kept(c.items))
  }

  // -------------------------------------------------------------- invariant

  ghost predicate DistinctInos(items: seq<Item>) {
    forall i, j | 0 <= i < j < |items| :: items[i].ino != items[j].ino
  }

  /** The table holds what was loaded, once per inode, within the capacity, and counts it. */
  ghost predicate Memo(c: Cache) {
    && c.capacity != 0
    && c.count == |c.items| && (c.capacity > 0 ==> c.count <= c.capacity)
    && c.items == c.loads && DistinctInos(c.items)
  }

  lemma GetKeepsMemo(c: Cache, ino: nat, loaded: Data)
    requires Memo(c)
    ensures Get(c, ino, loaded).None? <==> c.count == c.capacity && Find(c.items, ino).None?
    ensures Get(c, ino, loaded).Some? ==>
              && Memo(Get(c, ino, loaded).value.0)
              && Find(Get(c, ino, loaded).value.0.items, ino) == Some(Get(c, ino, loaded).value.1)
  {
    if Find(c.items, ino).None? {
      FindAppended(c.items, Item(ino, loaded), ino);
    }
  }

  /** What is found stays found with the same data. */
  lemma {:induction false} FindAppended(items: seq<Item>, x: Item, ino: nat)
    ensures Find(items + [x], ino) == if Find(items, ino).Some? then Find(items, ino)
                                      else if x.ino == ino then Some(x.data) else None
  {
    if items == [] {
      assert items + [x] == [x];
    } else {
      assert (items + [x])[1..] == items[1..] + [x];
      FindAppended(items[1..], x, ino);
    }
  }

  /** An item has the inode, and none before it. */
  ghost predicate FirstItem(items: seq<Item>, ino: nat, i: nat) {
    i < |items| && items[i].ino == ino && forall k | 0 <= k < i :: items[k].ino != ino
  }

  lemma {:induction false} FindFirst(items: seq<Item>, ino: nat, i: nat)
    requires FirstItem(items, ino, i)
    ensures Find(items, ino) == Some(items[i].data)
    decreases i
  {
    if i > 0 { FindFirst(items[1..], ino, i - 1); }
  }

  lemma {:induction false} FindAt(items: seq<Item>, ino: nat) returns (i: nat)
    requires Find(items, ino).Some?
    ensures FirstItem(items, ino, i) && Find(items, ino) == Some(items[i].data)
  {
    if items[0].ino == ino {
      i := 0;
    } else {
      var k := FindAt(items[1..], ino);
      i := k + 1;
      assert forall j | 0 < j < i :: items[j] == items[1..][j - 1];
    }
  }

  // ------------------------------------------------------------------- runs

  datatype Op = Read(ino: nat, loaded: Data) | Write(ino: nat)

  function Do(c: Cache, op: Op): Option<(Cache, Data)> {
    match op
    case Read(ino, loaded) => Get(c, ino, loaded)
    case Write(ino) => Some((Flush(c, ino), None))
  }

  /** A run of gets and flushes answers `answers`, without overflow. */
  ghost predicate Runs(c: Cache, ops: seq<Op>, answers: seq<Data>, last: Cache)
    decreases |ops|
  {
    if ops == [] then answers == [] && last == c
    else
      && answers != [] && Do(c, ops[0]).Some? && Do(c, ops[0]).value.1 == answers[0]
      && Runs(Do(c, ops[0]).value.0, ops[1..], answers[1..], last)
  }

  lemma {:induction false} RunKeepsMemo(c: Cache, ops: seq<Op>, answers: seq<Data>, last: Cache)
    requires Memo(c) && Runs(c, ops, answers, last)
    ensures Memo(last) && |answers| == |ops|
    decreases |ops|
  {
    if ops != [] {
      if ops[0].Read? { GetKeepsMemo(c, ops[0].ino, ops[0].loaded); }
      RunKeepsMemo(Do(c, ops[0]).value.0, ops[1..], answers[1..], last);
    }
  }

  /** One step keeps what was found. */
  lemma StepKeepsFound(c: Cache, op: Op, ino: nat)
    requires Memo(c) && Do(c, op).Some? && Find(c.items, ino).Some?
    ensures Memo(Do(c, op).value.0) && Find(Do(c, op).value.0.items, ino) == Find(c.items, ino)
    ensures op.Read? && op.ino == ino ==> Some(Do(c, op).value.1) == Find(c.items, ino)
  {
    if op.Read? {
      GetKeepsMemo(c, op.ino, op.loaded);
      FindAppended(c.items, Item(op.ino, op.loaded), ino);
    }
  }

  lemma {:induction false} FoundAgain(c: Cache, ops: seq<Op>, answers: seq<Data>, last: Cache, ino: nat, j: nat)
    requires Memo(c) && Runs(c, ops, answers, last) && Find(c.items, ino).Some?
    requires j < |answers| <= |ops| && ops[j].Read? && ops[j].ino == ino
    ensures answers[j] == Find(c.items, ino).value
    decreases |ops|
  {
    StepKeepsFound(c, ops[0], ino);
    if j > 0 {
      FoundAgain(Do(c, ops[0]).value.0, ops[1..], answers[1..], last, ino, j - 1);
    }
  }

  /** Nothing is cached for an inode before it is read. */
  lemma StepKeepsMissing(c: Cache, op: Op, ino: nat)
    requires Memo(c) && Do(c, op).Some? && Find(c.items, ino).None? && !(op.Read? && op.ino == ino)
    ensures Memo(Do(c, op).value.0) && Find(Do(c, op).value.0.items, ino).None?
  {
    if op.Read? {
      GetKeepsMemo(c, op.ino, op.loaded);
      FindAppended(c.items, Item(op.ino, op.loaded), ino);
    }
  }

  ghost predicate FirstRead(ops: seq<Op>, i: nat) {
    i < |ops| && ops[i].Read? && forall k | 0 <= k < i :: !(ops[k].Read? && ops[k].ino == ops[i].ino)
  }

  /** The first get of an inode answers what `load` returns then. */
  lemma {:induction false} FirstReadLoads(c: Cache, ops: seq<Op>, answers: seq<Data>, last: Cache, i: nat)
    requires Memo(c) && Runs(c, ops, answers, last) && FirstRead(ops, i) && i < |answers|
    requires Find(c.items, ops[i].ino).None?
    ensures answers[i] == ops[i].loaded
    decreases |ops|
  {
    if i > 0 {
      StepKeepsMissing(c, ops[0], ops[i].ino);
      FirstReadLoads(Do(c, ops[0]).value.0, ops[1..], answers[1..], last, i - 1);
    }
  }

  /** Two gets of one inode in a run return the same data. */
  lemma {:induction false} SameData(c: Cache, ops: seq<Op>, answers: seq<Data>, last: Cache, i: nat, j: nat)
    requires Memo(c) && Runs(c, ops, answers, last)
    requires i < j < |answers| <= |ops| && ops[i].Read? && ops[j].Read? && ops[i].ino == ops[j].ino
    ensures answers[i] == answers[j]
    decreases |ops|
  {
    var next := Do(c, ops[0]).value.0;
    if ops[0].Read? { GetKeepsMemo(c, ops[0].ino, ops[0].loaded); }
    if i == 0 {
      FoundAgain(next, ops[1..], answers[1..], last, ops[j].ino, j - 1);
    } else {
      SameData(next, ops[1..], answers[1..], last, i - 1, j - 1);
    }
  }

  lemma {:induction false} KeptMembers(items: seq<Item>)
    requires DistinctInos(items)
    ensures DistinctInos(Kept(items)) && forall x :: x in Kept(items) <==> x in items && x.data.Some?
  {
    if items != [] {
      var init, x := items[..|items| - 1], items[|items| - 1];
      assert items == init + [x];
      KeptMembers(init);
      forall y | y in Kept(init) ensures y.ino != x.ino {
        var i :| 0 <= i < |init| && init[i] == y;
        assert items[i].ino != items[|items| - 1].ino;
      }
    }
  }

  /** From creation to destruction: within the capacity, `load` is called at most once per inode,
      every get of an inode answers what `load` returned at the first, and destruction flushes each inode whose data is not
      NULL exactly once and no other. */
  lemma MemoTable(capacity: int, ops: seq<Op>, answers: seq<Data>, last: Cache)
    requires capacity != 0 && Runs(Create(capacity).value, ops, answers, last)
    ensures |answers| == |ops|
    ensures last.count == |last.items| && (capacity > 0 ==> last.count <= capacity)
    ensures last.loads == last.items && DistinctInos(last.loads)
    ensures forall i: nat, j: nat | FirstRead(ops, i) && i <= j < |ops| && ops[j].Read? && ops[j].ino == ops[i].ino ::
              answers[j] == ops[i].loaded
    ensures var flushed := Destroy(last).flushes[|last.flushes|..];
            DistinctInos(flushed) && forall x :: x in flushed <==> x in last.loads && x.data.Some?
    ensures Destroy(last).items == [] && Destroy(last).count == 0
  {
    var c := Create(capacity).value;
    RunKeepsMemo(c, ops, answers, last);
    RunKeepsCapacity(c, ops, answers, last);
    forall i: nat, j: nat | FirstRead(ops, i) && i <= j < |ops| && ops[j].Read? && ops[j].ino == ops[i].ino
      ensures answers[j] == ops[i].loaded
    {
      FirstReadLoads(c, ops, answers, last, i);
      if i < j { SameData(c, ops, answers, last, i, j); }
    }
    KeptMembers(last.items);
    assert Destroy(last).flushes[|last.flushes|..] == Kept(last.items);
  }

  lemma {:induction false} RunKeepsCapacity(c: Cache, ops: seq<Op>, answers: seq<Data>, last: Cache)
    requires Runs(c, ops, answers, last)
    ensures last.capacity == c.capacity
    decreases |ops|
  {
    if ops != [] { RunKeepsCapacity(Do(c, ops[0]).value.0, ops[1..], answers[1..], last); }
  }

  // ---------------------------------------------------------------- in place

  class VfsCache {
    var items: seq<Item>
    var count: int
    var capacity: int
    var loads: seq<Item>
    var flushes: seq<Item>

    ghost function View(): Cache
      reads this
    {
      Cache(items, count, capacity, loads, flushes)
    }

    /** `vfs_cache_create`, cache.c:96-114. */
    constructor (capacity: int)
      requires capacity != 0
      ensures Create(capacity) == Some(View()) && Memo(View())
    {
      this.capacity, count, items, loads, flushes := capacity, 0, [], [], [];
    }

    /** The search loop of a get and of a flush: the first item with the inode. */
    method Search(ino: nat) returns (hit: Option<Data>)
      ensures hit == Find(items, ino)
      ensures hit.Some? <==> exists i: nat :: FirstItem(items, ino, i)
      ensures forall i: nat | FirstItem(items, ino, i) :: hit == Some(items[i].data)
      ensures hit.None? ==> forall i | 0 <= i < |items| :: items[i].ino != ino
    {
      var k := 0;
      while k < |items|
        invariant k <= |items|
        invariant forall i | 0 <= i < k :: items[i].ino != ino
      {
        if items[k].ino == ino {
          assert FirstItem(items, ino, k);
          FindFirst(items, ino, k);
          return Some(items[k].data);
        }
        k := k + 1;
      }
      return None;
    }

    /** `vfs_cache_get`, cache.c:35-75.  An item that has the inode answers, and nothing changes.
        Where none has it, the cache overflows if it is full (`None`), and otherwise what is loaded is
        the answer and the one new item. */
    method GetInode(ino: nat, loaded: Data) returns (r: Option<Data>)
      requires Memo(View())
      modifies this
      ensures r.None? <==> Get(old(View()), ino, loaded).None?
      ensures r.None? ==> View() == old(View())
      ensures r.Some? ==> Get(old(View()), ino, loaded) == Some((View(), r.value)) && Memo(View())
      ensures forall i | 0 <= i < |old(items)| && old(items)[i].ino == ino ::
                r == Some(old(items)[i].data) && View() == old(View())
      ensures (forall i | 0 <= i < |old(items)| :: old(items)[i].ino != ino) ==>
                if |old(items)| == capacity then r.None? else
                  && r == Some(loaded)
                  && items == old(items) + [Item(ino, loaded)] && loads == old(loads) + [Item(ino, loaded)]
                  && count == old(count) + 1 && flushes == old(flushes)
      ensures capacity == old(capacity)
    {
      GetKeepsMemo(View(), ino, loaded);
      if count != 0 {
        var hit := Search(ino);
        if hit.Some? {
          ghost var i := FindAt(items, ino);
          assert forall k | 0 <= k < |items| && items[k].ino == ino :: k == i;
          return hit;
        }
      }
      if count == capacity { return None; }
      loads := loads + [Item(ino, loaded)];
      items := items + [Item(ino, loaded)];
      count := count + 1;
      return Some(loaded);
    }

    /** `vfs_cache_flush`, cache.c:78-93.  The first item with the inode is flushed, if there is one,
        and nothing else changes. */
    method FlushInode(ino: nat)
      modifies `flushes
      ensures View() == Flush(old(View()), ino)
      ensures forall i: nat | FirstItem(items, ino, i) && count != 0 :: flushes == old(flushes) + [items[i]]
      ensures count == 0 || (forall i | 0 <= i < |items| :: items[i].ino != ino) ==> flushes == old(flushes)
    {
      if count == 0 { return; }
      var hit := Search(ino);
      if hit.Some? {
        flushes := flushes + [Item(ino, hit.value)];
      }
    }

    /** `vfs_cache_destroy`, cache.c:117-137.  Each item whose data is not NULL is flushed
        once, and no other. */
    method DestroyCache()
      modifies this
      ensures View() == Destroy(old(View()))
      ensures items == [] && count == 0 && loads == old(loads) && capacity == old(capacity)
      ensures old(flushes) <= flushes
      ensures old(DistinctInos(items)) ==>
                && DistinctInos(flushes[|old(flushes)|..])
                && forall x :: x in flushes[|old(flushes)|..] <==> x in old(items) && x.data.Some?
    {
      var k := 0;
      while k < |items|
        invariant k <= |items| && items == old(items) && loads == old(loads) && capacity == old(capacity)
        invariant flushes == old(flushes) + Kept(items[..k])
      {
        assert items[..k + 1][..k] == items[..k];
        if items[k].data.Some? {
          flushes := flushes + [items[k]];
        }
        k := k + 1;
      }
      assert items[..k] == items;
      assert flushes[|old(flushes)|..] == Kept(items);
      if DistinctInos(items) { KeptMembers(items); }
      items, count := [], 0;
    }
  }
}
