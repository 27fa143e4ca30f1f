/** Which address spaces list which maps, and the reference counts that decide when a map is
    unmapped and freed. */
module MapReferences {
  import opened Lists
  import opened Outcomes

  /** A map; `live` until it is freed. */
  datatype Mapping = Mapping(start: nat, end: nat, refcount: int, live: bool)

  /** An address space and the maps it lists, by number; `live` until it is destroyed. */
  datatype Space = Space(mappings: seq<nat>, live: bool)

  /** `m` was freed by dropping it from `holder`, and unmapped first unless it was empty. */
  datatype Release = Release(m: nat, holder: nat, unmapped: bool)

  datatype System = System(maps: seq<Mapping>, spaces: seq<Space>, released: seq<Release>)

  function Listed(s: System, a: nat): seq<nat>
    requires a < |s.spaces|
  {
    s.spaces[a].mappings
  }

  ghost predicate LiveSpace(s: System, a: nat) {
    a < |s.spaces| && s.spaces[a].live
  }

  ghost predicate LiveMap(s: System, m: nat) {
    m < |s.maps| && s.maps[m].live
  }

  ghost predicate Known(ms: seq<nat>, n: nat) {
    forall i | 0 <= i < |ms| :: ms[i] < n
  }

  ghost predicate AllLive(s: System, ms: seq<nat>) {
    forall i | 0 <= i < |ms| :: LiveMap(s, ms[i])
  }

  // ------------------------------------------------------------- operations

  function Create(s: System): System {
    s.(spaces := s.spaces + [Space([], true)])
  }

  function Push(s: System, a: nat, m: nat): System
    requires a < |s.spaces|
  {
    s.(spaces := s.spaces[a := s.spaces[a].(mappings := Listed(s, a) + [m])])
  }

  function Add(s: System, a: nat, start: nat, end: nat): System
    requires a < |s.spaces|
  {
    Push(s.(maps := s.maps + [Mapping(start, end, 1, true)]), a, |s.maps|)
  }

  function Ref(s: System, a: nat, m: nat): System
    requires a < |s.spaces| && m < |s.maps|
  {
    Push(s.(maps := s.maps[m := s.maps[m].(refcount := s.maps[m].refcount + 1)]), a, m)
  }

  function RefAll(s: System, a: nat, ms: seq<nat>): (r: System)
    requires a < |s.spaces| && Known(ms, |s.maps|)
    ensures |r.spaces| == |s.spaces|
    decreases |ms|
  {
    if ms == [] then s else RefAll(Ref(s, a, ms[0]), a, ms[1..])
  }

  function Clone(s: System, a: nat): System
    requires a < |s.spaces| && Known(Listed(s, a), |s.maps|)
  {
    RefAll(Create(s), |s.spaces|, Listed(s, a))
  }

  /** `None` where an assertion of `aspace_remove_map` fails. */
  function Remove(s: System, a: nat, m: nat): (r: Option<System>)
    requires a < |s.spaces| && m < |s.maps| && m in Listed(s, a)
    ensures r.Some? ==>
              && |r.value.maps| == |s.maps| && |r.value.spaces| == |s.spaces|
              && Listed(r.value, a) == RemoveFirst(Listed(s, a), m)
  {
    var mapping := s.maps[m];
    if mapping.start == 0 || mapping.end == 0 then None
    else
      var n := mapping.refcount - 1;
      var left := s.(spaces := s.spaces[a := s.spaces[a].(mappings := RemoveFirst(Listed(s, a), m))]);
      if n > 0 then Some(left.(maps := s.maps[m := mapping.(refcount := n)]))
      else Some(left.(maps := s.maps[m := mapping.(refcount := n, live := false)],
                      released := s.released + [Release(m, a, mapping.end > mapping.start)]))
  }

  /** `aspace_free`: the maps listed when it starts are removed one by one. */
  function RemoveAll(s: System, a: nat, ms: seq<nat>): (r: Option<System>)
    requires a < |s.spaces| && Listed(s, a) == ms && Known(ms, |s.maps|)
    ensures r.Some? ==> |r.value.spaces| == |s.spaces| && Listed(r.value, a) == []
    decreases |ms|
  {
    if ms == [] then Some(s)
    else
      var r := Remove(s, a, ms[0]);
      assert RemoveFirst(ms, ms[0]) == ms[1..];
      if r.None? then None else RemoveAll(r.value, a, ms[1..])
  }

  function Destroy(s: System, a: nat): Option<System>
    requires a < |s.spaces| && Known(Listed(s, a), |s.maps|)
  {
    var r := RemoveAll(s, a, Listed(s, a));
    if r.None? then None
    else Some(r.value.(spaces := r.value.spaces[a := r.value.spaces[a].(live := false)]))
  }

  // ------------------------------------------------------------- conservation

  /** How often a map is listed, over all address spaces. */
  ghost function Total(spaces: seq<Space>, m: nat): nat {
    if spaces == [] then 0 else multiset(spaces[0].mappings)[m] + Total(spaces[1..], m)
  }

  lemma {:induction false} TotalUpdate(spaces: seq<Space>, a: nat, x: Space, m: nat)
    requires a < |spaces|
    ensures Total(spaces[a := x], m) + multiset(spaces[a].mappings)[m] == Total(spaces, m) + multiset(x.mappings)[m]
  {
    if a > 0 {
      assert spaces[a := x][1..] == spaces[1..][a - 1 := x];
      TotalUpdate(spaces[1..], a - 1, x, m);
    } else {
      assert spaces[a := x][1..] == spaces[1..];
    }
  }

  lemma {:induction false} TotalMore(spaces: seq<Space>, x: Space, m: nat)
    ensures Total(spaces + [x], m) == Total(spaces, m) + multiset(x.mappings)[m]
  {
    if spaces == [] {
      assert (spaces + [x])[1..] == [];
    } else {
      assert (spaces + [x])[1..] == spaces[1..] + [x];
      TotalMore(spaces[1..], x, m);
    }
  }

  lemma {:induction false} ListedCounts(spaces: seq<Space>, a: nat, m: nat)
    requires a < |spaces|
    ensures multiset(spaces[a].mappings)[m] <= Total(spaces, m)
  {
    if a > 0 {
      ListedCounts(spaces[1..], a - 1, m);
    }
  }

  /** How often a map was released. */
  ghost function Releases(log: seq<Release>, m: nat): nat {
    if log == [] then 0 else Releases(log[..|log| - 1], m) + (if log[|log| - 1].m == m then 1 else 0)
  }

  lemma ReleasesMore(log: seq<Release>, x: Release, m: nat)
    ensures Releases(log + [x], m) == Releases(log, m) + (if x.m == m then 1 else 0)
  {
    assert (log + [x])[..|log|] == log;
  }

  /** A live map is counted once per listing and not released; any other is listed nowhere and was
      released exactly once. */
  ghost predicate MapCounted(s: System, m: nat)
    requires m < |s.maps|
  {
    if s.maps[m].live then
      s.maps[m].refcount == Total(s.spaces, m) && Total(s.spaces, m) >= 1 && Releases(s.released, m) == 0
    else
      Total(s.spaces, m) == 0 && Releases(s.released, m) == 1
  }

  /** Maps not made yet are neither listed nor released. */
  ghost predicate Unknown(s: System, m: nat) {
    Total(s.spaces, m) == 0 && Releases(s.released, m) == 0
  }

  ghost predicate Counted(s: System) {
    && (forall m: nat | m < |s.maps| :: MapCounted(s, m))
    && (forall m: nat | m >= |s.maps| :: Unknown(s, m))
    && (forall a: nat | a < |s.spaces| && !s.spaces[a].live :: Listed(s, a) == [])
  }

  /** So a listed map is live. */
  lemma ListedIsLive(s: System, a: nat, m: nat)
    requires Counted(s) && a < |s.spaces| && m in Listed(s, a)
    ensures LiveMap(s, m)
  {
    ListedCounts(s.spaces, a, m);
    assert m < |s.maps| ==> MapCounted(s, m);
    assert m >= |s.maps| ==> Unknown(s, m);
  }

  lemma AllListedLive(s: System, a: nat)
    requires Counted(s) && a < |s.spaces|
    ensures AllLive(s, Listed(s, a)) && Known(Listed(s, a), |s.maps|)
  {
    var l := Listed(s, a);
    forall i | 0 <= i < |l| ensures l[i] < |s.maps| && s.maps[l[i]].live {
      ListedIsLive(s, a, l[i]);
    }
  }

  lemma CreateCounted(s: System)
    requires Counted(s)
    ensures Counted(Create(s))
  {
    var r := Create(s);
    forall m: nat ensures Total(r.spaces, m) == Total(s.spaces, m) {
      TotalMore(s.spaces, Space([], true), m);
    }
    forall m: nat | m < |s.maps| ensures MapCounted(r, m) { assert MapCounted(s, m); }
    forall m: nat | m >= |s.maps| ensures Unknown(r, m) { assert Unknown(s, m); }
  }

  lemma AddCounted(s: System, a: nat, start: nat, end: nat)
    requires Counted(s) && LiveSpace(s, a)
    ensures Counted(Add(s, a, start, end)) && LiveSpace(Add(s, a, start, end), a)
  {
    var r, n := Add(s, a, start, end), |s.maps|;
    forall m: nat ensures Total(r.spaces, m) == Total(s.spaces, m) + (if m == n then 1 else 0) {
      TotalUpdate(s.spaces, a, r.spaces[a], m);
    }
    assert Unknown(s, n);
    forall m: nat | m < |r.maps| ensures MapCounted(r, m) {
      if m < n { assert MapCounted(s, m); }
    }
    forall m: nat | m >= |r.maps| ensures Unknown(r, m) { assert Unknown(s, m); }
  }

  lemma RefCounted(s: System, a: nat, x: nat)
    requires Counted(s) && LiveSpace(s, a) && LiveMap(s, x)
    ensures Counted(Ref(s, a, x))
  {
    var r := Ref(s, a, x);
    forall m: nat ensures Total(r.spaces, m) == Total(s.spaces, m) + (if m == x then 1 else 0) {
      TotalUpdate(s.spaces, a, r.spaces[a], m);
    }
    forall m: nat | m < |r.maps| ensures MapCounted(r, m) { assert MapCounted(s, m); }
    forall m: nat | m >= |r.maps| ensures Unknown(r, m) { assert Unknown(s, m); }
  }

  lemma {:induction false} RefAllCounted(s: System, a: nat, ms: seq<nat>)
    requires Counted(s) && LiveSpace(s, a) && AllLive(s, ms)
    ensures Counted(RefAll(s, a, ms)) && LiveSpace(RefAll(s, a, ms), a)
    ensures Listed(RefAll(s, a, ms), a) == Listed(s, a) + ms
    ensures forall b: nat | b < |s.spaces| && b != a :: RefAll(s, a, ms).spaces[b] == s.spaces[b]
    decreases |ms|
  {
    if ms != [] {
      RefCounted(s, a, ms[0]);
      RefAllCounted(Ref(s, a, ms[0]), a, ms[1..]);
      assert Listed(s, a) + [ms[0]] + ms[1..] == Listed(s, a) + ms;
    }
  }

  /** Dropping a listing keeps the counts; the map is released exactly if this was its last listing
      anywhere, and then by this address space. */
  lemma RemoveCounted(s: System, a: nat, x: nat)
    requires Counted(s) && LiveSpace(s, a) && x in Listed(s, a) && x < |s.maps| && Remove(s, a, x).Some?
    ensures var r := Remove(s, a, x).value;
            && Counted(r) && LiveSpace(r, a)
            && (LiveMap(r, x) <==> Total(s.spaces, x) > 1)
            && r.released == if LiveMap(r, x) then s.released
                             else s.released + [Release(x, a, s.maps[x].end > s.maps[x].start)]
  {
    var r := Remove(s, a, x).value;
    ListedIsLive(s, a, x);
    assert MapCounted(s, x);
    RemovedTotal(s, a, x, r, x);
    forall m: nat | m < |r.maps| ensures MapCounted(r, m) { StillCounted(s, a, x, r, m); }
    forall m: nat | m >= |r.maps| ensures Unknown(r, m) { StillCounted(s, a, x, r, m); }
  }

  lemma StillCounted(s: System, a: nat, x: nat, r: System, m: nat)
    requires Counted(s) && a < |s.spaces| && x in Listed(s, a) && LiveMap(s, x) && Remove(s, a, x) == Some(r)
    ensures if m < |r.maps| then MapCounted(r, m) else Unknown(r, m)
  {
    assert if m < |s.maps| then MapCounted(s, m) else Unknown(s, m);
    RemovedTotal(s, a, x, r, m);
  }

  lemma RemovedTotal(s: System, a: nat, x: nat, r: System, m: nat)
    requires a < |s.spaces| && x in Listed(s, a) && LiveMap(s, x) && Remove(s, a, x) == Some(r)
    ensures Total(r.spaces, m) == Total(s.spaces, m) - (if m == x then 1 else 0)
    ensures Releases(r.released, m) == Releases(s.released, m) + (if m == x && !r.maps[x].live then 1 else 0)
  {
    TotalUpdate(s.spaces, a, r.spaces[a], m);
    RemoveCounts(Listed(s, a), x);
    ReleasesMore(s.released, Release(x, a, s.maps[x].end > s.maps[x].start), m);
  }

  lemma {:induction false} RemoveAllCounted(s: System, a: nat, ms: seq<nat>)
    requires Counted(s) && LiveSpace(s, a) && Listed(s, a) == ms && Known(ms, |s.maps|)
    requires RemoveAll(s, a, ms).Some?
    ensures Counted(RemoveAll(s, a, ms).value) && LiveSpace(RemoveAll(s, a, ms).value, a)
    decreases |ms|
  {
    if ms != [] {
      RemoveCounted(s, a, ms[0]);
      assert RemoveFirst(ms, ms[0]) == ms[1..];
      RemoveAllCounted(Remove(s, a, ms[0]).value, a, ms[1..]);
    }
  }

  // ------------------------------------------------------------------- runs

  datatype Op =
    | NewSpace
    | CloneSpace(a: nat)
    | AddMap(a: nat, start: nat, end: nat)
    | RefMap(a: nat, m: nat)
    | RemoveMap(a: nat, m: nat)
    | FreeSpace(a: nat)
    | DestroySpace(a: nat)

  /** Operations are on live address spaces and live maps, and only listed maps are removed. */
  ghost predicate Allowed(s: System, op: Op) {
    match op
    case NewSpace => true
    case RefMap(a, m) => LiveSpace(s, a) && LiveMap(s, m)
    case RemoveMap(a, m) => LiveSpace(s, a) && m in Listed(s, a)
    case _ => LiveSpace(s, op.a)
  }

  ghost function Do(s: System, op: Op): (r: Option<System>)
    requires Counted(s) && Allowed(s, op)
  {
    if !op.NewSpace? then
      AllListedLive(s, op.a);
      match op
      case CloneSpace(a) => Some(Clone(s, a))
      case AddMap(a, start, end) => Some(Add(s, a, start, end))
      case RefMap(a, m) => Some(Ref(s, a, m))
      case RemoveMap(a, m) => Remove(s, a, m)
      case FreeSpace(a) => RemoveAll(s, a, Listed(s, a))
      case DestroySpace(a) => Destroy(s, a)
    else Some(Create(s))
  }

  lemma DoKeepsCounted(s: System, op: Op)
    requires Counted(s) && Allowed(s, op) && Do(s, op).Some?
    ensures Counted(Do(s, op).value)
  {
    if !op.NewSpace? { AllListedLive(s, op.a); }
    match op
    case NewSpace => CreateCounted(s);
    case CloneSpace(a) =>
      CreateCounted(s);
      RefAllCounted(Create(s), |s.spaces|, Listed(s, a));
    case AddMap(a, start, end) => AddCounted(s, a, start, end);
    case RefMap(a, m) => RefCounted(s, a, m);
    case RemoveMap(a, m) => RemoveCounted(s, a, m);
    case FreeSpace(a) => RemoveAllCounted(s, a, Listed(s, a));
    case DestroySpace(a) =>
      RemoveAllCounted(s, a, Listed(s, a));
      DestroyedCounted(RemoveAll(s, a, Listed(s, a)).value, a);
  }

  lemma DestroyedCounted(s: System, a: nat)
    requires Counted(s) && a < |s.spaces| && Listed(s, a) == []
    ensures Counted(s.(spaces := s.spaces[a := s.spaces[a].(live := false)]))
  {
    var r := s.(spaces := s.spaces[a := s.spaces[a].(live := false)]);
    forall m: nat ensures Total(r.spaces, m) == Total(s.spaces, m) {
      TotalUpdate(s.spaces, a, r.spaces[a], m);
    }
    forall m: nat | m < |r.maps| ensures MapCounted(r, m) { assert MapCounted(s, m); }
    forall m: nat | m >= |r.maps| ensures Unknown(r, m) { assert Unknown(s, m); }
  }

  ghost predicate Reaches(s: System, ops: seq<Op>, r: System)
    requires Counted(s)
    decreases |ops|
  {
    if ops == [] then r == s
    else
      Allowed(s, ops[0]) && Do(s, ops[0]).Some? && (
        DoKeepsCounted(s, ops[0]);
        Reaches(Do(s, ops[0]).value, ops[1..], r))
  }

  lemma {:induction false} RunKeepsCounted(s: System, ops: seq<Op>, r: System)
    requires Counted(s) && Reaches(s, ops, r)
    ensures Counted(r)
    decreases |ops|
  {
    if ops != [] {
      DoKeepsCounted(s, ops[0]);
      RunKeepsCounted(Do(s, ops[0]).value, ops[1..], r);
    }
  }

  /** Before the first address space is made. */
  ghost function Start(): (s: System)
    ensures Counted(s)
  {
    var s := System([], [], []);
    assert forall m: nat :: Unknown(s, m);
    s
  }

  /** Every run keeps each live map's count equal to its listings, and every map that is gone was
      released exactly once and is listed nowhere. */
  lemma ReferenceConservation(ops: seq<Op>, r: System)
    requires Reaches(Start(), ops, r)
    ensures forall m: nat | m < |r.maps| ::
              if r.maps[m].live then r.maps[m].refcount == Total(r.spaces, m) && Releases(r.released, m) == 0
              else Total(r.spaces, m) == 0 && Releases(r.released, m) == 1
  {
    RunKeepsCounted(Start(), ops, r);
    forall m: nat | m < |r.maps|
      ensures if r.maps[m].live then r.maps[m].refcount == Total(r.spaces, m) && Releases(r.released, m) == 0
              else Total(r.spaces, m) == 0 && Releases(r.released, m) == 1
    {
      assert MapCounted(r, m);
    }
  }

  /** Once every address space is destroyed, every map ever made has been released. */
  lemma NothingLeaks(r: System, m: nat)
    requires Counted(r) && m < |r.maps| && forall a: nat | a < |r.spaces| :: !r.spaces[a].live
    ensures !r.maps[m].live && Releases(r.released, m) == 1
  {
    assert MapCounted(r, m);
    forall a: nat | a < |r.spaces| ensures Listed(r, a) == [] {}
    NoneListed(r.spaces, m);
  }

  lemma {:induction false} NoneListed(spaces: seq<Space>, m: nat)
    requires forall a: nat | a < |spaces| :: spaces[a].mappings == []
    ensures Total(spaces, m) == 0
  {
    if spaces != [] { NoneListed(spaces[1..], m); }
  }

  // ---------------------------------------------------------------- in place

  /** A map with `n` references more, everything else the same. */
  function Counting(m: Mapping, n: nat): Mapping {
    Mapping(m.start, m.end, m.refcount + n, m.live)
  }

  /** A map with `n` references dropped: it lives on if none was, or some are left. */
  function Dropping(m: Mapping, n: nat): Mapping {
    Mapping(m.start, m.end, m.refcount - n, m.live && (n == 0 || m.refcount > n))
  }

  /** Every map is referenced once more per listing in `ms`. */
  ghost predicate CountedUp(before: seq<Mapping>, after: seq<Mapping>, ms: seq<nat>) {
    |after| == |before| && forall x: nat | x < |before| :: after[x] == Counting(before[x], multiset(ms)[x])
  }

  lemma CountedUpChain(before: seq<Mapping>, mid: seq<Mapping>, after: seq<Mapping>, ms: seq<nat>)
    requires ms != [] && CountedUp(before, mid, [ms[0]]) && CountedUp(mid, after, ms[1..])
    ensures CountedUp(before, after, ms)
  {
    assert ms == [ms[0]] + ms[1..];
  }

  /** Every map has lost one reference per listing in `ms`. */
  ghost predicate CountedDown(before: seq<Mapping>, after: seq<Mapping>, ms: seq<nat>) {
    |after| == |before| && forall x: nat | x < |before| :: after[x] == Dropping(before[x], multiset(ms)[x])
  }

  lemma CountedDownChain(before: seq<Mapping>, mid: seq<Mapping>, after: seq<Mapping>, ms: seq<nat>)
    requires ms != [] && CountedDown(before, mid, [ms[0]]) && CountedDown(mid, after, ms[1..])
    ensures CountedDown(before, after, ms)
  {
    assert ms == [ms[0]] + ms[1..];
  }

  /** What `aspace_remove_map` asserts of a map. */
  predicate Bounded(m: Mapping) {
    m.start != 0 && m.end != 0
  }

  ghost predicate AllBounded(maps: seq<Mapping>, ms: seq<nat>) {
    forall i | 0 <= i < |ms| :: ms[i] < |maps| && Bounded(maps[ms[i]])
  }

  ghost predicate OthersSame(a: nat, before: seq<Space>, after: seq<Space>) {
    |after| == |before| && forall b: nat | b < |before| && b != a :: after[b] == before[b]
  }

  /** The log only grows, by releases of dead maps that address space `a` listed. */
  ghost predicate LoggedBy(a: nat, before: seq<Release>, after: seq<Release>, ms: seq<nat>, maps: seq<Mapping>) {
    before <= after && forall k | |before| <= k < |after| ::
      after[k].holder == a && after[k].m in ms && after[k].m < |maps| && !maps[after[k].m].live
  }

  lemma {:induction false} RefAllExact(s: System, a: nat, ms: seq<nat>, r: System)
    requires a < |s.spaces| && Known(ms, |s.maps|) && r == RefAll(s, a, ms)
    ensures r.spaces == s.spaces[a := Space(Listed(s, a) + ms, s.spaces[a].live)]
    ensures CountedUp(s.maps, r.maps, ms) && r.released == s.released
    decreases |ms|
  {
    if ms == [] {
      assert Listed(s, a) + ms == Listed(s, a);
    } else {
      var mid := Ref(s, a, ms[0]);
      RefAllExact(mid, a, ms[1..], r);
      assert Listed(s, a) + [ms[0]] + ms[1..] == Listed(s, a) + ms;
      CountedUpChain(s.maps, mid.maps, r.maps, ms);
    }
  }

  /** A clone lists what its source lists, in order, every map is referenced once more per listing, and
      nothing else changes. */
  lemma CloneExact(s: System, a: nat, r: System)
    requires a < |s.spaces| && Known(Listed(s, a), |s.maps|) && r == Clone(s, a)
    ensures r.spaces == s.spaces + [Space(Listed(s, a), true)]
    ensures CountedUp(s.maps, r.maps, Listed(s, a)) && r.released == s.released
  {
    RefAllExact(Create(s), |s.spaces|, Listed(s, a), r);
    assert [] + Listed(s, a) == Listed(s, a);
  }

  /** Freeing an address space ends exactly if no map it lists has a zero bound. */
  lemma {:induction false} RemoveAllEnds(s: System, a: nat, ms: seq<nat>)
    requires a < |s.spaces| && Listed(s, a) == ms && Known(ms, |s.maps|)
    ensures RemoveAll(s, a, ms).Some? <==> AllBounded(s.maps, ms)
    decreases |ms|
  {
    if ms != [] && Remove(s, a, ms[0]).Some? {
      var r := Remove(s, a, ms[0]).value;
      assert RemoveFirst(ms, ms[0]) == ms[1..];
      assert forall x: nat | x < |s.maps| :: Bounded(r.maps[x]) == Bounded(s.maps[x]);
      RemoveAllEnds(r, a, ms[1..]);
      assert forall i | 0 < i < |ms| :: ms[1..][i - 1] == ms[i];
    }
  }

  lemma RemoveExact(s: System, a: nat, m: nat, r: System)
    requires a < |s.spaces| && m < |s.maps| && m in Listed(s, a) && Remove(s, a, m) == Some(r)
    ensures r.spaces == s.spaces[a := Space(RemoveFirst(Listed(s, a), m), s.spaces[a].live)]
    ensures CountedDown(s.maps, r.maps, [m]) && LoggedBy(a, s.released, r.released, [m], r.maps)
  {
  }

  /** It then lists nothing, every map has lost one reference per listing, and the rest is as it was. */
  lemma {:induction false} RemoveAllExact(s: System, a: nat, ms: seq<nat>, r: System)
    requires a < |s.spaces| && Listed(s, a) == ms && Known(ms, |s.maps|) && RemoveAll(s, a, ms) == Some(r)
    ensures r.spaces == s.spaces[a := Space([], s.spaces[a].live)]
    ensures CountedDown(s.maps, r.maps, ms) && LoggedBy(a, s.released, r.released, ms, r.maps)
    decreases |ms|
  {
    if ms != [] {
      assert RemoveFirst(ms, ms[0]) == ms[1..];
      var mid := Remove(s, a, ms[0]).value;
      RemoveExact(s, a, ms[0], mid);
      RemoveAllExact(mid, a, ms[1..], r);
      CountedDownChain(s.maps, mid.maps, r.maps, ms);
    }
  }

  /** Destroying a clone undoes the cloning: every map is as before, none is released, and of the clone
      only a dead address space is left. */
  lemma DestroyUndoesClone(s: System, a: nat, c: System, r: System)
    requires Counted(s) && LiveSpace(s, a) && AllBounded(s.maps, Listed(s, a))
    requires Known(Listed(s, a), |s.maps|) && c == Clone(s, a)
    ensures |c.spaces| == |s.spaces| + 1 && Known(Listed(c, |s.spaces|), |c.maps|)
    ensures Destroy(c, |s.spaces|).Some?
    ensures Destroy(c, |s.spaces|) == Some(r) ==>
              r.maps == s.maps && r.released == s.released && r.spaces == s.spaces + [Space([], false)]
  {
    var ms, b := Listed(s, a), |s.spaces|;
    CloneExact(s, a, c);
    RemoveAllEnds(c, b, ms);
    var left := RemoveAll(c, b, ms).value;
    RemoveAllExact(c, b, ms, left);
    UpAndDown(s, a, c.maps, left.maps);
    AllListedLive(s, a);
    LoggedIsDead(b, s.released, left.released, ms, s.maps);
  }

  /** Whatever is logged is the release of a map listed that is dead now. */
  lemma LoggedIsDead(a: nat, before: seq<Release>, after: seq<Release>, ms: seq<nat>, maps: seq<Mapping>)
    requires LoggedBy(a, before, after, ms, maps)
    ensures after == before || exists m :: m in ms && m < |maps| && !maps[m].live
  {
    if |after| > |before| {
      assert after[|before|].m in ms;
    }
  }

  lemma UpAndDown(s: System, a: nat, up: seq<Mapping>, down: seq<Mapping>)
    requires Counted(s) && a < |s.spaces|
    requires CountedUp(s.maps, up, Listed(s, a)) && CountedDown(up, down, Listed(s, a))
    ensures down == s.maps
  {
    forall x: nat | x < |down| ensures down[x] == s.maps[x] {
      assert MapCounted(s, x);
    }
  }

  /** The kernel's address spaces and maps, with their fields updated in place. */
  class SpaceTable {
    var maps: seq<Mapping>
    var spaces: seq<Space>
    var released: seq<Release>

    constructor ()
      ensures View() == System([], [], [])
    {
      maps, spaces, released := [], [], [];
    }

    ghost function View(): System
      reads this
    {
      System(maps, spaces, released)
    }

    method CreateSpace() returns (a: nat)
      modifies `spaces
      ensures a == |old(spaces)| && View() == Create(old(View()))
      ensures spaces == old(spaces) + [Space([], true)]
    {
      a := |spaces|;
      spaces := spaces + [Space([], true)];
    }

    /** aspace.c:171-177 and 232.  A new map, referenced once, comes last in this address space. */
    method AddNew(a: nat, start: nat, end: nat)
      requires a < |spaces|
      modifies `maps, `spaces
      ensures View() == Add(old(View()), a, start, end)
      ensures maps == old(maps) + [Mapping(start, end, 1, true)]
      ensures OthersSame(a, old(spaces), spaces)
      ensures spaces[a] == Space(old(spaces)[a].mappings + [|old(maps)|], old(spaces)[a].live)
    {
      maps := maps + [Mapping(start, end, 1, true)];
      spaces := spaces[a := spaces[a].(mappings := spaces[a].mappings + [|maps| - 1])];
    }

    /** `aspace_ref_map`, aspace.c:238-246.  The map comes last in this address space, one reference up. */
    method AddRef(a: nat, m: nat)
      requires a < |spaces| && m < |maps|
      modifies `maps, `spaces
      ensures View() == Ref(old(View()), a, m)
      ensures CountedUp(old(maps), maps, [m]) && OthersSame(a, old(spaces), spaces)
      ensures spaces[a] == Space(old(spaces)[a].mappings + [m], old(spaces)[a].live)
    {
      maps := maps[m := maps[m].(refcount := maps[m].refcount + 1)];
      spaces := spaces[a := spaces[a].(mappings := spaces[a].mappings + [m])];
    }

    /** `aspace_clone`, aspace.c:76-88.  The new address space is live and lists what `src` lists, in
        order; every map is referenced once more per listing, and nothing else changes. */
    method CloneOf(src: nat) returns (dest: nat)
      requires src < |spaces| && Known(spaces[src].mappings, |maps|)
      modifies `maps, `spaces
      ensures dest == |old(spaces)| && View() == Clone(old(View()), src)
      ensures spaces == old(spaces) + [Space(old(spaces)[src].mappings, true)]
      ensures CountedUp(old(maps), maps, old(spaces)[src].mappings)
    {
      var ms := spaces[src].mappings;
      dest := CreateSpace();
      var i := 0;
      while i < |ms|
        invariant i <= |ms| && dest < |spaces| && Known(ms, |maps|)
        invariant RefAll(View(), dest, ms[i..]) == Clone(old(View()), src)
      {
        assert ms[i..][1..] == ms[i + 1..];
        AddRef(dest, ms[i]);
        i := i + 1;
      }
      CloneExact(old(View()), src, View());
    }

    /** `aspace_remove_map`, aspace.c:250-269.  `ok` is false where an assertion fails, which is where
        the map has a zero bound.  The map leaves this address space, one reference down; it dies with
        its last reference, and that is logged. */
    method RemoveOne(a: nat, m: nat) returns (ok: bool)
      requires a < |spaces| && m < |maps| && m in spaces[a].mappings
      modifies this
      ensures ok <==> Remove(old(View()), a, m).Some?
      ensures View() == if ok then Remove(old(View()), a, m).value else old(View())
      ensures ok <==> Bounded(old(maps)[m])
      ensures |maps| == |old(maps)| && OthersSame(a, old(spaces), spaces)
      ensures ok ==>
                && spaces[a] == Space(RemoveFirst(old(spaces)[a].mappings, m), old(spaces)[a].live)
                && CountedDown(old(maps), maps, [m])
                && released == old(released) + if old(maps)[m].refcount > 1 then []
                                               else [Release(m, a, old(maps)[m].end > old(maps)[m].start)]
    {
      if maps[m].start == 0 || maps[m].end == 0 { return false; }
      spaces := spaces[a := spaces[a].(mappings := RemoveFirst(spaces[a].mappings, m))];
      maps := maps[m := maps[m].(refcount := maps[m].refcount - 1)];
      if maps[m].refcount > 0 { return true; }
      released := released + [Release(m, a, maps[m].end > maps[m].start)];
      maps := maps[m := maps[m].(live := false)];
      return true;
    }

    /** `aspace_free`, aspace.c:91-99.  It ends exactly if no map listed has a zero bound; this address
        space then lists nothing, and every map lost one reference per listing. */
    method FreeAll(a: nat) returns (ok: bool)
      requires a < |spaces| && Known(spaces[a].mappings, |maps|)
      modifies this
      ensures ok <==> RemoveAll(old(View()), a, old(spaces[a].mappings)).Some?
      ensures ok ==> View() == RemoveAll(old(View()), a, old(spaces[a].mappings)).value
      ensures ok <==> AllBounded(old(maps), old(spaces)[a].mappings)
      ensures ok ==>
                && spaces[a] == Space([], old(spaces)[a].live)
                && OthersSame(a, old(spaces), spaces)
                && CountedDown(old(maps), maps, old(spaces)[a].mappings)
                && LoggedBy(a, old(released), released, old(spaces)[a].mappings, maps)
    {
      var ms := spaces[a].mappings;
      var i := 0;
      while i < |ms|
        invariant i <= |ms| && a < |spaces| && Listed(View(), a) == ms[i..]
        invariant Known(ms, |maps|)
        invariant RemoveAll(View(), a, ms[i..]) == RemoveAll(old(View()), a, ms)
      {
        assert ms[i..][1..] == ms[i + 1..] && RemoveFirst(ms[i..], ms[i]) == ms[i..][1..];
        var done := RemoveOne(a, ms[i]);
        if !done {
          RemoveAllEnds(old(View()), a, ms);
          return false;
        }
        i := i + 1;
      }
      RemoveAllEnds(old(View()), a, ms);
      RemoveAllExact(old(View()), a, ms, View());
      return true;
    }

    /** `aspace_destroy`, aspace.c:101-110.  As `FreeAll`, and the address space is gone. */
    method DestroyIt(a: nat) returns (ok: bool)
      requires a < |spaces| && Known(spaces[a].mappings, |maps|)
      modifies this
      ensures ok <==> Destroy(old(View()), a).Some?
      ensures ok ==> View() == Destroy(old(View()), a).value
      ensures ok <==> AllBounded(old(maps), old(spaces)[a].mappings)
      ensures ok ==>
                && spaces[a] == Space([], false)
                && OthersSame(a, old(spaces), spaces)
                && CountedDown(old(maps), maps, old(spaces)[a].mappings)
                && LoggedBy(a, old(released), released, old(spaces)[a].mappings, maps)
    {
      ok := FreeAll(a);
      if !ok { return; }
      spaces := spaces[a := spaces[a].(live := false)];
    }
  }
}
