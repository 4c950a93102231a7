// The cache of D-Bus objects that a query keeps in step with the bus through the signals that
// interfaces were added to an object or removed from it.
module ObjectCache {
  import opened Options

  // ---------------------------------------------------------------------------------------------
  // Segments of a path.

  /** The pieces of a text between slashes. */
  function Split(s: string): (pieces: seq<string>)
    ensures |pieces| > 0
  {
    if s == "" then [""]
    else
      var rest := Split(s[1..]);
      if s[0] == '/' then [""] + rest else [[s[0]] + rest[0]] + rest[1..]
  }

  function Join(pieces: seq<string>): string
    requires |pieces| > 0
  {
    if |pieces| == 1 then pieces[0] else pieces[0] + "/" + Join(pieces[1..])
  }

  /** The pieces are those of the text: joined again they give it, and none holds a slash. */
  lemma {:induction false} SplitJoins(s: string)
    ensures Join(Split(s)) == s
    ensures forall i | 0 <= i < |Split(s)| :: '/' !in Split(s)[i]
  {
    if s != "" {
      SplitJoins(s[1..]);
      var rest := Split(s[1..]);
      if s[0] == '/' {
        assert ([""] + rest)[1..] == rest;
      } else {
        var pieces := [[s[0]] + rest[0]] + rest[1..];
        assert pieces[1..] == rest[1..];
      }
      assert s == [s[0]] + s[1..];
    }
  }

  function TrimLeft(s: string): string {
    if s != "" && s[0] == '/' then TrimLeft(s[1..]) else s
  }

  function TrimRight(s: string): string {
    if s != "" && s[|s| - 1] == '/' then TrimRight(s[..|s| - 1]) else s
  }

  /** How many segments a path has beyond a number of characters. */
  function ExtraSegments(path: string, from: nat): nat {
    if from >= |path| then 0
    else
      var tail := TrimRight(TrimLeft(path[from..]));
      if tail == "" then 0 else |Split(tail)|
  }

  function Count(s: string): nat {
    if s == "" then 0 else Count(s[..|s| - 1]) + if s[|s| - 1] == '/' then 1 else 0
  }

  lemma {:induction false} CountFront(s: string)
    requires s != ""
    ensures Count(s) == Count(s[1..]) + if s[0] == '/' then 1 else 0
    decreases |s|
  {
    var n := |s| - 1;
    if n == 0 {
      assert s[1..] == "" && s[..0] == "";
    } else {
      CountFront(s[..n]);
      assert s[..n][1..] == s[1..][..n - 1];
    }
  }

  lemma {:induction false} SplitCounts(s: string)
    ensures |Split(s)| == Count(s) + 1
  {
    if s != "" {
      SplitCounts(s[1..]);
      CountFront(s);
    }
  }

  method CountExtraSegmentsOfPath(namespacePath: string, path: string) returns (n: nat)
    ensures n == ExtraSegments(path, |namespacePath|)
  {
    if |namespacePath| >= |path| {
      return 0;
    }
    var start := SkipSlashes(path, |namespacePath|);
    var end := DropSlashes(path, start);
    if start < end {
      SplitCounts(path[start..end]);
      var slashes := CountSlashes(path, start, end);
      n := slashes + 1;
    } else {
      n := 0;
    }
  }

  method SkipSlashes(path: string, from: nat) returns (start: nat)
    requires from <= |path|
    ensures from <= start <= |path| && path[start..] == TrimLeft(path[from..])
  {
    start := from;
    while start < |path| && path[start] == '/'
      invariant from <= start <= |path|
      invariant TrimLeft(path[from..]) == TrimLeft(path[start..])
    {
      assert path[start..][1..] == path[start + 1..];
      start := start + 1;
    }
  }

  method DropSlashes(path: string, start: nat) returns (end: nat)
    requires start <= |path|
    ensures start <= end <= |path| && path[start..end] == TrimRight(path[start..])
  {
    end := |path|;
    assert path[start..end] == path[start..];
    while start < end && path[end - 1] == '/'
      invariant start <= end <= |path|
      invariant TrimRight(path[start..]) == TrimRight(path[start..end])
    {
      assert path[start..end][..end - start - 1] == path[start..end - 1];
      end := end - 1;
    }
  }

  method CountSlashes(path: string, start: nat, end: nat) returns (n: nat)
    requires start <= end <= |path|
    ensures n == Count(path[start..end])
  {
    n := 0;
    for i := start to end
      invariant n == Count(path[start..i])
    {
      assert path[start..i + 1][..i - start] == path[start..i];
      if path[i] == '/' {
        n := n + 1;
      }
    }
  }

  // ---------------------------------------------------------------------------------------------
  // Criteria.

  datatype Endpoint = Endpoint(service: string, path: string)

  datatype Criteria = Criteria(path: string, service: Option<string>, depth: int, interfaces: seq<string>)

  function Elements(s: seq<string>): set<string> { set x | x in s }

  predicate Touches(interfaces: set<string>, c: Criteria) {
    exists i | i in c.interfaces :: i in interfaces
  }

  predicate InNamespace(c: Criteria, e: Endpoint) {
    && (c.service.Some? ==> e.service == c.service.value)
    && c.path <= e.path
  }

  /** The object may be of interest, judged by its place alone. */
  predicate InScope(c: Criteria, e: Endpoint) {
    InNamespace(c, e) && (c.depth > 0 ==> ExtraSegments(e.path, |c.path|) <= c.depth)
  }

  predicate Meets(c: Criteria, e: Endpoint, interfaces: set<string>) {
    InScope(c, e) && Touches(interfaces, c)
  }

  method CheckPlace(c: Criteria, e: Endpoint) returns (ok: bool)
    ensures ok == InNamespace(c, e)
  {
    if c.service.Some? && e.service != c.service.value {
      return false;
    }
    return c.path <= e.path;
  }

  method CheckCriteria(c: Criteria, e: Endpoint, interfacesToCheck: seq<string>) returns (ok: bool)
    ensures ok == Meets(c, e, Elements(interfacesToCheck))
  {
    ok := CheckPlace(c, e);
    if !ok {
      return;
    }
    if c.depth > 0 {
      var extra := CountExtraSegmentsOfPath(c.path, e.path);
      if extra > c.depth {
        return false;
      }
    }
    for i := 0 to |interfacesToCheck|
      invariant forall k | 0 <= k < i :: interfacesToCheck[k] !in c.interfaces
    {
      for j := 0 to |c.interfaces|
        invariant forall k | 0 <= k < j :: interfacesToCheck[i] != c.interfaces[k]
      {
        if interfacesToCheck[i] == c.interfaces[j] {
          assert c.interfaces[j] in Elements(interfacesToCheck);
          return true;
        }
      }
    }
    return false;
  }

  // ---------------------------------------------------------------------------------------------
  // The cache.

  class CachedInstance {
    const endpoint: Endpoint
    var targetProperties: set<string>
    var state: bool

    /** Its fields are filled for those interfaces that the query declares; the state says whether
        every one could be read. */
    constructor (endpoint: Endpoint, interfaces: seq<string>, declared: set<string>, readable: bool)
      ensures this.endpoint == endpoint && state == readable
      ensures targetProperties == declared * Elements(interfaces)
    {
      this.endpoint := endpoint;
      targetProperties := declared * Elements(interfaces);
      state := readable;
    }

    method MergeInternalMetadata(destination: CachedInstance)
      modifies this`targetProperties
      ensures targetProperties == old(targetProperties) + old(destination.targetProperties)
    {
      targetProperties := targetProperties + destination.targetProperties;
    }
  }

  datatype Cached = Cached(targetProperties: set<string>, initialized: bool)

  class EntityCache {
    const criteria: Criteria
    const declared: set<string>
    var instances: map<Endpoint, CachedInstance>

    constructor (criteria: Criteria, declared: set<string>)
      ensures this.criteria == criteria && this.declared == declared && Valid() && Contents() == map[]
    {
      this.criteria, this.declared, instances := criteria, declared, map[];
    }

    ghost predicate Valid()
      reads this
    {
      forall e | e in instances :: instances[e].endpoint == e
    }

    ghost function Contents(): map<Endpoint, Cached>
      reads this, instances.Values
    {
      map e | e in instances :: Cached(instances[e].targetProperties, instances[e].state)
    }

    /** Interfaces were added to an object. `introspected` are all its interfaces by then. */
    method OnInterfacesAdded(e: Endpoint, introspected: seq<string>, readable: bool)
      requires Valid()
      modifies this, instances.Values
      ensures Valid()
      ensures Contents() == AfterAdded(criteria, declared, old(Contents()), e, Elements(introspected), readable)
    {
      var ok := CheckPlace(criteria, e);
      if !ok {
        return;
      }
      ok := CheckCriteria(criteria, e, introspected);
      if !ok {
        return;
      }
      var newInstance := new CachedInstance(e, introspected, declared, readable);
      if e !in instances {
        instances := instances[e := newInstance];
      } else {
        var entityInstance := instances[e];
        entityInstance.MergeInternalMetadata(newInstance);
        entityInstance.state := false;
      }
    }

    method OnInterfacesRemoved(e: Endpoint, removed: seq<string>)
      requires Valid()
      modifies this
      ensures Valid()
      ensures Contents() == AfterRemoved(criteria, old(Contents()), e, Elements(removed))
    {
      var ok := CheckCriteria(criteria, e, removed);
      if ok {
        instances := instances - {e};
      }
    }
  }

  function AfterAdded(c: Criteria, declared: set<string>, cache: map<Endpoint, Cached>, e: Endpoint,
                      interfaces: set<string>, readable: bool): map<Endpoint, Cached>
  {
    if !Meets(c, e, interfaces) then cache
    else if e in cache then cache[e := Cached(cache[e].targetProperties + declared * interfaces, false)]
    else cache[e := Cached(declared * interfaces, readable)]
  }

  function AfterRemoved(c: Criteria, cache: map<Endpoint, Cached>, e: Endpoint, removed: set<string>): map<Endpoint, Cached> {
    if Meets(c, e, removed) then cache - {e} else cache
  }

  // ---------------------------------------------------------------------------------------------
  // Runs: the bus changes, and each change is signalled and handled before the next.

  type Bus = map<Endpoint, set<string>>

  function On(bus: Bus, e: Endpoint): set<string> { if e in bus then bus[e] else {} }

  datatype Change = Added(e: Endpoint, interfaces: set<string>, readable: bool) | Removed(e: Endpoint, interfaces: set<string>)

  function NextBus(bus: Bus, ch: Change): Bus {
    match ch
    case Added(e, interfaces, _) => bus[e := On(bus, e) + interfaces]
    case Removed(e, interfaces) => bus[e := On(bus, e) - interfaces]
  }

  function NextCache(c: Criteria, declared: set<string>, cache: map<Endpoint, Cached>, bus: Bus, ch: Change): map<Endpoint, Cached> {
    match ch
    case Added(e, _, readable) => AfterAdded(c, declared, cache, e, On(NextBus(bus, ch), e), readable)
    case Removed(e, interfaces) => AfterRemoved(c, cache, e, interfaces)
  }

  /** The cache holds the objects that meet the criteria, and no other. */
  ghost predicate Exact(c: Criteria, bus: Bus, cache: map<Endpoint, Cached>) {
    forall e :: e in cache <==> Meets(c, e, On(bus, e))
  }

  /** A removal takes one interface of interest and leaves another. */
  predicate Partial(c: Criteria, bus: Bus, ch: Change) {
    && ch.Removed? && Meets(c, ch.e, ch.interfaces)
    && Touches(On(bus, ch.e) - ch.interfaces, c)
  }

  lemma StepStaysExactIff(c: Criteria, declared: set<string>, bus: Bus, cache: map<Endpoint, Cached>, ch: Change)
    requires Exact(c, bus, cache)
    ensures Exact(c, NextBus(bus, ch), NextCache(c, declared, cache, bus, ch)) <==> !Partial(c, bus, ch)
  {
    var bus', cache' := NextBus(bus, ch), NextCache(c, declared, cache, bus, ch);
    forall e | e != ch.e ensures e in cache' <==> Meets(c, e, On(bus', e)) {
      assert On(bus', e) == On(bus, e);
    }
    match ch {
      case Added(e, interfaces, _) =>
        assert Touches(On(bus, e), c) ==> Touches(On(bus', e), c);
        assert e in cache' <==> Meets(c, e, On(bus', e));
      case Removed(e, interfaces) =>
        assert On(bus', e) == On(bus, e) - interfaces;
        if Partial(c, bus, ch) {
          assert e !in cache' && Meets(c, e, On(bus', e));
        } else if Meets(c, e, interfaces) {
          assert e !in cache' && !Meets(c, e, On(bus', e));
        } else {
          assert Touches(On(bus, e), c) && InScope(c, e) ==> Touches(On(bus', e), c);
        }
    }
  }

  ghost predicate IsRun(c: Criteria, declared: set<string>, buses: seq<Bus>, caches: seq<map<Endpoint, Cached>>, changes: seq<Change>) {
    && |buses| == |caches| == |changes| + 1
    && Exact(c, buses[0], caches[0])
    && forall i | 0 <= i < |changes| ::
         && buses[i + 1] == NextBus(buses[i], changes[i])
         && caches[i + 1] == NextCache(c, declared, caches[i], buses[i], changes[i])
  }

  lemma {:induction false} ExactUpTo(c: Criteria, declared: set<string>, buses: seq<Bus>, caches: seq<map<Endpoint, Cached>>,
                                     changes: seq<Change>, n: nat)
    requires IsRun(c, declared, buses, caches, changes) && n <= |changes|
    requires forall i | 0 <= i < n :: !Partial(c, buses[i], changes[i])
    ensures Exact(c, buses[n], caches[n])
    decreases n
  {
    if n > 0 {
      ExactUpTo(c, declared, buses, caches, changes, n - 1);
      StepStaysExactIff(c, declared, buses[n - 1], caches[n - 1], changes[n - 1]);
    }
  }

  /** The cache is exact after every change of a run exactly when no removal in it is partial. */
  lemma AlwaysExactIff(c: Criteria, declared: set<string>, buses: seq<Bus>, caches: seq<map<Endpoint, Cached>>, changes: seq<Change>)
    requires IsRun(c, declared, buses, caches, changes)
    ensures (forall n | 0 <= n <= |changes| :: Exact(c, buses[n], caches[n])) <==>
            (forall i | 0 <= i < |changes| :: !Partial(c, buses[i], changes[i]))
  {
    if forall i | 0 <= i < |changes| :: !Partial(c, buses[i], changes[i]) {
      forall n | 0 <= n <= |changes| ensures Exact(c, buses[n], caches[n]) {
        ExactUpTo(c, declared, buses, caches, changes, n);
      }
    } else {
      var i :| 0 <= i < |changes| && Partial(c, buses[i], changes[i]);
      if Exact(c, buses[i], caches[i]) {
        StepStaysExactIff(c, declared, buses[i], caches[i], changes[i]);
        assert !Exact(c, buses[i + 1], caches[i + 1]);
      }
    }
  }

  /** Criteria that name one interface know no partial removal: their cache is always exact. */
  lemma OneInterfaceIsAlwaysExact(c: Criteria, declared: set<string>, buses: seq<Bus>, caches: seq<map<Endpoint, Cached>>,
                                  changes: seq<Change>, n: nat)
    requires IsRun(c, declared, buses, caches, changes) && n <= |changes|
    requires |c.interfaces| == 1
    ensures forall e :: e in caches[n] <==> Meets(c, e, On(buses[n], e))
  {
    ExactUpTo(c, declared, buses, caches, changes, n);
  }

  /** An object that a partial removal lost comes back with the next signal that adds to it. */
  lemma AddedRepairs(c: Criteria, declared: set<string>, bus: Bus, cache: map<Endpoint, Cached>, ch: Change)
    requires ch.Added? && ch.e !in cache
    requires forall e | e != ch.e :: e in cache <==> Meets(c, e, On(bus, e))
    ensures Exact(c, NextBus(bus, ch), NextCache(c, declared, cache, bus, ch))
  {
    forall e | e != ch.e ensures On(NextBus(bus, ch), e) == On(bus, e) {
    }
  }

  // ---------------------------------------------------------------------------------------------
  // What a signal does, told by the segments of a path.

  predicate IsSlashFree(s: string) { forall i | 0 <= i < |s| :: s[i] != '/' }

  /** One or more names without slashes. */
  predicate AreSegments(segments: seq<string>) {
    segments != [] && forall i | 0 <= i < |segments| :: segments[i] != "" && IsSlashFree(segments[i])
  }

  predicate AreSlashes(s: string) { forall i | 0 <= i < |s| :: s[i] == '/' }

  lemma {:induction false} SplitAtSlash(a: string, rest: string)
    requires IsSlashFree(a)
    ensures Split(a + "/" + rest) == [a] + Split(rest)
  {
    var s := a + "/" + rest;
    if a == "" {
      assert s[1..] == rest && s[0] == '/';
    } else {
      SplitAtSlash(a[1..], rest);
      assert s[1..] == a[1..] + "/" + rest && s[0] == a[0];
      assert a == [a[0]] + a[1..];
    }
  }

  lemma {:induction false} SplitSlashFree(a: string)
    requires IsSlashFree(a)
    ensures Split(a) == [a]
  {
    if a != "" {
      SplitSlashFree(a[1..]);
      assert a == [a[0]] + a[1..];
    }
  }

  lemma {:induction false} SplitOfJoin(segments: seq<string>)
    requires AreSegments(segments)
    ensures Split(Join(segments)) == segments
  {
    if |segments| == 1 {
      SplitSlashFree(segments[0]);
    } else {
      SplitOfJoin(segments[1..]);
      SplitAtSlash(segments[0], Join(segments[1..]));
    }
  }

  lemma {:induction false} JoinHasNoSlashAround(segments: seq<string>)
    requires AreSegments(segments)
    ensures var s := Join(segments); s != "" && s[0] != '/' && s[|s| - 1] != '/'
  {
    if |segments| > 1 {
      JoinHasNoSlashAround(segments[1..]);
    }
  }

  lemma {:induction false} TrimLeftSlashes(lead: string, s: string)
    requires AreSlashes(lead) && s != "" && s[0] != '/'
    ensures TrimLeft(lead + s) == s
  {
    if lead == "" {
      assert lead + s == s;
    } else {
      TrimLeftSlashes(lead[1..], s);
      assert (lead + s)[1..] == lead[1..] + s;
    }
  }

  lemma {:induction false} TrimRightSlashes(s: string, trail: string)
    requires AreSlashes(trail) && s != "" && s[|s| - 1] != '/'
    ensures TrimRight(s + trail) == s
    decreases |trail|
  {
    if trail == "" {
      assert s + trail == s;
    } else {
      var n := |trail| - 1;
      TrimRightSlashes(s, trail[..n]);
      assert (s + trail)[..|s + trail| - 1] == s + trail[..n];
    }
  }

  /** The path leads from the namespace to an object over these names, slashes around them aside. */
  ghost predicate LeadsBy(from: string, path: string, segments: seq<string>) {
    if segments == [] then exists slashes | AreSlashes(slashes) :: path == from + slashes
    else
      AreSegments(segments) &&
      exists lead, trail | AreSlashes(lead) && AreSlashes(trail) :: path == from + (lead + (Join(segments) + trail))
  }

  lemma {:induction false} TrimSlashes(s: string)
    requires AreSlashes(s)
    ensures TrimLeft(s) == ""
  {
    if s != "" { TrimSlashes(s[1..]); }
  }

  lemma ExtraSegmentsAre(from: string, path: string, segments: seq<string>)
    requires LeadsBy(from, path, segments)
    ensures ExtraSegments(path, |from|) == |segments|
  {
    if segments == [] {
      var slashes :| AreSlashes(slashes) && path == from + slashes;
      assert path[|from|..] == slashes;
      TrimSlashes(slashes);
    } else {
      var lead, trail :| AreSlashes(lead) && AreSlashes(trail) && path == from + (lead + (Join(segments) + trail));
      var s := Join(segments);
      JoinHasNoSlashAround(segments);
      assert path[|from|..] == lead + (s + trail);
      TrimLeftSlashes(lead, s + trail);
      TrimRightSlashes(s, trail);
      SplitOfJoin(segments);
    }
  }

  /** An object of another service or outside the namespace, one deeper below it than a positive depth, or one
      with no interface of interest leaves the cache alone. Any other is there afterwards: with the declared
      properties of the interfaces that it has, and to be read again if it was there already. */
  lemma AddedExactly(c: Criteria, declared: set<string>, cache: map<Endpoint, Cached>, e: Endpoint,
                     interfaces: set<string>, readable: bool, segments: seq<string>)
    requires LeadsBy(c.path, e.path, segments)
    ensures var cache' := AfterAdded(c, declared, cache, e, interfaces, readable);
            if (c.service == None || c.service == Some(e.service)) && (c.depth <= 0 || |segments| <= c.depth) &&
               exists i | 0 <= i < |c.interfaces| :: c.interfaces[i] in interfaces
            then
              && cache'.Keys == cache.Keys + {e}
              && (forall o | o in cache && o != e :: cache'[o] == cache[o])
              && (e !in cache ==> cache'[e] == Cached(declared * interfaces, readable))
              && (e in cache ==> !cache'[e].initialized)
              && (e in cache ==> cache'[e].targetProperties == cache[e].targetProperties + declared * interfaces)
            else cache' == cache
  {
    ExtraSegmentsAre(c.path, e.path, segments);
    if i :| 0 <= i < |c.interfaces| && c.interfaces[i] in interfaces {
      assert c.interfaces[i] in c.interfaces;
    }
  }

  /** And it is removed under the same conditions on the interfaces that were removed from it. */
  lemma RemovedExactly(c: Criteria, cache: map<Endpoint, Cached>, e: Endpoint, removed: set<string>, segments: seq<string>)
    requires LeadsBy(c.path, e.path, segments)
    ensures AfterRemoved(c, cache, e, removed) ==
            if (c.service == None || c.service == Some(e.service)) && (c.depth <= 0 || |segments| <= c.depth) &&
               exists i | 0 <= i < |c.interfaces| :: c.interfaces[i] in removed
            then cache - {e} else cache
  {
    ExtraSegmentsAre(c.path, e.path, segments);
    if i :| 0 <= i < |c.interfaces| && c.interfaces[i] in removed {
      assert c.interfaces[i] in c.interfaces;
    }
  }

  lemma OutsideIsIgnored(c: Criteria, declared: set<string>, cache: map<Endpoint, Cached>, e: Endpoint,
                         interfaces: set<string>, readable: bool)
    requires !(c.path <= e.path)
    ensures AfterAdded(c, declared, cache, e, interfaces, readable) == cache == AfterRemoved(c, cache, e, interfaces)
  {
  }
}
