// Entities that fill their cache when they are accessed, and access other entities while they do so:
// nested, along any graph of dependencies, cycles included.
module CachedSources {

  type Entity = string

  /** A supplement provider: the entities that its queries access, and whether they fail. */
  datatype Provider = Provider(deps: seq<Entity>, fails: bool)

  /** The providers of each entity, the entities that its own queries access, in order, and those whose own
      queries fail. */
  datatype Graph = Graph(all: set<Entity>, providers: map<Entity, seq<Provider>>, deps: map<Entity, seq<Entity>>, fails: set<Entity>)

  function ProvidersAccess(providers: seq<Provider>): seq<Entity> {
    if providers == [] then [] else providers[0].deps + ProvidersAccess(providers[1..])
  }

  /** What is accessed while the cache of an entity is filled: for its providers first, then for itself. */
  function Accesses(g: Graph, e: Entity): seq<Entity> {
    if e in g.providers && e in g.deps then ProvidersAccess(g.providers[e]) + g.deps[e] else []
  }

  predicate Valid(g: Graph) {
    && g.deps.Keys == g.all && g.providers.Keys == g.all
    && forall e | e in g.all :: forall d | d in Accesses(g, e) :: d in g.all
  }

  /** The flags of the entities, and the entities whose queries were run, in order. */
  datatype State = State(initialized: set<Entity>, hasErrors: set<Entity>, inProgress: set<Entity>, runs: seq<Entity>)

  /** Due to be filled, and not being filled already. */
  predicate White(s: State, e: Entity) {
    e !in s.inProgress && (e !in s.initialized || e in s.hasErrors)
  }

  function Start(s: State, e: Entity): State {
    State(s.initialized, s.hasErrors - {e}, s.inProgress + {e}, s.runs + [e])
  }

  function Finish(g: Graph, s: State, e: Entity): State {
    var errors := if e in g.fails then s.hasErrors + {e} else s.hasErrors;
    State(if e in errors then s.initialized else s.initialized + {e}, errors, s.inProgress - {e}, s.runs)
  }

  /** Terminates because each level of nesting has one more entity in progress. */
  function Populate(g: Graph, s: State, e: Entity): (r: State)
    requires Valid(g) && e in g.all
    ensures r.inProgress == s.inProgress
    decreases g.all - s.inProgress, 0, 0
  {
    if !White(s, e) then s else Finish(g, PopulateAll(g, Start(s, e), Accesses(g, e)), e)
  }

  function PopulateAll(g: Graph, s: State, es: seq<Entity>): (r: State)
    requires Valid(g) && forall e | e in es :: e in g.all
    ensures r.inProgress == s.inProgress
    decreases g.all - s.inProgress, 1, |es|
  {
    if es == [] then s else PopulateAll(g, Populate(g, s, es[0]), es[1..])
  }

  class Sources {
    var initialized: set<Entity>
    var hasErrors: set<Entity>
    var cachingInProgress: set<Entity>
    var runs: seq<Entity>
    /** Failures of providers, kept by the providers themselves. */
    var providerErrors: set<(Entity, nat)>

    function Contents(): State
      reads this
    {
      State(initialized, hasErrors, cachingInProgress, runs)
    }

    constructor ()
      ensures Contents() == State({}, {}, {}, [])
    {
      initialized, hasErrors, cachingInProgress, runs, providerErrors := {}, {}, {}, [], {};
    }

    /** What an access to an entity does first. */
    method PopulateOnAccess(g: Graph, e: Entity)
      requires Valid(g) && e in g.all
      modifies this
      ensures Contents() == Populate(g, old(Contents()), e)
      decreases g.all - cachingInProgress, 0
    {
      if e !in cachingInProgress && (e !in initialized || e in hasErrors) {
        cachingInProgress := cachingInProgress + {e};
        hasErrors := hasErrors - {e};
        ProcessQueries(g, e);
        cachingInProgress := cachingInProgress - {e};
        if e !in hasErrors {
          initialized := initialized + {e};
        }
      }
    }

    method ProcessQueries(g: Graph, e: Entity)
      requires Valid(g) && e in g.all
      modifies this
      ensures Contents() ==
              var s := old(Contents());
              var filled := PopulateAll(g, s.(runs := s.runs + [e]), Accesses(g, e));
              if e in g.fails then filled.(hasErrors := filled.hasErrors + {e}) else filled
      decreases g.all - cachingInProgress, 2
    {
      runs := runs + [e];
      var providers := g.providers[e];
      ghost var begun := Contents();
      var i := 0;
      while i < |providers|
        invariant i <= |providers| && cachingInProgress == begun.inProgress
        invariant forall d | d in ProvidersAccess(providers[i..]) + g.deps[e] :: d in g.all
        invariant PopulateAll(g, begun, Accesses(g, e)) ==
                  PopulateAll(g, Contents(), ProvidersAccess(providers[i..]) + g.deps[e])
      {
        ghost var rest := ProvidersAccess(providers[i + 1..]) + g.deps[e];
        assert providers[i..][1..] == providers[i + 1..];
        assert ProvidersAccess(providers[i..]) + g.deps[e] == providers[i].deps + rest;
        PopulateBoth(g, Contents(), providers[i].deps, rest);
        AccessAll(g, providers[i].deps);
        if providers[i].fails {
          providerErrors := providerErrors + {(e, i)};
        }
        i := i + 1;
      }
      assert ProvidersAccess(providers[i..]) + g.deps[e] == g.deps[e];
      AccessAll(g, g.deps[e]);
      if e in g.fails {
        hasErrors := hasErrors + {e};
      }
    }

    method AccessAll(g: Graph, es: seq<Entity>)
      requires Valid(g) && forall e | e in es :: e in g.all
      modifies this
      ensures Contents() == PopulateAll(g, old(Contents()), es)
      decreases g.all - cachingInProgress, 1
    {
      ghost var begun := Contents();
      var i := 0;
      while i < |es|
        invariant i <= |es| && cachingInProgress == begun.inProgress
        invariant PopulateAll(g, begun, es) == PopulateAll(g, Contents(), es[i..])
      {
        assert es[i..][1..] == es[i + 1..];
        PopulateOnAccess(g, es[i]);
        i := i + 1;
      }
    }
  }

  lemma {:induction false} PopulateBoth(g: Graph, s: State, a: seq<Entity>, b: seq<Entity>)
    requires Valid(g) && forall e | e in a + b :: e in g.all
    ensures PopulateAll(g, s, a + b) == PopulateAll(g, PopulateAll(g, s, a), b)
    decreases |a|
  {
    if a == [] {
      assert a + b == b;
    } else {
      assert (a + b)[1..] == a[1..] + b;
      assert forall e | e in a[1..] + b :: e in a + b;
      PopulateBoth(g, Populate(g, s, a[0]), a[1..], b);
    }
  }

  // ---------------------------------------------------------------------------------------------
  // What is run.

  /** Along dependencies, through entities that are due. */
  predicate WhitePath(g: Graph, s: State, p: seq<Entity>) {
    && p != []
    && (forall i | 0 <= i < |p| :: p[i] in g.all && White(s, p[i]))
    && (forall i | 0 <= i < |p| - 1 :: p[i + 1] in Accesses(g, p[i]))
  }

  ghost predicate Reached(g: Graph, s: State, sources: seq<Entity>, x: Entity) {
    exists p :: WhitePath(g, s, p) && p[0] in sources && p[|p| - 1] == x
  }

  predicate Did(g: Graph, s: State, r: State, ran: seq<Entity>) {
    && r.runs == s.runs + ran
    && (forall x | x in ran :: x in g.all && White(s, x))
    && r.initialized == s.initialized + (set x | x in ran && x !in g.fails)
    && r.hasErrors == (set x | x in s.hasErrors && x !in ran) + (set x | x in ran && x in g.fails)
    && (forall x | x in ran && x !in g.fails :: multiset(ran)[x] == 1)
  }

  predicate Closed(g: Graph, s: State, ran: seq<Entity>) {
    forall x, y | x in ran && x in g.all && y in Accesses(g, x) && White(s, y) :: y in ran
  }

  lemma WhiteAfter(g: Graph, s: State, r: State, ran: seq<Entity>, x: Entity)
    requires Did(g, s, r, ran) && r.inProgress == s.inProgress
    ensures White(r, x) <==> White(s, x) && !(x in ran && x !in g.fails)
  {
  }

  lemma ReachedInFewer(g: Graph, s: State, m: State, sources: seq<Entity>, more: seq<Entity>, x: Entity)
    requires Reached(g, m, sources, x)
    requires forall y :: White(m, y) ==> White(s, y)
    requires forall y | y in sources :: y in more
    ensures Reached(g, s, more, x)
  {
    var p :| WhitePath(g, m, p) && p[0] in sources && p[|p| - 1] == x;
    assert WhitePath(g, s, p);
  }

  lemma DidBoth(g: Graph, s: State, m: State, r: State, a: seq<Entity>, b: seq<Entity>)
    requires Did(g, s, m, a) && Did(g, m, r, b) && m.inProgress == s.inProgress
    ensures Did(g, s, r, a + b)
  {
    forall x ensures White(m, x) <==> White(s, x) && !(x in a && x !in g.fails) {
      WhiteAfter(g, s, m, a, x);
    }
    assert r.runs == s.runs + (a + b);
    assert forall x :: x in a + b <==> x in a || x in b;
    forall x | x in a + b && x !in g.fails ensures multiset(a + b)[x] == 1 {
      assert multiset(a + b) == multiset(a) + multiset(b);
      assert x in a ==> x !in b;
    }
  }

  lemma {:induction false} EffectsAll(g: Graph, s: State, es: seq<Entity>) returns (ran: seq<Entity>)
    requires Valid(g) && forall e | e in es :: e in g.all
    ensures Did(g, s, PopulateAll(g, s, es), ran) && Closed(g, s, ran)
    ensures forall e | e in es && White(s, e) :: e in ran
    ensures forall x | x in ran :: Reached(g, s, es, x)
    decreases g.all - s.inProgress, 1, |es|
  {
    if es == [] {
      ran := [];
      assert s.runs + ran == s.runs;
    } else {
      var first, rest := es[0], es[1..];
      var m := Populate(g, s, first);
      var a := Effects(g, s, first);
      var b := EffectsAll(g, m, rest);
      ran := a + b;
      DidBoth(g, s, m, PopulateAll(g, m, rest), a, b);
      forall x ensures White(m, x) <==> White(s, x) && !(x in a && x !in g.fails) {
        WhiteAfter(g, s, m, a, x);
      }
      forall x | x in ran ensures Reached(g, s, es, x) {
        if x in a {
          ReachedInFewer(g, s, s, [first], es, x);
        } else {
          ReachedInFewer(g, s, m, rest, es, x);
        }
      }
    }
  }

  lemma {:induction false} Effects(g: Graph, s: State, e: Entity) returns (ran: seq<Entity>)
    requires Valid(g) && e in g.all
    ensures Did(g, s, Populate(g, s, e), ran) && Closed(g, s, ran)
    ensures White(s, e) ==> e in ran
    ensures forall x | x in ran :: Reached(g, s, [e], x)
    decreases g.all - s.inProgress, 0, 0
  {
    if !White(s, e) {
      ran := [];
      assert s.runs + ran == s.runs;
    } else {
      var begun, deps := Start(s, e), Accesses(g, e);
      var nested := EffectsAll(g, begun, deps);
      ran := [e] + nested;
      StillWhite(s, e);
      DidWithItself(g, s, e, PopulateAll(g, begun, deps), nested);
      ClosedWithItself(g, s, e, nested);
      forall x | x in ran ensures Reached(g, s, [e], x) {
        if x in nested {
          ReachedThrough(g, s, begun, e, x);
        } else {
          assert WhitePath(g, s, [e]);
        }
      }
    }
  }

  lemma StillWhite(s: State, e: Entity)
    ensures forall x :: White(Start(s, e), x) <==> White(s, x) && x != e
  {
  }

  lemma ClosedWithItself(g: Graph, s: State, e: Entity, nested: seq<Entity>)
    requires Closed(g, Start(s, e), nested)
    requires forall d | d in Accesses(g, e) && White(Start(s, e), d) :: d in nested
    ensures Closed(g, s, [e] + nested)
  {
    StillWhite(s, e);
    assert forall x :: x in [e] + nested <==> x == e || x in nested;
  }

  lemma ReachedThrough(g: Graph, s: State, begun: State, e: Entity, x: Entity)
    requires e in g.all && White(s, e) && Reached(g, begun, Accesses(g, e), x)
    requires forall y :: White(begun, y) ==> White(s, y)
    ensures Reached(g, s, [e], x)
  {
    var p :| WhitePath(g, begun, p) && p[0] in Accesses(g, e) && p[|p| - 1] == x;
    var q := [e] + p;
    assert forall i | 0 < i < |q| :: q[i] == p[i - 1];
    assert WhitePath(g, s, q);
  }

  lemma DidWithItself(g: Graph, s: State, e: Entity, filled: State, nested: seq<Entity>)
    requires Valid(g) && e in g.all && White(s, e)
    requires Did(g, Start(s, e), filled, nested)
    ensures Did(g, s, Finish(g, filled, e), [e] + nested)
  {
    var ran := [e] + nested;
    assert forall x :: x in ran <==> x == e || x in nested;
    assert e !in nested;
    assert s.runs + [e] + nested == s.runs + ran;
    assert multiset(ran) == multiset{e} + multiset(nested);
    assert multiset(nested)[e] == 0;
  }

  /** A path of entities that are due starts with one that is run; so all of it is run. */
  lemma {:induction false} ReachedIsRun(g: Graph, s: State, ran: seq<Entity>, p: seq<Entity>, n: nat)
    requires WhitePath(g, s, p) && n < |p| && p[0] in ran && Closed(g, s, ran)
    ensures p[n] in ran
    decreases n
  {
    if n > 0 { ReachedIsRun(g, s, ran, p, n - 1); }
  }

  /** An access runs the queries of exactly those entities that are reached from it through entities
      that are due, none twice unless its queries fail; what was run and did not fail is initialized. */
  lemma PopulateRunsExactly(g: Graph, s: State, e: Entity) returns (ran: seq<Entity>)
    requires Valid(g) && e in g.all
    ensures var r := Populate(g, s, e);
            && r.runs == s.runs + ran && r.inProgress == s.inProgress
            && (forall x :: x in ran <==> Reached(g, s, [e], x))
            && (forall x | x in ran && x !in g.fails :: multiset(ran)[x] == 1)
            && r.initialized == s.initialized + (set x | x in ran && x !in g.fails)
            && (forall x | x in ran :: x in r.hasErrors <==> x in g.fails)
  {
    ran := Effects(g, s, e);
    forall x | Reached(g, s, [e], x) ensures x in ran {
      var p :| WhitePath(g, s, p) && p[0] in [e] && p[|p| - 1] == x;
      ReachedIsRun(g, s, ran, p, |p| - 1);
    }
  }

  /** From the start and without failures: every entity reached ends initialized, its queries run once;
      a second access to any of them runs nothing. */
  lemma FirstPopulate(g: Graph, e: Entity)
    requires Valid(g) && e in g.all && g.fails == {}
    ensures var s := State({}, {}, {}, []);
            var r := Populate(g, s, e);
            && r.initialized == (set x | x in r.runs) && e in r.initialized && r.hasErrors == {}
            && (forall x | x in r.runs :: multiset(r.runs)[x] == 1)
            && (forall x | x in r.initialized && x in g.all :: forall d | d in Accesses(g, x) :: d in r.initialized)
            && (forall x | x in r.initialized && x in g.all :: Populate(g, r, x) == r)
  {
    var s := State({}, {}, {}, []);
    var r := Populate(g, s, e);
    var ran := Effects(g, s, e);
    assert r.runs == ran;
  }

  /** An entity that has been filled is due again exactly if its own queries failed, whether those of its
      providers did or not. */
  lemma DueAgainIff(g: Graph, s: State, e: Entity)
    requires Valid(g) && e in g.all && White(s, e)
    ensures White(Populate(g, s, e), e) <==> e in g.fails
  {
    var ran := Effects(g, s, e);
    WhiteAfter(g, s, Populate(g, s, e), ran, e);
  }

  lemma {:induction false} ProvidersAccessAll(providers: seq<Provider>, p: Provider, d: Entity)
    requires p in providers && d in p.deps
    ensures d in ProvidersAccess(providers)
  {
    if p != providers[0] { ProvidersAccessAll(providers[1..], p, d); }
  }

  /** An access to an entity that is due runs the queries of every entity that is due and that one of its
      providers', or its own, queries access. */
  lemma DependenciesAreRun(g: Graph, s: State, e: Entity) returns (ran: seq<Entity>)
    requires Valid(g) && e in g.all && White(s, e)
    ensures Populate(g, s, e).runs == s.runs + ran && e in ran
    ensures forall p, d | p in g.providers[e] && d in p.deps && White(s, d) :: d in ran
    ensures forall d | d in g.deps[e] && White(s, d) :: d in ran
  {
    ran := Effects(g, s, e);
    forall p, d | p in g.providers[e] && d in p.deps && White(s, d) ensures d in ran {
      ProvidersAccessAll(g.providers[e], p, d);
      assert d in Accesses(g, e);
    }
    forall d | d in g.deps[e] && White(s, d) ensures d in ran {
      assert d in Accesses(g, e);
    }
  }
}
