/** The boot-time dependency graph: `DependencyGraph::build` and its accessors. */
module DependencyGraph {
  import opened Paths

  datatype ServiceDef = ServiceDef(
    name: Service,
    required: seq<Service>,
    wants: seq<Service>,
    after: seq<Service>,
    before: seq<Service>)

  datatype Graph = Graph(
    deps: Edges,
    required: Edges,
    reverse: Edges,
    services: set<Service>)
  {
    /** What every built graph satisfies: closed, `required` inside `deps`, `reverse` the transpose. */
    ghost predicate Valid() {
      && deps.Keys == required.Keys == reverse.Keys == services
      && (forall s :: Adj(required, s) <= Adj(deps, s))
      && (forall s :: Adj(deps, s) <= services)
      && (forall s :: Adj(reverse, s) <= services)
      && (forall s, d :: s in Adj(reverse, d) <==> d in Adj(deps, s))
    }

    function DependenciesOf(s: Service): set<Service> { Adj(deps, s) }
    function RequiresOf(s: Service): set<Service> { Adj(required, s) }
    function DependentsOf(s: Service): set<Service> { Adj(reverse, s) }
  }

  /** `s` must not start before `d`, according to one definition. */
  predicate Orders(def: ServiceDef, s: Service, d: Service) {
    || (def.name == s && (d in def.required || d in def.wants || d in def.after))
    || (def.name == d && s in def.before)
  }

  ghost predicate DependsOn(defs: seq<ServiceDef>, s: Service, d: Service) {
    exists i :: 0 <= i < |defs| && Orders(defs[i], s, d)
  }

  ghost predicate Requires(defs: seq<ServiceDef>, s: Service, d: Service) {
    exists i :: 0 <= i < |defs| && defs[i].name == s && d in defs[i].required
  }

  function Names(defs: seq<ServiceDef>): set<Service> {
    set i | 0 <= i < |defs| :: defs[i].name
  }

  ghost function DependencyPairs(defs: seq<ServiceDef>): iset<(Service, Service)> {
    iset s, d | DependsOn(defs, s, d) :: (s, d)
  }

  ghost function RequiredPairs(defs: seq<ServiceDef>): iset<(Service, Service)> {
    iset s, d | Requires(defs, s, d) :: (s, d)
  }

  /** `m` is the relation `pairs` restricted to `names`. */
  ghost predicate Holds(m: Edges, pairs: iset<(Service, Service)>, names: set<Service>) {
    && m.Keys == names
    && (forall s, d :: s in names ==> (d in m[s] <==> d in names && (s, d) in pairs))
  }

  /** `m` is the transpose of `pairs` restricted to `names`. */
  ghost predicate HoldsTransposed(m: Edges, pairs: iset<(Service, Service)>, names: set<Service>) {
    && m.Keys == names
    && (forall s, d :: d in names ==> (s in m[d] <==> s in names && (s, d) in pairs))
  }

  ghost predicate HoldsPairs(g: Graph, deps: iset<(Service, Service)>, required: iset<(Service, Service)>,
                             names: set<Service>) {
    && g.services == names
    && Holds(g.deps, deps, names)
    && Holds(g.required, required, names)
    && HoldsTransposed(g.reverse, deps, names)
  }

  /** The graph holds exactly the relations the definitions state between `names`. */
  ghost predicate Represents(g: Graph, defs: seq<ServiceDef>, names: set<Service>) {
    HoldsPairs(g, DependencyPairs(defs), RequiredPairs(defs), names)
  }

  lemma RepresentsIsValid(g: Graph, defs: seq<ServiceDef>, names: set<Service>)
    requires Represents(g, defs, names)
    ensures g.Valid()
  {
    forall s, d | s in names && d in g.required[s]
      ensures d in g.deps[s]
    {
      assert (s, d) in RequiredPairs(defs);
      var i :| 0 <= i < |defs| && defs[i].name == s && d in defs[i].required;
      assert Orders(defs[i], s, d);
      assert (s, d) in DependencyPairs(defs);
    }
  }

  /** Record that `s` depends on `d`; unknown names are ignored. */
  function Link(g: Graph, s: Service, d: Service, hard: bool): Graph
    requires g.deps.Keys == g.required.Keys == g.reverse.Keys == g.services
  {
    if s in g.services && d in g.services then
      g.(deps := g.deps[s := g.deps[s] + {d}],
         required := if hard then g.required[s := g.required[s] + {d}] else g.required,
         reverse := g.reverse[d := g.reverse[d] + {s}])
    else g
  }

  lemma LinkAddsPair(g: Graph, D: iset<(Service, Service)>, R: iset<(Service, Service)>, names: set<Service>,
                     s: Service, d: Service, hard: bool)
    requires HoldsPairs(g, D, R, names)
    ensures HoldsPairs(Link(g, s, d, hard), D + iset{(s, d)}, if hard then R + iset{(s, d)} else R, names)
  {
  }

  /** The pairs stated by one more definition. */
  lemma PairsSnoc(defs: seq<ServiceDef>, p: ServiceDef)
    ensures DependencyPairs(defs + [p]) == DependencyPairs(defs) + (iset x, y | Orders(p, x, y) :: (x, y))
    ensures RequiredPairs(defs + [p]) == RequiredPairs(defs) + (iset y | y in p.required :: (p.name, y))
  {
    var all := defs + [p];
    assert all[|defs|] == p;
    assert forall i :: 0 <= i < |defs| ==> all[i] == defs[i];
    assert forall x, y :: DependsOn(all, x, y) <==> DependsOn(defs, x, y) || Orders(p, x, y);
    assert forall x, y :: Requires(all, x, y) <==> Requires(defs, x, y) || (p.name == x && y in p.required);
  }

  /** Growing the last definition by one entry is matched by linking one pair. */
  lemma LinkStep(g: Graph, defs: seq<ServiceDef>, p: ServiceDef, p': ServiceDef, names: set<Service>,
                 s: Service, d: Service, hard: bool)
    requires Represents(g, defs + [p], names)
    requires p.name == p'.name && (hard ==> s == p.name)
    requires forall x, y :: Orders(p', x, y) <==> Orders(p, x, y) || (x == s && y == d)
    requires forall y :: y in p'.required <==> y in p.required || (hard && y == d)
    ensures Represents(Link(g, s, d, hard), defs + [p'], names)
  {
    PairsSnoc(defs, p);
    PairsSnoc(defs, p');
    LinkAddsPair(g, DependencyPairs(defs + [p]), RequiredPairs(defs + [p]), names, s, d, hard);
    assert DependencyPairs(defs + [p']) == DependencyPairs(defs + [p]) + iset{(s, d)};
    assert RequiredPairs(defs + [p']) ==
           if hard then RequiredPairs(defs + [p]) + iset{(s, d)} else RequiredPairs(defs + [p]);
  }

  /** An empty definition states nothing. */
  lemma EmptyDefStep(g: Graph, defs: seq<ServiceDef>, name: Service, names: set<Service>)
    requires Represents(g, defs, names)
    ensures Represents(g, defs + [ServiceDef(name, [], [], [], [])], names)
  {
    var p := ServiceDef(name, [], [], [], []);
    PairsSnoc(defs, p);
    assert DependencyPairs(defs + [p]) == DependencyPairs(defs);
    assert RequiredPairs(defs + [p]) == RequiredPairs(defs);
  }

  method Build(defs: seq<ServiceDef>) returns (g: Graph)
    ensures Represents(g, defs, Names(defs))
    ensures g.Valid()
  {
    var services := Names(defs);
    g := Graph(map s | s in services :: {}, map s | s in services :: {}, map s | s in services :: {}, services);
    for k := 0 to |defs|
      invariant Represents(g, defs[..k], services)
    {
      g := AddDefinition(g, defs[..k], defs[k], services);
      assert defs[..k + 1] == defs[..k] + [defs[k]];
    }
    assert defs[..|defs|] == defs;
    RepresentsIsValid(g, defs, services);
  }

  /** `def` with only the first entries of each list read so far. */
  function Partial(def: ServiceDef, r: nat, w: nat, a: nat, b: nat): ServiceDef
    requires r <= |def.required| && w <= |def.wants| && a <= |def.after| && b <= |def.before|
  {
    ServiceDef(def.name, def.required[..r], def.wants[..w], def.after[..a], def.before[..b])
  }

  /** The four inner loops of `build` for one definition. */
  method AddDefinition(g0: Graph, ghost done: seq<ServiceDef>, def: ServiceDef, names: set<Service>) returns (g: Graph)
    requires Represents(g0, done, names)
    ensures Represents(g, done + [def], names)
  {
    g := g0;
    ghost var nr, nw, na, nb := |def.required|, |def.wants|, |def.after|, |def.before|;
    assert Partial(def, 0, 0, 0, 0) == ServiceDef(def.name, [], [], [], []);
    EmptyDefStep(g, done, def.name, names);
    for i := 0 to |def.required|
      invariant Represents(g, done + [Partial(def, i, 0, 0, 0)], names)
    {
      RequiredStep(g, done, def, names, i);
      g := Link(g, def.name, def.required[i], true);
    }
    for i := 0 to |def.wants|
      invariant Represents(g, done + [Partial(def, nr, i, 0, 0)], names)
    {
      WantsStep(g, done, def, names, i);
      g := Link(g, def.name, def.wants[i], false);
    }
    for i := 0 to |def.after|
      invariant Represents(g, done + [Partial(def, nr, nw, i, 0)], names)
    {
      AfterStep(g, done, def, names, i);
      g := Link(g, def.name, def.after[i], false);
    }
    for i := 0 to |def.before|
      invariant Represents(g, done + [Partial(def, nr, nw, na, i)], names)
    {
      BeforeStep(g, done, def, names, i);
      g := Link(g, def.before[i], def.name, false);
    }
    assert Partial(def, nr, nw, na, nb) == def;
  }

  lemma RequiredStep(g: Graph, done: seq<ServiceDef>, def: ServiceDef, names: set<Service>, i: nat)
    requires i < |def.required| && Represents(g, done + [Partial(def, i, 0, 0, 0)], names)
    ensures Represents(Link(g, def.name, def.required[i], true), done + [Partial(def, i + 1, 0, 0, 0)], names)
  {
    LinkStep(g, done, Partial(def, i, 0, 0, 0), Partial(def, i + 1, 0, 0, 0), names,
             def.name, def.required[i], true);
  }

  lemma WantsStep(g: Graph, done: seq<ServiceDef>, def: ServiceDef, names: set<Service>, i: nat)
    requires i < |def.wants| && Represents(g, done + [Partial(def, |def.required|, i, 0, 0)], names)
    ensures Represents(Link(g, def.name, def.wants[i], false),
                       done + [Partial(def, |def.required|, i + 1, 0, 0)], names)
  {
    LinkStep(g, done, Partial(def, |def.required|, i, 0, 0), Partial(def, |def.required|, i + 1, 0, 0), names,
             def.name, def.wants[i], false);
  }

  lemma AfterStep(g: Graph, done: seq<ServiceDef>, def: ServiceDef, names: set<Service>, i: nat)
    requires i < |def.after| && Represents(g, done + [Partial(def, |def.required|, |def.wants|, i, 0)], names)
    ensures Represents(Link(g, def.name, def.after[i], false),
                       done + [Partial(def, |def.required|, |def.wants|, i + 1, 0)], names)
  {
    LinkStep(g, done, Partial(def, |def.required|, |def.wants|, i, 0),
             Partial(def, |def.required|, |def.wants|, i + 1, 0), names, def.name, def.after[i], false);
  }

  lemma BeforeStep(g: Graph, done: seq<ServiceDef>, def: ServiceDef, names: set<Service>, i: nat)
    requires i < |def.before|
    requires Represents(g, done + [Partial(def, |def.required|, |def.wants|, |def.after|, i)], names)
    ensures Represents(Link(g, def.before[i], def.name, false),
                       done + [Partial(def, |def.required|, |def.wants|, |def.after|, i + 1)], names)
  {
    LinkStep(g, done, Partial(def, |def.required|, |def.wants|, |def.after|, i),
             Partial(def, |def.required|, |def.wants|, |def.after|, i + 1), names, def.before[i], def.name, false);
  }

  /** `unmet_count`: dependencies of `s` that are not in `done`. */
  function UnmetCount(g: Graph, s: Service, done: set<Service>): nat {
    |g.DependenciesOf(s) - done|
  }

  /** Finishing one more service lowers exactly the counts of its dependents, by one. */
  lemma UnmetCountStep(g: Graph, s: Service, done: set<Service>, x: Service)
    requires g.Valid() && x !in done && s in g.services
    ensures UnmetCount(g, s, done + {x}) ==
            UnmetCount(g, s, done) - (if s in g.DependentsOf(x) then 1 else 0)
  {
    var d := g.DependenciesOf(s);
    if x in d {
      assert d - (done + {x}) == (d - done) - {x};
    } else {
      assert d - (done + {x}) == d - done;
    }
  }

  lemma UnmetCountZero(g: Graph, s: Service, done: set<Service>)
    ensures UnmetCount(g, s, done) == 0 <==> g.DependenciesOf(s) <= done
  {
    var left := g.DependenciesOf(s) - done;
    assert forall d :: d in g.DependenciesOf(s) && d !in done ==> d in left;
  }

  lemma UnmetCountNothing(g: Graph, s: Service)
    ensures UnmetCount(g, s, {}) == |g.DependenciesOf(s)|
  {
    assert g.DependenciesOf(s) - {} == g.DependenciesOf(s);
  }

  // ---------- what the four lists mean ----------

  /** One entry says that `x` waits for `y`, whether it stands in `requires`, `wants` or `after` of `x` or in `before`
      of `y`; only the first makes it a requirement. */
  lemma OneEntryMeans(x: Service, y: Service)
    ensures DependencyPairs([ServiceDef(x, [y], [], [], [])]) == iset{(x, y)}
    ensures DependencyPairs([ServiceDef(x, [], [y], [], [])]) == iset{(x, y)}
    ensures DependencyPairs([ServiceDef(x, [], [], [y], [])]) == iset{(x, y)}
    ensures DependencyPairs([ServiceDef(y, [], [], [], [x])]) == iset{(x, y)}
    ensures RequiredPairs([ServiceDef(x, [y], [], [], [])]) == iset{(x, y)}
    ensures RequiredPairs([ServiceDef(x, [], [y], [], [])]) == RequiredPairs([ServiceDef(x, [], [], [y], [])]) == iset{}
    ensures RequiredPairs([ServiceDef(y, [], [], [], [x])]) == iset{}
  {
    EntryIs(ServiceDef(x, [y], [], [], []), x, y);
    EntryIs(ServiceDef(x, [], [y], [], []), x, y);
    EntryIs(ServiceDef(x, [], [], [y], []), x, y);
    EntryIs(ServiceDef(y, [], [], [], [x]), x, y);
    assert Requires([ServiceDef(x, [y], [], [], [])], x, y) by { assert [ServiceDef(x, [y], [], [], [])][0].name == x; }
  }

  lemma EntryIs(def: ServiceDef, x: Service, y: Service)
    requires forall s, d :: Orders(def, s, d) <==> s == x && d == y
    ensures DependencyPairs([def]) == iset{(x, y)}
  {
    assert [def][0] == def && Orders(def, x, y);
    assert DependsOn([def], x, y);
  }

  /** Lists and definitions add up: a graph holds what its definitions say one by one. */
  lemma DefinitionsAddUp(a: seq<ServiceDef>, b: seq<ServiceDef>)
    ensures DependencyPairs(a + b) == DependencyPairs(a) + DependencyPairs(b)
    ensures RequiredPairs(a + b) == RequiredPairs(a) + RequiredPairs(b)
  {
    var all := a + b;
    forall s, d
      ensures DependsOn(all, s, d) <==> DependsOn(a, s, d) || DependsOn(b, s, d)
      ensures Requires(all, s, d) <==> Requires(a, s, d) || Requires(b, s, d)
    {
      forall i | 0 <= i < |b| ensures all[|a| + i] == b[i] {}
      if DependsOn(b, s, d) {
        var i :| 0 <= i < |b| && Orders(b[i], s, d);
        assert Orders(all[|a| + i], s, d);
      }
      if DependsOn(a, s, d) {
        var i :| 0 <= i < |a| && Orders(a[i], s, d);
        assert Orders(all[i], s, d);
      }
      if Requires(b, s, d) {
        var i :| 0 <= i < |b| && b[i].name == s && d in b[i].required;
        assert all[|a| + i].name == s;
      }
      if Requires(a, s, d) {
        var i :| 0 <= i < |a| && a[i].name == s && d in a[i].required;
        assert all[i].name == s;
      }
    }
  }
}
