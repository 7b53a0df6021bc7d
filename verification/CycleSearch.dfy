/** Three-colour depth-first cycle detection: `detect_cycles`, `dfs`, `validate_no_cycles`. */
module CycleSearch {
  import opened Common
  import opened Paths
  import opened DependencyGraph

  datatype Color = White | Gray | Black

  /** `c` lists distinct services, each depending on the next and the last on the first. */
  ghost predicate IsCycle(g: Graph, c: seq<Service>) {
    c != [] && Distinct(c) && IsPath(g.deps, c) && c[0] in g.DependenciesOf(c[|c| - 1])
  }

  ghost predicate AllCycles(g: Graph, cycles: seq<seq<Service>>) {
    forall i :: 0 <= i < |cycles| ==> IsCycle(g, cycles[i])
  }

  lemma CycleRefutesAcyclic(g: Graph, c: seq<Service>)
    requires IsCycle(g, c)
    ensures !Acyclic(g.deps)
  {
    assert PathFromTo(g.deps, c + [c[0]], c[0], c[0]);
    assert Reach(g.deps, c[0], c[0]);
  }

  /** A topological order of every service leaves no room for a cycle. */
  lemma FinishedIsAcyclic(g: Graph, finished: seq<Service>)
    requires g.Valid() && Topological(g.deps, finished) && Distinct(finished)
    requires Elements(finished) == g.services
    ensures Acyclic(g.deps)
  {
    forall s ensures !Reach(g.deps, s, s) {
      if s in finished {
        TopologicalNoCycle(g.deps, finished, s);
      } else if Reach(g.deps, s, s) {
        var d := ReachFirstEdge(g.deps, s, s);
      }
    }
  }

  lemma PopDistinct(m: Edges, p: seq<Service>)
    requires p != [] && Distinct(p) && IsPath(m, p)
    ensures Distinct(p[..|p| - 1]) && IsPath(m, p[..|p| - 1])
    ensures forall x :: x in p[..|p| - 1] <==> x in p && x != p[|p| - 1]
  {
  }

  class Search {
    const g: Graph
    var colors: map<Service, Color>
    var path: seq<Service>
    var cycles: seq<seq<Service>>
    // Services in the order they turned black.
    ghost var finished: seq<Service>

    constructor (graph: Graph)
      requires graph.Valid()
      ensures Valid() && g == graph && path == [] && cycles == [] && Whites() == graph.services
    {
      g := graph;
      colors := map s | s in graph.services :: White;
      path, cycles, finished := [], [], [];
    }

    ghost function Whites(): set<Service> reads this { set s | s in colors && colors[s] == White }

    ghost predicate Valid() reads this {
      && g.Valid()
      && colors.Keys == g.services
      && Distinct(path) && IsPath(g.deps, path)
      && Distinct(finished)
      && (forall s :: s in path <==> s in colors && colors[s] == Gray)
      && (forall s :: s in finished <==> s in colors && colors[s] == Black)
      && AllCycles(g, cycles)
      && (cycles == [] ==> Topological(g.deps, finished))
    }

    /** Push `node` and turn it gray. */
    method Enter(node: Service)
      requires Valid() && node in Whites()
      requires path == [] || node in g.DependenciesOf(path[|path| - 1])
      modifies this
      ensures Valid() && path == old(path) + [node] && Whites() == old(Whites()) - {node}
      ensures cycles == old(cycles) && finished == old(finished)
    {
      colors := colors[node := Gray];
      path := path + [node];
    }

    /** Pop `node` and turn it black, all of its dependencies having been looked at. */
    method Leave(node: Service)
      requires Valid() && path != [] && path[|path| - 1] == node && node !in finished
      requires cycles == [] ==> g.DependenciesOf(node) <= Elements(finished)
      modifies this
      ensures Valid() && path == old(path)[..|old(path)| - 1] && Whites() == old(Whites())
      ensures cycles == old(cycles) && finished == old(finished) + [node]
    {
      hide Topological, Distinct, AllCycles, IsPath, Graph.Valid;
      PopDistinct(g.deps, path);
      DistinctSnoc(finished, node);
      if cycles == [] {
        TopologicalSnoc(g.deps, finished, node);
      }
      path := path[..|path| - 1];
      colors := colors[node := Black];
      finished := finished + [node];
    }

    /** A gray dependency closes a cycle: record the path from it to the current node. */
    method Report(dep: Service)
      requires Valid() && path != [] && dep in path && dep in g.DependenciesOf(path[|path| - 1])
      modifies this`cycles
      ensures Valid() && cycles != [] && old(cycles) <= cycles
    {
      var start := 0;
      while path[start] != dep
        invariant 0 <= start < |path| && dep !in path[..start]
        decreases |path| - start
      {
        start := start + 1;
      }
      assert IsCycle(g, path[start..]);
      cycles := cycles + [path[start..]];
    }

    /** One turn of the dependency loop: `dep` is reported, searched, or already done. */
    method Visit(dep: Service)
      requires Valid() && path != [] && dep in g.DependenciesOf(path[|path| - 1])
      modifies this
      ensures Valid() && path == old(path) && old(cycles) <= cycles && old(finished) <= finished
      ensures Whites() <= old(Whites())
      ensures cycles == [] ==> dep in finished
      decreases Whites(), 1
    {
      match colors[dep] {
        case Gray => Report(dep);
        case White => Dfs(dep);
        case Black =>
      }
    }

    /** The dependency loop of the search at `node`, the top of the path. */
    method VisitAll(node: Service)
      requires Valid() && path != [] && path[|path| - 1] == node
      modifies this
      ensures Valid() && path == old(path) && old(cycles) <= cycles && old(finished) <= finished
      ensures Whites() <= old(Whites())
      ensures cycles == [] ==> g.DependenciesOf(node) <= Elements(finished)
      decreases Whites(), 2
    {
      hide Graph.Valid, Distinct, IsPath, AllCycles, Topological;
      var todo := g.DependenciesOf(node);
      while todo != {}
        invariant Valid() && path == old(path) && todo <= g.DependenciesOf(node)
        invariant old(cycles) <= cycles && old(finished) <= finished
        invariant Whites() <= old(Whites())
        invariant cycles == [] ==> forall d :: d in g.DependenciesOf(node) - todo ==> d in finished
        decreases todo
      {
        var dep :| dep in todo;
        Visit(dep);
        todo := todo - {dep};
      }
    }

    method Dfs(node: Service)
      requires Valid() && node in Whites()
      requires path == [] || node in g.DependenciesOf(path[|path| - 1])
      modifies this
      ensures Valid() && path == old(path) && old(cycles) <= cycles && old(finished) <= finished
      ensures node in finished && Whites() < old(Whites())
      decreases Whites(), 0
    {
      hide Graph.Valid, Distinct, IsPath, AllCycles, Topological;
      Enter(node);
      VisitAll(node);
      assert node in path && node !in finished;
      Leave(node);
      assert finished[|finished| - 1] == node;
    }
  }

  /** The reported cycles are genuine, and there are none exactly when the graph is acyclic. */
  method DetectCycles(g: Graph) returns (cycles: seq<seq<Service>>)
    requires g.Valid()
    ensures AllCycles(g, cycles)
    ensures cycles == [] <==> Acyclic(g.deps)
  {
    var search := new Search(g);
    var todo := g.services;
    while todo != {}
      invariant search.Valid() && search.g == g && search.path == [] && todo <= g.services
      invariant forall s :: s in g.services - todo ==> s !in search.Whites()
      decreases todo
    {
      var s :| s in todo;
      if search.colors[s] == White {
        search.Dfs(s);
      }
      todo := todo - {s};
    }
    cycles := search.cycles;
    if cycles == [] {
      forall s | s in g.services ensures s in search.finished {
        assert s !in search.Whites() && s !in search.path;
      }
      assert Elements(search.finished) == g.services;
      FinishedIsAcyclic(g, search.finished);
    } else {
      CycleRefutesAcyclic(g, cycles[0]);
    }
  }

  datatype Validation = Valid | CycleError(cycles: seq<seq<Service>>)

  method ValidateNoCycles(g: Graph) returns (r: Validation)
    requires g.Valid()
    ensures r.Valid? <==> Acyclic(g.deps)
    ensures r.CycleError? ==> r.cycles != [] && AllCycles(g, r.cycles)
  {
    var cycles := DetectCycles(g);
    r := if cycles == [] then Validation.Valid else CycleError(cycles);
  }
}
