/** Kahn's algorithm for the stop order: `compute_reverse_topo_order`. */
module ShutdownOrder {
  import opened Common
  import opened Paths
  import opened DependencyGraph
  import opened Countdown

  /** `s` occurs before `d`. */
  ghost predicate Before(order: seq<Service>, s: Service, d: Service) {
    exists i, j :: 0 <= i < j < |order| && order[i] == s && order[j] == d
  }

  ghost predicate DependsOnCycle(g: Graph, s: Service) {
    exists x :: ReachOrSelf(g.deps, s, x) && Reach(g.deps, x, x)
  }

  /** The services outside `done` whose dependencies are all in `done`. */
  function Free(g: Graph, done: set<Service>): set<Service> {
    set s | s in g.services && s !in done && g.DependenciesOf(s) <= done
  }

  ghost predicate Counts(g: Graph, degree: map<Service, nat>, done: set<Service>) {
    degree.Keys == g.services && forall s :: s in g.services ==> degree[s] == UnmetCount(g, s, done)
  }

  /** What Kahn's loop keeps between two queue pops. */
  ghost predicate KahnInv(g: Graph, degree: map<Service, nat>, queue: seq<Service>, order: seq<Service>) {
    && Distinct(order) && Topological(g.deps, order) && Elements(order) <= g.services
    && Counts(g, degree, Elements(order))
    && Distinct(queue) && Elements(queue) == Free(g, Elements(order))
  }

  lemma CountsStep(g: Graph, degree: map<Service, nat>, done: set<Service>, x: Service)
    requires g.Valid() && Counts(g, degree, done) && x !in done
    ensures Counts(g, Lowered(degree, g.DependentsOf(x)), done + {x})
  {
    hide UnmetCount;
    forall s | s in g.services
      ensures Lowered(degree, g.DependentsOf(x))[s] == UnmetCount(g, s, done + {x})
    {
      UnmetCountStep(g, s, done, x);
    }
  }

  /** The counters that reach zero are exactly the services freed by `x`. */
  lemma ZeroedIsFreed(g: Graph, degree: map<Service, nat>, done: set<Service>, x: Service)
    requires g.Valid() && Counts(g, degree, done) && x in Free(g, done)
    ensures Zeroed(degree, g.DependentsOf(x), done + {x}) == Free(g, done + {x}) - Free(g, done)
    ensures Free(g, done) - {x} <= Free(g, done + {x}) && x !in Free(g, done + {x})
  {
    hide UnmetCount;
    var z := Zeroed(degree, g.DependentsOf(x), done + {x});
    forall s | s in g.services
      ensures s in z <==> s in Free(g, done + {x}) - Free(g, done)
    {
      UnmetCountStep(g, s, done, x);
      UnmetCountZero(g, s, done);
      UnmetCountZero(g, s, done + {x});
    }
  }

  lemma FreeMeans(g: Graph, done: set<Service>, s: Service)
    requires s in Free(g, done)
    ensures s in g.services && s !in done && Adj(g.deps, s) <= done
  {
  }

  lemma KahnStep(g: Graph, degree: map<Service, nat>, queue: seq<Service>, order: seq<Service>,
                 added: seq<Service>)
    requires g.Valid() && queue != [] && KahnInv(g, degree, queue, order)
    requires Distinct(added)
    requires Elements(added) == Zeroed(degree, g.DependentsOf(queue[0]), Elements(order) + {queue[0]})
    ensures KahnInv(g, Lowered(degree, g.DependentsOf(queue[0])), queue[1..] + added, order + [queue[0]])
  {
    hide Free, Counts, Topological, Zeroed, Lowered;
    var svc, done := queue[0], Elements(order);
    assert svc in Elements(queue);
    assert svc in g.services && svc !in order && Adj(g.deps, svc) <= done by { FreeMeans(g, done, svc); }
    CountsStep(g, degree, done, svc);
    ZeroedIsFreed(g, degree, done, svc);
    DistinctTail(queue);
    DistinctConcat(queue[1..], added);
    DistinctSnoc(order, svc);
    TopologicalSnoc(g.deps, order, svc);
  }

  /** When the queue runs dry, exactly the services that depend on no cycle have been ordered. */
  lemma KahnEnd(g: Graph, order: seq<Service>, s: Service)
    requires g.Valid() && Distinct(order) && Topological(g.deps, order)
    requires Free(g, Elements(order)) == {} && s in g.services
    ensures s in order <==> !DependsOnCycle(g, s)
  {
    if s in order {
      forall x | ReachOrSelf(g.deps, s, x) ensures !Reach(g.deps, x, x) {
        var i :| 0 <= i < |order| && order[i] == s;
        if x != s {
          TopologicalReach(g.deps, order, i, x);
        }
        TopologicalNoCycle(g.deps, order, x);
      }
    } else {
      StuckReachesCycle(g, Elements(order), s);
    }
  }

  /** With nothing free, a service left over can only be waiting, in the end, for itself. */
  lemma StuckReachesCycle(g: Graph, done: set<Service>, s: Service)
    requires g.Valid() && Free(g, done) == {} && s in g.services && s !in done
    ensures DependsOnCycle(g, s)
  {
    var stuck := set x | x in g.services && x !in done && ReachOrSelf(g.deps, s, x);
    assert s in stuck;
    forall x | x in stuck ensures Adj(g.deps, x) * stuck != {} {
      assert x !in Free(g, done) && !(g.DependenciesOf(x) <= done);
      var d :| d in g.DependenciesOf(x) && d !in done;
      EdgeReaches(g.deps, x, d);
      if x != s { ReachTransitive(g.deps, s, x, d); }
      assert d in Adj(g.deps, x) * stuck;
    }
    var c := NoDeadEndHasCycle(g.deps, stuck);
  }

  lemma KahnInit(g: Graph, degree: map<Service, nat>, queue: seq<Service>)
    requires g.Valid() && degree == map s | s in g.services :: |g.DependenciesOf(s)|
    requires Distinct(queue) && Elements(queue) == set s | s in g.services && degree[s] == 0
    ensures KahnInv(g, degree, queue, [])
  {
    hide UnmetCount, Distinct, Topological;
    var none: seq<Service> := [];
    assert Elements(none) == {};
    forall s | s in g.services ensures degree[s] == UnmetCount(g, s, {}) {
      UnmetCountNothing(g, s);
    }
    forall s ensures s in Free(g, {}) <==> s in Elements(queue) {
      UnmetCountZero(g, s, {});
    }
    NothingOrdered(g);
  }

  lemma NothingOrdered(g: Graph)
    ensures Distinct<Service>([]) && Topological(g.deps, [])
  {
  }

  method Kahn(g: Graph) returns (order: seq<Service>)
    requires g.Valid()
    ensures Distinct(order) && Topological(g.deps, order) && Elements(order) <= g.services
    ensures Free(g, Elements(order)) == {}
  {
    hide Counts, Topological, Zeroed, Lowered, Distinct;
    NothingOrdered(g);
    var degree: map<Service, nat> := map s | s in g.services :: |g.DependenciesOf(s)|;
    var queue := Sources(degree);
    order := [];
    KahnInit(g, degree, queue);
    while queue != []
      invariant KahnInv(g, degree, queue, order)
      decreases g.services - Elements(order)
    {
      var svc := queue[0];
      assert svc in Elements(queue);
      var visited := Elements(order) + {svc};
      var degree', queue' := Lower(degree, queue[1..], g.DependentsOf(svc), visited);
      ghost var added := queue'[|queue| - 1..];
      assert queue' == queue[1..] + added;
      KahnStep(g, degree, queue, order, added);
      assert Elements(order + [svc]) == visited;
      degree, queue, order := degree', queue', order + [svc];
    }
  }

  /** Append, in some order, the services the queue never reached. */
  method AppendLeftovers(g: Graph, order0: seq<Service>) returns (order: seq<Service>)
    requires Distinct(order0) && Elements(order0) <= g.services
    ensures order0 <= order && Distinct(order) && Elements(order) == g.services
  {
    order := order0;
    var todo := g.services;
    while todo != {}
      invariant todo <= g.services && order0 <= order && Distinct(order)
      invariant Elements(order) == Elements(order0) + (g.services - todo)
      decreases todo
    {
      var s :| s in todo;
      if s !in order {
        DistinctSnoc(order, s);
        order := order + [s];
      }
      todo := todo - {s};
    }
  }

  lemma ReversedDistinct(s: seq<Service>)
    requires Distinct(s)
    ensures Distinct(Reversed(s)) && Elements(Reversed(s)) == Elements(s)
  {
    var r := Reversed(s);
    forall x ensures x in r <==> x in s {
      if x in s {
        var i :| 0 <= i < |s| && s[i] == x;
        assert r[|s| - 1 - i] == x;
      }
    }
  }

  lemma ReversedBefore(s: seq<Service>, x: Service, y: Service)
    requires Before(s, x, y)
    ensures Before(Reversed(s), y, x)
  {
    var i, j :| 0 <= i < j < |s| && s[i] == x && s[j] == y;
    assert Reversed(s)[|s| - 1 - j] == y && Reversed(s)[|s| - 1 - i] == x;
  }

  /** What the source promises: dependents stop before what they depend on. */
  ghost predicate StopsDependentsFirst(g: Graph, order: seq<Service>) {
    forall s, d :: s in g.services && Reach(g.deps, s, d) && !DependsOnCycle(g, d) ==> Before(order, s, d)
  }

  /** For any graph the order is a permutation of all services, and every service precedes
      each of its transitive dependencies that is not itself stuck behind a cycle. */
  method ComputeReverseTopoOrder(g: Graph) returns (order: seq<Service>)
    requires g.Valid()
    ensures Distinct(order) && Elements(order) == g.services
    ensures StopsDependentsFirst(g, order)
  {
    hide DependsOnCycle, Reach, Topological, Free, Before, Reversed, Distinct;
    var reached := Kahn(g);
    var forward := AppendLeftovers(g, reached);
    order := Reversed(forward);
    ReversedDistinct(forward);
    forall s, d | s in g.services && Reach(g.deps, s, d) && !DependsOnCycle(g, d)
      ensures Before(order, s, d)
    {
      KahnOrdersPair(g, reached, forward, s, d);
      ReversedBefore(forward, d, s);
    }
  }

  lemma KahnOrdersPair(g: Graph, reached: seq<Service>, forward: seq<Service>, s: Service, d: Service)
    requires g.Valid() && Distinct(reached) && Topological(g.deps, reached) && Free(g, Elements(reached)) == {}
    requires reached <= forward && Elements(forward) == g.services
    requires s in g.services && Reach(g.deps, s, d) && !DependsOnCycle(g, d)
    ensures Before(forward, d, s)
  {
    ClosedSetReach(g.deps, g.services, s, d);
    KahnEnd(g, reached, d);
    var j :| 0 <= j < |reached| && reached[j] == d;
    assert s in Elements(forward);
    var i :| 0 <= i < |forward| && forward[i] == s;
    if i < |reached| {
      TopologicalReach(g.deps, reached, i, d);
    }
  }

  /** On an acyclic graph nothing depends on a cycle, so every pair is ordered. */
  lemma AcyclicStopsAll(g: Graph, order: seq<Service>, s: Service, d: Service)
    requires Acyclic(g.deps) && StopsDependentsFirst(g, order)
    requires s in g.services && Reach(g.deps, s, d)
    ensures Before(order, s, d)
  {
  }
}
