/** Two boots of a single service whose spawn fails. */
module BootExamples {
  import opened Common
  import opened Paths
  import opened DependencyGraph
  import opened Frontier
  import opened FrontierRuns
  import opened BootBooks
  import opened BootLoop

  const S := Service("setup")
  const ALONE := [ServiceDef(S, [], [], [], [])]

  lemma AloneGraph(g: Graph)
    requires Represents(g, ALONE, Names(ALONE))
    ensures Acyclic(g.deps) && g.services == {S} && g.DependenciesOf(S) == {}
  {
    assert Names(ALONE) == {S} by { assert ALONE[0].name in Names(ALONE); }
    forall s, d ensures d !in Adj(g.deps, s) {
      assert (s, d) !in DependencyPairs(ALONE);
    }
    forall s ensures !Reach(g.deps, s, s) {
      if Reach(g.deps, s, s) { var d := ReachFirstEdge(g.deps, s, s); }
    }
  }

  /** When the loop has ended, a service that depends on nothing was started. */
  lemma AloneStarted(g: Graph, f: State, fs: seq<State>, es: seq<Event>, tree: map<Service, Kind>)
    requires g.Valid() && RunTo(g, fs, es, f) && S in g.services && g.DependenciesOf(S) == {}
    requires S in tree && f.queue == [] && f.pending == set s | s in Started(es) && s !in tree
    ensures S in Started(es)
  {
    hide BlockedBy, CountsUnmet, Distinct, Started, MarkedReady, MarkedFailed;
    RunInvariant(g, fs, es, |es|);
    assert es[..|es|] == es;
    assert S in Released(g, f.ready, f.Failed());
  }

  lemma {:induction false} StartedInTurn(batches: seq<seq<Service>>, s: Service) returns (j: nat)
    requires s in Concat(batches)
    ensures j < |batches| && s in batches[j]
  {
    var n := |batches| - 1;
    if s in batches[n] {
      j := n;
    } else {
      j := StartedInTurn(batches[..n], s);
    }
  }

  /** A oneshot that could not be spawned never exits, and startup goes on for as long as it is given turns. */
  method OneshotNeverSpawned(ticks: seq<Tick>) returns (o: Outcome)
    requires forall t :: t in ticks ==> S in t.unspawned && S !in Exited(t.exits)
    ensures o.StillStarting?
  {
    hide Acyclic, RunTo, Graph.Valid, Represents, Books, WaitsForBlocked, Started, Concat, Exited, ProbeOf;
    var tree := map[S := Oneshot];
    ghost var batches;
    ghost var fs;
    ghost var es;
    var g, f;
    o, g, f, fs, es, batches := Boot(ALONE, tree, ticks);
    AloneGraph(g);
    if o.Up? {
      AloneStarted(g, f, fs, es, tree);
      ghost var j := StartedInTurn(batches, S);
      EverybodyAnswered(tree, ticks, batches, j, S);
      assert false;
    }
  }

  /** Nothing is ever awaited when no service needs it. */
  lemma {:induction false} NothingAwaited(tree: map<Service, Kind>, ticks: seq<Tick>, batches: seq<seq<Service>>)
    requires |batches| <= |ticks| && forall s :: s in tree ==> tree[s] == Immediate
    ensures AlwaysPrompt(tree, ticks, batches)
    ensures Books(tree, ticks, batches).oneshots == {} && Books(tree, ticks, batches).trackers == {}
  {
    hide FirstExits, Exited;
    if batches != [] { NothingAwaited(tree, ticks, batches[..|batches| - 1]); }
  }

  /** A service without a readiness check that could not be spawned counts as ready, and the boot as complete. */
  method ImmediateNeverSpawned(ticks: seq<Tick>) returns (o: Outcome, f: State, ghost batches: seq<seq<Service>>)
    requires |ticks| >= 2 && forall t :: t in ticks ==> S in t.unspawned
    ensures o.Up? && S in f.ready && |batches| <= |ticks| && S in Books(map[S := Immediate], ticks, batches).unspawned
  {
    hide Acyclic, RunTo, Graph.Valid, Represents, Books, WaitsForBlocked, Started, Concat;
    var tree := map[S := Immediate];
    ghost var fs;
    ghost var es;
    var g;
    o, g, f, fs, es, batches := Boot(ALONE, tree, ticks);
    AloneGraph(g);
    NothingAwaited(tree, ticks, batches);
    assert |g.services| == 1;
    AloneStarted(g, f, fs, es, tree);
    ghost var j := StartedInTurn(batches, S);
    ImmediateIsReady(tree, ticks, batches, j, S);
  }
}
