/** Safety of the startup frontier over whole runs, and what is true when it falls quiet. */
module FrontierRuns {
  import opened Common
  import opened Paths
  import opened DependencyGraph
  import opened Frontier
  import opened ShutdownOrder

  /** `fs` are the states and `es` the events of a run in which only pending services are marked. */
  ghost predicate IsRun(g: Graph, fs: seq<State>, es: seq<Event>) {
    && |fs| == |es| + 1 && Init(g, fs[0])
    && (forall i :: 0 <= i < |es| ==> Disciplined(fs[i], es[i]))
    && (forall i :: 0 <= i < |es| ==> Step(g, fs[i], es[i], fs[i + 1]))
  }

  function MarkedReady(es: seq<Event>): set<Service> {
    set i | 0 <= i < |es| && es[i].Ready? :: es[i].s
  }

  function MarkedFailed(es: seq<Event>): set<Service> {
    set i | 0 <= i < |es| && es[i].Fail? :: es[i].s
  }

  /** Everything handed out by `take_ready`, in order. */
  function Started(es: seq<Event>): seq<Service> {
    if es == [] then [] else
    var e := es[|es| - 1];
    Started(es[..|es| - 1]) + (if e.Take? then e.batch else [])
  }

  lemma StepKeeps(g: Graph, f: State, e: Event, f': State)
    requires g.Valid() && Inv(g, f) && Disciplined(f, e) && Step(g, f, e, f')
    ensures Inv(g, f')
  {
    hide Inv, TakeStep, ReadyStep, FailStep, Graph.Valid;
    match e
    case Take(batch) => TakeKeeps(g, f, batch, f');
    case Ready(s) => ReadyKeeps(g, f, s, f') by { assert s in f.pending; }
    case Fail(s) => FailKeeps(g, f, s, f') by { assert s in f.pending; }
  }

  /** The history of a state can be read off the events that led to it. */
  ghost predicate Agrees(f: State, es: seq<Event>) {
    && f.ready == MarkedReady(es)
    && f.Failed() == MarkedFailed(es)
    && f.pending + f.Marked() == Elements(Started(es))
    && Distinct(Started(es))
  }

  lemma MarksSnoc(es: seq<Event>, e: Event)
    ensures MarkedReady(es + [e]) == MarkedReady(es) + (if e.Ready? then {e.s} else {})
    ensures MarkedFailed(es + [e]) == MarkedFailed(es) + (if e.Fail? then {e.s} else {})
    ensures Started(es + [e]) == Started(es) + (if e.Take? then e.batch else [])
  {
    var all := es + [e];
    assert all[|es|] == e && all[..|es|] == es;
    assert forall i :: 0 <= i < |es| ==> all[i] == es[i];
  }

  lemma AgreesStep(g: Graph, f: State, es: seq<Event>, e: Event, f': State)
    requires g.Valid() && Inv(g, f) && Agrees(f, es) && Disciplined(f, e) && Step(g, f, e, f')
    ensures Agrees(f', es + [e])
  {
    hide CountsUnmet, BlockedBy, Released, Distinct, Enqueues, MarkedReady, MarkedFailed, Started, NewlyBlocked;
    MarksSnoc(es, e);
    assert Started(es) + [] == Started(es);
    match e
    case Take(batch) =>
      assert f'.Failed() == f.Failed();
      DistinctConcat(Started(es), batch);
    case Ready(s) =>
      assert f'.Failed() == f.Failed();
    case Fail(s) =>
      ReleasedNotNewlyBlocked(g, f, s);
      assert f'.Failed() == f.Failed() + {s};
  }

  /** Every state of every run satisfies the invariant and agrees with its history. */
  lemma {:induction false} RunInvariant(g: Graph, fs: seq<State>, es: seq<Event>, k: nat)
    requires g.Valid() && IsRun(g, fs, es) && k <= |es|
    ensures Inv(g, fs[k]) && Agrees(fs[k], es[..k])
  {
    hide Inv, Step, Disciplined, Agrees, Graph.Valid;
    if k == 0 {
      InitKeeps(g, fs[0]);
      InitAgrees(g, fs[0]);
      assert es[..0] == [];
    } else {
      RunInvariant(g, fs, es, k - 1);
      var e := es[k - 1];
      assert Step(g, fs[k - 1], e, fs[k - 1 + 1]) && Disciplined(fs[k - 1], e);
      StepKeeps(g, fs[k - 1], e, fs[k]);
      AgreesStep(g, fs[k - 1], es[..k - 1], e, fs[k]);
      assert es[..k] == es[..k - 1] + [e];
    }
  }

  lemma InitAgrees(g: Graph, f: State)
    requires Init(g, f)
    ensures Agrees(f, [])
  {
    assert f.Failed() == {};
  }

  /** Each unblocked service's counter is its number of dependencies not yet marked. */
  lemma CounterIsUnmarkedDependencies(g: Graph, fs: seq<State>, es: seq<Event>, k: nat, s: Service)
    requires g.Valid() && IsRun(g, fs, es) && k <= |es| && s in g.services && s !in fs[k].blocked
    ensures s in fs[k].unmet
    ensures fs[k].unmet[s] == UnmetCount(g, s, MarkedReady(es[..k]) + MarkedFailed(es[..k]))
  {
    hide UnmetCount, BlockedBy, Released, Distinct, Started, MarkedReady, MarkedFailed;
    RunInvariant(g, fs, es, k);
    assert fs[k].Marked() == MarkedReady(es[..k]) + MarkedFailed(es[..k]);
  }

  /** `take_ready` yields a service at most once, with its requirements ready and every
      other dependency ready or failed. */
  lemma TakenOnceWhenSatisfied(g: Graph, fs: seq<State>, es: seq<Event>, k: nat, s: Service)
    requires g.Valid() && IsRun(g, fs, es) && k < |es| && es[k].Take? && s in es[k].batch
    ensures s !in Started(es[..k]) && Distinct(es[k].batch)
    ensures g.RequiresOf(s) <= MarkedReady(es[..k])
    ensures g.DependenciesOf(s) <= MarkedReady(es[..k]) + MarkedFailed(es[..k])
  {
    hide BlockedBy, CountsUnmet, Distinct, Started, MarkedReady, MarkedFailed;
    RunInvariant(g, fs, es, k);
    assert TakeStep(fs[k], es[k].batch, fs[k + 1]);
    assert s in Elements(fs[k].queue) && s in Released(g, fs[k].ready, fs[k].Failed());
    assert s !in Elements(Started(es[..k]));
  }

  /** `blocked` is exactly the set of services that require a failed one through some path. */
  lemma BlockedExactly(g: Graph, fs: seq<State>, es: seq<Event>, k: nat, s: Service)
    requires g.Valid() && IsRun(g, fs, es) && k <= |es|
    ensures s in fs[k].blocked <==>
            s in g.services && exists y :: y in MarkedFailed(es[..k]) && Reach(g.required, s, y)
  {
    hide Released, CountsUnmet, Distinct, Started, MarkedReady, MarkedFailed, Reach, IsRun;
    RunInvariant(g, fs, es, k);
  }

  /** A service blocked at any point of a run is never handed out, before or after. */
  lemma BlockedNeverStarted(g: Graph, fs: seq<State>, es: seq<Event>, k: nat, s: Service)
    requires g.Valid() && IsRun(g, fs, es) && k <= |es| && s in fs[k].blocked
    ensures s !in Started(es)
  {
    hide Released, CountsUnmet, Distinct, Started, MarkedReady, MarkedFailed, Reach, IsRun;
    var n := |es|;
    assert |fs| == n + 1 by { RunLength(g, fs, es); }
    assert es[..n] == es;
    BlockedExactly(g, fs, es, k, s);
    FailuresAccumulate(es, k);
    BlockedExactly(g, fs, es, n, s);
    RunInvariant(g, fs, es, n);
    if s in Elements(Started(es)) {
      ReleasedIsUnblocked(g, fs[n], s);
    }
  }

  lemma RunLength(g: Graph, fs: seq<State>, es: seq<Event>)
    requires IsRun(g, fs, es)
    ensures |fs| == |es| + 1
  {
  }

  lemma FailuresAccumulate(es: seq<Event>, k: nat)
    requires k <= |es|
    ensures MarkedFailed(es[..k]) <= MarkedFailed(es) && MarkedReady(es[..k]) <= MarkedReady(es)
  {
    forall s | s in MarkedFailed(es[..k]) ensures s in MarkedFailed(es) {
      var i :| 0 <= i < k && es[i].Fail? && es[i].s == s;
    }
    forall s | s in MarkedReady(es[..k]) ensures s in MarkedReady(es) {
      var i :| 0 <= i < k && es[i].Ready? && es[i].s == s;
    }
  }

  // ---------- start order ----------

  /** Every run starts a service strictly after all of its dependencies. */
  lemma {:induction false} StartOrderTopological(g: Graph, fs: seq<State>, es: seq<Event>, k: nat)
    requires g.Valid() && IsRun(g, fs, es) && k <= |es|
    ensures Topological(g.deps, Started(es[..k]))
  {
    hide IsRun, Topological, Distinct, Inv;
    assert |fs| == |es| + 1 by { RunLength(g, fs, es); }
    if k == 0 {
      NothingOrdered(g);
    } else {
      StartOrderTopological(g, fs, es, k - 1);
      var e := es[k - 1];
      MarksSnoc(es[..k - 1], e);
      assert es[..k] == es[..k - 1] + [e];
      assert Started(es[..k - 1]) + [] == Started(es[..k - 1]);
      if e.Take? {
        RunInvariant(g, fs, es, k - 1);
        forall s | s in e.batch ensures Adj(g.deps, s) <= Elements(Started(es[..k - 1])) {
          TakenOnceWhenSatisfied(g, fs, es, k - 1, s);
        }
        TopologicalAppend(g.deps, Started(es[..k - 1]), e.batch);
      }
    }
  }

  lemma {:induction false} TopologicalAppend(m: Edges, order: seq<Service>, batch: seq<Service>)
    requires Topological(m, order)
    requires forall s :: s in batch ==> Adj(m, s) <= Elements(order)
    ensures Topological(m, order + batch)
  {
    var all := order + batch;
    forall i | 0 <= i < |all| ensures Adj(m, all[i]) <= Elements(all[..i]) {
      if i < |order| {
        assert all[..i] == order[..i];
      } else {
        assert all[i] in batch && all[..i] == order + batch[..i - |order|];
      }
    }
  }

  /** Shutdown undoes startup: whatever a started service depends on was started earlier, and
      the stop order of an acyclic graph stops it later. */
  lemma ShutdownReversesStartup(g: Graph, fs: seq<State>, es: seq<Event>, stop: seq<Service>, s: Service, d: Service)
    requires g.Valid() && Acyclic(g.deps) && IsRun(g, fs, es) && StopsDependentsFirst(g, stop)
    requires s in Started(es) && s in g.services && Reach(g.deps, s, d)
    ensures Before(Started(es), d, s) && Before(stop, s, d)
  {
    hide IsRun, Reach, Topological, StopsDependentsFirst, Acyclic;
    assert es[..|es|] == es;
    StartOrderTopological(g, fs, es, |es|);
    var i :| 0 <= i < |Started(es)| && Started(es)[i] == s;
    TopologicalReach(g.deps, Started(es), i, d);
    AcyclicStopsAll(g, stop, s, d);
  }

  // ---------- quiescence ----------

  /** Nothing queued and nothing pending. */
  predicate Quiet(f: State) { f.queue == [] && f.pending == {} }

  /** `s` is blocked, or waits through its dependencies for a blocked service. */
  ghost predicate WaitsForBlocked(g: Graph, f: State, s: Service) {
    exists b :: b in f.blocked && ReachOrSelf(g.deps, s, b)
  }

  /** A marked service has only marked dependencies, and no marked service is blocked. */
  lemma MarkedIsClosed(g: Graph, f: State, s: Service)
    requires g.Valid() && Inv(g, f) && s in f.Marked()
    ensures g.DependenciesOf(s) <= f.Marked() && s !in f.blocked
  {
    hide BlockedBy, CountsUnmet;
    assert s in Released(g, f.ready, f.Failed());
  }

  /** Whoever waits for a blocked service is never marked; in any graph, at any time. */
  lemma WaitingIsNeverMarked(g: Graph, f: State, s: Service)
    requires g.Valid() && Inv(g, f) && WaitsForBlocked(g, f, s)
    ensures s !in f.Marked()
  {
    hide Inv, Reach, WaitsForBlocked;
    if s in f.Marked() {
      forall x | x in f.Marked() ensures Adj(g.deps, x) <= f.Marked() && x !in f.blocked { MarkedIsClosed(g, f, x); }
      var b := BlockedWitness(g, f, s);
      if b != s {
        ClosedSetReach(g.deps, f.Marked(), s, b);
      }
    }
  }

  lemma BlockedWitness(g: Graph, f: State, s: Service) returns (b: Service)
    requires WaitsForBlocked(g, f, s)
    ensures b in f.blocked && ReachOrSelf(g.deps, s, b)
  {
    b :| b in f.blocked && ReachOrSelf(g.deps, s, b);
  }

  /** In a quiet state an unmarked, unblocked service has an unmarked dependency. */
  lemma QuietHasUnmarkedDependency(g: Graph, f: State, s: Service) returns (d: Service)
    requires g.Valid() && Inv(g, f) && Quiet(f) && s in g.services && s !in f.Marked() && s !in f.blocked
    ensures d in g.DependenciesOf(s) && d !in f.Marked()
  {
    hide CountsUnmet, Distinct;
    assert Elements(f.queue) == {};
    assert s !in Released(g, f.ready, f.Failed());
    if g.DependenciesOf(s) <= f.Marked() {
      assert f.Marked() == f.ready + f.Failed();
      UnblockedIsReleased(g, f, f.Failed(), s);
    }
    d :| d in g.DependenciesOf(s) && d !in f.Marked();
  }

  /** On an acyclic graph, once quiet, a service was left unmarked exactly when it is blocked
      or its dependencies lead to a blocked service. */
  lemma QuietExactly(g: Graph, f: State, s: Service)
    requires g.Valid() && Acyclic(g.deps) && Inv(g, f) && Quiet(f) && s in g.services
    ensures s in f.Marked() <==> !WaitsForBlocked(g, f, s)
  {
    hide Inv, Reach, WaitsForBlocked;
    if WaitsForBlocked(g, f, s) {
      WaitingIsNeverMarked(g, f, s);
    } else if s !in f.Marked() {
      var S := set x | x in g.services && x !in f.Marked() && !WaitsForBlocked(g, f, x);
      assert s in S;
      forall x | x in S ensures Adj(g.deps, x) * S != {} {
        NotWaiting(g, f, x);
        var d := QuietHasUnmarkedDependency(g, f, x);
        if WaitsForBlocked(g, f, d) { WaitsStep(g, f, x, d); }
        assert d in Adj(g.deps, x) * S;
      }
      var c := NoDeadEndHasCycle(g.deps, S);
      assert false;
    }
  }

  lemma NotWaiting(g: Graph, f: State, s: Service)
    requires !WaitsForBlocked(g, f, s)
    ensures s !in f.blocked
  {
    if s in f.blocked { assert ReachOrSelf(g.deps, s, s); }
  }

  lemma WaitsStep(g: Graph, f: State, s: Service, d: Service)
    requires WaitsForBlocked(g, f, d) && d in g.DependenciesOf(s)
    ensures WaitsForBlocked(g, f, s)
  {
    hide Reach;
    var b := BlockedWitness(g, f, d);
    EdgeReaches(g.deps, s, d);
    if d != b { ReachTransitive(g.deps, s, d, b); }
    assert ReachOrSelf(g.deps, s, b);
  }

  /** Without failures an acyclic graph comes up completely. */
  lemma QuietWithoutFailures(g: Graph, f: State)
    requires g.Valid() && Acyclic(g.deps) && Inv(g, f) && Quiet(f) && f.Failed() == {}
    ensures f.ready == g.services
  {
    hide Reach, CountsUnmet, Released, Distinct;
    assert f.blocked == {};
    forall s | s in g.services ensures s in f.ready {
      QuietExactly(g, f, s);
    }
  }

  // ---------- is_complete ----------

  /** `is_complete`: blocked services are in `completed` and are added a second time. */
  predicate IsComplete(f: State) {
    |f.completed| + |f.blocked| >= |f.unmet|
  }

  /** Services that wait, through a chain of dependencies, for a blocked service without being blocked themselves. */
  ghost function Stranded(g: Graph, failed: set<Service>): set<Service> {
    set s | s in g.services && s !in BlockedBy(g, failed) &&
            exists b :: b in BlockedBy(g, failed) && ReachOrSelf(g.deps, s, b)
  }

  /** Once an acyclic graph is quiet, the services never processed are exactly the stranded ones. */
  lemma UnprocessedAreStranded(g: Graph, f: State)
    requires g.Valid() && Acyclic(g.deps) && Inv(g, f) && Quiet(f)
    ensures g.services - f.completed == Stranded(g, f.Failed())
    ensures f.blocked == BlockedBy(g, f.Failed())
    ensures f.completed <= g.services && f.unmet.Keys == g.services
  {
    hide Reach, Released, CountsUnmet, Distinct, Acyclic, Graph.Valid, BlockedBy;
    InvBounds(g, f);
    forall s | s in g.services ensures s in f.completed <==> s in f.blocked || !WaitsForBlocked(g, f, s) {
      QuietExactly(g, f, s);
    }
  }

  /** In a quiet state of an acyclic graph completion is reported although services were never processed exactly
      when the stranded services number between one and as many as are blocked; both sets depend only on the
      graph and on which services failed. */
  lemma IsCompletePrematureExactly(g: Graph, f: State)
    requires g.Valid() && Acyclic(g.deps) && Inv(g, f) && Quiet(f)
    ensures IsComplete(f) && f.completed != g.services <==>
            1 <= |Stranded(g, f.Failed())| <= |BlockedBy(g, f.Failed())|
  {
    hide Inv, Stranded, BlockedBy, Acyclic, Graph.Valid;
    UnprocessedAreStranded(g, f);
    Partition(g.services, f.completed);
    assert |f.unmet| == |f.unmet.Keys|;
  }

  lemma InvBounds(g: Graph, f: State)
    requires Inv(g, f)
    ensures f.completed <= g.services && f.unmet.Keys == g.services
  {
    hide BlockedBy, Released, Distinct, UnmetCount;
  }

  lemma Partition(all: set<Service>, part: set<Service>)
    requires part <= all
    ensures |all| == |part| + |all - part|
    ensures |all - part| == 0 <==> part == all
  {
    assert all == part + (all - part);
  }
}
