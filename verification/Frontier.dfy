/** The startup frontier as a value: its steps and what every run of them keeps. */
module Frontier {
  import opened Common
  import opened Paths
  import opened DependencyGraph
  import opened Countdown

  datatype State = State(
    unmet: map<Service, nat>,
    queue: seq<Service>,
    ready: set<Service>,
    pending: set<Service>,
    blocked: set<Service>,
    completed: set<Service>)
  {
    /** Services marked failed: completed, but neither ready nor blocked. */
    function Failed(): set<Service> { completed - ready - blocked }
    function Marked(): set<Service> { ready + Failed() }
  }

  datatype Event = Take(batch: seq<Service>) | Ready(s: Service) | Fail(s: Service)

  // ---------- steps ----------

  /** `after` is `before` followed by the members of `added`, each once, in some order. */
  ghost predicate Enqueues(before: seq<Service>, after: seq<Service>, added: set<Service>) {
    before <= after && Distinct(after[|before|..]) && Elements(after[|before|..]) == added
  }

  ghost predicate Init(g: Graph, f: State) {
    && f.unmet == (map s | s in g.services :: |g.DependenciesOf(s)|)
    && Distinct(f.queue) && Elements(f.queue) == (set s | s in g.services && f.unmet[s] == 0)
    && f.ready == f.pending == f.blocked == f.completed == {}
  }

  function HardDependents(g: Graph, s: Service): set<Service> {
    set d | d in g.DependentsOf(s) && s in g.RequiresOf(d)
  }

  ghost predicate PathAvoiding(g: Graph, p: seq<Service>, x: Service, s: Service, avoid: set<Service>) {
    PathFromTo(g.required, p, x, s) && forall i :: 0 <= i < |p| - 1 ==> p[i] !in avoid
  }

  /** Services that require `s` through services not in `avoid`. */
  ghost function NewlyBlocked(g: Graph, s: Service, avoid: set<Service>): set<Service> {
    set x | x in g.services && exists p :: PathAvoiding(g, p, x, s, avoid)
  }

  ghost predicate TakeStep(f: State, batch: seq<Service>, f': State) {
    batch == f.queue && f' == f.(queue := [], pending := f.pending + Elements(batch))
  }

  ghost predicate ReadyStep(g: Graph, f: State, s: Service, f': State) {
    var targets := g.DependentsOf(s) - f.blocked;
    && f'.ready == f.ready + {s}
    && f'.pending == f.pending - {s}
    && f'.blocked == f.blocked
    && f'.completed == f.completed + {s}
    && f'.unmet == Lowered(f.unmet, targets)
    && Enqueues(f.queue, f'.queue, Zeroed(f.unmet, targets, f'.completed + f'.pending))
  }

  ghost predicate FailStep(g: Graph, f: State, s: Service, f': State) {
    var targets := g.DependentsOf(s) - HardDependents(g, s);
    var cut := NewlyBlocked(g, s, f.blocked);
    && f'.ready == f.ready
    && f'.pending == f.pending - {s}
    && f'.blocked == f.blocked + cut
    && f'.completed == f.completed + {s} + cut
    && f'.unmet == Lowered(f.unmet, targets)
    && Enqueues(f.queue, f'.queue, Zeroed(f.unmet, targets, f.completed + {s} + f'.pending + f.blocked))
  }

  ghost predicate Step(g: Graph, f: State, e: Event, f': State) {
    match e
    case Take(batch) => TakeStep(f, batch, f')
    case Ready(s) => ReadyStep(g, f, s, f')
    case Fail(s) => FailStep(g, f, s, f')
  }

  /** Only a pending service is marked ready or failed. */
  predicate Disciplined(f: State, e: Event) {
    match e
    case Take(_) => true
    case Ready(s) => s in f.pending
    case Fail(s) => s in f.pending
  }

  // ---------- simple graph definitions ----------

  /** Services with a non-empty path of `requires` edges to a failed service. */
  ghost function BlockedBy(g: Graph, failed: set<Service>): set<Service> {
    set x | x in g.services && exists y :: y in failed && Reach(g.required, x, y)
  }

  /** Services allowed to start: requirements ready, every other dependency ready or failed. */
  function Released(g: Graph, ready: set<Service>, failed: set<Service>): set<Service> {
    set s | s in g.services && g.RequiresOf(s) <= ready && g.DependenciesOf(s) <= ready + failed
  }

  ghost predicate CountsUnmet(g: Graph, f: State) {
    f.unmet.Keys == g.services &&
    forall s :: s in g.services && s !in f.blocked ==> f.unmet[s] == UnmetCount(g, s, f.Marked())
  }

  ghost predicate Inv(g: Graph, f: State) {
    && f.ready + f.pending + f.completed <= g.services
    && f.ready + f.blocked <= f.completed && f.ready !! f.blocked && f.pending !! f.completed
    && CountsUnmet(g, f)
    && f.blocked == BlockedBy(g, f.Failed())
    && Distinct(f.queue) && Elements(f.queue) !! f.pending + f.completed
    && Elements(f.queue) + f.pending + f.Marked() == Released(g, f.ready, f.Failed())
  }

  // ---------- lemmas about blocking ----------

  /** One edge decides: a service is blocked when it requires a failed or a blocked one. */
  lemma BlockedOneEdge(g: Graph, F: set<Service>, x: Service)
    requires g.Valid() && x in g.services
    ensures x in BlockedBy(g, F) <==> exists y :: y in g.RequiresOf(x) && (y in F || y in BlockedBy(g, F))
  {
    if x in BlockedBy(g, F) {
      var z :| z in F && Reach(g.required, x, z);
      var y := ReachFirstEdge(g.required, x, z);
      assert y in g.services;
    }
    forall y | y in g.RequiresOf(x) && (y in F || y in BlockedBy(g, F))
      ensures x in BlockedBy(g, F)
    {
      EdgeReaches(g.required, x, y);
      if y !in F {
        var z :| z in F && Reach(g.required, y, z);
        ReachTransitive(g.required, x, y, z);
      }
    }
  }

  /** What a released service requires, transitively, is ready. */
  lemma ReleasedReachesReady(g: Graph, ready: set<Service>, failed: set<Service>, x: Service, y: Service)
    requires g.Valid() && ready <= Released(g, ready, failed)
    requires x in Released(g, ready, failed) && Reach(g.required, x, y)
    ensures y in ready
  {
    hide Reach;
    var d := ReachFirstEdge(g.required, x, y);
    if d != y {
      assert forall s :: s in ready ==> s in Released(g, ready, failed);
      ClosedSetReach(g.required, ready, d, y);
    }
  }

  lemma ReleasedNotNewlyBlocked(g: Graph, f: State, s: Service)
    requires g.Valid() && Inv(g, f) && s !in f.ready
    ensures NewlyBlocked(g, s, f.blocked) !! Released(g, f.ready, f.Failed())
  {
    forall x | x in NewlyBlocked(g, s, f.blocked) ensures x !in Released(g, f.ready, f.Failed()) {
      var p :| PathAvoiding(g, p, x, s, f.blocked);
      if x in Released(g, f.ready, f.Failed()) {
        ReleasedReachesReady(g, f.ready, f.Failed(), x, s);
      }
    }
  }

  /** A path to the newly failed service either meets a blocked service or is new. */
  lemma FailGrowsBlocked(g: Graph, F: set<Service>, s: Service)
    requires g.Valid()
    ensures BlockedBy(g, F + {s}) == BlockedBy(g, F) + NewlyBlocked(g, s, BlockedBy(g, F))
  {
    var B, N := BlockedBy(g, F), NewlyBlocked(g, s, BlockedBy(g, F));
    forall x | x in N ensures x in BlockedBy(g, F + {s}) {
      var p :| PathAvoiding(g, p, x, s, B);
      assert Reach(g.required, x, s);
    }
    forall x | x in BlockedBy(g, F + {s}) && x !in B ensures x in N {
      var y :| y in F + {s} && Reach(g.required, x, y);
      assert y == s;
      var p :| PathFromTo(g.required, p, x, s);
      forall i | 0 <= i < |p| - 1 ensures p[i] !in B {
        if p[i] in B { MeetsBlocked(g, F, p, i); }
      }
      assert PathAvoiding(g, p, x, s, B);
    }
  }

  lemma MeetsBlocked(g: Graph, F: set<Service>, p: seq<Service>, i: nat)
    requires g.Valid() && IsPath(g.required, p) && i < |p| && p[0] in g.services && p[i] in BlockedBy(g, F)
    ensures p[0] in BlockedBy(g, F)
  {
    if i > 0 {
      var z :| z in F && Reach(g.required, p[i], z);
      assert PathFromTo(g.required, p[..i + 1], p[0], p[i]);
      ReachTransitive(g.required, p[0], p[i], z);
    }
  }

  // ---------- preservation ----------

  lemma InitKeeps(g: Graph, f: State)
    requires g.Valid() && Init(g, f)
    ensures Inv(g, f)
  {
    hide UnmetCount;
    assert f.Failed() == {} && f.Marked() == {};
    forall s | s in g.services ensures f.unmet[s] == UnmetCount(g, s, {}) {
      UnmetCountNothing(g, s);
    }
    forall s ensures s in Released(g, {}, {}) <==> s in Elements(f.queue) {
      UnmetCountZero(g, s, {});
    }
  }

  lemma TakeKeeps(g: Graph, f: State, batch: seq<Service>, f': State)
    requires Inv(g, f) && TakeStep(f, batch, f')
    ensures Inv(g, f')
  {
    hide UnmetCount, BlockedBy, Released;
    ReleasedGrows(g, f.ready, f.Failed(), f.ready, f.Failed());
    assert f'.Failed() == f.Failed() && f'.Marked() == f.Marked();
    assert Elements(f'.queue) == {};
    assert Elements(f'.queue) + f'.pending + f'.Marked() == Elements(f.queue) + f.pending + f.Marked();
  }

  /** Queue bookkeeping shared by the two marking steps. */
  lemma EnqueueKeeps(before: seq<Service>, after: seq<Service>, added: set<Service>)
    requires Enqueues(before, after, added) && Distinct(before) && Elements(before) !! added
    ensures Distinct(after) && Elements(after) == Elements(before) + added
  {
    hide Distinct;
    var tail := after[|before|..];
    assert after == before + tail;
    DistinctConcat(before, tail);
  }

  /** Counters after lowering the dependents of `s` outside the blocked services. */
  lemma CountsLowered(g: Graph, f: State, s: Service, targets: set<Service>, f': State)
    requires g.Valid() && CountsUnmet(g, f) && s !in f.Marked() && f.blocked <= f'.blocked
    requires f'.unmet == Lowered(f.unmet, targets) && f'.Marked() == f.Marked() + {s}
    requires forall x :: x !in f'.blocked ==> (x in targets <==> x in g.DependentsOf(s))
    ensures CountsUnmet(g, f')
  {
    hide UnmetCount;
    forall x | x in g.services && x !in f'.blocked
      ensures f'.unmet[x] == UnmetCount(g, x, f'.Marked())
    {
      UnmetCountStep(g, x, f.Marked(), s);
    }
  }

  /** A service outside `blocked` whose dependencies are all marked has only ready requirements. */
  lemma UnblockedIsReleased(g: Graph, f: State, F: set<Service>, x: Service)
    requires g.Valid() && x in g.services && x !in BlockedBy(g, F)
    requires g.DependenciesOf(x) <= f.ready + F
    ensures g.RequiresOf(x) <= f.ready
  {
    BlockedOneEdge(g, F, x);
  }

  lemma ReleasedIsUnblocked(g: Graph, f: State, x: Service)
    requires g.Valid() && Inv(g, f) && x in Released(g, f.ready, f.Failed())
    ensures x !in f.blocked
  {
    BlockedOneEdge(g, f.Failed(), x);
  }

  lemma ReadyReleases(g: Graph, f: State, s: Service, x: Service)
    requires g.Valid() && Inv(g, f) && s in f.pending && x in g.services
    ensures x in Zeroed(f.unmet, g.DependentsOf(s) - f.blocked, f.completed + f.pending + {s}) <==>
            x in Released(g, f.ready + {s}, f.Failed()) && x !in Released(g, f.ready, f.Failed())
  {
    hide UnmetCount, BlockedBy, Distinct;
    var F := f.Failed();
    assert s in Released(g, f.ready, F) && s !in f.Marked() && s !in f.blocked;
    assert f.Marked() + {s} == f.ready + {s} + F;
    BlockedOneEdge(g, F, x);
    if x !in f.blocked {
      UnmetCountStep(g, x, f.Marked(), s);
      UnmetCountZero(g, x, f.Marked());
      UnmetCountZero(g, x, f.Marked() + {s});
    }
  }

  lemma ReadyKeeps(g: Graph, f: State, s: Service, f': State)
    requires g.Valid() && Inv(g, f) && s in f.pending && ReadyStep(g, f, s, f')
    ensures Inv(g, f')
  {
    hide UnmetCount, BlockedBy, Released, Zeroed, Enqueues, Distinct;
    var targets := g.DependentsOf(s) - f.blocked;
    var added := Zeroed(f.unmet, targets, f'.completed + f'.pending);
    assert f'.Failed() == f.Failed() && f'.Marked() == f.Marked() + {s};
    CountsLowered(g, f, s, targets, f');
    assert f'.completed + f'.pending == f.completed + f.pending + {s};
    ZeroedInServices(f.unmet, targets, f'.completed + f'.pending);
    forall x | x in g.services
      ensures x in added <==> x in Released(g, f'.ready, f'.Failed()) && x !in Released(g, f.ready, f.Failed())
    {
      ReadyReleases(g, f, s, x);
    }
    ReleasedGrows(g, f.ready, f.Failed(), f'.ready, f'.Failed());
    assert Elements(f.queue) !! added;
    EnqueueKeeps(f.queue, f'.queue, added);
  }

  lemma ZeroedInServices(counts: map<Service, nat>, targets: set<Service>, barred: set<Service>)
    ensures Zeroed(counts, targets, barred) <= counts.Keys - barred
  {
  }

  lemma ReleasedGrows(g: Graph, r: set<Service>, F: set<Service>, r': set<Service>, F': set<Service>)
    requires r <= r' && F <= F'
    ensures Released(g, r, F) <= Released(g, r', F') <= g.services
  {
  }

  lemma FailReleases(g: Graph, f: State, s: Service, x: Service)
    requires g.Valid() && Inv(g, f) && s in f.pending && x in g.services
    ensures x in Zeroed(f.unmet, g.DependentsOf(s) - HardDependents(g, s), f.completed + f.pending + {s}) <==>
            x in Released(g, f.ready, f.Failed() + {s}) && x !in Released(g, f.ready, f.Failed())
  {
    hide UnmetCount, BlockedBy, Distinct;
    var F := f.Failed();
    assert s in Released(g, f.ready, F) && s !in f.Marked() && s !in f.blocked;
    assert f.Marked() + {s} == f.ready + (F + {s});
    BlockedOneEdge(g, F, x);
    if x !in f.blocked {
      UnmetCountStep(g, x, f.Marked(), s);
      UnmetCountZero(g, x, f.Marked());
      UnmetCountZero(g, x, f.Marked() + {s});
    }
  }

  /** Whoever requires the failed service directly is blocked by the step. */
  lemma HardDependentsBlocked(g: Graph, s: Service, B: set<Service>)
    requires g.Valid()
    ensures HardDependents(g, s) <= B + NewlyBlocked(g, s, B)
  {
    forall d | d in HardDependents(g, s) && d !in B ensures d in NewlyBlocked(g, s, B) {
      assert PathAvoiding(g, [d, s], d, s, B);
    }
  }

  /** The sets after a failure: one more failed service, and exactly those it blocks. */
  lemma FailSets(g: Graph, f: State, s: Service, f': State)
    requires g.Valid() && Inv(g, f) && s in f.pending && FailStep(g, f, s, f')
    ensures f'.Failed() == f.Failed() + {s} && f'.Marked() == f.Marked() + {s}
    ensures f'.blocked == BlockedBy(g, f'.Failed())
    ensures f'.ready + f'.pending + f'.completed <= g.services
    ensures f'.ready + f'.blocked <= f'.completed && f'.ready !! f'.blocked && f'.pending !! f'.completed
    ensures CountsUnmet(g, f')
  {
    hide UnmetCount, BlockedBy, Released, Zeroed, Enqueues, Distinct, NewlyBlocked, HardDependents, Graph.Valid;
    var targets := g.DependentsOf(s) - HardDependents(g, s);
    ReleasedNotNewlyBlocked(g, f, s);
    FailGrowsBlocked(g, f.Failed(), s);
    HardDependentsBlocked(g, s, f.blocked);
    NewlyBlockedInServices(g, s, f.blocked);
    CountsLowered(g, f, s, targets, f');
  }

  /** The queue after a failure: exactly the newly released services are added. */
  lemma FailQueue(g: Graph, f: State, s: Service, f': State)
    requires g.Valid() && Inv(g, f) && s in f.pending && FailStep(g, f, s, f')
    requires f'.Failed() == f.Failed() + {s} && f'.Marked() == f.Marked() + {s}
    requires f'.blocked == BlockedBy(g, f'.Failed())
    ensures Distinct(f'.queue) && Elements(f'.queue) !! f'.pending + f'.completed
    ensures Elements(f'.queue) + f'.pending + f'.Marked() == Released(g, f'.ready, f'.Failed())
  {
    hide CountsUnmet, BlockedBy, Released, Zeroed, Enqueues, Distinct, NewlyBlocked, HardDependents, Graph.Valid;
    var targets := g.DependentsOf(s) - HardDependents(g, s);
    var barred := f.completed + f.pending + {s};
    assert f.completed + {s} + f'.pending + f.blocked == barred;
    var added := Zeroed(f.unmet, targets, barred);
    ZeroedInServices(f.unmet, targets, barred);
    CountsKeys(g, f);
    forall x | x in g.services
      ensures x in added <==> x in Released(g, f'.ready, f'.Failed()) && x !in Released(g, f.ready, f.Failed())
    {
      FailReleases(g, f, s, x);
    }
    ReleasedGrows(g, f.ready, f.Failed(), f'.ready, f'.Failed());
    ReleasedNotNewlyBlocked(g, f, s);
    assert Elements(f.queue) !! added;
    EnqueueKeeps(f.queue, f'.queue, added);
    forall x | x in added ensures x !in f'.blocked {
      ReleasedUnblockedAfter(g, f, s, x);
    }
  }

  lemma CountsKeys(g: Graph, f: State)
    requires CountsUnmet(g, f)
    ensures f.unmet.Keys == g.services
  {
  }

  lemma FailKeeps(g: Graph, f: State, s: Service, f': State)
    requires g.Valid() && Inv(g, f) && s in f.pending && FailStep(g, f, s, f')
    ensures Inv(g, f')
  {
    FailSets(g, f, s, f');
    FailQueue(g, f, s, f');
    hide CountsUnmet, BlockedBy, Released, FailStep, Distinct, Graph.Valid;
  }

  lemma NewlyBlockedInServices(g: Graph, s: Service, B: set<Service>)
    ensures NewlyBlocked(g, s, B) <= g.services
  {
  }

  lemma ReleasedUnblockedAfter(g: Graph, f: State, s: Service, x: Service)
    requires g.Valid() && Inv(g, f) && s in f.pending
    requires x in Released(g, f.ready, f.Failed() + {s})
    ensures x !in BlockedBy(g, f.Failed() + {s})
  {
    var F := f.Failed() + {s};
    BlockedOneEdge(g, F, x);
    forall y | y in f.ready ensures y !in BlockedBy(g, F) {
      assert y in Released(g, f.ready, f.Failed());
      if z :| z in F && Reach(g.required, y, z) {
        ReleasedReachesReady(g, f.ready, f.Failed(), y, z);
      }
    }
  }
}
