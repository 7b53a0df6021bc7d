/** The startup loop of the service manager: reaping, starting, polling, and when it ends. */
module BootLoop {
  import opened Common
  import opened Paths
  import opened DependencyGraph
  import opened CycleSearch
  import opened Frontier
  import opened FrontierRuns
  import opened BootBooks
  import SF = StartupFrontier

  /** `fs` and `es` are a run of the frontier that ends in `f`. */
  ghost predicate RunTo(g: Graph, fs: seq<State>, es: seq<Event>, f: State) {
    IsRun(g, fs, es) && fs[|es|] == f
  }

  /** Every pending worker is awaited by a tracker or as a oneshot, except those of the batch
      still in `todo`; only workers are awaited or marked. */
  ghost predicate Awaits(tree: map<Service, Kind>, f: State, trackers: set<Service>, oneshots: set<Service>,
                         todo: set<Service>) {
    && trackers !! oneshots && (trackers + oneshots) !! todo
    && trackers + oneshots + todo <= f.pending
    && trackers + oneshots + f.Marked() <= tree.Keys
    && f.pending * tree.Keys <= trackers + oneshots + todo
  }

  /** Trackers belong to probed workers, awaited exits to oneshots. */
  ghost predicate KindsMatch(tree: map<Service, Kind>, trackers: set<Service>, oneshots: set<Service>) {
    && (forall s :: s in trackers ==> s in tree && tree[s] == Probed)
    && (forall s :: s in oneshots ==> s in tree && tree[s] == Oneshot)
  }

  lemma ExtendRun(g: Graph, fs: seq<State>, es: seq<Event>, e: Event, f': State)
    requires IsRun(g, fs, es) && Disciplined(fs[|es|], e) && Step(g, fs[|es|], e, f')
    ensures RunTo(g, fs + [f'], es + [e], f')
  {
    hide Init, Step, Disciplined;
  }

  lemma MarkExtends(g: Graph, fs: seq<State>, es: seq<Event>, f: State, s: Service, ok: bool, f': State)
    requires g.Valid() && RunTo(g, fs, es, f) && s in f.pending
    requires if ok then ReadyStep(g, f, s, f') else FailStep(g, f, s, f')
    ensures RunTo(g, fs + [f'], es + [if ok then Ready(s) else Fail(s)], f')
    ensures f'.pending == f.pending - {s} && f'.Marked() == f.Marked() + {s}
  {
    hide ReadyStep, FailStep, Inv, Graph.Valid;
    RunInvariant(g, fs, es, |es|);
    MarkEffect(g, f, s, ok, f');
    ExtendRun(g, fs, es, if ok then Ready(s) else Fail(s), f');
  }

  lemma AwaitsMark(tree: map<Service, Kind>, f: State, trackers: set<Service>, oneshots: set<Service>,
                   todo: set<Service>, s: Service)
    requires Awaits(tree, f, trackers, oneshots, todo) && s in f.pending && s in tree
    ensures Awaits(tree, f, trackers - {s}, oneshots - {s}, todo - {s} + {s})
  {
  }

  /** Marking `s` takes it out of the pending services and of what is still to be handled. */
  lemma AwaitsOnly(tree: map<Service, Kind>, f: State, s: Service, f': State,
                   trackers: set<Service>, oneshots: set<Service>, todo: set<Service>)
    requires Awaits(tree, f, trackers, oneshots, todo - {s} + {s}) && s in tree
    requires f'.pending == f.pending - {s} && f'.Marked() == f.Marked() + {s}
    ensures Awaits(tree, f', trackers, oneshots, todo - {s})
  {
    hide State.Marked;
  }

  lemma TakeExtends(g: Graph, fs: seq<State>, es: seq<Event>, f: State, batch: seq<Service>, f': State)
    requires g.Valid() && RunTo(g, fs, es, f) && TakeStep(f, batch, f')
    ensures RunTo(g, fs + [f'], es + [Take(batch)], f')
    ensures Distinct(batch) && Elements(batch) !! f.pending && f'.pending == f.pending + Elements(batch)
    ensures f'.Marked() == f.Marked()
  {
    hide Inv, Graph.Valid, Distinct;
    RunInvariant(g, fs, es, |es|);
    TakeEffect(g, f, batch, f');
    ExtendRun(g, fs, es, Take(batch), f');
  }

  class Loop {
    const g: Graph
    const tree: map<Service, Kind>
    const frontier: SF.StartupFrontier
    var trackers: set<Service>
    var oneshots: set<Service>
    // Workers left in the failed state because they could not be spawned.
    var unspawned: set<Service>
    // The run of the frontier so far.
    ghost var fs: seq<State>
    ghost var es: seq<Event>

    ghost predicate Valid(todo: set<Service>) reads this, frontier {
      && g.Valid()
      && RunTo(g, fs, es, frontier.Snapshot())
      && Awaits(tree, frontier.Snapshot(), trackers, oneshots, todo)
      && KindsMatch(tree, trackers, oneshots)
    }

    ghost function Pages(): Book reads this {
      Book(oneshots, trackers, MarkedReady(es), MarkedFailed(es), unspawned)
    }

    /** Nothing is queued and nothing is awaited. */
    predicate Idle() reads this, frontier { frontier.readyToStart == [] && trackers == {} && oneshots == {} }

    constructor (g: Graph, tree: map<Service, Kind>)
      requires g.Valid()
      ensures Valid({}) && fresh(frontier) && this.g == g && this.tree == tree
      ensures Pages() == BLANK && es == []
    {
      var f := new SF.StartupFrontier(g);
      this.g, this.tree, this.frontier := g, tree, f;
      trackers, oneshots, unspawned := {}, {}, {};
      fs, es := [f.Snapshot()], [];
    }

    /** Mark an awaited or just-started worker, ready or failed. */
    method Mark(s: Service, ok: bool, ghost todo: set<Service>)
      requires Valid(todo) && s in frontier.pending && s in tree
      modifies this, frontier
      ensures Valid(todo - {s}) && oneshots == old(oneshots) - {s} && trackers == old(trackers) - {s}
      ensures es == old(es) + [Marking(s, ok)] && unspawned == old(unspawned)
    {
      hide RunTo, Awaits, ReadyStep, FailStep, Graph.Valid;
      ghost var f := frontier.Snapshot();
      AwaitsMark(tree, f, trackers, oneshots, todo, s);
      trackers, oneshots := trackers - {s}, oneshots - {s};
      if ok {
        frontier.MarkReady(s, g);
      } else {
        frontier.MarkFailed(s, g);
      }
      ghost var f' := frontier.Snapshot();
      MarkExtends(g, fs, es, f, s, ok, f');
      AwaitsOnly(tree, f, s, f', trackers, oneshots, todo);
      fs, es := fs + [f'], es + [Marking(s, ok)];
    }

    /** Reap exits: pending oneshots become ready or failed, other exits do not touch the frontier and are handed on
        to supervision. */
    method ReapOneshots(exits: seq<(Service, bool)>) returns (others: seq<(Service, bool)>)
      requires Valid({})
      modifies this, frontier
      ensures Valid({}) && trackers == old(trackers) && oneshots == old(oneshots) - Exited(exits)
      ensures es == old(es) + Reaps(old(oneshots), exits) && others == Others(old(oneshots), exits)
      ensures unspawned == old(unspawned)
    {
      hide RunTo, Graph.Valid;
      others := [];
      for i := 0 to |exits|
        invariant Valid({}) && trackers == old(trackers) && oneshots == old(oneshots) - Exited(exits[..i])
        invariant es == old(es) + Reaps(old(oneshots), exits[..i]) && others == Others(old(oneshots), exits[..i])
        invariant unspawned == old(unspawned)
      {
        var (name, ok) := exits[i];
        assert exits[..i + 1][..i] == exits[..i];
        ExitedSnoc(exits[..i + 1]);
        if name in oneshots {
          Mark(name, ok, {});
        } else {
          others := others + [exits[i]];
        }
      }
      assert exits[..|exits|] == exits;
    }

    /** Note how a service just started reports readiness, whether or not it could be spawned; one without a worker is
        not noted anywhere. */
    method Track(name: Service, failing: set<Service>, ghost todo: set<Service>)
      requires Valid(todo) && name in todo
      modifies this, frontier
      ensures Valid(todo - {name}) && es == old(es) + MarkIfImmediate(tree, name)
      ensures oneshots == old(oneshots) + OfKind(tree, [name], Oneshot)
      ensures trackers == old(trackers) + OfKind(tree, [name], Probed)
      ensures unspawned == old(unspawned) + FailedSpawns(tree, [name], failing)
    {
      hide RunTo, Graph.Valid, Awaits, KindsMatch, OfKind, FailedSpawns;
      TrackOne(tree, frontier.Snapshot(), trackers, oneshots, todo, name, failing);
      if name in tree {
        if name in failing { unspawned := unspawned + {name}; }
        match tree[name] {
          case Oneshot => oneshots := oneshots + {name};
          case Immediate => Mark(name, true, todo);
          case Probed => trackers := trackers + {name};
        }
      }
    }

    /** Take the ready batch out of the frontier. */
    method TakeBatch() returns (batch: seq<Service>)
      requires Valid({})
      modifies this, frontier
      ensures Valid(Elements(batch)) && es == old(es) + [Take(batch)] && frontier.readyToStart == []
      ensures oneshots == old(oneshots) && trackers == old(trackers) && unspawned == old(unspawned) && Distinct(batch)
    {
      hide RunTo, Distinct, Graph.Valid, State.Marked, Awaits;
      ghost var f := frontier.Snapshot();
      batch := frontier.TakeReady();
      ghost var f' := frontier.Snapshot();
      TakeExtends(g, fs, es, f, batch, f');
      AwaitsTake(tree, f, f', trackers, oneshots, batch);
      fs, es := fs + [f'], es + [Take(batch)];
    }

    /** Take the ready batch and start it; the spawns of the services in `failing` fail. */
    method StartBatch(failing: set<Service>) returns (batch: seq<Service>)
      requires Valid({})
      modifies this, frontier
      ensures Valid({}) && es == old(es) + [Take(batch)] + Immediates(tree, batch)
      ensures oneshots == old(oneshots) + OfKind(tree, batch, Oneshot)
      ensures trackers == old(trackers) + OfKind(tree, batch, Probed)
      ensures unspawned == old(unspawned) + FailedSpawns(tree, batch, failing)
      ensures batch == [] ==> frontier.readyToStart == []
    {
      hide *;
      batch := TakeBatch();
      NothingTracked(tree, failing);
      AllToTrack(batch);
      for i := 0 to |batch|
        invariant Valid(Elements(batch[i..])) && Distinct(batch)
        invariant es == old(es) + [Take(batch)] + Immediates(tree, batch[..i])
        invariant oneshots == old(oneshots) + OfKind(tree, batch[..i], Oneshot)
        invariant trackers == old(trackers) + OfKind(tree, batch[..i], Probed)
        invariant unspawned == old(unspawned) + FailedSpawns(tree, batch[..i], failing)
        invariant i == 0 ==> frontier.readyToStart == []
      {
        TrackStep(tree, batch, failing, i);
        Track(batch[i], failing, Elements(batch[i..]));
      }
      AllTracked(batch);
    }

    /** Poll every tracker once, in some order: those with an answer are marked and dropped. */
    method PollTrackers(probes: map<Service, Probe>)
      requires Valid({})
      modifies this, frontier
      ensures Valid({}) && oneshots == old(oneshots)
      ensures trackers == Answering(old(trackers), probes, {NotReady})
      ensures Started(es) == Started(old(es))
      ensures MarkedReady(es) == MarkedReady(old(es)) + Answering(old(trackers), probes, {IsReady})
      ensures MarkedFailed(es) == MarkedFailed(old(es)) + Answering(old(trackers), probes, {TimedOut, ProbeFailed})
      ensures old(trackers) == {} ==> frontier.Snapshot() == old(frontier.Snapshot())
      ensures unspawned == old(unspawned)
    {
      hide RunTo, Graph.Valid, Started, MarkedReady, MarkedFailed, Awaits, Answering, ProbeOf;
      var names := trackers;
      ghost var done: set<Service> := {};
      AnsweringNobody(probes, {NotReady});
      AnsweringNobody(probes, {IsReady});
      AnsweringNobody(probes, {TimedOut, ProbeFailed});
      while names != {}
        invariant Valid({}) && oneshots == old(oneshots) && names !! done && names + done == old(trackers)
        invariant unspawned == old(unspawned)
        invariant trackers == names + Answering(done, probes, {NotReady})
        invariant Started(es) == Started(old(es)) && (done == {} ==> frontier.Snapshot() == old(frontier.Snapshot()))
        invariant MarkedReady(es) == MarkedReady(old(es)) + Answering(done, probes, {IsReady})
        invariant MarkedFailed(es) == MarkedFailed(old(es)) + Answering(done, probes, {TimedOut, ProbeFailed})
        decreases names
      {
        var name :| name in names;
        Settle(name, ProbeOf(probes, name));
        AnsweringGrows(done, name, probes, {NotReady});
        AnsweringGrows(done, name, probes, {IsReady});
        AnsweringGrows(done, name, probes, {TimedOut, ProbeFailed});
        AnsweringWithin(done, probes, {NotReady});
        names, done := names - {name}, done + {name};
      }
    }

    /** One turn of the startup loop: the books are carried forward, and unless everybody awaited stays silent or
        there is nothing left to do, a further service is started or marked. */
    method Turn(t: Tick) returns (batch: seq<Service>, others: seq<(Service, bool)>)
      requires Valid({})
      modifies this, frontier
      ensures Valid({}) && Started(es) == Started(old(es)) + batch
      ensures Pages() == BookTurn(tree, old(Pages()), t, batch) && others == Others(old(oneshots), t.exits)
      ensures batch == [] && Polled(tree, old(Pages()), batch) == {} ==> frontier.readyToStart == []
      ensures batch != [] || Silent(tree, old(Pages()), t, batch) || Idle() ||
              |Pages().Marked()| > |old(Pages()).Marked()|
    {
      hide RunTo, Awaits, KindsMatch, Answering, Exited, Reaps, Others, Immediates, OfKind, FirstExits, Graph.Valid;
      hide FailedSpawns, Started, MarkedReady, MarkedFailed;
      ghost var p0 := Pages();
      AwaitedUnmarked();
      others := ReapOneshots(t.exits);
      ghost var es1 := es;
      ReapsMark(old(es), p0.oneshots, t.exits);
      batch := StartBatch(t.unspawned);
      BatchMarks(es1, tree, batch);
      AwaitedUnmarked();
      PollTrackers(t.probes);
      assert Pages() == BookTurn(tree, p0, t, batch);
      if batch == [] { TurnGains(tree, p0, t); }
    }

    /** Whoever is awaited has not been marked. */
    lemma AwaitedUnmarked()
      requires Valid({})
      ensures trackers + oneshots !! Pages().Marked()
    {
      hide Graph.Valid, BlockedBy, Released, CountsUnmet, Distinct, Started, MarkedReady, MarkedFailed;
      RunInvariant(g, fs, es, |es|);
      assert es[..|es|] == es;
    }

    /** One probe result. */
    method Settle(name: Service, result: Probe)
      requires Valid({}) && name in trackers
      modifies this, frontier
      ensures Valid({}) && oneshots == old(oneshots) && unspawned == old(unspawned)
      ensures trackers == if result == NotReady then old(trackers) else old(trackers) - {name}
      ensures Started(es) == Started(old(es))
      ensures MarkedReady(es) == MarkedReady(old(es)) + if result == IsReady then {name} else {}
      ensures MarkedFailed(es) == MarkedFailed(old(es)) + if result in {TimedOut, ProbeFailed} then {name} else {}
    {
      hide RunTo, Graph.Valid, Started, MarkedReady, MarkedFailed;
      match result {
        case IsReady => Mark(name, true, {});
        case TimedOut => Mark(name, false, {});
        case ProbeFailed => Mark(name, false, {});
        case NotReady =>
      }
      MarksSnoc(old(es), Marking(name, result == IsReady));
    }
  }

  lemma AwaitsTake(tree: map<Service, Kind>, f: State, f': State, trackers: set<Service>, oneshots: set<Service>,
                   batch: seq<Service>)
    requires Awaits(tree, f, trackers, oneshots, {}) && Elements(batch) !! f.pending
    requires f'.pending == f.pending + Elements(batch) && f'.Marked() == f.Marked()
    ensures Awaits(tree, f', trackers, oneshots, Elements(batch))
  {
    hide State.Marked;
  }

  /** A service of the batch moves from what is to be handled to what is awaited, as its kind says. */
  lemma TrackOne(tree: map<Service, Kind>, f: State, trackers: set<Service>, oneshots: set<Service>, todo: set<Service>,
                 s: Service, failing: set<Service>)
    requires Awaits(tree, f, trackers, oneshots, todo) && KindsMatch(tree, trackers, oneshots) && s in todo
    ensures forall kind :: OfKind(tree, [s], kind) == if s in tree && tree[s] == kind then {s} else {}
    ensures FailedSpawns(tree, [s], failing) == if s in tree && s in failing then {s} else {}
    ensures s in f.pending && s !in trackers + oneshots
    ensures s !in tree ==> Awaits(tree, f, trackers, oneshots, todo - {s})
    ensures s in tree && tree[s] == Oneshot ==>
              Awaits(tree, f, trackers, oneshots + {s}, todo - {s}) && KindsMatch(tree, trackers, oneshots + {s})
    ensures s in tree && tree[s] == Probed ==>
              Awaits(tree, f, trackers + {s}, oneshots, todo - {s}) && KindsMatch(tree, trackers + {s}, oneshots)
  {
    hide State.Marked;
  }

  /** One more service of the batch is tracked. */
  lemma TrackStep(tree: map<Service, Kind>, batch: seq<Service>, failing: set<Service>, i: nat)
    requires Distinct(batch) && i < |batch|
    ensures batch[i] in Elements(batch[i..]) && Elements(batch[i + 1..]) == Elements(batch[i..]) - {batch[i]}
    ensures Immediates(tree, batch[..i + 1]) == Immediates(tree, batch[..i]) + MarkIfImmediate(tree, batch[i])
    ensures OfKind(tree, batch[..i + 1], Oneshot) == OfKind(tree, batch[..i], Oneshot) + OfKind(tree, [batch[i]], Oneshot)
    ensures OfKind(tree, batch[..i + 1], Probed) == OfKind(tree, batch[..i], Probed) + OfKind(tree, [batch[i]], Probed)
    ensures FailedSpawns(tree, batch[..i + 1], failing) ==
            FailedSpawns(tree, batch[..i], failing) + FailedSpawns(tree, [batch[i]], failing)
  {
    hide Distinct, MarkIfImmediate, OfKind, FailedSpawns;
    DistinctSuffix(batch, i);
    assert batch[i..][0] == batch[i] && batch[..i + 1] == batch[..i] + [batch[i]] && batch[..i + 1][..i] == batch[..i];
    OfKindSnoc(tree, batch[..i], batch[i]);
  }

  lemma AllToTrack(batch: seq<Service>)
    ensures batch[0..] == batch && batch[..0] == []
  {
  }

  /** A run starts and marks no more than there are services. */
  lemma RunBounds(g: Graph, fs: seq<State>, es: seq<Event>, f: State)
    requires g.Valid() && RunTo(g, fs, es, f)
    ensures |Started(es)| <= |g.services| && |MarkedReady(es) + MarkedFailed(es)| <= |g.services|
    ensures f.ready == MarkedReady(es) && f.Failed() == MarkedFailed(es)
  {
    hide Graph.Valid, BlockedBy, Released, CountsUnmet, Distinct, Started, MarkedReady, MarkedFailed;
    RunInvariant(g, fs, es, |es|);
    assert es[..|es|] == es;
    DistinctBound(Started(es), g.services);
    SubsetBound(MarkedReady(es) + MarkedFailed(es), g.services);
  }

  lemma NothingStarted()
    ensures Started([]) == [] && Concat([]) == []
  {
  }

  lemma AllTracked(batch: seq<Service>)
    ensures batch[..|batch|] == batch && Elements(batch[|batch|..]) == {}
  {
  }

  datatype Outcome = Refused(cycles: seq<seq<Service>>) | StillStarting | Up

  /** When the loop ends, the only services still pending are those started without a worker. */
  lemma ExitLeavesOrphans(g: Graph, tree: map<Service, Kind>, fs: seq<State>, es: seq<Event>, f: State)
    requires g.Valid() && RunTo(g, fs, es, f) && Awaits(tree, f, {}, {}, {})
    ensures f.pending == set s | s in Started(es) && s !in tree
    ensures Inv(g, f) && f.Failed() == MarkedFailed(es)
  {
    hide Inv, Graph.Valid, Started, Distinct, MarkedReady, MarkedFailed;
    RunInvariant(g, fs, es, |es|);
    assert es[..|es|] == es;
    assert f.pending + f.Marked() == Elements(Started(es));
    assert forall s :: s in Started(es) <==> s in Elements(Started(es));
  }

  /** Boot: build the graph, refuse cycles, then turn the loop until nothing is queued or awaited. `batches` is what
      each turn started; the books follow from it and from the reports. */
  method Boot(defs: seq<ServiceDef>, tree: map<Service, Kind>, ticks: seq<Tick>)
    returns (o: Outcome, g: Graph, f: State, ghost fs: seq<State>, ghost es: seq<Event>, ghost batches: seq<seq<Service>>)
    ensures Represents(g, defs, Names(defs)) && g.Valid()
    // Refusal.
    ensures o.Refused? <==> !Acyclic(g.deps)
    ensures o.Refused? ==> o.cycles != [] && AllCycles(g, o.cycles)
    // What happened, in terms of the reports.
    ensures |batches| <= |ticks| && (o.StillStarting? ==> |batches| == |ticks|)
    ensures !o.Refused? ==> RunTo(g, fs, es, f) && Started(es) == Concat(batches)
    ensures !o.Refused? ==>
              f.ready == Books(tree, ticks, batches).ready && f.Failed() == Books(tree, ticks, batches).failed
    // What is true when the loop ends.
    ensures o.Up? ==> f.queue == [] && f.pending == set s | s in Started(es) && s !in tree
    ensures o.Up? ==> Books(tree, ticks, batches).oneshots == {} && Books(tree, ticks, batches).trackers == {}
    ensures o.Up? && g.services <= tree.Keys ==>
      forall s :: s in g.services ==> (s in f.Marked() <==> !WaitsForBlocked(g, f, s))
    ensures o.Up? && g.services <= tree.Keys && (forall t :: t in ticks ==> NoFailures(t)) ==> f.ready == g.services
    // When it ends.
    ensures o.StillStarting? ==> |ticks| <= 2 * |g.services| + SilentTurns(tree, ticks, batches)
    ensures o.StillStarting? && AlwaysPrompt(tree, ticks, batches) ==> |ticks| <= |g.services|
  {
    hide KindsMatch, RunTo, Graph.Valid, Represents, Acyclic, Awaits, AllCycles, WaitsForBlocked, Inv, Started;
    hide MarkedReady, MarkedFailed, BookTurn, Silent, Prompt, NoFailures;
    g := Build(defs);
    fs, es, f, batches := [], [], State(map[], [], {}, {}, {}, {}), [];
    var verdict := ValidateNoCycles(g);
    if verdict.CycleError? {
      o := Refused(verdict.cycles);
      return;
    }
    var loop := new Loop(g, tree);
    o := StillStarting;
    NothingStarted();
    var i := 0;
    while i < |ticks| && o.StillStarting?
      invariant |batches| == i <= |ticks| && loop.g == g && loop.tree == tree && loop.Valid({})
      invariant fresh(loop) && fresh(loop.frontier)
      invariant (o.StillStarting? || o.Up?) && (o.Up? ==> loop.Idle())
      invariant Started(loop.es) == Concat(batches) && loop.Pages() == Books(tree, ticks, batches)
      invariant o.StillStarting? ==>
        |Started(loop.es)| + |loop.Pages().Marked()| + SilentTurns(tree, ticks, batches) >= i
      invariant AlwaysPrompt(tree, ticks, batches) ==>
        loop.trackers == {} && (o.StillStarting? ==> |Started(loop.es)| >= i)
    {
      ghost var before := loop.Pages();
      var batch, _ := loop.Turn(ticks[i]);
      BooksSnoc(tree, ticks, batches, batch);
      MarksGrow(tree, before, ticks[i], batch);
      PromptTurn(tree, before, ticks[i], batch);
      batches := batches + [batch];
      if loop.Idle() {
        o := Up;
      }
      i := i + 1;
    }
    fs, es, f := loop.fs, loop.es, loop.frontier.Snapshot();
    RunBounds(g, fs, es, f);
    if o.Up? {
      ExitLeavesOrphans(g, tree, fs, es, f);
      if g.services <= tree.Keys { UpMeans(g, tree, fs, es, f, ticks, batches); }
    }
  }

  /** Once the loop has ended and all services are workers. */
  lemma UpMeans(g: Graph, tree: map<Service, Kind>, fs: seq<State>, es: seq<Event>, f: State,
                ticks: seq<Tick>, batches: seq<seq<Service>>)
    requires g.Valid() && Acyclic(g.deps) && RunTo(g, fs, es, f) && g.services <= tree.Keys
    requires f.queue == [] && f.pending == set s | s in Started(es) && s !in tree
    requires Inv(g, f) && |batches| <= |ticks| && f.Failed() == Books(tree, ticks, batches).failed
    ensures forall s :: s in g.services ==> (s in f.Marked() <==> !WaitsForBlocked(g, f, s))
    ensures (forall t :: t in ticks ==> NoFailures(t)) ==> f.ready == g.services
  {
    hide RunTo, Graph.Valid, Acyclic, WaitsForBlocked, Inv, Started, Books, FailsIn;
    AllWorkersQuiet(g, tree, fs, es, f);
    forall s | s in g.services ensures s in f.Marked() <==> !WaitsForBlocked(g, f, s) { QuietExactly(g, f, s); }
    if forall t :: t in ticks ==> NoFailures(t) {
      NobodyFails(tree, ticks, batches);
      QuietWithoutFailures(g, f);
    }
  }

  lemma AllWorkersQuiet(g: Graph, tree: map<Service, Kind>, fs: seq<State>, es: seq<Event>, f: State)
    requires g.Valid() && RunTo(g, fs, es, f) && g.services <= tree.Keys
    requires f.queue == [] && f.pending == set s | s in Started(es) && s !in tree
    ensures Quiet(f)
  {
    hide BlockedBy, Released, CountsUnmet, Distinct, Started, MarkedReady, MarkedFailed;
    RunInvariant(g, fs, es, |es|);
    assert f.pending <= g.services;
  }

  lemma MarkEffect(g: Graph, f: State, s: Service, ok: bool, f': State)
    requires g.Valid() && Inv(g, f) && s in f.pending
    requires if ok then ReadyStep(g, f, s, f') else FailStep(g, f, s, f')
    ensures f'.pending == f.pending - {s} && f'.Marked() == f.Marked() + {s}
  {
    hide CountsUnmet, BlockedBy, Released, Distinct, Enqueues, NewlyBlocked;
    if !ok {
      ReleasedNotNewlyBlocked(g, f, s);
    }
  }

  lemma TakeEffect(g: Graph, f: State, batch: seq<Service>, f': State)
    requires Inv(g, f) && TakeStep(f, batch, f')
    ensures Distinct(batch) && Elements(batch) !! f.pending && f'.pending == f.pending + Elements(batch)
    ensures f'.Marked() == f.Marked()
  {
    hide CountsUnmet, BlockedBy, Released;
    assert f'.Failed() == f.Failed();
  }

  lemma DistinctSuffix(batch: seq<Service>, i: nat)
    requires Distinct(batch) && i < |batch|
    ensures Elements(batch[i + 1..]) == Elements(batch[i..]) - {batch[i]}
  {
    assert batch[i..] == [batch[i]] + batch[i + 1..];
  }
}
