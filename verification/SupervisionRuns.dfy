/** Whole runs of the service manager's tree: additions, spawned pids and reaped exits. */
module SupervisionRuns {
  import opened Common
  import opened SupervisorTree
  import opened RestartStrategy

  datatype Event =
    | Addition(addition: SupervisorTree.Addition)
    | Spawned(worker: NodeId, pid: int)
    | Exited(pid: int, exit: ExitInfo, now: nat)

  function RegisterPid(t: Tree, worker: NodeId, pid: int): Tree {
    var nodes := if IsWorker(t, worker) then t.nodes[worker := t.nodes[worker].(pid := Some(pid), state := Running)]
                 else t.nodes;
    t.(nodes := nodes, pids := t.pids[pid := worker])
  }

  function UnregisterPid(t: Tree, pid: int): Tree { t.(pids := t.pids - {pid}) }

  function Settle(t: Tree, worker: NodeId, exit: ExitInfo): Tree {
    if IsWorker(t, worker) then t.(nodes := t.nodes[worker := t.nodes[worker].(pid := None, state := AfterExit(exit))])
    else t
  }

  /** The tree once the pid is forgotten and the worker's exit noted. */
  function Reaped(t: Tree, pid: int, exit: ExitInfo): Tree
    requires pid in t.pids
  {
    Settle(UnregisterPid(t, pid), t.pids[pid], exit)
  }

  /** The new tree with the action that is carried out: the strategy's own, or the parent's after an escalation. */
  function HandleExit(t: Tree, pid: int, exit: ExitInfo, now: nat): Outcome {
    if pid !in t.pids then Outcome(t, NOTHING) else
    var worker := t.pids[pid];
    var t1 := Reaped(t, pid, exit);
    var sup := ParentOf(t1, worker);
    if sup.None? then Outcome(t1, NOTHING) else
    var o := ApplyStrategy(t1, sup.value, worker, exit, now);
    if !o.action.supervisorFailed then o else
    var e := Escalate(o.tree, sup.value, now);
    if e.AtRoot? then Outcome(o.tree, NOTHING) else e.outcome
  }

  function Next(t: Tree, e: Event): Tree {
    match e
    case Addition(a) => Apply(t, a)
    case Spawned(worker, pid) => RegisterPid(t, worker, pid)
    case Exited(pid, exit, now) => HandleExit(t, pid, exit, now).tree
  }

  function Run(t: Tree, events: seq<Event>): Tree {
    if events == [] then t else Next(Run(t, events[..|events| - 1]), events[|events| - 1])
  }

  // ---------- the tree along a run ----------

  lemma ReapedKeeps(t: Tree, pid: int, exit: ExitInfo)
    requires WellFormed(t) && pid in t.pids
    ensures WellFormed(Reaped(t, pid, exit))
    ensures forall s :: s in t.nodes && t.nodes[s].Supervisor? ==> s in Reaped(t, pid, exit).nodes && Reaped(t, pid, exit).nodes[s] == t.nodes[s]
  {
    hide WellFormed;
    var t1 := Reaped(t, pid, exit);
    assert SameShape(t, t1);
    SameShapeKeeps(t, t1);
  }

  /** The effect of an exit in a well-formed tree, with the escalation already resolved. */
  lemma HandleExitMeans(t: Tree, pid: int, exit: ExitInfo, now: nat)
    requires WellFormed(t) && pid in t.pids && IsWorker(t, t.pids[pid])
    ensures var t1 := Reaped(t, pid, exit);
            var o := ApplyStrategy(t1, t.nodes[t.pids[pid]].owner, t.pids[pid], exit, now);
            HandleExit(t, pid, exit, now) == if o.action.supervisorFailed then Outcome(o.tree, NOTHING) else o
  {
    hide WellFormed, ApplyStrategy;
    var t1 := Reaped(t, pid, exit);
    ReapedKeeps(t, pid, exit);
    var worker := t.pids[pid];
    var sup := t.nodes[worker].owner;
    assert ParentOf(t1, worker) == Some(sup);
    var o := ApplyStrategy(t1, sup, worker, exit, now);
    StrategyKeepsShape(t1, sup, worker, exit, now);
    SameShapeKeeps(t1, o.tree);
    if o.action.supervisorFailed {
      assert IsSupervisor(t1, sup) by { FailsOnlySupervisors(t1, sup, worker, exit, now); }
      assert Shape(o.tree.nodes[sup]) == Shape(t1.nodes[sup]);
      EscalationAsksNothing(o.tree, sup, now);
    }
  }

  lemma FailsOnlySupervisors(t: Tree, sup: NodeId, child: NodeId, exit: ExitInfo, now: nat)
    ensures ApplyStrategy(t, sup, child, exit, now).action.supervisorFailed ==> IsSupervisor(t, sup)
  {
  }

  /** An exit is answered with restarts exactly when its worker is to be restarted and its supervisor is still
      under the bound. When the supervisor gives up, nothing is stopped either: the remaining children are only
      marked abandoned. */
  lemma RestartsExactly(t: Tree, pid: int, exit: ExitInfo, now: nat)
    requires WellFormed(t) && pid in t.pids && IsWorker(t, t.pids[pid])
    ensures var w := t.nodes[t.pids[pid]];
            && IsSupervisor(t, w.owner)
            && var a := HandleExit(t, pid, exit, now).action;
               var granted := ShouldRestart(w.policy, exit) && !Exceeds(t.nodes[w.owner].intensity, now);
               (a.toStart != [] <==> granted) && (!granted ==> a == NOTHING)
  {
    hide Rooted, ChildrenOk, Exceeds, Escalate;
    var w := t.nodes[t.pids[pid]];
    assert ListedOk(t, t.pids[pid]) && ListedOk(t, t.root);
    HandleExitMeans(t, pid, exit, now);
    ReapedKeeps(t, pid, exit);
    var t1 := Reaped(t, pid, exit);
    var i := WorkerIsListed(t1, w.owner, t.pids[pid]);
  }

  lemma NextKeepsTree(t: Tree, e: Event)
    requires WellFormed(t)
    ensures WellFormed(Next(t, e))
  {
    hide WellFormed;
    match e
    case Addition(a) => AdditionsKeepTree(t, [a]); assert ApplyAll(t, []) == t && [a][..0] == [];
    case Spawned(worker, pid) => SameShapeKeeps(t, RegisterPid(t, worker, pid));
    case Exited(pid, exit, now) => ExitKeepsTree(t, pid, exit, now);
  }

  lemma ExitKeepsTree(t: Tree, pid: int, exit: ExitInfo, now: nat)
    requires WellFormed(t)
    ensures WellFormed(HandleExit(t, pid, exit, now).tree)
  {
    hide WellFormed, ApplyStrategy;
    if pid in t.pids {
      ReapedKeeps(t, pid, exit);
      var t1 := Reaped(t, pid, exit);
      var sup := ParentOf(t1, t.pids[pid]);
      if sup.Some? {
        StrategyKeepsShape(t1, sup.value, t.pids[pid], exit, now);
        var t2 := ApplyStrategy(t1, sup.value, t.pids[pid], exit, now).tree;
        SameShapeKeeps(t1, t2);
        var p := ParentOf(t2, sup.value);
        if p.Some? {
          StrategyKeepsShape(t2, p.value, sup.value, ExitInfo(None, None), now);
          SameShapeKeeps(t2, ApplyStrategy(t2, p.value, sup.value, ExitInfo(None, None), now).tree);
        }
      }
    }
  }

  lemma {:induction false} RunKeepsTree(t: Tree, events: seq<Event>)
    requires WellFormed(t)
    ensures WellFormed(Run(t, events))
  {
    if events != [] {
      RunKeepsTree(t, events[..|events| - 1]);
      NextKeepsTree(Run(t, events[..|events| - 1]), events[|events| - 1]);
    }
  }

  // ---------- the restart bound along a run ----------

  /** The event records a restart at `sup`. */
  predicate Records(t: Tree, e: Event, sup: NodeId): (r: bool)
    ensures r ==> e.Exited?
  {
    e.Exited? && e.pid in t.pids && Restarts(t, t.pids[e.pid], e.exit) && t.nodes[t.pids[e.pid]].owner == sup
  }

  /** The times of the restarts recorded at `sup`. */
  function Times(t: Tree, events: seq<Event>, sup: NodeId): seq<nat> {
    if events == [] then [] else
    var n := |events| - 1;
    Times(t, events[..n], sup) + if Records(Run(t, events[..n]), events[n], sup) then [events[n].now] else []
  }

  /** The event makes `sup` start children. */
  predicate Starts(t: Tree, e: Event, sup: NodeId) {
    Records(t, e, sup) && HandleExit(t, e.pid, e.exit, e.now).action.toStart != []
  }

  /** How many events in the closed interval of one window from `a` make `sup` start children. */
  function StartsIn(t: Tree, events: seq<Event>, sup: NodeId, window: nat, a: nat): nat {
    if events == [] then 0 else
    var n := |events| - 1;
    var e := events[n];
    StartsIn(t, events[..n], sup, window, a) +
    if Starts(Run(t, events[..n]), e, sup) && a <= e.now <= a + window then 1 else 0
  }

  /** Only a recorded restart touches the deque of a supervisor, and it records the event's time. */
  lemma NextIntensity(t: Tree, e: Event, sup: NodeId)
    requires WellFormed(t) && IsSupervisor(t, sup)
    ensures IsSupervisor(Next(t, e), sup)
    ensures var i := t.nodes[sup].intensity;
            Next(t, e).nodes[sup].intensity ==
            if Records(t, e, sup) then i.(stamps := I.Record(i.stamps, e.now, i.window)) else i
  {
    hide WellFormed, ApplyStrategy, Escalate, I.Record;
    match e
    case Addition(a) =>
    case Spawned(worker, pid) =>
    case Exited(pid, exit, now) =>
      if pid in t.pids {
        ReapedKeeps(t, pid, exit);
        if IsWorker(t, t.pids[pid]) {
          HandleExitMeans(t, pid, exit, now);
          StrategyIntensity(Reaped(t, pid, exit), t.nodes[t.pids[pid]].owner, t.pids[pid], exit, now, sup);
          WorkerHasSupervisor(t, t.pids[pid]);
        } else {
          NoWorkerNoChange(t, pid, exit, now);
        }
      }
  }

  lemma WorkerHasSupervisor(t: Tree, w: NodeId)
    requires WellFormed(t) && IsWorker(t, w)
    ensures IsSupervisor(t, t.nodes[w].owner)
  {
    assert ListedOk(t, w) && ListedOk(t, t.root);
  }

  /** A pid registered for something that is not a worker changes no node when it exits. */
  lemma NoWorkerNoChange(t: Tree, pid: int, exit: ExitInfo, now: nat)
    requires pid in t.pids && !IsWorker(t, t.pids[pid])
    ensures HandleExit(t, pid, exit, now).tree.nodes == t.nodes
  {
  }

  lemma StrategyIntensity(t: Tree, sup: NodeId, child: NodeId, exit: ExitInfo, now: nat, x: NodeId)
    requires IsSupervisor(t, x)
    ensures var t' := ApplyStrategy(t, sup, child, exit, now).tree;
            && IsSupervisor(t', x)
            && var i := t.nodes[x].intensity;
               t'.nodes[x].intensity ==
               if IsSupervisor(t, sup) && Restarts(t, child, exit) && x == sup
               then i.(stamps := I.Record(i.stamps, now, i.window)) else i
  {
    hide I.Record;
  }

  /** Along every run the deque of a supervisor is the deque of the restarts recorded there. */
  lemma {:induction false} StampsAreHistory(t: Tree, events: seq<Event>, sup: NodeId)
    requires WellFormed(t) && IsSupervisor(t, sup) && t.nodes[sup].intensity.stamps == []
    ensures IsSupervisor(Run(t, events), sup)
    ensures var i := t.nodes[sup].intensity;
            Run(t, events).nodes[sup].intensity == i.(stamps := I.Deque(Times(t, events, sup), i.window))
  {
    hide WellFormed, Records, Next, I.Record;
    if events != [] {
      var n := |events| - 1;
      StampsAreHistory(t, events[..n], sup);
      RunKeepsTree(t, events[..n]);
      var before := Run(t, events[..n]);
      NextIntensity(before, events[n], sup);
      if Records(before, events[n], sup) {
        var ts := Times(t, events[..n], sup);
        assert (ts + [events[n].now])[..|ts|] == ts;
      } else {
        assert Times(t, events, sup) == Times(t, events[..n], sup);
      }
    }
  }

  /** Every start is a granted restart of the recorded history. */
  lemma {:induction false} StartsAreGrants(t: Tree, events: seq<Event>, sup: NodeId, a: nat)
    requires WellFormed(t) && IsSupervisor(t, sup) && t.nodes[sup].intensity.stamps == []
    ensures var i := t.nodes[sup].intensity;
            StartsIn(t, events, sup, i.window, a) <= |I.GrantsIn(Times(t, events, sup), i.max, i.window, a)|
  {
    hide WellFormed, Records, I.GrantsIn, HandleExit, Next;
    if events != [] {
      var n := |events| - 1;
      var i := t.nodes[sup].intensity;
      var before, e := Run(t, events[..n]), events[n];
      StartsAreGrants(t, events[..n], sup, a);
      RunKeepsTree(t, events[..n]);
      StampsAreHistory(t, events[..n], sup);
      if Records(before, e, sup) {
        var ts := Times(t, events[..n], sup);
        GrantsGrow(ts, e.now, i.max, i.window, a);
        if Starts(before, e, sup) { StartIsGranted(before, e, sup, ts); }
      } else {
        assert Times(t, events, sup) == Times(t, events[..n], sup);
      }
    }
  }

  lemma StartIsGranted(t: Tree, e: Event, sup: NodeId, ts: seq<nat>)
    requires WellFormed(t) && IsSupervisor(t, sup) && Starts(t, e, sup)
    requires t.nodes[sup].intensity.stamps == I.Deque(ts, t.nodes[sup].intensity.window)
    ensures var i := t.nodes[sup].intensity; I.Granted(ts + [e.now], i.max, i.window, |ts|)
  {
    hide WellFormed, HandleExit, I.Record;
    RestartsExactly(t, e.pid, e.exit, e.now);
    var all := ts + [e.now];
    assert all[..|ts| + 1] == all && all[..|ts|] == ts;
  }

  /** One more restart adds itself to the granted ones, if it is one. */
  lemma GrantsGrow(ts: seq<nat>, now: nat, max: nat, window: nat, a: nat)
    ensures var all := ts + [now];
            |I.GrantsIn(all, max, window, a)| ==
            |I.GrantsIn(ts, max, window, a)| + if I.Granted(all, max, window, |ts|) && a <= now <= a + window then 1 else 0
  {
    hide I.Deque;
    var all := ts + [now];
    forall i | 0 <= i < |ts| ensures I.Granted(all, max, window, i) == I.Granted(ts, max, window, i) {
      assert all[..i + 1] == ts[..i + 1];
    }
    var extra := if I.Granted(all, max, window, |ts|) && a <= now <= a + window then {|ts|} else {};
    assert I.GrantsIn(all, max, window, a) == I.GrantsIn(ts, max, window, a) + extra;
  }

  /** Exit times along a run never go back. */
  ghost predicate Monotone(events: seq<Event>) {
    forall i, j :: 0 <= i < j < |events| && events[i].Exited? && events[j].Exited? ==> events[i].now <= events[j].now
  }

  lemma {:induction false} TimesSorted(t: Tree, events: seq<Event>, sup: NodeId)
    requires Monotone(events)
    ensures I.Sorted(Times(t, events, sup))
    ensures forall x :: x in Times(t, events, sup) ==> exists i :: 0 <= i < |events| && events[i].Exited? && events[i].now == x
  {
    hide Run, Records;
    if events != [] {
      var n := |events| - 1;
      TimesSorted(t, events[..n], sup);
      var ts := Times(t, events[..n], sup);
      forall x | x in ts ensures exists i :: 0 <= i < n && events[i].Exited? && events[i].now == x {
        var i :| 0 <= i < n && events[..n][i].Exited? && events[..n][i].now == x;
        assert events[i].now == x;
      }
      if Records(Run(t, events[..n]), events[n], sup) {
        assert Times(t, events, sup) == ts + [events[n].now];
        forall i | 0 <= i < |ts| ensures ts[i] <= events[n].now { assert ts[i] in ts; }
      } else {
        assert Times(t, events, sup) == ts;
      }
    }
  }

  /** The restart bound, whatever the strategy: over every run with a clock at least a window past the earliest
      representable instant, a supervisor starts children at most `max` times in any interval of one window. */
  lemma StartsBounded(t: Tree, events: seq<Event>, sup: NodeId, a: nat)
    requires WellFormed(t) && IsSupervisor(t, sup) && t.nodes[sup].intensity.stamps == [] && Monotone(events)
    requires forall i :: 0 <= i < |events| && events[i].Exited? ==> events[i].now + 1 >= t.nodes[sup].intensity.window
    ensures var i := t.nodes[sup].intensity; StartsIn(t, events, sup, i.window, a) <= i.max
  {
    hide WellFormed, StartsIn, I.Granted, Times, Run;
    var i := t.nodes[sup].intensity;
    StartsAreGrants(t, events, sup, a);
    TimesSorted(t, events, sup);
    var ts := Times(t, events, sup);
    if ts != [] { assert ts[0] in ts; }
    I.GrantsBounded(ts, i.max, i.window, a);
  }
}
