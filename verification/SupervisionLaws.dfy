/** What an exit brings about, said by policies, exit codes and recorded times. */
module SupervisionLaws {
  import opened Common
  import opened SupervisorTree
  import opened RestartStrategy
  import opened SupervisionRuns
  import I = RestartIntensity

  /** A permanent worker is restarted after every exit, a transient one after every exit but a clean one, death by a
      signal included, and a temporary one never. */
  predicate Wanted(policy: Policy, exit: ExitInfo) {
    match policy
    case Permanent => true
    case Transient => exit.code != Some(0)
    case Temporary => false
  }

  /** The state an exit is noted as. */
  function Noted(exit: ExitInfo): ServiceState {
    if exit.code == Some(0) then Stopped else Failed(exit)
  }

  lemma PolicyMeans(policy: Policy, exit: ExitInfo)
    ensures ShouldRestart(policy, exit) <==> Wanted(policy, exit)
    ensures AfterExit(exit) == Noted(exit)
  {
  }

  /** Whether the supervisor grants one more restart now. */
  predicate Grants(t: Tree, sup: NodeId, now: nat)
    requires IsSupervisor(t, sup)
  {
    var i := t.nodes[sup].intensity; |I.Record(i.stamps, now, i.window)| <= i.max
  }

  /** The pid is noted, and for a worker. */
  predicate Known(t: Tree, pid: int) { pid in t.pids && IsWorker(t, t.pids[pid]) }

  /** An exit is answered with starts exactly when it is a worker's, the policy wants a restart and the supervisor
      grants one; otherwise nothing is started and nothing is stopped. */
  lemma ExitAnswered(t: Tree, pid: int, exit: ExitInfo, now: nat)
    requires WellFormed(t)
    ensures Known(t, pid) ==> IsSupervisor(t, t.nodes[t.pids[pid]].owner)
    ensures var a := HandleExit(t, pid, exit, now).action;
            var restarted := Known(t, pid) &&
                             var w := t.nodes[t.pids[pid]]; Wanted(w.policy, exit) && Grants(t, w.owner, now);
            (a.toStart != [] <==> restarted) && (!restarted ==> a == Action([], [], false))
  {
    hide WellFormed, HandleExit, ShouldRestart;
    if Known(t, pid) {
      PolicyMeans(t.nodes[t.pids[pid]].policy, exit);
      RestartsExactly(t, pid, exit, now);
    } else {
      StrangerIgnored(t, pid, exit, now);
    }
  }

  /** The exit of nobody's pid, or of one noted for no worker, at most makes the pid forgotten. */
  lemma StrangerIgnored(t: Tree, pid: int, exit: ExitInfo, now: nat)
    requires !Known(t, pid)
    ensures HandleExit(t, pid, exit, now) == Outcome(t.(pids := t.pids - {pid}), Action([], [], false))
  {
    hide Escalate;
    if pid !in t.pids { assert t.pids - {pid} == t.pids; }
  }

  /** The books after an exit: the pid is forgotten; the worker and, if its supervisor gives up, its siblings are
      noted; the supervisor remembers a wanted restart; nothing else changes. */
  lemma ExitNoted(t: Tree, pid: int, exit: ExitInfo, now: nat, x: NodeId)
    requires WellFormed(t) && pid in t.pids && IsWorker(t, t.pids[pid]) && x in t.nodes
    ensures var id := t.pids[pid];
            var w := t.nodes[id];
            var t' := HandleExit(t, pid, exit, now).tree;
            && IsSupervisor(t, w.owner) && x in t'.nodes && t'.nodes.Keys == t.nodes.Keys
            && t'.pids == t.pids - {pid} && t'.root == t.root
            && var givesUp := Wanted(w.policy, exit) && !Grants(t, w.owner, now);
               t'.nodes[x] ==
               if x == id then w.(pid := None, state := if givesUp then Abandoned else Noted(exit))
               else if t.nodes[x].Worker? && t.nodes[x].owner == w.owner && givesUp then t.nodes[x].(state := Abandoned)
               else if x == w.owner && Wanted(w.policy, exit) then
                 var i := t.nodes[x].intensity;
                 t.nodes[x].(intensity := i.(stamps := I.Record(i.stamps, now, i.window)))
               else t.nodes[x]
  {
    hide WellFormed, Escalate, ShouldRestart, AfterExit, I.Record;
    var id := t.pids[pid];
    var sup := t.nodes[id].owner;
    WorkerHasSupervisor(t, id);
    PolicyMeans(t.nodes[id].policy, exit);
    HandleExitMeans(t, pid, exit, now);
    var t1 := Reaped(t, pid, exit);
    ReapedKeeps(t, pid, exit);
    ChildrenAreOwned(t1, sup, x);
    StrategyNoted(t1, sup, id, exit, now, x);
  }

  lemma ChildrenAreOwned(t: Tree, sup: NodeId, x: NodeId)
    requires WellFormed(t) && IsSupervisor(t, sup) && x in t.nodes
    ensures t.nodes[x].Worker? ==> (x in t.nodes[sup].children <==> t.nodes[x].owner == sup)
  {
    hide Rooted;
    assert ChildrenOk(t, sup) && ListedOk(t, x) && ListedOk(t, t.root);
  }

  lemma StrategyNoted(t: Tree, sup: NodeId, child: NodeId, exit: ExitInfo, now: nat, x: NodeId)
    requires IsSupervisor(t, sup) && IsWorker(t, child) && t.nodes[child].state == AfterExit(exit) && x in t.nodes
    ensures var o := ApplyStrategy(t, sup, child, exit, now);
            var wanted := ShouldRestart(t.nodes[child].policy, exit);
            var givesUp := wanted && !Grants(t, sup, now);
            && x in o.tree.nodes && o.tree.nodes.Keys == t.nodes.Keys && o.tree.pids == t.pids && o.tree.root == t.root
            && o.tree.nodes[x] ==
               if givesUp && t.nodes[x].Worker? && x in t.nodes[sup].children then t.nodes[x].(state := Abandoned)
               else if x == sup && wanted then
                 var i := t.nodes[x].intensity;
                 t.nodes[x].(intensity := i.(stamps := I.Record(i.stamps, now, i.window)))
               else t.nodes[x]
  {
    hide I.Record, ShouldRestart, AfterExit, Affected;
  }

  // ---------- which process belongs to whom ----------

  /** The last event about the pid in `events` is at `k`. */
  predicate LastAbout(events: seq<Event>, pid: int, k: nat) {
    && k < |events| && About(events[k], pid)
    && forall i :: k < i < |events| ==> !About(events[i], pid)
  }

  predicate About(e: Event, pid: int) { !e.Addition? && e.pid == pid }

  lemma NextPids(t: Tree, e: Event)
    ensures Next(t, e).pids == match e
                               case Addition(_) => t.pids
                               case Spawned(worker, pid) => t.pids[pid := worker]
                               case Exited(pid, _, _) => t.pids - {pid}
  {
    hide Affected, I.Record;
    if e.Exited? && e.pid !in t.pids { assert t.pids - {e.pid} == t.pids; }
  }

  /** Along every run a pid belongs to the worker it was last spawned for, until it exits. */
  lemma {:induction false} PidsExactly(t: Tree, events: seq<Event>, pid: int, worker: NodeId)
    requires t.pids == map[]
    ensures pid in Run(t, events).pids && Run(t, events).pids[pid] == worker <==>
            exists k: nat :: LastAbout(events, pid, k) && events[k] == Spawned(worker, pid)
  {
    hide Next;
    if events != [] {
      var n := |events| - 1;
      PidsExactly(t, events[..n], pid, worker);
      NextPids(Run(t, events[..n]), events[n]);
      if About(events[n], pid) {
        assert LastAbout(events, pid, n);
        forall k: nat | LastAbout(events, pid, k) ensures k == n {}
      } else {
        forall k: nat ensures LastAbout(events[..n], pid, k) <==> LastAbout(events, pid, k) {}
      }
    }
  }

  // ---------- when a restart is granted ----------

  /** The recorded times that lie within one window before `now`. */
  function Recent(times: seq<nat>, window: nat, now: nat): set<nat> {
    set j | 0 <= j < |times| && times[j] + window >= now
  }

  /** After nondecreasing times past the first window, a restart is granted exactly when it and the restarts recorded
      within the window before it are at most the maximum. */
  lemma GrantedExactly(times: seq<nat>, now: nat, max: nat, window: nat)
    requires I.Sorted(times + [now]) && (times + [now])[0] + 1 >= window
    ensures |I.Record(I.Deque(times, window), now, window)| <= max <==> |Recent(times, window, now)| + 1 <= max
  {
    hide I.Record;
    var all := times + [now];
    assert all[..|times|] == times;
    var k := I.DequeIsWindow(all, window);
    assert I.Deque(all, window) == I.Record(I.Deque(times, window), now, window);
    forall j | 0 <= j < |times| ensures j in Recent(times, window, now) <==> k <= j { assert all[j] == times[j]; }
    CountFrom(Recent(times, window, now), k, |times|);
  }

  lemma {:induction false} CountFrom(s: set<nat>, lo: nat, hi: nat)
    requires lo <= hi && forall j: nat :: j in s <==> lo <= j < hi
    ensures |s| == hi - lo
    decreases hi - lo
  {
    if lo < hi {
      CountFrom(s - {lo}, lo + 1, hi);
    } else {
      assert s == {};
    }
  }

  /** Over every run with a monotone clock past the first window, an exit makes its supervisor start children exactly
      when the policy wants it and the restarts recorded there within the window, this one included, are at most the
      maximum. */
  lemma StartsExactly(t: Tree, events: seq<Event>, e: Event)
    requires WellFormed(t) && e.Exited? && Monotone(events + [e])
    requires var t1 := Run(t, events); e.pid in t1.pids && IsWorker(t1, t1.pids[e.pid])
    requires var sup := Run(t, events).nodes[Run(t, events).pids[e.pid]].owner;
             && IsSupervisor(t, sup) && t.nodes[sup].intensity.stamps == []
             && forall i :: 0 <= i <= |events| && (events + [e])[i].Exited? ==>
                  (events + [e])[i].now + 1 >= t.nodes[sup].intensity.window
    ensures var t1 := Run(t, events);
            var w := t1.nodes[t1.pids[e.pid]];
            var i := t.nodes[w.owner].intensity;
            HandleExit(t1, e.pid, e.exit, e.now).action.toStart != [] <==>
            Wanted(w.policy, e.exit) && |Recent(Times(t, events, w.owner), i.window, e.now)| + 1 <= i.max
  {
    hide WellFormed, HandleExit, I.Record, Run, Times, Wanted;
    var t1 := Run(t, events);
    RunKeepsTree(t, events);
    var sup := t1.nodes[t1.pids[e.pid]].owner;
    var i := t.nodes[sup].intensity;
    StampsAreHistory(t, events, sup);
    ExitAnswered(t1, e.pid, e.exit, e.now);
    HistorySorted(t, events, e, sup);
    GrantedExactly(Times(t, events, sup), e.now, i.max, i.window);
  }

  lemma HistorySorted(t: Tree, events: seq<Event>, e: Event, sup: NodeId)
    requires IsSupervisor(t, sup) && e.Exited? && Monotone(events + [e])
    requires forall i :: 0 <= i <= |events| && (events + [e])[i].Exited? ==>
               (events + [e])[i].now + 1 >= t.nodes[sup].intensity.window
    ensures var all := Times(t, events, sup) + [e.now];
            I.Sorted(all) && all[0] + 1 >= t.nodes[sup].intensity.window
  {
    hide Times, Run;
    var more := events + [e];
    assert more[|events|] == e;
    assert Monotone(events) by {
      forall i, j | 0 <= i < j < |events| && events[i].Exited? && events[j].Exited? ensures events[i].now <= events[j].now {
        assert more[i] == events[i] && more[j] == events[j];
      }
    }
    TimesSorted(t, events, sup);
    var ts := Times(t, events, sup);
    forall k | 0 <= k < |ts| ensures ts[k] <= e.now && ts[k] + 1 >= t.nodes[sup].intensity.window {
      assert ts[k] in ts;
      var i :| 0 <= i < |events| && events[i].Exited? && events[i].now == ts[k];
      assert more[i] == events[i];
    }
  }

  /** A spawn notes the pid and sets its worker running; nothing else changes, and a pid for somebody who is no worker
      is noted all the same. */
  lemma SpawnNoted(t: Tree, worker: NodeId, pid: int, x: NodeId)
    requires x in t.nodes
    ensures var t' := Next(t, Spawned(worker, pid));
            && t'.nodes.Keys == t.nodes.Keys && t'.root == t.root && t'.pids == t.pids[pid := worker]
            && t'.nodes[x] ==
               if x == worker && t.nodes[x].Worker? then t.nodes[x].(pid := Some(pid), state := Running) else t.nodes[x]
  {
  }
}
