/** The supervisor tree as the service manager keeps it: maps updated in place. */
module ServiceTree {
  import opened Common
  import opened SupervisorTree
  import opened RestartStrategy
  import Runs = SupervisionRuns

  class ServiceTree {
    var nodes: map<NodeId, Node>
    const root: NodeId
    var pids: map<int, NodeId>

    function Snapshot(): Tree
      reads this
    {
      Tree(nodes, root, pids)
    }

    constructor (root: NodeId, strategy: Strategy, intensity: Intensity)
      ensures Snapshot() == New(root, strategy, intensity)
      ensures WellFormed(Snapshot())
    {
      this.root := root;
      nodes := map[root := Supervisor(strategy, intensity, [], Option.None)];
      pids := map[];
      new;
      NewIsWellFormed(root, strategy, intensity);
    }

    /** Every successful addition keeps a rooted tree; a refused one changes nothing. */
    method AddSupervisor(name: NodeId, parent: NodeId, strategy: Strategy, intensity: Intensity) returns (r: AddResult)
      requires WellFormed(Snapshot())
      modifies this
      ensures r == SupervisorTree.AddSupervisor(old(Snapshot()), name, parent, strategy, intensity)
      ensures Snapshot() == if r.Added? then r.tree else old(Snapshot())
      ensures WellFormed(Snapshot())
    {
      hide WellFormed;
      ghost var before := Snapshot();
      if name in nodes { return DuplicateNode; }
      var node := Supervisor(strategy, intensity, [], Option.Some(parent));
      if parent !in nodes { return ParentNotFound; }
      var p := nodes[parent];
      if p.Worker? { return ParentIsWorker; }
      nodes := nodes[parent := p.(children := p.children + [name])];
      nodes := nodes[name := node];
      AttachKeeps(before, name, parent, node);
      r := Added(Snapshot());
    }

    method AddWorker(name: NodeId, parent: NodeId, policy: Policy) returns (r: AddResult)
      requires WellFormed(Snapshot())
      modifies this
      ensures r == SupervisorTree.AddWorker(old(Snapshot()), name, parent, policy)
      ensures Snapshot() == if r.Added? then r.tree else old(Snapshot())
      ensures WellFormed(Snapshot())
    {
      hide WellFormed;
      ghost var before := Snapshot();
      if name in nodes { return DuplicateNode; }
      if parent !in nodes { return ParentNotFound; }
      var p := nodes[parent];
      if p.Worker? { return ParentIsWorker; }
      var startIndex := |p.children|;
      nodes := nodes[parent := p.(children := p.children + [name])];
      var node := Worker(policy, Stopped, startIndex, parent, Option.None);
      nodes := nodes[name := node];
      AttachKeeps(before, name, parent, node);
      r := Added(Snapshot());
    }

    method RegisterPid(worker: NodeId, pid: int)
      modifies this
      ensures Snapshot() == Runs.RegisterPid(old(Snapshot()), worker, pid)
      ensures old(WellFormed(Snapshot())) ==> WellFormed(Snapshot())
    {
      hide WellFormed;
      ghost var before := Snapshot();
      if worker in nodes && nodes[worker].Worker? {
        nodes := nodes[worker := nodes[worker].(pid := Option.Some(pid), state := Running)];
      }
      pids := pids[pid := worker];
      if WellFormed(before) { SameShapeKeeps(before, Snapshot()); }
    }

    method UnregisterPid(pid: int) returns (worker: Option<NodeId>)
      modifies this
      ensures Snapshot() == Runs.UnregisterPid(old(Snapshot()), pid)
      ensures worker == if pid in old(pids) then Option.Some(old(pids)[pid]) else Option.None
    {
      worker := if pid in pids then Option.Some(pids[pid]) else Option.None;
      pids := pids - {pid};
    }

    method MarkAbandoned(children: seq<NodeId>)
      modifies this`nodes
      ensures Snapshot() == Abandon(old(Snapshot()), children)
    {
      for k := 0 to |children|
        invariant nodes == Abandon(old(Snapshot()), children[..k]).nodes
      {
        var id := children[k];
        assert children[..k + 1] == children[..k] + [id];
        if id in nodes && nodes[id].Worker? { nodes := nodes[id := nodes[id].(state := Abandoned)]; }
      }
      assert children[..|children|] == children;
    }

    method ApplyStrategy(sup: NodeId, child: NodeId, exit: ExitInfo, now: nat) returns (action: Action)
      modifies this
      ensures Outcome(Snapshot(), action) == RestartStrategy.ApplyStrategy(old(Snapshot()), sup, child, exit, now)
      ensures old(WellFormed(Snapshot())) ==> WellFormed(Snapshot())
    {
      hide WellFormed, I.Record, Affected, SameShape;
      ghost var before := Snapshot();
      StrategyKeepsShape(before, sup, child, exit, now);
      if WellFormed(before) { SameShapeKeeps(before, RestartStrategy.ApplyStrategy(before, sup, child, exit, now).tree); }
      if sup !in nodes || nodes[sup].Worker? { return NOTHING; }
      var strategy, children := nodes[sup].strategy, nodes[sup].children;
      var restart := child in nodes && nodes[child].Worker? && ShouldRestart(nodes[child].policy, exit);
      if !restart {
        if child in nodes && nodes[child].Worker? {
          nodes := nodes[child := nodes[child].(state := AfterExit(exit))];
        }
        return NOTHING;
      }
      var intensity := nodes[sup].intensity;
      var stamps := I.Record(intensity.stamps, now, intensity.window);
      nodes := nodes[sup := nodes[sup].(intensity := intensity.(stamps := stamps))];
      if |stamps| > intensity.max {
        MarkAbandoned(children);
        return Action(children, [], true);
      }
      action := Affected(strategy, children, child);
    }

    /** The parent with its action; a failed supervisor is never restarted by it. */
    method EscalateFailure(sup: NodeId, now: nat) returns (parent: Option<NodeId>, action: Action)
      modifies this
      ensures var e := Escalate(old(Snapshot()), sup, now);
              if e.AtRoot? then parent.None? && action == NOTHING && Snapshot() == old(Snapshot())
              else parent == Option.Some(e.parent) && Outcome(Snapshot(), action) == e.outcome
      ensures old(WellFormed(Snapshot()) && IsSupervisor(Snapshot(), sup)) ==>
                Snapshot() == old(Snapshot()) && action == NOTHING && (parent.None? <==> sup == root)
    {
      hide WellFormed, RestartStrategy.ApplyStrategy;
      if WellFormed(Snapshot()) && IsSupervisor(Snapshot(), sup) { EscalationAsksNothing(Snapshot(), sup, now); }
      parent := ParentOf(Snapshot(), sup);
      action := NOTHING;
      if parent.Some? {
        action := ApplyStrategy(parent.value, sup, ExitInfo(Option.None, Option.None), now);
      }
    }

    /** The action that is carried out for an exit. */
    method HandleChildExit(pid: int, exit: ExitInfo, now: nat) returns (action: Action)
      requires WellFormed(Snapshot())
      modifies this
      ensures Outcome(Snapshot(), action) == Runs.HandleExit(old(Snapshot()), pid, exit, now)
      ensures WellFormed(Snapshot())
    {
      hide WellFormed, RestartStrategy.ApplyStrategy, IsSupervisor;
      ghost var before := Snapshot();
      Runs.ExitKeepsTree(before, pid, exit, now);
      var id := UnregisterPid(pid);
      if id.None? {
        assert pids == before.pids;
        return NOTHING;
      }
      var worker := id.value;
      if worker in nodes && nodes[worker].Worker? {
        nodes := nodes[worker := nodes[worker].(pid := Option.None, state := AfterExit(exit))];
      }
      assert Snapshot() == Runs.Reaped(before, pid, exit);
      Runs.ReapedKeeps(before, pid, exit);
      var sup := ParentOf(Snapshot(), worker);
      if sup.None? { return NOTHING; }
      action := ApplyStrategy(sup.value, worker, exit, now);
      if action.supervisorFailed {
        var _, parentAction := EscalateFailure(sup.value, now);
        action := parentAction;
      }
    }
  }
}
