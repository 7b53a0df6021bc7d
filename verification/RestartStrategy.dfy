/** Restart strategies as values: which children a failed worker takes with it, and how often. */
module RestartStrategy {
  import opened Common
  import opened SupervisorTree
  import I = RestartIntensity

  datatype Action = Action(toStop: seq<NodeId>, toStart: seq<NodeId>, supervisorFailed: bool)
  datatype Outcome = Outcome(tree: Tree, action: Action)

  const NOTHING := Action([], [], false)

  predicate IsNormal(exit: ExitInfo) { exit.code == Some(0) }

  predicate ShouldRestart(policy: Policy, exit: ExitInfo) {
    policy.Permanent? || (policy.Transient? && !IsNormal(exit))
  }

  function AfterExit(exit: ExitInfo): ServiceState { if IsNormal(exit) then Stopped else Failed(exit) }

  predicate IsSupervisor(t: Tree, id: NodeId) { id in t.nodes && t.nodes[id].Supervisor? }
  predicate IsWorker(t: Tree, id: NodeId) { id in t.nodes && t.nodes[id].Worker? }

  function SetState(t: Tree, id: NodeId, state: ServiceState): Tree {
    if IsWorker(t, id) then t.(nodes := t.nodes[id := t.nodes[id].(state := state)]) else t
  }

  function RecordAt(t: Tree, sup: NodeId, now: nat): Tree
    requires IsSupervisor(t, sup)
  {
    var s := t.nodes[sup];
    var stamps := I.Record(s.intensity.stamps, now, s.intensity.window);
    t.(nodes := t.nodes[sup := s.(intensity := s.intensity.(stamps := stamps))])
  }

  /** One more restart now would be over the bound. */
  predicate Exceeds(i: Intensity, now: nat) { |I.Record(i.stamps, now, i.window)| > i.max }

  function Abandon(t: Tree, ids: seq<NodeId>): Tree {
    t.(nodes := map id | id in t.nodes ::
                  if id in ids && t.nodes[id].Worker? then t.nodes[id].(state := Abandoned) else t.nodes[id])
  }

  /** The first position of `x`, or 0. */
  function Position(s: seq<NodeId>, x: NodeId): (i: nat)
    ensures i < |s| || i == 0
    ensures x in s ==> i < |s| && s[i] == x && x !in s[..i]
    ensures x !in s ==> i == 0
  {
    if x !in s || s[0] == x then 0 else
    assert s == [s[0]] + s[1..];
    var i := Position(s[1..], x) + 1;
    assert s[..i] == [s[0]] + s[1..][..i - 1];
    i
  }

  function Affected(strategy: Strategy, children: seq<NodeId>, failed: NodeId): Action {
    match strategy
    case OneForOne => Action([], [failed], false)
    case OneForAll => Action(Reversed(children), children, false)
    case RestForOne =>
      var rest := children[Position(children, failed)..];
      Action(Reversed(rest), rest, false)
  }

  predicate Restarts(t: Tree, child: NodeId, exit: ExitInfo) {
    IsWorker(t, child) && ShouldRestart(t.nodes[child].policy, exit)
  }

  function ApplyStrategy(t: Tree, sup: NodeId, child: NodeId, exit: ExitInfo, now: nat): Outcome {
    if !IsSupervisor(t, sup) then Outcome(t, NOTHING)
    else if !Restarts(t, child, exit) then Outcome(SetState(t, child, AfterExit(exit)), NOTHING)
    else
      var s := t.nodes[sup];
      var t1 := RecordAt(t, sup, now);
      if Exceeds(s.intensity, now) then Outcome(Abandon(t1, s.children), Action(s.children, [], true))
      else Outcome(t1, Affected(s.strategy, s.children, child))
  }

  datatype Escalation = AtRoot | Escalated(parent: NodeId, outcome: Outcome)

  function Escalate(t: Tree, sup: NodeId, now: nat): Escalation {
    var p := ParentOf(t, sup);
    if p.None? then AtRoot
    else Escalated(p.value, ApplyStrategy(t, p.value, sup, ExitInfo(None, None), now))
  }

  // ---------- which children ----------

  lemma WorkerIsListed(t: Tree, sup: NodeId, child: NodeId) returns (i: nat)
    requires WellFormed(t) && IsWorker(t, child) && t.nodes[child].owner == sup
    ensures IsSupervisor(t, sup) && i == t.nodes[child].startIndex < |t.nodes[sup].children|
    ensures t.nodes[sup].children[i] == child && Position(t.nodes[sup].children, child) == i
  {
    hide Rooted;
    assert ListedOk(t, child);
    assert ListedOk(t, t.root);
    assert ChildrenOk(t, sup);
    var cs := t.nodes[sup].children;
    i := Position(cs, child);
  }

  /** Under the bound the three strategies restart exactly the failed worker, every child, or the children
      from the failed worker's start index on; they start in start order and stop in exact reverse. */
  lemma StrategyRestartsExactly(t: Tree, child: NodeId, exit: ExitInfo, now: nat)
    requires WellFormed(t) && Restarts(t, child, exit)
    requires var sup := t.nodes[child].owner; IsSupervisor(t, sup) && !Exceeds(t.nodes[sup].intensity, now)
    ensures var s := t.nodes[t.nodes[child].owner];
            var a := ApplyStrategy(t, t.nodes[child].owner, child, exit, now).action;
            && !a.supervisorFailed
            && (s.strategy == OneForOne ==> a.toStart == [child] && a.toStop == [])
            && (s.strategy == OneForAll ==> a.toStart == s.children)
            && (s.strategy == RestForOne ==>
                  && t.nodes[child].startIndex < |s.children|
                  && a.toStart == s.children[t.nodes[child].startIndex..] && a.toStart[0] == child)
            && (s.strategy != OneForOne ==>
                  && |a.toStop| == |a.toStart|
                  && forall i :: 0 <= i < |a.toStop| ==> a.toStop[i] == a.toStart[|a.toStart| - 1 - i])
  {
    hide WellFormed;
    var i := WorkerIsListed(t, t.nodes[child].owner, child);
  }

  /** Rest-for-one reaches a sibling exactly when it was not started before the failed worker. */
  lemma RestForOneReaches(t: Tree, child: NodeId, other: NodeId, exit: ExitInfo, now: nat)
    requires WellFormed(t) && Restarts(t, child, exit) && IsWorker(t, other)
    requires var sup := t.nodes[child].owner;
             && t.nodes[other].owner == sup && IsSupervisor(t, sup)
             && t.nodes[sup].strategy == RestForOne && !Exceeds(t.nodes[sup].intensity, now)
    ensures other in ApplyStrategy(t, t.nodes[child].owner, child, exit, now).action.toStart
            <==> t.nodes[other].startIndex >= t.nodes[child].startIndex
  {
    hide Rooted, ListedOk;
    var sup := t.nodes[child].owner;
    var cs := t.nodes[sup].children;
    var i := WorkerIsListed(t, sup, child);
    var j := WorkerIsListed(t, sup, other);
    var rest := cs[i..];
    assert ChildrenOk(t, sup);
    if j >= i {
      assert rest[j - i] == other;
    } else {
      assert forall k :: 0 <= k < |rest| ==> rest[k] == cs[i + k] != cs[j];
    }
  }

  // ---------- failure of a supervisor ----------

  /** Escalating the failure of a supervisor asks nothing of its parent, whatever the parent's strategy and
      bound, and leaves the tree as it was. */
  lemma EscalationAsksNothing(t: Tree, sup: NodeId, now: nat)
    requires WellFormed(t) && IsSupervisor(t, sup)
    ensures Escalate(t, sup, now) ==
            if sup == t.root then AtRoot else Escalated(t.nodes[sup].parent.value, Outcome(t, NOTHING))
  {
    hide Rooted, ChildrenOk;
    assert ListedOk(t, sup);
  }

  /** Over the bound every worker child is abandoned in the books. */
  lemma ExceededAbandons(t: Tree, child: NodeId, exit: ExitInfo, now: nat, x: NodeId)
    requires WellFormed(t) && Restarts(t, child, exit) && IsWorker(t, x)
    requires var sup := t.nodes[child].owner; IsSupervisor(t, sup) && Exceeds(t.nodes[sup].intensity, now)
    ensures var t' := ApplyStrategy(t, t.nodes[child].owner, child, exit, now).tree;
            t'.nodes[x] == if t.nodes[x].owner == t.nodes[child].owner then t.nodes[x].(state := Abandoned) else t.nodes[x]
  {
    hide Rooted;
    var sup := t.nodes[child].owner;
    assert ListedOk(t, x) && ChildrenOk(t, sup);
  }

  // ---------- the shape is kept ----------

  lemma StrategyKeepsShape(t: Tree, sup: NodeId, child: NodeId, exit: ExitInfo, now: nat)
    ensures SameShape(t, ApplyStrategy(t, sup, child, exit, now).tree)
  {
  }
}
