/** The supervisor tree as a value: additions keep it a rooted tree with ordered, unique children. */
module SupervisorTree {
  import opened Common

  datatype NodeId = NodeId(name: string)

  datatype Strategy = OneForOne | OneForAll | RestForOne
  datatype Policy = Permanent | Transient | Temporary
  datatype ExitInfo = ExitInfo(code: Option<int>, signal: Option<int>)
  datatype ServiceState = Stopped | Running | Failed(exit: ExitInfo) | Abandoned

  /** A restart bound with the restarts recorded so far (see RestartIntensity). */
  datatype Intensity = Intensity(max: nat, window: nat, stamps: seq<nat>)

  datatype Node =
    | Supervisor(strategy: Strategy, intensity: Intensity, children: seq<NodeId>, parent: Option<NodeId>)
    | Worker(policy: Policy, state: ServiceState, startIndex: nat, owner: NodeId, pid: Option<int>)

  datatype Tree = Tree(nodes: map<NodeId, Node>, root: NodeId, pids: map<int, NodeId>)

  datatype AddResult = Added(tree: Tree) | DuplicateNode | ParentNotFound | ParentIsWorker

  function ParentOf(t: Tree, id: NodeId): Option<NodeId> {
    if id !in t.nodes then None
    else if t.nodes[id].Worker? then Some(t.nodes[id].owner)
    else t.nodes[id].parent
  }

  function New(root: NodeId, strategy: Strategy, intensity: Intensity): Tree {
    Tree(map[root := Supervisor(strategy, intensity, [], None)], root, map[])
  }

  /** The tree with `name` appended to the children of `parent` and its node inserted. */
  function Attach(t: Tree, name: NodeId, parent: NodeId, node: Node): Tree
    requires parent in t.nodes && t.nodes[parent].Supervisor?
  {
    var p := t.nodes[parent];
    t.(nodes := t.nodes[parent := p.(children := p.children + [name])][name := node])
  }

  function Add(t: Tree, name: NodeId, parent: NodeId, node: Node): AddResult {
    if name in t.nodes then DuplicateNode
    else if parent !in t.nodes then ParentNotFound
    else if t.nodes[parent].Worker? then ParentIsWorker
    else Added(Attach(t, name, parent, node))
  }

  function AddSupervisor(t: Tree, name: NodeId, parent: NodeId, strategy: Strategy, intensity: Intensity): AddResult {
    Add(t, name, parent, Supervisor(strategy, intensity, [], Some(parent)))
  }

  /** The start index is the number of siblings already there. */
  function AddWorker(t: Tree, name: NodeId, parent: NodeId, policy: Policy): AddResult {
    var idx := if parent in t.nodes && t.nodes[parent].Supervisor? then |t.nodes[parent].children| else 0;
    Add(t, name, parent, Worker(policy, Stopped, idx, parent, None))
  }

  // ---------- the shape ----------

  /** The children of `p` are distinct nodes whose parent is `p`; a worker's start index is its place. */
  ghost predicate ChildrenOk(t: Tree, p: NodeId)
    requires p in t.nodes && t.nodes[p].Supervisor?
  {
    var cs := t.nodes[p].children;
    && Distinct(cs)
    && (forall i :: 0 <= i < |cs| ==> cs[i] in t.nodes && ParentOf(t, cs[i]) == Some(p))
    && (forall i :: 0 <= i < |cs| && cs[i] in t.nodes && t.nodes[cs[i]].Worker? ==> t.nodes[cs[i]].startIndex == i)
  }

  /** Every node but the root is listed by its parent, a supervisor. */
  ghost predicate ListedOk(t: Tree, x: NodeId)
    requires x in t.nodes
  {
    var p := ParentOf(t, x);
    if x == t.root then p.None?
    else p.Some? && p.value in t.nodes && t.nodes[p.value].Supervisor? && x in t.nodes[p.value].children
  }

  /** The `n`-th ancestor. */
  function Climb(t: Tree, x: NodeId, n: nat): Option<NodeId>
    decreases n
  {
    if n == 0 then Some(x) else
    var p := ParentOf(t, x);
    if p.None? then None else Climb(t, p.value, n - 1)
  }

  /** Climbing from `x` arrives at the root. */
  ghost predicate Rooted(t: Tree, x: NodeId) { exists n: nat :: Climb(t, x, n) == Some(t.root) }

  ghost predicate WellFormed(t: Tree) {
    && t.root in t.nodes && t.nodes[t.root].Supervisor?
    && (forall p :: p in t.nodes && t.nodes[p].Supervisor? ==> ChildrenOk(t, p))
    && (forall x :: x in t.nodes ==> ListedOk(t, x))
    && (forall x :: x in t.nodes ==> Rooted(t, x))
  }

  lemma NewIsWellFormed(root: NodeId, strategy: Strategy, intensity: Intensity)
    ensures WellFormed(New(root, strategy, intensity))
  {
    assert Climb(New(root, strategy, intensity), root, 0) == Some(root);
  }

  /** A node added under `parent` states that parent and, for a worker, its place. */
  ghost predicate Fitting(t: Tree, parent: NodeId, node: Node)
    requires parent in t.nodes && t.nodes[parent].Supervisor?
  {
    if node.Worker? then node.owner == parent && node.startIndex == |t.nodes[parent].children|
    else node.parent == Some(parent) && node.children == []
  }

  lemma {:induction false} ClimbKept(t: Tree, name: NodeId, parent: NodeId, node: Node, x: NodeId, n: nat)
    requires WellFormed(t) && name !in t.nodes && parent in t.nodes && t.nodes[parent].Supervisor? && x in t.nodes
    requires Climb(t, x, n) == Some(t.root)
    ensures Climb(Attach(t, name, parent, node), x, n) == Some(t.root)
    decreases n
  {
    hide Rooted, ChildrenOk, Distinct;
    var t' := Attach(t, name, parent, node);
    assert ParentOf(t', x) == ParentOf(t, x);
    if n > 0 {
      assert ListedOk(t, x);
      ClimbKept(t, name, parent, node, ParentOf(t, x).value, n - 1);
    }
  }

  lemma AttachKeepsRooted(t: Tree, name: NodeId, parent: NodeId, node: Node, x: NodeId)
    requires WellFormed(t) && name !in t.nodes && parent in t.nodes && t.nodes[parent].Supervisor?
    requires Fitting(t, parent, node) && (x in t.nodes || x == name)
    ensures Rooted(Attach(t, name, parent, node), x)
    decreases x == name
  {
    hide ChildrenOk;
    var t' := Attach(t, name, parent, node);
    if x == name {
      AttachKeepsRooted(t, name, parent, node, parent);
      var n: nat :| Climb(t', parent, n) == Some(t.root);
      assert ParentOf(t', name) == Some(parent);
      assert Climb(t', name, n + 1) == Some(t.root);
    } else {
      assert Rooted(t, x);
      var n: nat :| Climb(t, x, n) == Some(t.root);
      ClimbKept(t, name, parent, node, x, n);
    }
  }

  lemma AttachKeepsChildren(t: Tree, name: NodeId, parent: NodeId, node: Node, p: NodeId)
    requires WellFormed(t) && name !in t.nodes && parent in t.nodes && t.nodes[parent].Supervisor?
    requires Fitting(t, parent, node)
    requires p in Attach(t, name, parent, node).nodes && Attach(t, name, parent, node).nodes[p].Supervisor?
    ensures ChildrenOk(Attach(t, name, parent, node), p)
  {
    hide Rooted, ListedOk;
    var t' := Attach(t, name, parent, node);
    if p != name {
      assert ChildrenOk(t, p);
      assert name !in t.nodes[p].children;
      if p == parent {
        var cs := t'.nodes[p].children;
        assert cs == t.nodes[p].children + [name];
      }
    }
  }

  lemma AttachKeepsListed(t: Tree, name: NodeId, parent: NodeId, node: Node, x: NodeId)
    requires WellFormed(t) && name !in t.nodes && parent in t.nodes && t.nodes[parent].Supervisor?
    requires Fitting(t, parent, node) && (x in t.nodes || x == name)
    ensures ListedOk(Attach(t, name, parent, node), x)
  {
    hide Rooted, ChildrenOk;
    var t' := Attach(t, name, parent, node);
    if x == name {
      var cs := t'.nodes[parent].children;
      assert cs[|cs| - 1] == name;
    } else {
      assert ListedOk(t, x);
      assert ParentOf(t', x) == ParentOf(t, x);
    }
  }

  lemma AttachKeeps(t: Tree, name: NodeId, parent: NodeId, node: Node)
    requires WellFormed(t) && name !in t.nodes && parent in t.nodes && t.nodes[parent].Supervisor?
    requires Fitting(t, parent, node)
    ensures WellFormed(Attach(t, name, parent, node))
  {
    hide Rooted, ChildrenOk, ListedOk, Fitting;
    var t' := Attach(t, name, parent, node);
    forall p | p in t'.nodes && t'.nodes[p].Supervisor? ensures ChildrenOk(t', p) {
      AttachKeepsChildren(t, name, parent, node, p);
    }
    forall x | x in t'.nodes ensures ListedOk(t', x) && Rooted(t', x) {
      AttachKeepsListed(t, name, parent, node, x);
      AttachKeepsRooted(t, name, parent, node, x);
    }
  }

  // ---------- updates that keep the shape ----------

  /** What the shape of the tree depends on. */
  function Shape(n: Node): Node {
    match n
    case Supervisor(strategy, _, children, parent) => Supervisor(strategy, Intensity(0, 0, []), children, parent)
    case Worker(policy, _, startIndex, owner, _) => Worker(policy, Stopped, startIndex, owner, None)
  }

  ghost predicate SameShape(t: Tree, t': Tree) {
    && t'.root == t.root && t'.nodes.Keys == t.nodes.Keys
    && (forall x :: x in t.nodes ==> x in t'.nodes && Shape(t'.nodes[x]) == Shape(t.nodes[x]))
  }

  lemma {:induction false} SameClimb(t: Tree, t': Tree, x: NodeId, n: nat)
    requires SameShape(t, t')
    ensures Climb(t', x, n) == Climb(t, x, n)
    decreases n
  {
    assert ParentOf(t', x) == ParentOf(t, x) by {
      if x in t.nodes { assert Shape(t'.nodes[x]) == Shape(t.nodes[x]); }
    }
    if n > 0 && ParentOf(t, x).Some? { SameClimb(t, t', ParentOf(t, x).value, n - 1); }
  }

  lemma SameShapeKeepsChildren(t: Tree, t': Tree, p: NodeId)
    requires WellFormed(t) && SameShape(t, t') && p in t'.nodes && t'.nodes[p].Supervisor?
    ensures ChildrenOk(t', p)
  {
    hide Rooted, ListedOk;
    assert Shape(t'.nodes[p]) == Shape(t.nodes[p]) && ChildrenOk(t, p);
    var cs := t.nodes[p].children;
    forall i | 0 <= i < |cs| ensures cs[i] in t'.nodes && Shape(t'.nodes[cs[i]]) == Shape(t.nodes[cs[i]]) {
    }
  }

  lemma SameShapeKeeps(t: Tree, t': Tree)
    requires WellFormed(t) && SameShape(t, t')
    ensures WellFormed(t')
  {
    hide ChildrenOk;
    assert Shape(t'.nodes[t.root]) == Shape(t.nodes[t.root]);
    forall p | p in t'.nodes && t'.nodes[p].Supervisor? ensures ChildrenOk(t', p) {
      SameShapeKeepsChildren(t, t', p);
    }
    forall x | x in t'.nodes ensures ListedOk(t', x) && Rooted(t', x) {
      assert ListedOk(t, x) && Rooted(t, x);
      assert Shape(t'.nodes[x]) == Shape(t.nodes[x]);
      var n: nat :| Climb(t, x, n) == Some(t.root);
      SameClimb(t, t', x, n);
      var p := ParentOf(t, x);
      if p.Some? && p.value in t.nodes { assert Shape(t'.nodes[p.value]) == Shape(t.nodes[p.value]); }
    }
  }

  // ---------- runs of additions ----------

  datatype Addition =
    | SupervisorAddition(name: NodeId, parent: NodeId, strategy: Strategy, intensity: Intensity)
    | WorkerAddition(name: NodeId, parent: NodeId, policy: Policy)

  /** A refused addition leaves the tree alone. */
  function Apply(t: Tree, a: Addition): Tree {
    var r := match a
      case SupervisorAddition(name, parent, strategy, intensity) => AddSupervisor(t, name, parent, strategy, intensity)
      case WorkerAddition(name, parent, policy) => AddWorker(t, name, parent, policy);
    if r.Added? then r.tree else t
  }

  function ApplyAll(t: Tree, additions: seq<Addition>): Tree {
    if additions == [] then t else Apply(ApplyAll(t, additions[..|additions| - 1]), additions[|additions| - 1])
  }

  /** Every sequence of additions keeps a rooted tree with unique, ordered children. */
  lemma {:induction false} AdditionsKeepTree(t: Tree, additions: seq<Addition>)
    requires WellFormed(t)
    ensures WellFormed(ApplyAll(t, additions))
  {
    hide WellFormed;
    if additions != [] {
      var n := |additions| - 1;
      AdditionsKeepTree(t, additions[..n]);
      var before, a := ApplyAll(t, additions[..n]), additions[n];
      if Apply(before, a) != before {
        var node := match a
          case SupervisorAddition(name, parent, strategy, intensity) => Supervisor(strategy, intensity, [], Some(parent))
          case WorkerAddition(name, parent, policy) =>
            Worker(policy, Stopped, |before.nodes[parent].children|, parent, None);
        AttachKeeps(before, a.name, a.parent, node);
      }
    }
  }

  /** A node occurs once among the children of its parent and nowhere else. */
  lemma ListedOnce(t: Tree, x: NodeId, p: NodeId)
    requires WellFormed(t) && x in t.nodes && p in t.nodes && t.nodes[p].Supervisor?
    ensures multiset(t.nodes[p].children)[x] == if ParentOf(t, x) == Some(p) then 1 else 0
  {
    hide Rooted;
    assert ChildrenOk(t, p) && ListedOk(t, x);
    OccursOnce(t.nodes[p].children, x);
  }

  lemma {:induction false} OccursOnce(s: seq<NodeId>, x: NodeId)
    requires Distinct(s)
    ensures multiset(s)[x] == if x in s then 1 else 0
  {
    if s != [] {
      assert s == s[..|s| - 1] + [s[|s| - 1]];
      OccursOnce(s[..|s| - 1], x);
    }
  }

  /** No node is its own ancestor. */
  lemma NoCycles(t: Tree, x: NodeId, n: nat)
    requires WellFormed(t) && x in t.nodes && n > 0
    ensures Climb(t, x, n) != Some(x)
  {
    if Climb(t, x, n) == Some(x) {
      assert Rooted(t, x);
      var m: nat :| Climb(t, x, m) == Some(t.root);
      hide WellFormed;
      RootHasNoAncestor(t, n);
      LoopNeverEnds(t, x, n, m);
    }
  }

  lemma RootHasNoAncestor(t: Tree, n: nat)
    requires WellFormed(t) && n > 0
    ensures Climb(t, t.root, n) == None
  {
    assert ListedOk(t, t.root);
  }

  lemma {:induction false} ClimbAdds(t: Tree, x: NodeId, a: nat, b: nat)
    ensures Climb(t, x, a + b) == (if Climb(t, x, a).None? then None else Climb(t, Climb(t, x, a).value, b))
    decreases a
  {
    if a > 0 && ParentOf(t, x).Some? {
      ClimbAdds(t, ParentOf(t, x).value, a - 1, b);
    }
  }

  /** A loop below the root would put the root on a loop too. */
  lemma LoopNeverEnds(t: Tree, x: NodeId, n: nat, m: nat)
    requires Climb(t, x, n) == Some(x) && Climb(t, x, m) == Some(t.root)
    ensures Climb(t, t.root, n) == Some(t.root)
  {
    ClimbAdds(t, x, n, m);
    ClimbAdds(t, x, m, n);
  }

  // ---------- what an addition does ----------

  /** An addition is refused exactly for a taken name, an unknown parent or a parent that is a worker, checked in this
      order; otherwise the new node is there, its parent lists it last, and nothing else has changed. */
  lemma AdditionExactly(t: Tree, a: Addition, x: NodeId)
    ensures var r := match a
              case SupervisorAddition(name, parent, strategy, intensity) => AddSupervisor(t, name, parent, strategy, intensity)
              case WorkerAddition(name, parent, policy) => AddWorker(t, name, parent, policy);
            && (r.DuplicateNode? <==> a.name in t.nodes)
            && (r.ParentNotFound? <==> a.name !in t.nodes && a.parent !in t.nodes)
            && (r.ParentIsWorker? <==> a.name !in t.nodes && a.parent in t.nodes && t.nodes[a.parent].Worker?)
            && (r.Added? ==>
                  && r.tree.root == t.root && r.tree.pids == t.pids && r.tree.nodes.Keys == t.nodes.Keys + {a.name}
                  && (x == a.name ==>
                        r.tree.nodes[x] ==
                        if a.SupervisorAddition? then Supervisor(a.strategy, a.intensity, [], Some(a.parent))
                        else Worker(a.policy, Stopped, |t.nodes[a.parent].children|, a.parent, None))
                  && (x == a.parent ==>
                        r.tree.nodes[x] == t.nodes[x].(children := t.nodes[x].children + [a.name]))
                  && (x in t.nodes && x != a.parent ==> r.tree.nodes[x] == t.nodes[x]))
            && Apply(t, a) == if r.Added? then r.tree else t
  {
  }
}
