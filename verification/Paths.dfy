/** Paths and cycles over a finite adjacency map, shared by the dependency engine. */
module Paths {
  import opened Common

  /** A service name; only its identity matters to the engine. */
  datatype Service = Service(name: string)
  type Edges = map<Service, set<Service>>

  /** Successors of `s`; a service that is not a key has none. */
  function Adj(m: Edges, s: Service): set<Service> {
    if s in m then m[s] else {}
  }

  /** `p` follows edges of `m` from each element to the next. */
  ghost predicate IsPath(m: Edges, p: seq<Service>) {
    forall i :: 0 < i < |p| ==> p[i] in Adj(m, p[i - 1])
  }

  ghost predicate PathFromTo(m: Edges, p: seq<Service>, x: Service, y: Service) {
    |p| >= 2 && p[0] == x && p[|p| - 1] == y && IsPath(m, p)
  }

  /** `y` is reached from `x` by a non-empty path. */
  ghost predicate Reach(m: Edges, x: Service, y: Service) {
    exists p :: PathFromTo(m, p, x, y)
  }

  ghost predicate ReachOrSelf(m: Edges, x: Service, y: Service) {
    x == y || Reach(m, x, y)
  }

  ghost predicate Acyclic(m: Edges) {
    forall s :: !Reach(m, s, s)
  }

  function Elements<T>(s: seq<T>): set<T> {
    set x | x in s
  }

  /** `order` lists every element's successors before the element itself. */
  ghost predicate Topological(m: Edges, order: seq<Service>) {
    forall i :: 0 <= i < |order| ==> Adj(m, order[i]) <= Elements(order[..i])
  }

  lemma EdgeReaches(m: Edges, x: Service, y: Service)
    requires y in Adj(m, x)
    ensures Reach(m, x, y)
  {
    assert PathFromTo(m, [x, y], x, y);
  }

  lemma ReachTransitive(m: Edges, x: Service, y: Service, z: Service)
    requires Reach(m, x, y) && Reach(m, y, z)
    ensures Reach(m, x, z)
  {
    var p :| PathFromTo(m, p, x, y);
    var q :| PathFromTo(m, q, y, z);
    assert PathFromTo(m, p + q[1..], x, z);
  }

  /** A non-empty path starts with an edge and continues (or stops) from its target. */
  lemma ReachFirstEdge(m: Edges, x: Service, y: Service) returns (d: Service)
    requires Reach(m, x, y)
    ensures d in Adj(m, x) && ReachOrSelf(m, d, y)
  {
    var p :| PathFromTo(m, p, x, y);
    d := p[1];
    if |p| > 2 {
      assert PathFromTo(m, p[1..], d, y);
    }
  }

  /** A set that contains the successors of its members contains all that they reach. */
  lemma {:induction false} ClosedSetReach(m: Edges, S: set<Service>, x: Service, y: Service)
    requires forall s :: s in S ==> Adj(m, s) <= S
    requires x in S && Reach(m, x, y)
    ensures y in S
  {
    var p :| PathFromTo(m, p, x, y);
    var i := 0;
    while i < |p| - 1
      invariant 0 <= i < |p| && p[i] in S
    {
      i := i + 1;
    }
  }

  lemma DistinctBound<T>(s: seq<T>, S: set<T>)
    requires Distinct(s) && Elements(s) <= S
    ensures |s| <= |S|
  {
    if s != [] {
      var n := |s| - 1;
      assert s[n] in S;
      assert forall x :: x in s[..n] ==> x in Elements(s) && x != s[n];
      DistinctBound(s[..n], S - {s[n]});
    }
  }

  /** A path that returns to one of its services is a cycle through it. */
  lemma ClosesCycle(m: Edges, p: seq<Service>, k: nat)
    requires p != [] && IsPath(m, p) && k < |p| && p[k] in Adj(m, p[|p| - 1])
    ensures Reach(m, p[k], p[k])
  {
    var c := p[k..] + [p[k]];
    assert PathFromTo(m, c, p[k], p[k]);
  }

  lemma ExtendsPath(m: Edges, p: seq<Service>, d: Service)
    requires p != [] && IsPath(m, p) && d in Adj(m, p[|p| - 1])
    ensures IsPath(m, p + [d])
  {
  }

  /** Walking inside a finite set with no dead end must revisit a service. */
  lemma WalkFindsCycle(m: Edges, S: set<Service>, p: seq<Service>) returns (x: Service)
    requires forall s :: s in S ==> Adj(m, s) * S != {}
    requires p != [] && Distinct(p) && Elements(p) <= S && IsPath(m, p)
    ensures x in S && Reach(m, x, x)
    decreases |S| - |p|
  {
    hide IsPath, Reach, Distinct, Adj;
    var last := p[|p| - 1];
    assert last in Elements(p);
    var d :| d in Adj(m, last) * S;
    if d in p {
      var k :| 0 <= k < |p| && p[k] == d;
      ClosesCycle(m, p, k);
      x := d;
    } else {
      ExtendsPath(m, p, d);
      DistinctSnoc(p, d);
      DistinctBound(p + [d], S);
      x := WalkFindsCycle(m, S, p + [d]);
    }
  }

  lemma NoDeadEndHasCycle(m: Edges, S: set<Service>) returns (x: Service)
    requires S != {}
    requires forall s :: s in S ==> Adj(m, s) * S != {}
    ensures x in S && Reach(m, x, x)
  {
    var s :| s in S;
    x := WalkFindsCycle(m, S, [s]);
  }

  /** In a topological order whatever an element reaches comes strictly earlier. */
  lemma {:induction false} TopologicalReach(m: Edges, order: seq<Service>, i: nat, y: Service)
    requires Topological(m, order) && i < |order| && Reach(m, order[i], y)
    ensures y in Elements(order[..i])
  {
    var d := ReachFirstEdge(m, order[i], y);
    var k :| 0 <= k < i && order[k] == d;
    if d != y {
      TopologicalReach(m, order, k, y);
    }
  }

  lemma TopologicalNoCycle(m: Edges, order: seq<Service>, s: Service)
    requires Topological(m, order) && Distinct(order) && s in order
    ensures !Reach(m, s, s)
  {
    var i :| 0 <= i < |order| && order[i] == s;
    if Reach(m, s, s) {
      TopologicalReach(m, order, i, s);
    }
  }

  lemma TopologicalSnoc(m: Edges, order: seq<Service>, s: Service)
    requires Topological(m, order) && Adj(m, s) <= Elements(order)
    ensures Topological(m, order + [s])
  {
    var longer := order + [s];
    assert longer[..|order|] == order;
    assert forall i :: 0 <= i < |order| ==> longer[..i] == order[..i] && longer[i] == order[i];
  }

  lemma DistinctSnoc<T>(p: seq<T>, x: T)
    requires Distinct(p) && x !in p
    ensures Distinct(p + [x]) && Elements(p + [x]) == Elements(p) + {x}
  {
    assert forall y :: y in p + [x] <==> y in p || y == x;
  }

  lemma DistinctTail<T>(p: seq<T>)
    requires p != [] && Distinct(p)
    ensures Distinct(p[1..]) && Elements(p[1..]) == Elements(p) - {p[0]}
  {
    assert forall y :: y in p <==> y == p[0] || y in p[1..];
  }

  lemma DistinctConcat<T>(p: seq<T>, q: seq<T>)
    requires Distinct(p) && Distinct(q) && Elements(p) !! Elements(q)
    ensures Distinct(p + q) && Elements(p + q) == Elements(p) + Elements(q)
  {
    assert forall y :: y in p + q <==> y in p || y in q;
    forall i, j | 0 <= i < |p| <= j < |p + q| ensures (p + q)[i] != (p + q)[j] {
      assert (p + q)[i] in Elements(p) && (p + q)[j] in Elements(q);
    }
  }
}
