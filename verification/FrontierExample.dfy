/** A concrete run that leaves a service behind although none of its requirements failed. */
module FrontierExample {
  import opened Paths
  import opened DependencyGraph
  import opened Countdown
  import opened Frontier
  import opened FrontierRuns

  const A := Service("a")
  const B := Service("b")
  const C := Service("c")

  /** `b` requires `a`; `c` is ordered after `b` and requires nothing. */
  const G := Graph(
    map[A := {}, B := {A}, C := {B}],
    map[A := {}, B := {A}, C := {}],
    map[A := {B}, B := {C}, C := {}],
    {A, B, C})

  const UNMET: map<Service, nat> := map[A := 0, B := 1, C := 1]
  const F0 := State(UNMET, [A], {}, {}, {}, {})
  const F1 := State(UNMET, [], {}, {A}, {}, {})
  const F2 := State(UNMET, [], {}, {}, {B}, {A, B})

  lemma FailureBlocksOnlyB()
    ensures NewlyBlocked(G, A, {}) == {B} && HardDependents(G, A) == {B}
  {
    assert PathAvoiding(G, [B, A], B, A, {});
    forall x | x in NewlyBlocked(G, A, {}) ensures x == B {
      var p :| PathAvoiding(G, p, x, A, {});
      assert p[1] in Adj(G.required, p[0]);
    }
  }

  lemma GraphIsValid()
    ensures G.Valid()
  {
    assert forall s :: Adj(G.deps, s) == if s == B then {A} else if s == C then {B} else {};
    assert forall s :: Adj(G.required, s) == if s == B then {A} else {};
    assert forall s :: Adj(G.reverse, s) == if s == A then {B} else if s == B then {C} else {};
  }

  lemma StartsWithA()
    ensures Init(G, F0)
  {
    var counts: map<Service, nat> := map s | s in G.services :: |G.DependenciesOf(s)|;
    assert counts == UNMET;
    assert Elements(F0.queue) == {A};
  }

  lemma FailureStep()
    ensures FailStep(G, F1, A, F2)
  {
    FailureBlocksOnlyB();
    hide NewlyBlocked, HardDependents;
    assert G.DependentsOf(A) - HardDependents(G, A) == {};
    assert Lowered(UNMET, {}) == UNMET;
    assert Zeroed(UNMET, {}, F1.completed + {A} + F2.pending + F1.blocked) == {};
    assert Enqueues([], [], {});
  }

  /** `a` fails: `b` is blocked, and `c`, which only asked to start after `b`, is stranded.
      The quiet state even counts as complete. */
  lemma SoftDependentIsStranded()
    ensures G.Valid() && IsRun(G, [F0, F1, F2], [Take([A]), Fail(A)])
    ensures Quiet(F2) && G.RequiresOf(C) == {} && C !in F2.blocked && C !in F2.completed
    ensures IsComplete(F2)
  {
    hide Init, FailStep, Graph.Valid;
    GraphIsValid();
    StartsWithA();
    FailureStep();
    assert Elements([A]) == {A};
    assert TakeStep(F0, [A], F1);
    var fs, es := [F0, F1, F2], [Take([A]), Fail(A)];
    assert Step(G, fs[0], es[0], fs[1]) && Step(G, fs[1], es[1], fs[2]);
    assert |F2.completed| == 2 && |F2.blocked| == 1 && |F2.unmet.Keys| == 3;
    assert |F2.unmet| == |F2.unmet.Keys|;
  }
}
