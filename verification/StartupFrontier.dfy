/** The mutable frontier of the service manager, proved against the steps of `Frontier`. */
module StartupFrontier {
  import opened Common
  import opened Paths
  import opened DependencyGraph
  import opened Countdown
  import opened Frontier

  // ---------- the blocking search ----------

  /** `x` was blocked before the search or must be blocked by it. */
  ghost predicate MayBlock(g: Graph, s: Service, B: set<Service>, x: Service) {
    x in B || x in NewlyBlocked(g, s, B)
  }

  /** Between two pops: only what must be blocked has been, and nothing has been forgotten. */
  ghost predicate SearchInv(g: Graph, s: Service, B: set<Service>, blocked: set<Service>, queue: set<Service>) {
    && B <= blocked
    && (forall x :: x in blocked || x in queue ==> MayBlock(g, s, B, x))
    && (forall y :: y == s || (y in blocked && y !in B) ==> HardDependents(g, y) <= blocked + queue)
  }

  lemma RequirerMayBlock(g: Graph, s: Service, B: set<Service>, y: Service, x: Service)
    requires g.Valid() && x in HardDependents(g, y) && (y == s || y in NewlyBlocked(g, s, B))
    ensures MayBlock(g, s, B, x)
  {
    hide NewlyBlocked;
    if x !in B {
      if y == s {
        PathBlocks(g, s, B, [x, s]);
      } else {
        var p := BlockingPath(g, s, B, y);
        PathBlocks(g, s, B, [x] + p);
      }
    }
  }

  lemma BlockingPath(g: Graph, s: Service, B: set<Service>, y: Service) returns (p: seq<Service>)
    requires y in NewlyBlocked(g, s, B)
    ensures PathAvoiding(g, p, y, s, B)
  {
    p :| PathAvoiding(g, p, y, s, B);
  }

  lemma PathBlocks(g: Graph, s: Service, B: set<Service>, p: seq<Service>)
    requires p != [] && PathAvoiding(g, p, p[0], s, B) && p[0] in g.services
    ensures p[0] in NewlyBlocked(g, s, B)
  {
  }

  lemma SearchStart(g: Graph, s: Service, B: set<Service>)
    requires g.Valid()
    ensures SearchInv(g, s, B, B, HardDependents(g, s))
  {
    hide NewlyBlocked;
    forall x | x in HardDependents(g, s) ensures MayBlock(g, s, B, x) {
      RequirerMayBlock(g, s, B, s, x);
    }
  }

  lemma SearchStep(g: Graph, s: Service, B: set<Service>, blocked: set<Service>, queue: set<Service>, svc: Service)
    requires g.Valid() && SearchInv(g, s, B, blocked, queue + {svc}) && svc !in blocked
    ensures SearchInv(g, s, B, blocked + {svc}, queue + (HardDependents(g, svc) - (blocked + {svc})))
  {
    hide NewlyBlocked, HardDependents;
    assert MayBlock(g, s, B, svc);
    forall x | x in HardDependents(g, svc) ensures MayBlock(g, s, B, x) {
      RequirerMayBlock(g, s, B, svc, x);
    }
  }

  lemma SearchEnd(g: Graph, s: Service, B: set<Service>, blocked: set<Service>)
    requires g.Valid() && SearchInv(g, s, B, blocked, {})
    ensures blocked == B + NewlyBlocked(g, s, B)
  {
    forall x | x in NewlyBlocked(g, s, B) ensures x in blocked {
      var p := BlockingPath(g, s, B, x);
      SearchReaches(g, s, B, blocked, p, 0);
    }
    assert forall x :: x in blocked ==> MayBlock(g, s, B, x);
  }

  lemma {:induction false} SearchReaches(g: Graph, s: Service, B: set<Service>, blocked: set<Service>, p: seq<Service>, i: nat)
    requires g.Valid() && SearchInv(g, s, B, blocked, {}) && i < |p| - 1 && PathAvoiding(g, p, p[0], s, B)
    ensures p[i] in blocked
    decreases |p| - i
  {
    hide NewlyBlocked;
    if i + 1 < |p| - 1 {
      SearchReaches(g, s, B, blocked, p, i + 1);
    }
    assert p[i] in HardDependents(g, p[i + 1]);
  }

  lemma NewlyBlockedOutside(g: Graph, s: Service, B: set<Service>)
    ensures NewlyBlocked(g, s, B) !! B
  {
    forall x | x in NewlyBlocked(g, s, B) ensures x !in B {
      var p := BlockingPath(g, s, B, x);
      assert p[0] !in B;
    }
  }

  class StartupFrontier {
    var unmet: map<Service, nat>
    var readyToStart: seq<Service>
    var ready: set<Service>
    var pending: set<Service>
    var blocked: set<Service>
    var completed: set<Service>

    function Snapshot(): State reads this {
      State(unmet, readyToStart, ready, pending, blocked, completed)
    }

    constructor (g: Graph)
      requires g.Valid()
      ensures Init(g, Snapshot())
    {
      var counts: map<Service, nat> := map s | s in g.services :: |g.DependenciesOf(s)|;
      var queue := Sources(counts);
      unmet, readyToStart := counts, queue;
      ready, pending, blocked, completed := {}, {}, {}, {};
    }

    method TakeReady() returns (batch: seq<Service>)
      modifies this
      ensures TakeStep(old(Snapshot()), batch, Snapshot())
    {
      batch := readyToStart;
      readyToStart := [];
      for i := 0 to |batch|
        invariant pending == old(pending) + Elements(batch[..i])
        invariant Snapshot() == old(Snapshot()).(queue := [], pending := pending)
      {
        pending := pending + {batch[i]};
        assert batch[..i + 1] == batch[..i] + [batch[i]];
      }
      assert batch[..|batch|] == batch;
    }

    method MarkReady(service: Service, g: Graph)
      requires g.Valid()
      modifies this
      ensures ReadyStep(g, old(Snapshot()), service, Snapshot())
    {
      pending := pending - {service};
      ready := ready + {service};
      completed := completed + {service};
      unmet, readyToStart := Lower(unmet, readyToStart, g.DependentsOf(service) - blocked, completed + pending);
    }

    method MarkFailed(service: Service, g: Graph)
      requires g.Valid()
      modifies this
      ensures FailStep(g, old(Snapshot()), service, Snapshot())
    {
      hide NewlyBlocked, Zeroed, Lowered, Distinct, HardDependents;
      pending := pending - {service};
      completed := completed + {service};
      var hard := HardDependents(g, service);
      unmet, readyToStart := Lower(unmet, readyToStart, g.DependentsOf(service) - hard, completed + pending + blocked);
      BlockTransitively(service, hard, g);
    }

    /** Block breadth-first everything that requires the failed service. */
    method BlockTransitively(service: Service, hard: set<Service>, g: Graph)
      requires g.Valid() && hard == HardDependents(g, service)
      modifies this`blocked, this`completed
      ensures blocked == old(blocked) + NewlyBlocked(g, service, old(blocked))
      ensures completed == old(completed) + NewlyBlocked(g, service, old(blocked))
    {
      hide NewlyBlocked, HardDependents;
      ghost var B := blocked;
      var toBlock := Enumerate(hard);
      SearchStart(g, service, B);
      ghost var added := {};
      while toBlock != []
        invariant SearchInv(g, service, B, blocked, Elements(toBlock))
        invariant blocked == B + added && completed == old(completed) + added && added !! B
        decreases g.services - blocked, |toBlock|
      {
        var svc := toBlock[0];
        ghost var rest := Elements(toBlock[1..]);
        assert Elements(toBlock) == rest + {svc};
        toBlock := toBlock[1..];
        if svc !in blocked {
          SearchStep(g, service, B, blocked, rest, svc);
          assert svc in g.services by { assert MayBlock(g, service, B, svc); NewlyBlockedInServices(g, service, B); }
          blocked, completed, added := blocked + {svc}, completed + {svc}, added + {svc};
          var more := Enumerate(HardDependents(g, svc) - blocked);
          assert Elements(toBlock + more) == rest + Elements(more);
          toBlock := toBlock + more;
        } else {
          assert blocked + rest == blocked + (rest + {svc});
        }
      }
      SearchEnd(g, service, B, blocked) by { assert Elements(toBlock) == {}; }
      NewlyBlockedOutside(g, service, B);
      assert added == blocked - B == NewlyBlocked(g, service, B);
    }
  }
}
