/** The dependency-counter loop that the startup frontier and the shutdown order share. */
module Countdown {
  import opened Common
  import opened Paths

  /** `saturating_sub(1)` on an unsigned counter. */
  function Pred(n: nat): nat { if n == 0 then 0 else n - 1 }

  /** `counts` with the counters of `targets` lowered; services without a counter are ignored. */
  function Lowered(counts: map<Service, nat>, targets: set<Service>): map<Service, nat> {
    map s | s in counts :: if s in targets then Pred(counts[s]) else counts[s]
  }

  /** The targets whose counter reads zero after lowering and that are not barred from the queue. */
  function Zeroed(counts: map<Service, nat>, targets: set<Service>, barred: set<Service>): set<Service> {
    set s | s in targets && s in counts && Pred(counts[s]) == 0 && s !in barred
  }

  /** Lower each target once, in some order, queueing those that reach zero. */
  method Lower(counts0: map<Service, nat>, queue0: seq<Service>, targets: set<Service>, barred: set<Service>)
    returns (counts: map<Service, nat>, queue: seq<Service>)
    ensures counts == Lowered(counts0, targets)
    ensures queue0 <= queue
    ensures Distinct(queue[|queue0|..]) && Elements(queue[|queue0|..]) == Zeroed(counts0, targets, barred)
  {
    counts, queue := counts0, queue0;
    var added: seq<Service>, todo := [], targets;
    while todo != {}
      invariant todo <= targets && queue == queue0 + added
      invariant counts.Keys == counts0.Keys
      invariant forall s :: s in counts ==>
        counts[s] == if s in targets && s !in todo then Pred(counts0[s]) else counts0[s]
      invariant Distinct(added) && Elements(added) == Zeroed(counts0, targets - todo, barred)
      decreases todo
    {
      var s :| s in todo;
      if s in counts {
        counts := counts[s := Pred(counts[s])];
        if counts[s] == 0 && s !in barred {
          assert s !in Elements(added);
          DistinctSnoc(added, s);
          queue, added := queue + [s], added + [s];
        }
      }
      todo := todo - {s};
    }
    assert queue[|queue0|..] == added && targets - todo == targets;
  }

  /** The members of a hash set in whatever order iteration yields them. */
  method Enumerate(members: set<Service>) returns (list: seq<Service>)
    ensures Distinct(list) && Elements(list) == members
  {
    list := [];
    var todo := members;
    while todo != {}
      invariant todo <= members && Distinct(list) && Elements(list) == members - todo
      decreases todo
    {
      var s :| s in todo;
      DistinctSnoc(list, s);
      list, todo := list + [s], todo - {s};
    }
  }

  /** The services whose counter is zero from the start, in some order. */
  method Sources(counts: map<Service, nat>) returns (queue: seq<Service>)
    ensures Distinct(queue) && Elements(queue) == set s | s in counts && counts[s] == 0
  {
    queue := [];
    var todo := counts.Keys;
    while todo != {}
      invariant todo <= counts.Keys && Distinct(queue)
      invariant Elements(queue) == set s | s in counts && s !in todo && counts[s] == 0
      decreases todo
    {
      var s :| s in todo;
      if counts[s] == 0 {
        assert s !in Elements(queue);
        DistinctSnoc(queue, s);
        queue := queue + [s];
      }
      todo := todo - {s};
    }
  }
}
