/** What a boot notes down turn by turn, as a function of what the system reports and of what was started. */
module BootBooks {
  import opened Paths
  import opened Frontier
  import opened FrontierRuns

  /** How a worker in the supervisor tree reports readiness. */
  datatype Kind = Oneshot | Immediate | Probed

  datatype Probe = IsReady | NotReady | TimedOut | ProbeFailed

  /** What one turn of the loop learns from the system: exits reaped (with success), the services whose spawn fails if
      they are started in this turn, and probe results. */
  datatype Tick = Tick(exits: seq<(Service, bool)>, unspawned: set<Service>, probes: map<Service, Probe>)

  // ---------- exits ----------

  function Marking(s: Service, ok: bool): Event { if ok then Ready(s) else Fail(s) }

  function Exited(exits: seq<(Service, bool)>): set<Service> { set i | 0 <= i < |exits| :: exits[i].0 }

  /** The last exit is the first one of an awaited oneshot. */
  predicate FirstOf(oneshots: set<Service>, exits: seq<(Service, bool)>)
    requires exits != []
  {
    exits[|exits| - 1].0 in oneshots && exits[|exits| - 1].0 !in Exited(exits[..|exits| - 1])
  }

  /** The marks a series of exits leads to: the first exit of each oneshot counts, nothing else does. */
  function Reaps(oneshots: set<Service>, exits: seq<(Service, bool)>): seq<Event> {
    if exits == [] then [] else
    var n := |exits| - 1;
    Reaps(oneshots, exits[..n]) + if FirstOf(oneshots, exits) then [Marking(exits[n].0, exits[n].1)] else []
  }

  /** The exits that are none of the startup loop's business and go to supervision, in order. */
  function Others(oneshots: set<Service>, exits: seq<(Service, bool)>): seq<(Service, bool)> {
    if exits == [] then [] else
    Others(oneshots, exits[..|exits| - 1]) + if FirstOf(oneshots, exits) then [] else [exits[|exits| - 1]]
  }

  /** The oneshots whose first exit has the result `ok`. */
  function FirstExits(oneshots: set<Service>, exits: seq<(Service, bool)>, ok: bool): set<Service> {
    if exits == [] then {} else
    var n := |exits| - 1;
    FirstExits(oneshots, exits[..n], ok) + if FirstOf(oneshots, exits) && exits[n].1 == ok then {exits[n].0} else {}
  }

  lemma ExitedSnoc(exits: seq<(Service, bool)>)
    requires exits != []
    ensures Exited(exits) == Exited(exits[..|exits| - 1]) + {exits[|exits| - 1].0}
  {
    var init := exits[..|exits| - 1];
    forall i | 0 <= i < |init| ensures exits[i].0 in Exited(exits) && init[i] == exits[i] {}
    assert exits[|exits| - 1].0 in Exited(exits);
    forall x | x in Exited(exits) ensures x in Exited(init) + {exits[|exits| - 1].0} {
      var i :| 0 <= i < |exits| && x == exits[i].0;
      if i < |init| { assert init[i].0 in Exited(init); }
    }
  }

  /** Every awaited oneshot that exits has a first exit, and nobody else has. */
  lemma {:induction false} FirstExitsCover(oneshots: set<Service>, exits: seq<(Service, bool)>)
    ensures FirstExits(oneshots, exits, true) + FirstExits(oneshots, exits, false) == oneshots * Exited(exits)
  {
    hide Exited;
    if exits == [] {
      NoExits();
    } else {
      var init, last := exits[..|exits| - 1], exits[|exits| - 1];
      FirstExitsCover(oneshots, init);
      ExitedSnoc(exits);
      var new_ := if FirstOf(oneshots, exits) then {last.0} else {};
      assert FirstExits(oneshots, exits, last.1) == FirstExits(oneshots, init, last.1) + new_;
      assert FirstExits(oneshots, exits, !last.1) == FirstExits(oneshots, init, !last.1);
      assert oneshots * Exited(exits) == oneshots * Exited(init) + new_;
    }
  }

  lemma NoExits()
    ensures Exited([]) == {}
  {
  }

  /** A failed first exit is among the exits. */
  lemma {:induction false} FirstExitOccurs(oneshots: set<Service>, exits: seq<(Service, bool)>, ok: bool, s: Service)
    requires s in FirstExits(oneshots, exits, ok)
    ensures (s, ok) in exits
  {
    hide FirstOf;
    var n := |exits| - 1;
    if s in FirstExits(oneshots, exits[..n], ok) {
      FirstExitOccurs(oneshots, exits[..n], ok, s);
    } else {
      assert exits[n] == (s, ok);
    }
  }

  lemma {:induction false} ReapsMark(es: seq<Event>, oneshots: set<Service>, exits: seq<(Service, bool)>)
    ensures var all := es + Reaps(oneshots, exits);
            && Started(all) == Started(es)
            && MarkedReady(all) == MarkedReady(es) + FirstExits(oneshots, exits, true)
            && MarkedFailed(all) == MarkedFailed(es) + FirstExits(oneshots, exits, false)
  {
    hide Started, MarkedReady, MarkedFailed, FirstOf;
    if exits == [] {
      assert es + [] == es;
    } else {
      var n := |exits| - 1;
      ReapsMark(es, oneshots, exits[..n]);
      var before := Reaps(oneshots, exits[..n]);
      if FirstOf(oneshots, exits) {
        var e := Marking(exits[n].0, exits[n].1);
        assert es + Reaps(oneshots, exits) == es + before + [e];
        MarksSnoc(es + before, e);
      } else {
        assert Reaps(oneshots, exits) == before;
      }
    }
  }

  // ---------- every exit is accounted for ----------

  /** The service of exit `i` was not awaited, or had already exited before. */
  predicate Passed(oneshots: set<Service>, exits: seq<(Service, bool)>, i: nat)
    requires i < |exits|
  {
    exits[i].0 !in oneshots || exists j :: 0 <= j < i && exits[j].0 == exits[i].0
  }

  ghost predicate Ascending(at: seq<nat>) { forall k, l :: 0 <= k < l < |at| ==> at[k] < at[l] }

  /** `at` are, in order, exactly the positions of the exits that are passed on, or of the others. */
  ghost predicate Positions(oneshots: set<Service>, exits: seq<(Service, bool)>, at: seq<nat>, passed: bool) {
    && Ascending(at) && (forall k :: 0 <= k < |at| ==> at[k] < |exits|)
    && (forall i :: 0 <= i < |exits| ==> (i in at <==> Passed(oneshots, exits, i) == passed))
  }

  lemma LastPassed(oneshots: set<Service>, exits: seq<(Service, bool)>)
    requires exits != []
    ensures FirstOf(oneshots, exits) <==> !Passed(oneshots, exits, |exits| - 1)
  {
    var n := |exits| - 1;
    forall j | 0 <= j < n && exits[j].0 == exits[n].0 ensures exits[n].0 in Exited(exits[..n]) {
      assert exits[..n][j] == exits[j];
    }
    if exits[n].0 in Exited(exits[..n]) {
      var j :| 0 <= j < n && exits[..n][j].0 == exits[n].0;
      assert exits[j].0 == exits[n].0;
    }
  }

  lemma PositionsSnoc(oneshots: set<Service>, exits: seq<(Service, bool)>, at: seq<nat>, passed: bool)
    requires exits != [] && Positions(oneshots, exits[..|exits| - 1], at, passed)
    ensures var n := |exits| - 1;
            Positions(oneshots, exits, if Passed(oneshots, exits, n) == passed then at + [n] else at, passed)
  {
    hide Passed;
    var n := |exits| - 1;
    forall i | 0 <= i < n ensures Passed(oneshots, exits[..n], i) == Passed(oneshots, exits, i) {
      PassedStays(oneshots, exits, n, i);
    }
    forall k | 0 <= k < |at| ensures at[k] in at && at[k] < n {}
  }

  lemma PassedStays(oneshots: set<Service>, exits: seq<(Service, bool)>, n: nat, i: nat)
    requires i < n <= |exits|
    ensures Passed(oneshots, exits[..n], i) == Passed(oneshots, exits, i)
  {
    assert forall j :: 0 <= j < n ==> exits[..n][j] == exits[j];
    if Passed(oneshots, exits, i) && exits[i].0 in oneshots {
      var j :| 0 <= j < i && exits[j].0 == exits[i].0;
      assert exits[..n][j].0 == exits[..n][i].0;
    }
  }

  /** Handed on are exactly the exits of services not awaited and the repeated ones, in order. */
  lemma {:induction false} OthersExactly(oneshots: set<Service>, exits: seq<(Service, bool)>) returns (at: seq<nat>)
    ensures Positions(oneshots, exits, at, true)
    ensures |Others(oneshots, exits)| == |at|
    ensures forall k :: 0 <= k < |at| ==> Others(oneshots, exits)[k] == exits[at[k]]
  {
    hide FirstOf, Passed, Ascending;
    if exits == [] {
      at := [];
      NoPositions(oneshots, true);
    } else {
      var n := |exits| - 1;
      var before := OthersExactly(oneshots, exits[..n]);
      LastPassed(oneshots, exits);
      PositionsSnoc(oneshots, exits, before, true);
      at := if Passed(oneshots, exits, n) then before + [n] else before;
      assert forall k :: 0 <= k < |before| ==> exits[..n][before[k]] == exits[before[k]];
    }
  }

  /** Marked are exactly the first exits of the awaited services, in order, ready after success and failed otherwise. */
  lemma {:induction false} ReapsExactly(oneshots: set<Service>, exits: seq<(Service, bool)>) returns (at: seq<nat>)
    ensures Positions(oneshots, exits, at, false)
    ensures |Reaps(oneshots, exits)| == |at|
    ensures forall k :: 0 <= k < |at| ==> Reports(Reaps(oneshots, exits)[k], exits[at[k]])
  {
    hide FirstOf, Passed, Ascending, Reports;
    if exits == [] {
      at := [];
      NoPositions(oneshots, false);
    } else {
      var n := |exits| - 1;
      var before := ReapsExactly(oneshots, exits[..n]);
      LastPassed(oneshots, exits);
      PositionsSnoc(oneshots, exits, before, false);
      at := if Passed(oneshots, exits, n) then before else before + [n];
      MarkReports(exits[n].0, exits[n].1);
      var marks := Reaps(oneshots, exits[..n]);
      var mark := [Marking(exits[n].0, exits[n].1)];
      assert Reaps(oneshots, exits) == if Passed(oneshots, exits, n) then marks else marks + mark;
      forall k | 0 <= k < |before| ensures Reports(marks[k], exits[before[k]]) {
        assert exits[..n][before[k]] == exits[before[k]];
      }
    }
  }

  /** The mark that an exit stands for. */
  predicate Reports(e: Event, x: (Service, bool)) { e == if x.1 then Ready(x.0) else Fail(x.0) }

  lemma MarkReports(s: Service, ok: bool)
    ensures Reports(Marking(s, ok), (s, ok))
  {
  }

  lemma NoPositions(oneshots: set<Service>, passed: bool)
    ensures Positions(oneshots, [], [], passed)
  {
  }

  /** The exit a mark was made for. */
  function ExitOf(e: Event): (Service, bool)
    requires !e.Take?
  {
    (e.s, e.Ready?)
  }

  predicate OnlyMarks(es: seq<Event>) { forall k :: 0 <= k < |es| ==> !es[k].Take? }

  function ExitsOf(es: seq<Event>): seq<(Service, bool)>
    requires OnlyMarks(es)
  {
    if es == [] then [] else ExitsOf(es[..|es| - 1]) + [ExitOf(es[|es| - 1])]
  }

  /** Marks and handed-on exits together are all the exits, each once. */
  lemma {:induction false} ExitsAccounted(oneshots: set<Service>, exits: seq<(Service, bool)>)
    ensures OnlyMarks(Reaps(oneshots, exits))
    ensures multiset(exits) == multiset(ExitsOf(Reaps(oneshots, exits))) + multiset(Others(oneshots, exits))
  {
    hide FirstOf, ExitsOf;
    if exits == [] {
      NothingMarked();
    } else {
      hide OnlyMarks, Marking;
      var n := |exits| - 1;
      ExitsAccounted(oneshots, exits[..n]);
      assert exits == exits[..n] + [exits[n]];
      var before := Reaps(oneshots, exits[..n]);
      if FirstOf(oneshots, exits) {
        MarkedSnoc(before, exits[n].0, exits[n].1);
        assert Reaps(oneshots, exits) == before + [Marking(exits[n].0, exits[n].1)];
        assert Others(oneshots, exits) == Others(oneshots, exits[..n]);
        assert multiset(ExitsOf(before) + [exits[n]]) == multiset(ExitsOf(before)) + multiset{exits[n]};
      } else {
        assert Reaps(oneshots, exits) == before;
      }
      assert multiset(exits[..n] + [exits[n]]) == multiset(exits[..n]) + multiset{exits[n]};
    }
  }

  lemma MarkedSnoc(es: seq<Event>, s: Service, ok: bool)
    requires OnlyMarks(es)
    ensures OnlyMarks(es + [Marking(s, ok)]) && ExitsOf(es + [Marking(s, ok)]) == ExitsOf(es) + [(s, ok)]
  {
    assert (es + [Marking(s, ok)])[..|es|] == es;
  }

  lemma NothingMarked()
    ensures OnlyMarks([]) && ExitsOf([]) == []
  {
  }

  // ---------- the batch just started ----------

  function MarkIfImmediate(tree: map<Service, Kind>, s: Service): seq<Event> {
    if s in tree && tree[s] == Immediate then [Ready(s)] else []
  }

  /** Services without a readiness check are marked as soon as they are started. */
  function Immediates(tree: map<Service, Kind>, batch: seq<Service>): seq<Event> {
    if batch == [] then [] else
    var n := |batch| - 1;
    Immediates(tree, batch[..n]) + MarkIfImmediate(tree, batch[n])
  }

  function OfKind(tree: map<Service, Kind>, batch: seq<Service>, kind: Kind): set<Service> {
    set s | s in batch && s in tree && tree[s] == kind
  }

  /** The services of the batch whose spawn failed; only workers are spawned. */
  function FailedSpawns(tree: map<Service, Kind>, batch: seq<Service>, unspawned: set<Service>): set<Service> {
    set s | s in batch && s in tree && s in unspawned
  }

  lemma OfKindSnoc(tree: map<Service, Kind>, batch: seq<Service>, s: Service)
    ensures forall kind :: OfKind(tree, batch + [s], kind) == OfKind(tree, batch, kind) + OfKind(tree, [s], kind)
    ensures forall u :: FailedSpawns(tree, batch + [s], u) == FailedSpawns(tree, batch, u) + FailedSpawns(tree, [s], u)
  {
  }

  lemma NothingTracked(tree: map<Service, Kind>, unspawned: set<Service>)
    ensures Immediates(tree, []) == [] && FailedSpawns(tree, [], unspawned) == {}
    ensures forall kind :: OfKind(tree, [], kind) == {}
  {
  }

  lemma {:induction false} ImmediatesMark(es: seq<Event>, tree: map<Service, Kind>, batch: seq<Service>)
    ensures var all := es + Immediates(tree, batch);
            && Started(all) == Started(es) && MarkedFailed(all) == MarkedFailed(es)
            && MarkedReady(all) == MarkedReady(es) + OfKind(tree, batch, Immediate)
  {
    hide Started, MarkedReady, MarkedFailed, OfKind;
    if batch == [] {
      NothingTracked(tree, {});
      assert es + [] == es;
    } else {
      var n := |batch| - 1;
      ImmediatesMark(es, tree, batch[..n]);
      assert batch == batch[..n] + [batch[n]];
      OfKindSnoc(tree, batch[..n], batch[n]);
      OneImmediate(tree, batch[n]);
      var before := Immediates(tree, batch[..n]);
      if batch[n] in tree && tree[batch[n]] == Immediate {
        assert es + Immediates(tree, batch) == es + before + [Ready(batch[n])];
        MarksSnoc(es + before, Ready(batch[n]));
      } else {
        assert Immediates(tree, batch) == before;
      }
    }
  }

  lemma OneImmediate(tree: map<Service, Kind>, s: Service)
    ensures OfKind(tree, [s], Immediate) == if s in tree && tree[s] == Immediate then {s} else {}
  {
  }

  lemma BatchMarks(es: seq<Event>, tree: map<Service, Kind>, batch: seq<Service>)
    ensures var all := es + [Take(batch)] + Immediates(tree, batch);
            && Started(all) == Started(es) + batch && MarkedFailed(all) == MarkedFailed(es)
            && MarkedReady(all) == MarkedReady(es) + OfKind(tree, batch, Immediate)
  {
    hide Started, MarkedReady, MarkedFailed, Immediates, OfKind;
    ImmediatesMark(es + [Take(batch)], tree, batch);
    MarksSnoc(es, Take(batch));
  }

  // ---------- probes ----------

  function ProbeOf(probes: map<Service, Probe>, s: Service): Probe { if s in probes then probes[s] else NotReady }

  /** The services whose probe gives one of the results. */
  function Answering(S: set<Service>, probes: map<Service, Probe>, results: set<Probe>): set<Service> {
    set s | s in S && ProbeOf(probes, s) in results
  }

  lemma AnsweringGrows(S: set<Service>, s: Service, probes: map<Service, Probe>, results: set<Probe>)
    ensures Answering(S + {s}, probes, results) ==
            Answering(S, probes, results) + if ProbeOf(probes, s) in results then {s} else {}
  {
  }

  lemma AnsweringWithin(S: set<Service>, probes: map<Service, Probe>, results: set<Probe>)
    ensures Answering(S, probes, results) <= S
  {
  }

  lemma AnsweringNobody(probes: map<Service, Probe>, results: set<Probe>)
    ensures Answering({}, probes, results) == {}
  {
  }

  // ---------- the books ----------

  /** What is awaited, what was marked, and whose spawn failed. */
  datatype Book = Book(
    oneshots: set<Service>, trackers: set<Service>, ready: set<Service>, failed: set<Service>, unspawned: set<Service>)
  {
    function Marked(): set<Service> { ready + failed }
  }

  const BLANK := Book({}, {}, {}, {}, {})

  /** The trackers polled in a turn that starts `batch`. */
  function Polled(tree: map<Service, Kind>, b: Book, batch: seq<Service>): set<Service> {
    b.trackers + OfKind(tree, batch, Probed)
  }

  /** One turn: reap, start the batch, poll. */
  function BookTurn(tree: map<Service, Kind>, b: Book, t: Tick, batch: seq<Service>): Book {
    var polled := Polled(tree, b, batch);
    Book(
      (b.oneshots - Exited(t.exits)) + OfKind(tree, batch, Oneshot),
      Answering(polled, t.probes, {NotReady}),
      b.ready + FirstExits(b.oneshots, t.exits, true) + OfKind(tree, batch, Immediate)
      + Answering(polled, t.probes, {IsReady}),
      b.failed + FirstExits(b.oneshots, t.exits, false) + Answering(polled, t.probes, {TimedOut, ProbeFailed}),
      b.unspawned + FailedSpawns(tree, batch, t.unspawned))
  }

  /** The books after the turns that started `batches`. */
  function Books(tree: map<Service, Kind>, ticks: seq<Tick>, batches: seq<seq<Service>>): Book
    requires |batches| <= |ticks|
  {
    if batches == [] then BLANK else
    var n := |batches| - 1;
    BookTurn(tree, Books(tree, ticks, batches[..n]), ticks[n], batches[n])
  }

  /** Something is awaited in the turn and nobody answers. */
  predicate Silent(tree: map<Service, Kind>, b: Book, t: Tick, batch: seq<Service>) {
    var polled := Polled(tree, b, batch);
    && b.oneshots + polled != {}
    && b.oneshots * Exited(t.exits) == {} && Answering(polled, t.probes, {NotReady}) == polled
  }

  /** Everybody awaited in the turn answers. */
  predicate Prompt(tree: map<Service, Kind>, b: Book, t: Tick, batch: seq<Service>) {
    b.oneshots <= Exited(t.exits) && Answering(Polled(tree, b, batch), t.probes, {NotReady}) == {}
  }

  function SilentTurns(tree: map<Service, Kind>, ticks: seq<Tick>, batches: seq<seq<Service>>): nat
    requires |batches| <= |ticks|
  {
    if batches == [] then 0 else
    var n := |batches| - 1;
    SilentTurns(tree, ticks, batches[..n]) +
    if Silent(tree, Books(tree, ticks, batches[..n]), ticks[n], batches[n]) then 1 else 0
  }

  predicate AlwaysPrompt(tree: map<Service, Kind>, ticks: seq<Tick>, batches: seq<seq<Service>>)
    requires |batches| <= |ticks|
  {
    batches == [] ||
    var n := |batches| - 1;
    && AlwaysPrompt(tree, ticks, batches[..n])
    && Prompt(tree, Books(tree, ticks, batches[..n]), ticks[n], batches[n])
  }

  // ---------- what the books say ----------

  predicate FailsIn(t: Tick, s: Service) {
    (s, false) in t.exits || ProbeOf(t.probes, s) in {TimedOut, ProbeFailed}
  }

  ghost predicate NoFailures(t: Tick) { forall s :: !FailsIn(t, s) }

  /** A service marked failed exited with failure, or failed its probe, in some turn. */
  lemma {:induction false} FailureReported(tree: map<Service, Kind>, ticks: seq<Tick>, batches: seq<seq<Service>>, s: Service)
    requires |batches| <= |ticks| && s in Books(tree, ticks, batches).failed
    ensures exists i :: 0 <= i < |batches| && FailsIn(ticks[i], s)
  {
    hide Exited, ProbeOf;
    var n := |batches| - 1;
    var b := Books(tree, ticks, batches[..n]);
    if s in b.failed {
      FailureReported(tree, ticks, batches[..n], s);
    } else {
      if s in FirstExits(b.oneshots, ticks[n].exits, false) { FirstExitOccurs(b.oneshots, ticks[n].exits, false, s); }
      assert FailsIn(ticks[n], s);
    }
  }

  /** A started oneshot is still awaited until some later turn reports its exit. */
  lemma {:induction false} OneshotAwaited(tree: map<Service, Kind>, ticks: seq<Tick>, batches: seq<seq<Service>>, j: nat, s: Service)
    requires j < |batches| <= |ticks| && s in batches[j] && s in tree && tree[s] == Oneshot
    ensures s in Books(tree, ticks, batches).oneshots || exists i :: j < i < |batches| && s in Exited(ticks[i].exits)
  {
    hide Exited, Answering, FirstExits;
    var n := |batches| - 1;
    if j < n {
      OneshotAwaited(tree, ticks, batches[..n], j, s);
      if s in Books(tree, ticks, batches[..n]).oneshots && s in Exited(ticks[n].exits) { assert j < n < |batches|; }
    }
  }

  /** A started probed worker is still tracked until its probe answers. */
  lemma {:induction false} ProbedAwaited(tree: map<Service, Kind>, ticks: seq<Tick>, batches: seq<seq<Service>>, j: nat, s: Service)
    requires j < |batches| <= |ticks| && s in batches[j] && s in tree && tree[s] == Probed
    ensures s in Books(tree, ticks, batches).trackers ||
            exists i :: j <= i < |batches| && ProbeOf(ticks[i].probes, s) != NotReady
  {
    hide Exited, ProbeOf, FirstExits;
    var n := |batches| - 1;
    if j < n {
      ProbedAwaited(tree, ticks, batches[..n], j, s);
    }
    if ProbeOf(ticks[n].probes, s) != NotReady { assert j <= n < |batches|; }
  }

  /** A service without a readiness check is ready once started, whether or not its spawn succeeded. */
  lemma {:induction false} ImmediateIsReady(tree: map<Service, Kind>, ticks: seq<Tick>, batches: seq<seq<Service>>, j: nat, s: Service)
    requires j < |batches| <= |ticks| && s in batches[j] && s in tree && tree[s] == Immediate
    ensures s in Books(tree, ticks, batches).ready
    ensures s in ticks[j].unspawned ==> s in Books(tree, ticks, batches).unspawned
  {
    hide Exited, Answering, FirstExits;
    if j < |batches| - 1 { ImmediateIsReady(tree, ticks, batches[..|batches| - 1], j, s); }
  }

  /** If something is marked failed, some turn reported a failure. */
  lemma NobodyFails(tree: map<Service, Kind>, ticks: seq<Tick>, batches: seq<seq<Service>>)
    requires |batches| <= |ticks|
    ensures Books(tree, ticks, batches).failed == {} || exists t :: t in ticks && !NoFailures(t)
  {
    hide Books, FailsIn;
    var b := Books(tree, ticks, batches);
    if b.failed != {} {
      var s :| s in b.failed;
      FailureReported(tree, ticks, batches, s);
      var i :| 0 <= i < |batches| && FailsIn(ticks[i], s);
      assert ticks[i] in ticks && !NoFailures(ticks[i]);
    }
  }

  /** With nothing awaited any more, every started oneshot exited in a later turn and every probed worker answered. */
  lemma EverybodyAnswered(tree: map<Service, Kind>, ticks: seq<Tick>, batches: seq<seq<Service>>, j: nat, s: Service)
    requires j < |batches| <= |ticks| && s in batches[j] && s in tree
    requires Books(tree, ticks, batches).oneshots == {} && Books(tree, ticks, batches).trackers == {}
    ensures tree[s] == Oneshot ==> exists i :: j < i < |batches| && s in Exited(ticks[i].exits)
    ensures tree[s] == Probed ==> exists i :: j <= i < |batches| && ProbeOf(ticks[i].probes, s) != NotReady
  {
    hide Books, Exited, ProbeOf;
    if tree[s] == Oneshot { OneshotAwaited(tree, ticks, batches, j, s); }
    if tree[s] == Probed { ProbedAwaited(tree, ticks, batches, j, s); }
  }

  // ---------- progress ----------

  function Concat(batches: seq<seq<Service>>): seq<Service> {
    if batches == [] then [] else Concat(batches[..|batches| - 1]) + batches[|batches| - 1]
  }

  lemma BooksSnoc(tree: map<Service, Kind>, ticks: seq<Tick>, batches: seq<seq<Service>>, batch: seq<Service>)
    requires |batches| < |ticks|
    ensures var n, b, all := |batches|, Books(tree, ticks, batches), batches + [batch];
            && Books(tree, ticks, all) == BookTurn(tree, b, ticks[n], batch)
            && Concat(all) == Concat(batches) + batch
            && SilentTurns(tree, ticks, all) ==
               SilentTurns(tree, ticks, batches) + (if Silent(tree, b, ticks[n], batch) then 1 else 0)
            && (AlwaysPrompt(tree, ticks, all) <==>
                AlwaysPrompt(tree, ticks, batches) && Prompt(tree, b, ticks[n], batch))
  {
    hide BookTurn, Silent, Prompt;
    var all := batches + [batch];
    assert all[..|batches|] == batches && all[|batches|] == batch;
  }

  lemma SubsetBound(a: set<Service>, b: set<Service>)
    requires a <= b
    ensures |a| <= |b| && (a != b ==> |a| < |b|)
  {
    assert b == a + (b - a);
  }

  lemma MarksGrow(tree: map<Service, Kind>, b: Book, t: Tick, batch: seq<Service>)
    ensures b.Marked() <= BookTurn(tree, b, t, batch).Marked()
    ensures |b.Marked()| <= |BookTurn(tree, b, t, batch).Marked()|
  {
    hide FirstExits, Answering, OfKind;
    SubsetBound(b.Marked(), BookTurn(tree, b, t, batch).Marked());
  }

  /** Whoever answers in a turn is marked by it. */
  lemma AnswersAreMarked(tree: map<Service, Kind>, b: Book, t: Tick, batch: seq<Service>)
    ensures b.oneshots * Exited(t.exits) <= BookTurn(tree, b, t, batch).Marked()
    ensures var polled := Polled(tree, b, batch);
            polled - Answering(polled, t.probes, {NotReady}) <= BookTurn(tree, b, t, batch).Marked()
  {
    hide FirstExits, Exited, OfKind, ProbeOf;
    FirstExitsCover(b.oneshots, t.exits);
    var polled := Polled(tree, b, batch);
    forall s | s in polled && s !in Answering(polled, t.probes, {NotReady})
      ensures s in Answering(polled, t.probes, {IsReady}) + Answering(polled, t.probes, {TimedOut, ProbeFailed})
    {
      match ProbeOf(t.probes, s) case IsReady => case NotReady => case TimedOut => case ProbeFailed =>
    }
  }

  /** A turn that starts nothing and is not silent marks somebody, unless nobody was awaited. */
  lemma TurnGains(tree: map<Service, Kind>, b: Book, t: Tick)
    requires b.trackers + b.oneshots !! b.Marked()
    ensures var b' := BookTurn(tree, b, t, []);
            || Silent(tree, b, t, []) || |b'.Marked()| > |b.Marked()|
            || (b'.oneshots == {} && b'.trackers == {} && Polled(tree, b, []) == {})
  {
    hide FirstExits, Exited, OfKind, Answering, Book.Marked;
    NothingTracked(tree, t.unspawned);
    var b' := BookTurn(tree, b, t, []);
    var silent := Answering(b.trackers, t.probes, {NotReady});
    assert Polled(tree, b, []) == b.trackers;
    if b.oneshots + b.trackers == {} {
      assert b.oneshots == {} && b.trackers == {};
      AnsweringNobody(t.probes, {NotReady});
    } else {
      AnsweringWithin(b.trackers, t.probes, {NotReady});
      AnswersAreMarked(tree, b, t, []);
      MarksGrow(tree, b, t, []);
      var answered := (b.oneshots * Exited(t.exits)) + (b.trackers - silent);
      assert answered <= b'.Marked() && answered !! b.Marked();
      if answered != {} {
        var s :| s in answered;
        assert s in b'.Marked() && s !in b.Marked();
        SubsetBound(b.Marked(), b'.Marked());
      }
    }
  }

  /** A prompt turn with no tracker left over leaves none over, and is idle unless it starts something. */
  lemma PromptTurn(tree: map<Service, Kind>, b: Book, t: Tick, batch: seq<Service>)
    ensures var b' := BookTurn(tree, b, t, batch);
            b.trackers == {} && Prompt(tree, b, t, batch) ==>
              b'.trackers == {} && (batch == [] ==> b'.oneshots == {} && Polled(tree, b, batch) == {})
  {
    hide FirstExits, Exited, Answering, OfKind;
    NothingTracked(tree, t.unspawned);
  }
}
