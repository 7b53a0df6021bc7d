/** Which mark a started service ends up with, said by the reports of the turns alone. */
module BootMarks {
  import opened Paths
  import opened BootBooks

  // ---------- reports about one service ----------

  /** The first of `exits` that is `s`'s has the result `ok`. */
  ghost predicate FirstExitIn(exits: seq<(Service, bool)>, s: Service, ok: bool) {
    exists k :: 0 <= k < |exits| && exits[k] == (s, ok) && forall h :: 0 <= h < k ==> exits[h].0 != s
  }

  /** `s` exits in none of the turns after `j` and before `n`. */
  ghost predicate NoExit(ticks: seq<Tick>, j: nat, n: nat, s: Service)
    requires n <= |ticks|
  {
    forall i, ok :: j < i < n ==> (s, ok) !in ticks[i].exits
  }

  /** The first exit of `s` after turn `j` and before turn `n` has the result `ok`. */
  ghost predicate Exits(ticks: seq<Tick>, j: nat, n: nat, s: Service, ok: bool)
    requires n <= |ticks|
  {
    exists i :: j < i < n && NoExit(ticks, j, i, s) && FirstExitIn(ticks[i].exits, s, ok)
  }

  /** The probe of `s` gives no answer from turn `j` on and before turn `n`. */
  ghost predicate NoAnswer(ticks: seq<Tick>, j: nat, n: nat, s: Service)
    requires n <= |ticks|
  {
    forall i :: j <= i < n ==> s !in ticks[i].probes || ticks[i].probes[s] == NotReady
  }

  /** The first answer of the probe of `s` from turn `j` on and before turn `n` is that it is ready, or is a failure. */
  ghost predicate Answers(ticks: seq<Tick>, j: nat, n: nat, s: Service, ok: bool)
    requires n <= |ticks|
  {
    exists i :: j <= i < n && NoAnswer(ticks, j, i, s) && s in ticks[i].probes
                && ticks[i].probes[s] != NotReady && (ok <==> ticks[i].probes[s] == IsReady)
  }

  // ---------- the marks ----------

  /** Where `s` stands in the books after turn `n - 1`, given that turn `j` started it. */
  ghost predicate StandsAt(b: Book, kind: Kind, ticks: seq<Tick>, j: nat, n: nat, s: Service)
    requires n <= |ticks|
  {
    match kind
    case Immediate => s in b.ready && s !in b.failed && s !in b.oneshots && s !in b.trackers
    case Oneshot =>
      && (s in b.oneshots <==> NoExit(ticks, j, n, s)) && s !in b.trackers
      && (s in b.ready <==> Exits(ticks, j, n, s, true)) && (s in b.failed <==> Exits(ticks, j, n, s, false))
    case Probed =>
      && (s in b.trackers <==> NoAnswer(ticks, j, n, s)) && s !in b.oneshots
      && (s in b.ready <==> Answers(ticks, j, n, s, true)) && (s in b.failed <==> Answers(ticks, j, n, s, false))
  }

  ghost predicate Absent(b: Book, s: Service) {
    s !in b.oneshots && s !in b.trackers && s !in b.ready && s !in b.failed && s !in b.unspawned
  }

  lemma {:induction false} FirstExitsExactly(oneshots: set<Service>, exits: seq<(Service, bool)>, s: Service, ok: bool)
    ensures s in FirstExits(oneshots, exits, ok) <==> s in oneshots && FirstExitIn(exits, s, ok)
  {
    if exits != [] {
      var n := |exits| - 1;
      FirstExitsExactly(oneshots, exits[..n], s, ok);
      FirstExitSnoc(exits, s, ok);
    }
  }

  lemma FirstExitSnoc(exits: seq<(Service, bool)>, s: Service, ok: bool)
    requires exits != []
    ensures var n := |exits| - 1;
            FirstExitIn(exits, s, ok) <==>
            FirstExitIn(exits[..n], s, ok) || (exits[n] == (s, ok) && s !in Exited(exits[..n]))
  {
    var n := |exits| - 1;
    var init := exits[..n];
    forall h | 0 <= h < n ensures init[h] == exits[h] && init[h].0 in Exited(init) {}
    if FirstExitIn(init, s, ok) {
      var k :| 0 <= k < n && init[k] == (s, ok) && forall h :: 0 <= h < k ==> init[h].0 != s;
      assert exits[k] == (s, ok) && forall h :: 0 <= h < k ==> exits[h].0 != s;
    }
    if exits[n] == (s, ok) && s !in Exited(init) {
      assert forall h :: 0 <= h < n ==> exits[h].0 != s;
    }
    if FirstExitIn(exits, s, ok) {
      var k :| 0 <= k < |exits| && exits[k] == (s, ok) && forall h :: 0 <= h < k ==> exits[h].0 != s;
      if k < n {
        assert init[k] == (s, ok) && forall h :: 0 <= h < k ==> init[h].0 != s;
      }
    }
  }

  /** A service exits exactly when one of the results is its first. */
  lemma ExitedExactly(exits: seq<(Service, bool)>, s: Service)
    ensures s in Exited(exits) <==> exists ok :: (s, ok) in exits
  {
    forall i | 0 <= i < |exits| ensures (exits[i].0, exits[i].1) in exits {}
    if exists ok :: (s, ok) in exits {
      var ok :| (s, ok) in exits;
      var i :| 0 <= i < |exits| && exits[i] == (s, ok);
      assert exits[i].0 in Exited(exits);
    }
  }

  /** Nothing is noted about a service that no turn started. */
  lemma {:induction false} NeverStarted(tree: map<Service, Kind>, ticks: seq<Tick>, batches: seq<seq<Service>>, s: Service)
    requires |batches| <= |ticks| && forall i :: 0 <= i < |batches| ==> s !in batches[i]
    ensures Absent(Books(tree, ticks, batches), s)
  {
    if batches != [] {
      hide FirstExits, Exited;
      var n := |batches| - 1;
      NeverStarted(tree, ticks, batches[..n], s);
      var b := Books(tree, ticks, batches[..n]);
      FirstExitsExactly(b.oneshots, ticks[n].exits, s, true);
      FirstExitsExactly(b.oneshots, ticks[n].exits, s, false);
    }
  }

  /** The turn that starts `s`. */
  lemma StartStands(tree: map<Service, Kind>, b: Book, ticks: seq<Tick>, j: nat, batch: seq<Service>, s: Service)
    requires j < |ticks| && s in batch && s in tree && Absent(b, s)
    ensures StandsAt(BookTurn(tree, b, ticks[j], batch), tree[s], ticks, j, j + 1, s)
    ensures s in BookTurn(tree, b, ticks[j], batch).unspawned <==> s in ticks[j].unspawned
  {
    hide FirstExits, Exited;
    FirstExitsExactly(b.oneshots, ticks[j].exits, s, true);
    FirstExitsExactly(b.oneshots, ticks[j].exits, s, false);
    if tree[s] == Probed {
      AnswersSnoc(ticks, j, j, s, true);
      AnswersSnoc(ticks, j, j, s, false);
    }
  }

  /** A later turn. */
  lemma LaterStands(tree: map<Service, Kind>, b: Book, ticks: seq<Tick>, j: nat, n: nat, batch: seq<Service>, s: Service)
    requires j < n < |ticks| && s !in batch && s in tree && StandsAt(b, tree[s], ticks, j, n, s)
    ensures StandsAt(BookTurn(tree, b, ticks[n], batch), tree[s], ticks, j, n + 1, s)
    ensures s in BookTurn(tree, b, ticks[n], batch).unspawned <==> s in b.unspawned
  {
    hide FirstExits, Exited, FirstExitIn, NoExit, Exits, NoAnswer, Answers;
    FirstExitsExactly(b.oneshots, ticks[n].exits, s, true);
    FirstExitsExactly(b.oneshots, ticks[n].exits, s, false);
    match tree[s]
    case Immediate =>
    case Oneshot =>
      NoExitSnoc(ticks, j, n, s);
      ExitsSnoc(ticks, j, n, s, true);
      ExitsSnoc(ticks, j, n, s, false);
    case Probed =>
      AnswersSnoc(ticks, j, n, s, true);
      AnswersSnoc(ticks, j, n, s, false);
  }

  lemma NoExitSnoc(ticks: seq<Tick>, j: nat, n: nat, s: Service)
    requires j < n < |ticks|
    ensures NoExit(ticks, j, n + 1, s) <==> NoExit(ticks, j, n, s) && s !in Exited(ticks[n].exits)
  {
    hide Exited;
    ExitedExactly(ticks[n].exits, s);
  }

  lemma ExitsSnoc(ticks: seq<Tick>, j: nat, n: nat, s: Service, ok: bool)
    requires j < n < |ticks|
    ensures Exits(ticks, j, n + 1, s, ok) <==>
            Exits(ticks, j, n, s, ok) || (NoExit(ticks, j, n, s) && FirstExitIn(ticks[n].exits, s, ok))
  {
    hide NoExit, FirstExitIn;
  }

  lemma AnswersSnoc(ticks: seq<Tick>, j: nat, n: nat, s: Service, ok: bool)
    requires j <= n < |ticks|
    ensures var a := ProbeOf(ticks[n].probes, s);
            && (NoAnswer(ticks, j, n + 1, s) <==> NoAnswer(ticks, j, n, s) && a == NotReady)
            && (Answers(ticks, j, n + 1, s, ok) <==>
                Answers(ticks, j, n, s, ok) ||
                (NoAnswer(ticks, j, n, s) && a in (if ok then {IsReady} else {TimedOut, ProbeFailed})))
  {
  }

  /** A service started in turn `j` and only there is ready at once when nothing can be waited for; a oneshot is ready or
      failed as its first exit in a later turn says, a probed worker as its first answer from its own turn on says; and
      until then it is awaited. */
  lemma {:induction false} MarkedExactly(tree: map<Service, Kind>, ticks: seq<Tick>, batches: seq<seq<Service>>, j: nat, s: Service)
    requires j < |batches| <= |ticks| && s in tree && s in batches[j]
    requires forall i :: 0 <= i < |batches| && i != j ==> s !in batches[i]
    ensures StandsAt(Books(tree, ticks, batches), tree[s], ticks, j, |batches|, s)
    ensures s in Books(tree, ticks, batches).unspawned <==> s in ticks[j].unspawned
  {
    hide StandsAt, BookTurn, Absent;
    var n := |batches| - 1;
    if j == n {
      NeverStarted(tree, ticks, batches[..n], s);
      StartStands(tree, Books(tree, ticks, batches[..n]), ticks, j, batches[n], s);
    } else {
      MarkedExactly(tree, ticks, batches[..n], j, s);
      LaterStands(tree, Books(tree, ticks, batches[..n]), ticks, j, n, batches[n], s);
    }
  }
}
