/** What PID 1 does at an event, said by the events before it: requests, shells, spawns and counted lives. */
module CrashHistory {
  import opened Common
  import opened CrashRecovery

  /** An operator signal is waiting for the exit at `k`: it came after the last exit and the last shell. */
  ghost predicate Requested(s0: State, events: seq<Event>, k: nat)
    requires k <= |events|
  {
    exists m: nat :: m < k && Waits(s0, events, m, k)
  }

  ghost predicate Waits(s0: State, events: seq<Event>, m: nat, k: nat)
    requires m < k <= |events|
  {
    events[m].User2? && forall i :: m <= i < k ==> !events[i].Exited? && !ShellAt(s0, events, i)
  }

  /** A service manager was spawned by event `j`: it follows an exit or a shell, and is alive afterwards. */
  predicate SpawnsAt(s0: State, events: seq<Event>, j: nat)
    requires j < |events|
  {
    (events[j].Exited? || ShellAt(s0, events, j)) && After(s0, events[..j + 1]).alive
  }

  function ForkTime(e: Event): int {
    match e
    case Exited(_, _, fork) => if fork.Forked? then fork.time else 0
    case User2(fork) => if fork.Forked? then fork.time else 0
    case ShutdownRequest(_) => 0
  }

  /** When the service manager was last spawned before event `k`. */
  function LifeStart(s0: State, events: seq<Event>, k: nat): int
    requires k <= |events|
  {
    if k == 0 then s0.spawnTime
    else if SpawnsAt(s0, events, k - 1) then ForkTime(events[k - 1])
    else LifeStart(s0, events, k - 1)
  }

  /** The exit at `k` was not asked for and its life has a known start. */
  ghost predicate Counted(s0: State, events: seq<Event>, k: nat)
    requires k < |events|
  {
    events[k].Exited? && !Requested(s0, events, k) && LifeStart(s0, events, k) != 0
  }

  /** The counted lives that ended since the last shell, before event `k`. */
  ghost function LivesBefore(s0: State, events: seq<Event>, k: nat): seq<Life>
    requires k <= |events|
  {
    if k == 0 || ShellAt(s0, events, k - 1) then [] else
    var lives := LivesBefore(s0, events, k - 1);
    if Counted(s0, events, k - 1) then lives + [Life(LifeStart(s0, events, k - 1), events[k - 1].noticed)] else lives
  }

  /** The same with the exit at `k`. */
  ghost function LivesUpTo(s0: State, events: seq<Event>, k: nat): seq<Life>
    requires k < |events| && events[k].Exited?
  {
    LivesBefore(s0, events, k) +
    if Counted(s0, events, k) then [Life(LifeStart(s0, events, k), events[k].noticed)] else []
  }

  /** No life has outlasted a minute between event `m` and event `k`. */
  ghost predicate Unproven(s0: State, events: seq<Event>, m: nat, k: nat)
    requires k <= |events|
  {
    forall i: nat :: m <= i < k && events[i].Exited? ==> events[i].checked - LifeStart(s0, events, i) < 60000
  }

  /** There was a shell, possibly at boot, and no life since then has outlasted a minute. */
  ghost predicate Guarded(s0: State, events: seq<Event>, k: nat)
    requires k <= |events|
  {
    || (s0.armed && Unproven(s0, events, 0, k))
    || exists m: nat :: m < k && ShellAt(s0, events, m) && Unproven(s0, events, m + 1, k)
  }

  // ---------- the fields of the state, by events ----------

  lemma StepPending(s: State, e: Event)
    requires Inv(s) && (e.Exited? ==> s.alive)
    ensures var t := Step(s, e);
            t.state.pending == (!e.Exited? && (s.pending || (e.User2? && !t.shell)))
    ensures e.User2? && s.pending ==> !Step(s, e).shell
    ensures e.ShutdownRequest? ==> !Step(s, e).shell
  {
  }

  lemma {:induction false} PendingIsRequested(s0: State, events: seq<Event>, k: nat)
    requires IsRun(s0, events) && k <= |events|
    ensures After(s0, events[..k]).pending <==> Requested(s0, events, k)
  {
    hide Step, Inv, After;
    if k == 0 {
      StartsUnrequested(s0, events);
    } else {
      PendingIsRequested(s0, events, k - 1);
      AfterSnoc(s0, events, k - 1);
      RunPrefix(s0, events, k - 1);
      RunInvariant(s0, events[..k - 1]);
      var s, e := After(s0, events[..k - 1]), events[k - 1];
      StepPending(s, e);
      if s.pending {
        var m: nat :| m < k - 1 && Waits(s0, events, m, k - 1);
        if !e.Exited? { assert Waits(s0, events, m, k); }
      } else if e.User2? && !ShellAt(s0, events, k - 1) {
        assert Waits(s0, events, k - 1, k);
      }
      if Requested(s0, events, k) {
        var m: nat :| m < k && Waits(s0, events, m, k);
        assert !events[k - 1].Exited? && !ShellAt(s0, events, k - 1);
        if m < k - 1 { assert Waits(s0, events, m, k - 1); }
      }
    }
  }

  lemma StartsUnrequested(s0: State, events: seq<Event>)
    requires Booted(s0)
    ensures !After(s0, events[..0]).pending
  {
    assert events[..0] == [];
  }

  lemma StepSpawn(s: State, e: Event)
    ensures var t := Step(s, e);
            t.state.spawnTime == if (e.Exited? || t.shell) && t.state.alive then ForkTime(e) else s.spawnTime
  {
  }

  lemma {:induction false} SpawnTimeIsLifeStart(s0: State, events: seq<Event>, k: nat)
    requires k <= |events|
    ensures After(s0, events[..k]).spawnTime == LifeStart(s0, events, k)
  {
    hide Step;
    if k == 0 {
      assert events[..0] == [];
    } else {
      SpawnTimeIsLifeStart(s0, events, k - 1);
      AfterSnoc(s0, events, k - 1);
      StepSpawn(After(s0, events[..k - 1]), events[k - 1]);
    }
  }

  lemma StepArmed(s: State, e: Event)
    ensures var t := Step(s, e);
            t.state.armed == (t.shell || (s.armed && (e.Exited? ==> e.checked - s.spawnTime < 60000)))
  {
  }

  lemma {:induction false} ArmedIsGuarded(s0: State, events: seq<Event>, k: nat)
    requires k <= |events|
    ensures After(s0, events[..k]).armed <==> Guarded(s0, events, k)
  {
    hide Step, After, LifeStart;
    if k == 0 {
      StartsArmed(s0, events);
    } else {
      ArmedIsGuarded(s0, events, k - 1);
      AfterSnoc(s0, events, k - 1);
      SpawnTimeIsLifeStart(s0, events, k - 1);
      StepArmed(After(s0, events[..k - 1]), events[k - 1]);
      GuardStep(s0, events, k);
    }
  }

  lemma StartsArmed(s0: State, events: seq<Event>)
    ensures After(s0, events[..0]).armed == s0.armed
  {
    assert events[..0] == [];
  }

  lemma GuardStep(s0: State, events: seq<Event>, k: nat)
    requires 0 < k <= |events|
    ensures var e := events[k - 1];
            Guarded(s0, events, k) <==>
            || ShellAt(s0, events, k - 1)
            || (Guarded(s0, events, k - 1) && (e.Exited? ==> e.checked - LifeStart(s0, events, k - 1) < 60000))
  {
    hide ShellAt, LifeStart;
    var e := events[k - 1];
    if ShellAt(s0, events, k - 1) {
      assert Unproven(s0, events, k - 1 + 1, k);
    } else {
      UnprovenSnoc(s0, events, 0, k);
      forall m: nat | m < k - 1 && ShellAt(s0, events, m)
        ensures Unproven(s0, events, m + 1, k) <==>
                Unproven(s0, events, m + 1, k - 1) &&
                (e.Exited? ==> e.checked - LifeStart(s0, events, k - 1) < 60000)
      {
        UnprovenSnoc(s0, events, m + 1, k);
      }
      hide Unproven;
    }
  }

  lemma UnprovenSnoc(s0: State, events: seq<Event>, m: nat, k: nat)
    requires m < k <= |events|
    ensures var e := events[k - 1];
            Unproven(s0, events, m, k) <==>
            Unproven(s0, events, m, k - 1) && (e.Exited? ==> e.checked - LifeStart(s0, events, k - 1) < 60000)
  {
    hide LifeStart;
    if Unproven(s0, events, m, k) { assert Unproven(s0, events, m, k - 1); }
  }

  lemma {:induction false} LivesAgree(s0: State, events: seq<Event>, k: nat)
    requires IsRun(s0, events) && k <= |events|
    ensures Lives(s0, events[..k]) == LivesBefore(s0, events, k)
  {
    hide Step, After, LifeStart, Requested;
    if k > 0 {
      LivesAgree(s0, events, k - 1);
      assert events[..k][..k - 1] == events[..k - 1];
      ChargedIsCounted(s0, events, k - 1);
    }
  }

  lemma ChargedIsCounted(s0: State, events: seq<Event>, k: nat)
    requires IsRun(s0, events) && k < |events|
    ensures var s := After(s0, events[..k]);
            s.spawnTime == LifeStart(s0, events, k) &&
            (events[k].Exited? ==> (Charged(s) <==> Counted(s0, events, k)))
  {
    hide Step, After, LifeStart, Requested;
    PendingIsRequested(s0, events, k);
    SpawnTimeIsLifeStart(s0, events, k);
    RunPrefix(s0, events, k);
    RunInvariant(s0, events[..k]);
  }

  // ---------- what an event brings about ----------

  /** The last five counted lives, with the one that ends at `k`, were all shorter than half a minute. */
  ghost predicate FiveRapid(s0: State, events: seq<Event>, k: nat)
    requires k < |events| && events[k].Exited?
  {
    var lives := LivesUpTo(s0, events, k);
    |lives| >= 5 && forall i :: |lives| - 5 <= i < |lives| ==> lives[i].ended - lives[i].spawned < 30000
  }

  /** A reboot is due at the exit at `k`: a shell went before and the life since then was shorter than a minute. */
  ghost predicate Due(s0: State, events: seq<Event>, k: nat)
    requires k < |events| && events[k].Exited?
  {
    Guarded(s0, events, k) && events[k].checked - LifeStart(s0, events, k) < 60000
  }

  /** An exit opens the shell exactly when it was asked for, or no reboot is due and it completes five rapid lives in
      a row. Otherwise it leads to the due reboot, or to a restart half a second later. After the shell there is one
      respawn, or a reboot. */
  lemma ExitExactly(s0: State, events: seq<Event>, k: nat)
    requires IsRun(s0, events) && k < |events| && events[k].Exited?
    ensures var before, t := After(s0, events[..k]), Step(After(s0, events[..k]), events[k]);
            var asked, due := Requested(s0, events, k), Due(s0, events, k);
            var forked := events[k].fork.Forked?;
            && t.shell == (asked || (!due && FiveRapid(s0, events, k)))
            && t.delay == (if t.shell || due then None else Some(500))
            && t.state.alive == (forked && (t.shell || !due))
            && t.state.shutdown == (if t.shell then (if forked then before.shutdown else Some(Reboot))
                                    else if due then Some(Reboot) else before.shutdown)
  {
    hide Requested, Guarded, LifeStart, LivesBefore, Inv;
    PendingIsRequested(s0, events, k);
    ArmedIsGuarded(s0, events, k);
    ChargedIsCounted(s0, events, k);
    LivesAgree(s0, events, k);
    ShellExactly(s0, events, k);
    FiveIsTail(s0, events, k);
    ExitTurn(After(s0, events[..k]), events[k]);
    RunPrefix(s0, events, k);
    RunInvariant(s0, events[..k]);
    LiveBackoff(After(s0, events[..k]));
  }

  lemma LiveBackoff(s: State)
    requires Inv(s) && s.alive
    ensures s.backoff == 500
  {
  }

  lemma FiveIsTail(s0: State, events: seq<Event>, k: nat)
    requires IsRun(s0, events) && k < |events| && events[k].Exited?
    requires Lives(s0, events[..k]) == LivesBefore(s0, events, k)
    ensures var lives := Extend(Lives(s0, events[..k]), After(s0, events[..k]), events[k]);
            Tail(lives) >= THRESHOLD <==> FiveRapid(s0, events, k)
  {
    hide Step, After, LifeStart, Requested, Tail, LivesBefore;
    ChargedIsCounted(s0, events, k);
    var lives := LivesUpTo(s0, events, k);
    assert Extend(Lives(s0, events[..k]), After(s0, events[..k]), events[k]) == lives;
    TailMeans(lives, THRESHOLD);
  }

  /** The branches of the exit handling. */
  lemma ExitTurn(s: State, e: Event)
    requires e.Exited?
    ensures var t := Step(s, e);
            var due := s.armed && e.checked - s.spawnTime < 60000;
            && t.delay == (if t.shell || due then None else Some(s.backoff))
            && t.state.alive == (e.fork.Forked? && (t.shell || !due))
            && t.state.shutdown == (if t.shell then (if e.fork.Forked? then s.shutdown else Some(Reboot))
                                    else if due then Some(Reboot) else s.shutdown)
  {
  }

  /** An operator signal with no service manager alive opens the shell at once; otherwise it only waits for the exit. */
  lemma SignalExactly(s0: State, events: seq<Event>, k: nat)
    requires IsRun(s0, events) && k < |events| && events[k].User2?
    ensures var before, t := After(s0, events[..k]), Step(After(s0, events[..k]), events[k]);
            var forked := events[k].fork.Forked?;
            && t.shell == !before.alive && t.delay == None
            && t.state.alive == (before.alive || forked)
            && t.state.shutdown == (if before.alive || forked then before.shutdown else Some(Reboot))
            && (before.alive ==> Requested(s0, events, k + 1))
  {
    hide Inv;
    PendingIsRequested(s0, events, k + 1);
    AfterSnoc(s0, events, k);
  }

  /** An exit asked for is not counted, however short the life was. */
  lemma RequestedIsNotCounted(s0: State, events: seq<Event>, k: nat)
    requires IsRun(s0, events) && k < |events| && events[k].Exited? && Requested(s0, events, k)
    ensures LivesUpTo(s0, events, k) == LivesBefore(s0, events, k) && ShellAt(s0, events, k)
  {
    hide Requested, LivesBefore, Step, Guarded, LifeStart;
    ExitExactly(s0, events, k);
    assert !Counted(s0, events, k);
    assert LivesBefore(s0, events, k) + [] == LivesBefore(s0, events, k);
  }
}
