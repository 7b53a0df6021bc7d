/** How PID 1 keeps the service manager alive: restarts, the crash-loop shell and the reboot after it.
    Clock readings and the outcome of a spawn are inputs; times are milliseconds. */
module CrashRecovery {
  import opened Common

  const INITIAL_MS := 500
  const MAX_MS := 30000
  const RAPID_UPTIME_MS := 30000
  const THRESHOLD := 5
  const GRACE_MS := 60000

  /** The child record and the loop's own flags. */
  datatype State = State(
    alive: bool, backoff: nat, spawnTime: int, rapid: nat, intentional: bool,
    pending: bool, armed: bool, shutdown: Option<ShutdownKind>)

  /** The answer to a fork: the time read after it, or a failure. */
  datatype Fork = Forked(time: int) | ForkFailed

  datatype Event =
    | Exited(noticed: int, checked: int, fork: Fork)
    | User2(fork: Fork)
    | ShutdownRequest(kind: ShutdownKind)

  /** The state after an event, whether a shell was opened, and the sleep before a restart. */
  datatype Turn = Turn(state: State, shell: bool, delay: Option<nat>)

  const CREATED := State(false, INITIAL_MS, 0, 0, false, false, false, None)

  function Spawn(s: State, fork: Fork): State {
    if fork.Forked? then s.(alive := true, backoff := INITIAL_MS, spawnTime := fork.time) else s
  }

  /** Whether the exit is charged to the rapid-failure counter at all. */
  predicate Charged(s: State) { !s.intentional && s.spawnTime != 0 }

  function OnExit(s: State, noticed: int): State {
    var rapid := if !Charged(s) then s.rapid
                 else if noticed - s.spawnTime < RAPID_UPTIME_MS then s.rapid + 1 else 0;
    var backoff := if s.backoff * 2 < MAX_MS then s.backoff * 2 else MAX_MS;
    s.(alive := false, backoff := backoff, rapid := rapid, intentional := false)
  }

  /** What follows the emergency shell. */
  function Recover(s: State, fork: Fork): State {
    var s1 := Spawn(s.(rapid := 0, backoff := INITIAL_MS, armed := true), fork);
    if fork.Forked? then s1 else s1.(shutdown := Some(Reboot))
  }

  predicate RebootDue(s: State, checked: int) { s.armed && checked - s.spawnTime < GRACE_MS }

  function HandleExit(s: State, noticed: int, checked: int, fork: Fork): Turn {
    var s1 := OnExit(s, noticed);
    if s1.pending then Turn(Recover(s1.(pending := false), fork), true, None)
    else if RebootDue(s1, checked) then Turn(s1.(shutdown := Some(Reboot)), false, None)
    else
      var s2 := s1.(armed := false);
      if s2.rapid >= THRESHOLD then Turn(Recover(s2, fork), true, None)
      else Turn(Spawn(s2, fork), false, Some(s.backoff))
  }

  function HandleUser2(s: State, fork: Fork): Turn {
    if s.alive then Turn(s.(intentional := true, pending := true), false, None)
    else Turn(Recover(s, fork), true, None)
  }

  function Step(s: State, e: Event): Turn {
    match e
    case Exited(noticed, checked, fork) => HandleExit(s, noticed, checked, fork)
    case User2(fork) => HandleUser2(s, fork)
    case ShutdownRequest(kind) => Turn(s.(shutdown := Some(kind)), false, None)
  }

  // ---------- runs ----------

  /** An ordinary boot, or one that goes through the shell first. */
  predicate Booted(s: State) {
    || s == Spawn(CREATED, Forked(s.spawnTime))
    || s == Recover(CREATED, Forked(s.spawnTime)) || s == Recover(CREATED, ForkFailed)
  }

  function After(s0: State, events: seq<Event>): State {
    if events == [] then s0 else Step(After(s0, events[..|events| - 1]), events[|events| - 1]).state
  }

  /** Only a live service manager can exit. */
  ghost predicate IsRun(s0: State, events: seq<Event>) {
    Booted(s0) && forall k :: 0 <= k < |events| && events[k].Exited? ==> After(s0, events[..k]).alive
  }

  lemma RunPrefix(s0: State, events: seq<Event>, k: nat)
    requires IsRun(s0, events) && k <= |events|
    ensures IsRun(s0, events[..k])
  {
    forall j | 0 <= j < k ensures events[..k][..j] == events[..j] {}
  }

  lemma AfterSnoc(s0: State, events: seq<Event>, k: nat)
    requires k < |events|
    ensures After(s0, events[..k + 1]) == Step(After(s0, events[..k]), events[k]).state
  {
    assert events[..k + 1][..k] == events[..k];
  }

  /** Opened the emergency shell. */
  predicate ShellAt(s0: State, events: seq<Event>, k: nat)
    requires k < |events|
  {
    Step(After(s0, events[..k]), events[k]).shell
  }

  // ---------- what every state keeps ----------

  predicate Inv(s: State) {
    && (s.alive ==> s.backoff == INITIAL_MS && s.rapid < THRESHOLD)
    && s.rapid <= THRESHOLD
    && s.intentional == s.pending && (s.pending ==> s.alive)
  }

  /** In every run, operator signals included, a live service manager has fewer than five counted rapid
      failures, and a restart sleeps for the initial backoff: the doubled one is never used. */
  lemma {:induction false} RunInvariant(s0: State, events: seq<Event>)
    requires IsRun(s0, events)
    ensures Inv(After(s0, events))
    ensures events != [] ==>
              var d := Step(After(s0, events[..|events| - 1]), events[|events| - 1]).delay;
              d.Some? ==> d.value == INITIAL_MS
  {
    hide Step, Inv;
    if events != [] {
      var n := |events| - 1;
      RunPrefix(s0, events, n);
      RunInvariant(s0, events[..n]);
      StepKeepsInv(After(s0, events[..n]), events[n]);
    } else {
      BootInv(s0);
    }
  }

  lemma BootInv(s: State)
    requires Booted(s)
    ensures Inv(s)
  {
  }

  lemma StepKeepsInv(s: State, e: Event)
    requires Inv(s) && (e.Exited? ==> s.alive)
    ensures var t := Step(s, e); Inv(t.state) && (t.delay.Some? ==> t.delay.value == INITIAL_MS)
  {
  }

  // ---------- left without a service manager ----------

  /** An exit leads to an ordinary restart: no shell was asked for, no reboot is due, and it does not complete a
      crash loop. */
  predicate RestartsOrdinarily(s: State, e: Event) {
    e.Exited? && !s.pending && !RebootDue(s, e.checked) && OnExit(s, e.noticed).rapid < THRESHOLD
  }

  /** The last event was an ordinary restart whose fork failed, with no shutdown under way. */
  predicate RestartJustFailed(s0: State, events: seq<Event>) {
    events != [] &&
    var s, e := After(s0, events[..|events| - 1]), events[|events| - 1];
    RestartsOrdinarily(s, e) && e.fork.ForkFailed? && s.shutdown.None?
  }

  lemma DeadStep(s: State, e: Event)
    requires e.Exited? ==> s.alive
    ensures var t := Step(s, e);
            !t.state.alive && t.state.shutdown.None? <==>
            RestartsOrdinarily(s, e) && e.fork.ForkFailed? && s.shutdown.None?
  {
  }

  /** After every event of every run the service manager is alive or the machine is going down, except right
      after an ordinary restart whose fork failed: then nothing retries it and nothing reboots. */
  lemma DeadExactly(s0: State, events: seq<Event>)
    requires IsRun(s0, events)
    ensures !After(s0, events).alive && After(s0, events).shutdown.None? <==> RestartJustFailed(s0, events)
  {
    hide Step, RestartsOrdinarily;
    if events != [] {
      var n := |events| - 1;
      DeadStep(After(s0, events[..n]), events[n]);
    }
  }

  /** Such a run: an ordinary boot, one exit, a failed fork. */
  lemma FailedForkStrands(t: int)
    ensures var s0, events := Spawn(CREATED, Forked(t)), [Exited(t + 1, t + 1, ForkFailed)];
            IsRun(s0, events) && !After(s0, events).alive && After(s0, events).shutdown.None?
  {
    var s0, events := Spawn(CREATED, Forked(t)), [Exited(t + 1, t + 1, ForkFailed)];
    assert events[..0] == [] && After(s0, []) == s0;
    assert After(s0, events) == Step(s0, events[0]).state;
  }

  // ---------- the crash-loop shell ----------

  datatype Life = Life(spawned: int, ended: int)

  predicate Rapid(l: Life) { l.ended - l.spawned < RAPID_UPTIME_MS }

  /** How many lives at the end of the list were rapid. */
  function Tail(lives: seq<Life>): nat {
    if lives == [] || !Rapid(lives[|lives| - 1]) then 0 else 1 + Tail(lives[..|lives| - 1])
  }

  function Extend(lives: seq<Life>, s: State, e: Event): seq<Life> {
    if e.Exited? && Charged(s) then lives + [Life(s.spawnTime, e.noticed)] else lives
  }

  /** The charged lives that ended since the last shell. */
  function Lives(s0: State, events: seq<Event>): seq<Life> {
    if events == [] then [] else
    var n := |events| - 1;
    var s := After(s0, events[..n]);
    if Step(s, events[n]).shell then [] else Extend(Lives(s0, events[..n]), s, events[n])
  }

  lemma {:induction false} TailMeans(lives: seq<Life>, n: nat)
    ensures Tail(lives) >= n <==> n <= |lives| && forall i :: |lives| - n <= i < |lives| ==> Rapid(lives[i])
    decreases n
  {
    if n > 0 && lives != [] && Rapid(lives[|lives| - 1]) {
      var init := lives[..|lives| - 1];
      TailMeans(init, n - 1);
      if Tail(init) >= n - 1 {
        assert forall i :: |init| - (n - 1) <= i < |init| ==> lives[i] == init[i];
      } else if n <= |lives| {
        var i :| |init| - (n - 1) <= i < |init| && !Rapid(init[i]);
        assert !Rapid(lives[i]);
      }
    }
  }

  /** The counter is the number of rapid lives in a row since the last shell. */
  lemma {:induction false} CounterIsTail(s0: State, events: seq<Event>)
    requires IsRun(s0, events)
    ensures After(s0, events).rapid == Tail(Lives(s0, events))
  {
    hide Step, Extend, Tail;
    NoLives();
    if events != [] {
      var n := |events| - 1;
      RunPrefix(s0, events, n);
      CounterIsTail(s0, events[..n]);
      var s, e := After(s0, events[..n]), events[n];
      TailExtend(Lives(s0, events[..n]), s, e);
      RapidStep(s, e);
    }
  }

  lemma NoLives()
    ensures Tail([]) == 0
  {
  }

  lemma RapidStep(s: State, e: Event)
    ensures var t := Step(s, e);
            t.state.rapid == if t.shell then 0 else if e.Exited? then OnExit(s, e.noticed).rapid else s.rapid
  {
  }

  lemma TailExtend(lives: seq<Life>, s: State, e: Event)
    requires s.rapid == Tail(lives)
    ensures e.Exited? ==> Tail(Extend(lives, s, e)) == OnExit(s, e.noticed).rapid
    ensures !e.Exited? ==> Extend(lives, s, e) == lives
  {
    if e.Exited? && Charged(s) {
      var l := Life(s.spawnTime, e.noticed);
      assert (lives + [l])[..|lives|] == lives;
    }
  }

  /** An exit opens the shell exactly when the operator asked for it, or no reboot is due and the exit
      completes five rapid lives in a row. */
  lemma ShellExactly(s0: State, events: seq<Event>, k: nat)
    requires IsRun(s0, events) && k < |events| && events[k].Exited?
    ensures var s := After(s0, events[..k]);
            var lives := Extend(Lives(s0, events[..k]), s, events[k]);
            && Tail(lives) <= THRESHOLD
            && (ShellAt(s0, events, k) <==>
                s.pending || (!RebootDue(s, events[k].checked) && Tail(lives) == THRESHOLD))
            && (!s.pending && RebootDue(s, events[k].checked) ==>
                var s' := After(s0, events[..k + 1]); s'.shutdown == Some(Reboot) && !s'.alive)
  {
    RunPrefix(s0, events, k);
    RunInvariant(s0, events[..k]);
    CounterIsTail(s0, events[..k]);
    TailExtend(Lives(s0, events[..k]), After(s0, events[..k]), events[k]);
    AfterSnoc(s0, events, k);
  }

  // ---------- two shells ----------

  /** The exit at `k` ends a life that outlasted the grace window. */
  predicate StableAt(s0: State, events: seq<Event>, k: nat)
    requires k < |events|
  {
    events[k].Exited? && events[k].checked - After(s0, events[..k]).spawnTime >= GRACE_MS
  }

  /** A stable life in `[i, j)`, or an operator signal there. */
  ghost predicate Excused(s0: State, events: seq<Event>, i: nat, j: nat)
    requires j <= |events|
  {
    exists m: nat :: i <= m < j && (StableAt(s0, events, m) || events[m].User2?)
  }

  /** The guard survives every event but a stable exit and an operator signal. */
  lemma ArmedStep(s: State, e: Event)
    requires s.armed && !s.pending
    ensures var s' := Step(s, e).state;
            (s'.armed && !s'.pending) || e.User2? || (e.Exited? && e.checked - s.spawnTime >= GRACE_MS)
  {
  }

  lemma ExcusedGrows(s0: State, events: seq<Event>, i: nat, j: nat)
    requires j < |events| && (Excused(s0, events, i, j) || (i <= j && (StableAt(s0, events, j) || events[j].User2?)))
    ensures Excused(s0, events, i, j + 1)
  {
    hide StableAt;
    if Excused(s0, events, i, j) {
      var m: nat :| i <= m < j && (StableAt(s0, events, m) || events[m].User2?);
      assert i <= m < j + 1;
    } else {
      assert i <= j < j + 1;
    }
  }

  /** Once armed, the reboot guard stays armed until a life outlasts the grace window or the operator steps in. */
  lemma {:induction false} ArmedUntilStable(s0: State, events: seq<Event>, i: nat, j: nat)
    requires i <= j <= |events| && After(s0, events[..i]).armed && !After(s0, events[..i]).pending
    ensures var s := After(s0, events[..j]); (s.armed && !s.pending) || Excused(s0, events, i, j)
    decreases j
  {
    hide Step, After, Excused;
    if i < j {
      ArmedUntilStable(s0, events, i, j - 1);
      if Excused(s0, events, i, j - 1) {
        ExcusedGrows(s0, events, i, j - 1);
      } else {
        AfterSnoc(s0, events, j - 1);
        ArmedStep(After(s0, events[..j - 1]), events[j - 1]);
        if StableAt(s0, events, j - 1) || events[j - 1].User2? { ExcusedGrows(s0, events, i, j - 1); }
      }
    }
  }

  /** Two shells are separated by a life of at least the grace window, unless the operator signals in between. */
  lemma ShellsSeparated(s0: State, events: seq<Event>, i: nat, j: nat)
    requires IsRun(s0, events) && i < j < |events| && ShellAt(s0, events, i) && ShellAt(s0, events, j)
    ensures Excused(s0, events, i + 1, j + 1)
  {
    RunPrefix(s0, events, i);
    RunInvariant(s0, events[..i]);
    AfterSnoc(s0, events, i);
    NextShellExcused(s0, events, i + 1, j);
  }

  /** The same after a boot that went through the shell. */
  lemma BootShellSeparated(s0: State, events: seq<Event>, j: nat)
    requires IsRun(s0, events) && s0.armed && j < |events| && ShellAt(s0, events, j)
    ensures Excused(s0, events, 0, j + 1)
  {
    NextShellExcused(s0, events, 0, j);
  }

  lemma NextShellExcused(s0: State, events: seq<Event>, i: nat, j: nat)
    requires i <= j < |events| && ShellAt(s0, events, j)
    requires After(s0, events[..i]).armed && !After(s0, events[..i]).pending
    ensures Excused(s0, events, i, j + 1)
  {
    hide Excused, After;
    ArmedUntilStable(s0, events, i, j);
    ExcusedGrows(s0, events, i, j);
  }

  /** The clock readings of an event, in order. */
  function Readings(e: Event): seq<int> {
    match e
    case Exited(noticed, checked, fork) => [noticed, checked] + if fork.Forked? then [fork.time] else []
    case User2(fork) => if fork.Forked? then [fork.time] else []
    case ShutdownRequest(_) => []
  }

  ghost predicate Monotone(events: seq<Event>) {
    && (forall i, a, b :: 0 <= i < |events| && 0 <= a < b < |Readings(events[i])| ==>
          Readings(events[i])[a] <= Readings(events[i])[b])
    && (forall i, j, a, b :: 0 <= i < j < |events| && 0 <= a < |Readings(events[i])| && 0 <= b < |Readings(events[j])| ==>
          Readings(events[i])[a] <= Readings(events[j])[b])
  }

  /** A service manager is alive after an event because it already was, or was forked at the event's last reading. */
  lemma AliveStep(s: State, e: Event)
    ensures var t := Step(s, e);
            t.state.alive ==>
              || (s.alive && t.state.spawnTime == s.spawnTime && !t.shell)
              || (Readings(e) != [] && t.state.spawnTime == Readings(e)[|Readings(e)| - 1])
  {
  }

  lemma ReadingsAscend(events: seq<Event>, i: nat, j: nat, a: nat)
    requires Monotone(events) && i <= j < |events| && a < |Readings(events[i])| && Readings(events[j]) != []
    ensures Readings(events[i])[a] <= Readings(events[j])[|Readings(events[j])| - 1]
  {
    hide Readings;
  }

  /** A service manager alive after a shell was spawned after it: the separating life lies between the shells. */
  lemma {:induction false} LifeAfterShell(s0: State, events: seq<Event>, i: nat, m: nat, a: nat)
    requires Monotone(events) && i < m <= |events| && ShellAt(s0, events, i) && a < |Readings(events[i])|
    ensures After(s0, events[..m]).alive ==> Readings(events[i])[a] <= After(s0, events[..m]).spawnTime
    decreases m
  {
    hide Monotone, Readings, Step, After;
    AfterSnoc(s0, events, m - 1);
    if i < m - 1 { LifeAfterShell(s0, events, i, m - 1, a); }
    AliveStep(After(s0, events[..m - 1]), events[m - 1]);
    if Readings(events[m - 1]) != [] { ReadingsAscend(events, i, m - 1, a); }
  }
}
