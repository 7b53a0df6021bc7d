/** The child record and the event loop's exit handling, updated in place. */
module InitLoop {
  import opened Common
  import opened CrashRecovery

  class Child {
    var alive: bool
    var backoff: nat
    var spawnTime: int
    var rapid: nat
    var intentional: bool

    /** The child's part of the state. */
    function Fields(): State
      reads this
    {
      State(alive, backoff, spawnTime, rapid, intentional, false, false, None)
    }

    constructor ()
      ensures Fields() == CREATED
    {
      alive, backoff, spawnTime, rapid, intentional := false, INITIAL_MS, 0, 0, false;
    }

    method Spawn(fork: Fork) returns (ok: bool)
      modifies this
      ensures ok == fork.Forked?
      ensures Fields() == CrashRecovery.Spawn(old(Fields()), fork)
    {
      if fork.ForkFailed? { return false; }
      alive := true;
      backoff := INITIAL_MS;
      spawnTime := fork.time;
      ok := true;
    }

    method OnExit(noticed: int) returns (delay: nat)
      modifies this
      ensures delay == old(backoff)
      ensures Fields() == CrashRecovery.OnExit(old(Fields()), noticed)
    {
      delay := backoff;
      if intentional {
        intentional := false;
      } else if spawnTime != 0 {
        if noticed - spawnTime < RAPID_UPTIME_MS { rapid := rapid + 1; } else { rapid := 0; }
      }
      backoff := if backoff * 2 < MAX_MS then backoff * 2 else MAX_MS;
      alive := false;
    }

    method ResetFailureCounter()
      modifies this`rapid, this`backoff
      ensures rapid == 0 && backoff == INITIAL_MS
    {
      rapid, backoff := 0, INITIAL_MS;
    }
  }

  class EventLoop {
    const svmgr: Child
    var pending: bool
    var armed: bool
    var shutdown: Option<ShutdownKind>

    function Snapshot(): State
      reads this, svmgr
    {
      State(svmgr.alive, svmgr.backoff, svmgr.spawnTime, svmgr.rapid, svmgr.intentional, pending, armed, shutdown)
    }

    constructor (svmgr: Child)
      ensures this.svmgr == svmgr && !pending && !armed && shutdown == None
    {
      this.svmgr := svmgr;
      pending, armed, shutdown := false, false, None;
    }

    /** Shell, clean slate, armed guard, one respawn or a reboot. */
    method EnterEmergencyMode(fork: Fork)
      modifies this, svmgr
      ensures Snapshot() == Recover(old(Snapshot()), fork)
    {
      svmgr.ResetFailureCounter();
      armed := true;
      var ok := svmgr.Spawn(fork);
      if !ok { shutdown := Some(Reboot); }
    }

    method HandleSvmgrExit(noticed: int, checked: int, fork: Fork) returns (shell: bool, delay: Option<nat>)
      modifies this, svmgr
      ensures Turn(Snapshot(), shell, delay) == HandleExit(old(Snapshot()), noticed, checked, fork)
    {
      ghost var s := Snapshot();
      var backoff := svmgr.OnExit(noticed);
      assert Snapshot() == CrashRecovery.OnExit(s, noticed);
      shell, delay := false, None;
      if pending {
        pending := false;
        EnterEmergencyMode(fork);
        return true, None;
      }
      if armed {
        var uptime := checked - svmgr.spawnTime;
        if uptime < GRACE_MS {
          shutdown := Some(Reboot);
          return;
        }
        armed := false;
      }
      if svmgr.rapid >= THRESHOLD {
        EnterEmergencyMode(fork);
        return true, None;
      }
      var _ := svmgr.Spawn(fork);
      delay := Some(backoff);
    }

    method HandleUser2(fork: Fork) returns (shell: bool)
      modifies this, svmgr
      ensures Turn(Snapshot(), shell, None) == CrashRecovery.HandleUser2(old(Snapshot()), fork)
    {
      if svmgr.alive {
        svmgr.intentional := true;
        pending := true;
        return false;
      }
      EnterEmergencyMode(fork);
      shell := true;
    }
  }
}
