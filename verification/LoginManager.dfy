/** The mutable login state and the Manager methods, proved against the value-level operations. */
module LoginManager {
  import opened Common
  import opened Login
  import opened SeatDevices

  class LoginState {
    var sessions: map<SessionId, Session>
    var seats: map<SeatId, Seat>
    var users: map<nat, User>
    var pidToSession: map<nat, SessionId>
    var nextId: SessionId

    function Snapshot(): State reads this { State(sessions, seats, users, pidToSession, nextId) }

    constructor (present: set<SeatId>)
      ensures Snapshot() == Fresh(present)
    {
      sessions, users, pidToSession, nextId := map[], map[], map[], 1;
      seats := map s | s in present :: Seat([], None);
    }

    method CreateSession(uid: nat, leaderPid: nat, seatId: Option<SeatId>) returns (id: SessionId)
      modifies this
      ensures id == old(nextId) && Snapshot() == Create(old(Snapshot()), uid, leaderPid, seatId)
    {
      id := nextId;
      nextId := nextId + 1;
      var isFirst := true;
      if seatId.Some? && seatId.value in seats {
        isFirst := seats[seatId.value].active.None?;
      }
      var session := Session(uid, seatId, leaderPid, if isFirst then Active else Online, isFirst);
      pidToSession := pidToSession[leaderPid := id];
      if seatId.Some? && seatId.value in seats {
        var seat := seats[seatId.value];
        seat := seat.(sessions := seat.sessions + [id]);
        if isFirst {
          seat := seat.(active := Some(id));
        }
        seats := seats[seatId.value := seat];
      }
      var user := if uid in users then users[uid] else User([], None, UserOnline);
      user := user.(sessions := user.sessions + [id]);
      if isFirst {
        user := user.(state := UserActive, display := Some(id));
      }
      users := users[uid := user];
      sessions := sessions[id := session];
    }

    /** `retain`: drop one id from a list. */
    method Retain(list: seq<SessionId>, id: SessionId) returns (kept: seq<SessionId>)
      ensures kept == Without(list, id)
    {
      kept := [];
      for i := 0 to |list|
        invariant kept + Without(list[i..], id) == Without(list, id)
      {
        assert list[i..][0] == list[i] && list[i..][1..] == list[i + 1..];
        ghost var rest := Without(list[i + 1..], id);
        if list[i] != id {
          assert kept + ([list[i]] + rest) == kept + [list[i]] + rest;
          kept := kept + [list[i]];
        } else {
          assert Without(list[i..], id) == rest;
        }
      }
    }

    method RemoveSession(sessionId: SessionId)
      modifies this
      ensures Snapshot() == Remove(old(Snapshot()), sessionId)
    {
      hide Without;
      if sessionId !in sessions {
        return;
      }
      var session := sessions[sessionId];
      sessions := sessions - {sessionId};
      pidToSession := pidToSession - {session.leader};
      if session.seat.Some? && session.seat.value in seats {
        var seat := seats[session.seat.value];
        var kept := Retain(seat.sessions, sessionId);
        seat := seat.(sessions := kept);
        if seat.active == Some(sessionId) {
          seat := seat.(active := First(kept));
          if seat.active.Some? && seat.active.value in sessions {
            var s := sessions[seat.active.value];
            sessions := sessions[seat.active.value := s.(active := true, state := Active)];
          }
        }
        seats := seats[session.seat.value := seat];
      }
      assert sessions == RemainingSessions(old(Snapshot()), sessionId);
      if session.uid in users {
        var user := users[session.uid];
        var kept := Retain(user.sessions, sessionId);
        user := user.(sessions := kept);
        if user.display == Some(sessionId) {
          user := user.(display := First(kept));
        }
        if kept == [] {
          users := users - {session.uid};
        } else {
          var anyActive := exists sid :: sid in kept && sid in sessions && sessions[sid].state == Active;
          user := user.(state := if anyActive then UserActive else UserOnline);
          users := users[session.uid := user];
        }
      }
    }

    method ActivateSession(sessionId: SessionId)
      modifies this
      ensures Snapshot() == Activate(old(Snapshot()), sessionId)
    {
      if sessionId !in sessions || sessions[sessionId].seat.None? {
        return;
      }
      var seatId := sessions[sessionId].seat.value;
      if seatId in seats {
        var old_ := seats[seatId].active;
        if old_.Some? && old_.value != sessionId && old_.value in sessions {
          sessions := sessions[old_.value := sessions[old_.value].(active := false, state := Online)];
        }
      }
      sessions := sessions[sessionId := sessions[sessionId].(active := true, state := Active)];
      if seatId in seats {
        seats := seats[seatId := seats[seatId].(active := Some(sessionId))];
      }
    }

    /** The removal loop of Seat.Terminate and User.Terminate, which leave the devices alone. */
    method RemoveEach(ids: seq<SessionId>)
      modifies this
      ensures Snapshot() == RemoveAll(old(Snapshot()), ids)
    {
      hide Remove;
      for i := 0 to |ids|
        invariant Snapshot() == RemoveAll(old(Snapshot()), ids[..i])
      {
        assert ids[..i + 1][..i] == ids[..i];
        RemoveSession(ids[i]);
      }
      assert ids[..|ids|] == ids;
    }
  }

  class Manager {
    const state: LoginState
    // Owner of the session devices.
    var owner: nat

    function View(): Desk reads this, state { Desk(state.Snapshot(), owner) }

    constructor (present: set<SeatId>)
      ensures View() == Desk(Fresh(present), ROOT) && fresh(state)
    {
      state := new LoginState(present);
      owner := ROOT;
    }

    /** `apply_session_acl` and `revert_session_acl`. */
    method Chown(uid: nat)
      modifies this`owner
      ensures owner == uid
    {
      owner := uid;
    }

    method CreateSession(uid: nat, pid: nat, seatId: string) returns (r: Result<SessionId>)
      modifies this, state
      ensures r.Ok? <==> SeatDevices.CreateSession(old(View()), uid, pid, seatId).Ok?
      ensures r.Ok? ==> View() == SeatDevices.CreateSession(old(View()), uid, pid, seatId).value
      ensures r.Err? ==> View() == old(View())
    {
      var seat: Option<SeatId> := None;
      if seatId == "" {
        if SEAT0 in state.seats {
          seat := Some(SEAT0);
        }
      } else if SeatId(seatId) in state.seats {
        seat := Some(SeatId(seatId));
      } else {
        return Err;
      }
      var id := state.CreateSession(uid, pid, seat);
      var isActive := id in state.sessions && state.sessions[id].active;
      if isActive && seat.Some? {
        Chown(uid);
      }
      r := Ok(id);
    }

    method ActivateSession(sessionId: SessionId) returns (ok: bool)
      modifies this, state
      ensures ok <==> SeatDevices.ActivateSession(old(View()), sessionId).Ok?
      ensures View() == if ok then SeatDevices.ActivateSession(old(View()), sessionId).value else old(View())
    {
      if sessionId !in state.sessions {
        return false;
      }
      var h := HandoverFor(state.Snapshot(), sessionId);
      state.ActivateSession(sessionId);
      if h.seat.Some? {
        if h.oldUid.Some? && h.newUid != h.oldUid {
          Chown(ROOT);
        }
        if h.newUid.Some? {
          Chown(h.newUid.value);
        }
      }
      ok := true;
    }

    method FinalizeSessionRemoval(sessionId: SessionId)
      modifies this, state
      ensures View() == Finalize(old(View()), sessionId)
    {
      hide Remove;
      if sessionId !in state.sessions {
        return;
      }
      var session := state.sessions[sessionId];
      state.RemoveSession(sessionId);
      var newActiveUid: Option<nat> := None;
      if session.seat.Some? && session.seat.value in state.seats {
        var a := state.seats[session.seat.value].active;
        if a.Some? && a.value in state.sessions {
          newActiveUid := Some(state.sessions[a.value].uid);
        }
      }
      if session.active && session.seat.Some? {
        if Some(session.uid) != newActiveUid {
          Chown(ROOT);
        }
        if newActiveUid.Some? && newActiveUid.value != session.uid {
          Chown(newActiveUid.value);
        }
      }
    }

    /** The removal loop shared by TerminateUser and TerminateSeat. */
    method FinalizeEach(ids: seq<SessionId>)
      modifies this, state
      ensures View() == FinalizeAll(old(View()), ids)
    {
      hide Finalize;
      for i := 0 to |ids|
        invariant View() == FinalizeAll(old(View()), ids[..i])
      {
        assert ids[..i + 1][..i] == ids[..i];
        FinalizeSessionRemoval(ids[i]);
      }
      assert ids[..|ids|] == ids;
    }

    method TerminateUser(uid: nat)
      modifies this, state
      ensures View() == SeatDevices.TerminateUser(old(View()), uid)
    {
      FinalizeEach(if uid in state.users then state.users[uid].sessions else []);
    }

    method TerminateSeat(seatId: SeatId) returns (ok: bool)
      modifies this, state
      ensures ok <==> SeatDevices.TerminateSeat(old(View()), seatId).Ok?
      ensures View() == if ok then SeatDevices.TerminateSeat(old(View()), seatId).value else old(View())
    {
      if seatId !in state.seats {
        return false;
      }
      FinalizeEach(state.seats[seatId].sessions);
      ok := true;
    }
  }
}
