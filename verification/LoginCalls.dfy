/** What each of the Manager's calls refuses and which sessions it leaves, said by the live sessions. */
module LoginCalls {
  import opened Common
  import opened Login
  import opened SeatDevices

  // ---------- creating and activating ----------

  /** Only an unknown seat is refused. The session has what was asked, an empty seat argument meaning seat0 where there
      is one; it takes the devices exactly as the first session of a known seat. */
  lemma CreateExactly(d: Desk, uid: nat, pid: nat, seatArg: string)
    requires Consistent(d.st)
    ensures var r := CreateSession(d, uid, pid, seatArg);
            && (r.Err? <==> seatArg != "" && SeatId(seatArg) !in d.st.seats)
            && (r.Ok? ==>
                  && r.value.st.sessions.Keys == d.st.sessions.Keys + {d.st.next} && d.st.next !in d.st.sessions
                  && var s := r.value.st.sessions[d.st.next];
                     && s.uid == uid && s.leader == pid
                     && s.seat == (if seatArg != "" then Some(SeatId(seatArg))
                                   else if SeatId("seat0") in d.st.seats then Some(SeatId("seat0")) else None)
                     && (s.active <==> s.seat.None? || OnSeat(d.st, s.seat.value) == {})
                     && r.value.owner == if s.seat.Some? && s.active then uid else d.owner)
  {
    hide UserOk, SessionOk, UserOf, JoinUser, JoinSeat;
    FreshId(d.st);
    var seat := ChooseSeat(d.st, seatArg);
    if seat.Ok? && seat.value.Some? {
      var x := seat.value.value;
      assert SeatOk(d.st, x);
      if d.st.seats[x].active.None? {
        assert OnSeat(d.st, x) == {};
      } else {
        assert d.st.seats[x].active.value in OnSeat(d.st, x);
      }
    }
  }

  /** Activation is refused exactly for an unknown session, or for one that is not on the seat that was named; on a known
      seat it puts the session, and no other of the seat, in the foreground and hands the devices to its user. */
  lemma ActivateExactly(d: Desk, id: SessionId, seat: SeatId)
    requires Consistent(d.st) && SeatsKnown(d.st)
    ensures ActivateSession(d, id).Err? <==> id !in d.st.sessions
    ensures ActivateSessionOnSeat(d, id, seat).Err? <==> id !in OnSeat(d.st, seat)
    ensures ActivateSessionOnSeat(d, id, seat).Ok? ==> ActivateSessionOnSeat(d, id, seat) == ActivateSession(d, id)
    ensures id in OnSeat(d.st, seat) ==>
              var d' := ActivateSession(d, id).value;
              && d'.st.sessions.Keys == d.st.sessions.Keys && d'.owner == d.st.sessions[id].uid
              && forall x :: x in OnSeat(d.st, seat) ==>
                   (d'.st.sessions[x].active <==> x == id) && d'.st.sessions[x].seat == Some(seat)
  {
    hide UserOk, SessionOk;
    if id in OnSeat(d.st, seat) {
      assert seat in d.st.seats && SeatOk(d.st, seat);
    }
  }

  // ---------- removing ----------

  lemma FinalizeKeys(d: Desk, id: SessionId)
    ensures Finalize(d, id).st.sessions.Keys == d.st.sessions.Keys - {id}
  {
    hide RemainingUsers, Promoted;
  }

  lemma {:induction false} FinalizeAllKeys(d: Desk, ids: seq<SessionId>)
    ensures FinalizeAll(d, ids).st.sessions.Keys == d.st.sessions.Keys - set id | id in ids
  {
    hide Finalize;
    if ids != [] {
      var n := |ids| - 1;
      FinalizeAllKeys(d, ids[..n]);
      FinalizeKeys(FinalizeAll(d, ids[..n]), ids[n]);
      assert ids == ids[..n] + [ids[n]];
    }
  }

  /** Releasing ends one session, terminating ends those of the user or of the seat, and none besides; an unknown
      session and an unknown seat are refused, an unknown user is not. */
  lemma RemovalsExactly(d: Desk, id: SessionId, uid: nat, seat: SeatId)
    requires Consistent(d.st)
    ensures ReleaseSession(d, id).Err? <==> id !in d.st.sessions
    ensures id in d.st.sessions ==> ReleaseSession(d, id).value.st.sessions.Keys == d.st.sessions.Keys - {id}
    ensures TerminateUser(d, uid).st.sessions.Keys == d.st.sessions.Keys - OfUser(d.st, uid)
    ensures TerminateSeat(d, seat).Err? <==> seat !in d.st.seats
    ensures seat in d.st.seats ==>
              TerminateSeat(d, seat).value.st.sessions.Keys == d.st.sessions.Keys - OnSeat(d.st, seat)
  {
    hide Finalize, FinalizeAll, Consistent;
    FinalizeKeys(d, id);
    UserListed(d.st, uid);
    FinalizeAllKeys(d, if uid in d.st.users then d.st.users[uid].sessions else []);
    if seat in d.st.seats {
      SeatListed(d.st, seat);
      FinalizeAllKeys(d, d.st.seats[seat].sessions);
    }
  }

  lemma UserListed(st: State, uid: nat)
    requires Consistent(st)
    ensures var listed := if uid in st.users then st.users[uid].sessions else [];
            (set id | id in listed) == OfUser(st, uid)
  {
    if uid in st.users {
      assert UserOk(st, uid);
    } else {
      forall id | id in st.sessions ensures st.sessions[id].uid != uid { assert SessionOk(st, id); }
    }
  }

  lemma SeatListed(st: State, seat: SeatId)
    requires Consistent(st) && seat in st.seats
    ensures (set id | id in st.seats[seat].sessions) == OnSeat(st, seat)
  {
    assert SeatOk(st, seat);
  }
}
