/** Short sequences of calls, from a freshly started daemon with its one seat, at which the login state or the
    devices go wrong. */
module LoginExamples {
  import opened Common
  import opened Login
  import opened LoginUsers
  import opened SeatDevices

  const EMPTY := Fresh({SEAT0})
  const ON_SEAT0: Option<SeatId> := Some(SEAT0)

  /** The login state after two users log in on the seat, one after the other. */
  function TwoLogins(u: nat, lu: nat, v: nat, lv: nat): State {
    Create(Create(EMPTY, u, lu, ON_SEAT0), v, lv, ON_SEAT0)
  }

  lemma TwoLoginsForm(u: nat, lu: nat, v: nat, lv: nat)
    ensures var st := TwoLogins(u, lu, v, lv);
            && st.sessions == map[1 := Session(u, ON_SEAT0, lu, Active, true), 2 := Session(v, ON_SEAT0, lv, Online, false)]
            && st.seats == map[SEAT0 := Seat([1, 2], Some(1))]
            && st.pids == map[lu := 1][lv := 2] && st.next == 3
            && (u != v ==> st.users == map[u := User([1], Some(1), UserActive), v := User([2], None, UserOnline)])
  {
    var one := Create(EMPTY, u, lu, ON_SEAT0);
    assert one.seats == map[SEAT0 := Seat([1], Some(1))] by { assert [] + [1] == [1]; }
    assert [1] + [2] == [1, 2];
    assert [] + [2] == [2] && [] + [1] == [1];
  }

  lemma TwoLoginsRun(u: nat, lu: nat, v: nat, lv: nat)
    ensures var calls := [CreateCall(u, lu, ""), CreateCall(v, lv, "")];
            HandleAll(Desk(EMPTY, ROOT), calls) == Desk(TwoLogins(u, lu, v, lv), u)
  {
    var d0, c1, c2 := Desk(EMPTY, ROOT), CreateCall(u, lu, ""), CreateCall(v, lv, "");
    assert [c1, c2][..1] == [c1] && [c1][..0] == [];
    var d1 := Handle(d0, c1);
    assert HandleAll(d0, [c1]) == d1 == Desk(Create(EMPTY, u, lu, ON_SEAT0), u);
    assert SEAT0 in d1.st.seats && !FirstOnSeat(d1.st, ON_SEAT0);
    assert HandleAll(d0, [c1, c2]) == Handle(d1, c2);
  }

  /** Two logins with one leader: the first session is no longer found. */
  lemma RepeatedLeaderHides(u: nat, v: nat, pid: nat)
    ensures var st := TwoLogins(u, pid, v, pid); 1 in st.sessions && !Findable(st, 1) && Findable(st, 2)
  {
    TwoLoginsForm(u, pid, v, pid);
  }

  /** When the first of them goes, the second is not found any more either. */
  lemma RemovalHidesTheOther(u: nat, v: nat, pid: nat)
    ensures var st := TwoLogins(u, pid, v, pid);
            && Findable(st, 2) && 2 in Remove(st, 1).sessions
            && pid !in Remove(st, 1).pids && !Findable(Remove(st, 1), 2)
  {
    hide RemainingUsers;
    TwoLoginsForm(u, pid, v, pid);
    FirstLeaves();
  }

  lemma FirstLeaves()
    ensures Without([1, 2], 1) == [2] && Without([1, 2], 2) == [1] && Without([1], 1) == [] && Without([2], 2) == []
  {
    assert [1, 2][1..] == [2] && [2][1..] == [] && [1][1..] == [];
  }

  /** Switching to another user's session leaves both users with the wrong state. */
  lemma ActivationLeavesStatesStale(u: nat, lu: nat, v: nat, lv: nat)
    requires u != v
    ensures var st := TwoLogins(u, lu, v, lv);
            var st' := Activate(st, 2);
            && UsersAccurate(st) && !UsersAccurate(st')
            && u in st'.users && st'.users[u].state == UserActive && !HasActive(st', u, None)
            && v in st'.users && st'.users[v].state == UserOnline && HasActive(st', v, None)
  {
    TwoLoginsForm(u, lu, v, lv);
    var st := TwoLogins(u, lu, v, lv);
    var st' := Activate(st, 2);
    assert HasActive(st, u, None) by { assert st.sessions[1].active; }
    assert st'.sessions == map[1 := Session(u, ON_SEAT0, lu, Online, false), 2 := Session(v, ON_SEAT0, lv, Active, true)];
    assert HasActive(st', v, None) by { assert st'.sessions[2].active; }
  }

  /** When the active session goes, the promoted user is still shown as not active. */
  lemma PromotionLeavesStateStale(u: nat, lu: nat, v: nat, lv: nat)
    requires u != v
    ensures var st := TwoLogins(u, lu, v, lv);
            var st' := Remove(st, 1);
            && !UsersAccurate(st')
            && v in st'.users && st'.users[v].state == UserOnline && HasActive(st', v, None)
  {
    TwoLoginsForm(u, lu, v, lv);
    FirstLeaves();
    var st := TwoLogins(u, lu, v, lv);
    var st' := Remove(st, 1);
    assert Promoted(st, 1) == Some(2);
    assert HasActive(st', v, None) by { assert st'.sessions[2].active; }
    assert st'.users[v] == st.users[v];
  }

  /** Seat.ActivateSession or Session.Activate: the devices stay with the first user. */
  lemma BareActivationLeavesDevices(u: nat, lu: nat, v: nat, lv: nat)
    requires u != v
    ensures var d := HandleAll(Desk(EMPTY, ROOT), [CreateCall(u, lu, ""), CreateCall(v, lv, "")]);
            Follows(d) && !Follows(Desk(Activate(d.st, 2), d.owner))
  {
    TwoLoginsRun(u, lu, v, lv);
    TwoLoginsForm(u, lu, v, lv);
    var st := TwoLogins(u, lu, v, lv);
    assert SeatOwner(st, SEAT0) == u && SeatOwner(Activate(st, 2), SEAT0) == v;
  }

  /** Session.Terminate of the active session: the devices stay with the user who left. */
  lemma BareTerminationLeavesDevices(u: nat, lu: nat, v: nat, lv: nat)
    requires u != v
    ensures var d := HandleAll(Desk(EMPTY, ROOT), [CreateCall(u, lu, ""), CreateCall(v, lv, "")]);
            Follows(d) && !Follows(Desk(Remove(d.st, 1), d.owner))
  {
    hide RemainingUsers, Create, HandleAll, Handle, Without;
    TwoLoginsRun(u, lu, v, lv);
    TwoLoginsForm(u, lu, v, lv);
    FirstLeaves();
    var st := TwoLogins(u, lu, v, lv);
    assert Promoted(st, 1) == Some(2);
    assert SeatOwner(st, SEAT0) == u && SeatOwner(Remove(st, 1), SEAT0) == v;
  }

  /** Seat.Terminate: the devices stay with the user whose session was active. */
  lemma BareSeatTerminationLeavesDevices(u: nat, lu: nat, v: nat, lv: nat)
    requires u != ROOT
    ensures var d := HandleAll(Desk(EMPTY, ROOT), [CreateCall(u, lu, ""), CreateCall(v, lv, "")]);
            && SEAT0 in d.st.seats
            && !Follows(Desk(RemoveAll(d.st, d.st.seats[SEAT0].sessions), d.owner))
  {
    hide DeskOk, HandleAll, RemoveAll;
    TwoLoginsRun(u, lu, v, lv);
    TwoLoginsForm(u, lu, v, lv);
    var calls := [CreateCall(u, lu, ""), CreateCall(v, lv, "")];
    DevicesFollowActiveSession(SEAT0, true, calls);
    BareSeatTerminateExactly(HandleAll(Desk(EMPTY, ROOT), calls), SEAT0);
  }

  /** User.Terminate of the one user logged in: the devices stay with them. */
  lemma BareUserTerminationLeavesDevices(u: nat, pid: nat)
    requires u != ROOT
    ensures var d := HandleAll(Desk(EMPTY, ROOT), [CreateCall(u, pid, "")]);
            Follows(d) && !Follows(Desk(RemoveAll(d.st, UserOf(d.st, u).sessions), d.owner))
  {
    hide RemoveAll, Consistent;
    var d0, c := Desk(EMPTY, ROOT), CreateCall(u, pid, "");
    assert [c][..0] == [] && HandleAll(d0, []) == d0;
    var d := HandleAll(d0, [c]);
    assert d == Handle(d0, c);
    DevicesFollowActiveSession(SEAT0, true, [c]);
    assert SeatUser(d.st, SEAT0) == Some(u);
    BareUserTerminateExactly(d, SEAT0, u);
  }
}
