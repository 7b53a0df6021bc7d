/** Device ownership follows the active session: the Manager's handovers over the login state. */
module SeatDevices {
  import opened Common
  import opened Login

  const ROOT := 0
  const SEAT0 := SeatId("seat0")

  /** The login state and the owner of the session devices; the device list ignores the seat, so
      there is one owner for all seats. */
  datatype Desk = Desk(st: State, owner: nat)

  datatype Result<T> = Ok(value: T) | Err

  /** Who should own the devices of a seat. */
  function SeatOwner(st: State, seat: SeatId): nat
    requires seat in st.seats
  {
    var a := st.seats[seat].active;
    if a.Some? && a.value in st.sessions then st.sessions[a.value].uid else ROOT
  }

  ghost predicate Follows(d: Desk) {
    forall s :: s in d.st.seats ==> d.owner == SeatOwner(d.st, s)
  }

  // ---------- the Manager's methods ----------

  /** An empty seat argument means seat0 where it exists; an unknown seat is refused. */
  function ChooseSeat(st: State, seatArg: string): Result<Option<SeatId>> {
    if seatArg == "" then Ok(if SEAT0 in st.seats then Some(SEAT0) else None)
    else if SeatId(seatArg) in st.seats then Ok(Some(SeatId(seatArg)))
    else Err
  }

  function CreateSession(d: Desk, uid: nat, pid: nat, seatArg: string): Result<Desk> {
    var seat := ChooseSeat(d.st, seatArg);
    if seat.Err? then Err else
    Ok(Desk(Create(d.st, uid, pid, seat.value),
            if FirstOnSeat(d.st, seat.value) && seat.value.Some? then uid else d.owner))
  }

  /** Captured under the lock, acted on after it is released. */
  datatype Handover = Handover(seat: Option<SeatId>, oldUid: Option<nat>, newUid: Option<nat>)

  function HandoverFor(st: State, id: SessionId): Handover {
    if id !in st.sessions then Handover(None, None, None) else
    var s := st.sessions[id];
    var a := if s.seat.Some? && s.seat.value in st.seats then st.seats[s.seat.value].active else None;
    Handover(s.seat,
             if a.Some? && a.value != id && a.value in st.sessions then Some(st.sessions[a.value].uid) else None,
             Some(s.uid))
  }

  function RunHandover(owner: nat, h: Handover): nat {
    if h.seat.None? then owner else
    var reverted := if h.oldUid.Some? && h.newUid != h.oldUid then ROOT else owner;
    if h.newUid.Some? then h.newUid.value else reverted
  }

  function ActivateSession(d: Desk, id: SessionId): Result<Desk> {
    if id !in d.st.sessions then Err
    else Ok(Desk(Activate(d.st, id), RunHandover(d.owner, HandoverFor(d.st, id))))
  }

  function ActivateSessionOnSeat(d: Desk, id: SessionId, seat: SeatId): Result<Desk> {
    if id !in d.st.sessions || d.st.sessions[id].seat != Some(seat) then Err else ActivateSession(d, id)
  }

  /** `finalize_session_removal`: also what release and terminate do once the session is known. */
  function Finalize(d: Desk, id: SessionId): Desk {
    if id !in d.st.sessions then d else
    var s, st' := d.st.sessions[id], Remove(d.st, id);
    var newUid: Option<nat> :=
      if s.seat.Some? && s.seat.value in st'.seats then
        var a := st'.seats[s.seat.value].active;
        if a.Some? && a.value in st'.sessions then Some(st'.sessions[a.value].uid) else None
      else None;
    Desk(st',
         if !s.active || s.seat.None? || newUid == Some(s.uid) then d.owner
         else if newUid.Some? then newUid.value else ROOT)
  }

  function ReleaseSession(d: Desk, id: SessionId): Result<Desk> {
    if id !in d.st.sessions then Err else Ok(Finalize(d, id))
  }

  function FinalizeAll(d: Desk, ids: seq<SessionId>): Desk {
    if ids == [] then d else Finalize(FinalizeAll(d, ids[..|ids| - 1]), ids[|ids| - 1])
  }

  function TerminateUser(d: Desk, uid: nat): Desk {
    FinalizeAll(d, if uid in d.st.users then d.st.users[uid].sessions else [])
  }

  function TerminateSeat(d: Desk, seat: SeatId): Result<Desk> {
    if seat !in d.st.seats then Err else Ok(FinalizeAll(d, d.st.seats[seat].sessions))
  }

  // ---------- one seat ----------

  /** Sessions only name seats that exist. */
  ghost predicate SeatsKnown(st: State) {
    forall id :: id in st.sessions && st.sessions[id].seat.Some? ==> st.sessions[id].seat.value in st.seats
  }

  /** A consistent desk whose machine has at most the one seat, with its devices following it. */
  ghost predicate DeskOk(d: Desk, seat: SeatId) {
    Consistent(d.st) && SeatsKnown(d.st) && d.st.seats.Keys <= {seat} && Follows(d)
  }

  lemma CreateKnown(d: Desk, uid: nat, pid: nat, seatArg: string)
    requires SeatsKnown(d.st) && d.st.next !in d.st.sessions && CreateSession(d, uid, pid, seatArg).Ok?
    ensures var st' := CreateSession(d, uid, pid, seatArg).value.st; SeatsKnown(st') && st'.seats.Keys == d.st.seats.Keys
  {
    hide JoinUser, JoinSeat;
    var st' := CreateSession(d, uid, pid, seatArg).value.st;
    forall id | id in st'.sessions && st'.sessions[id].seat.Some? ensures st'.sessions[id].seat.value in st'.seats {
      if id != d.st.next { assert id in d.st.sessions; }
    }
  }

  lemma CreateOwner(d: Desk, uid: nat, pid: nat, seatArg: string, seat: SeatId)
    requires d.st.seats.Keys <= {seat} && Follows(d) && d.st.next !in d.st.sessions
    requires CreateSession(d, uid, pid, seatArg).Ok?
    requires seat in d.st.seats && d.st.seats[seat].active.Some? ==> d.st.seats[seat].active.value in d.st.sessions
    ensures Follows(CreateSession(d, uid, pid, seatArg).value)
  {
    hide JoinUser;
    if seat in d.st.seats { assert d.owner == SeatOwner(d.st, seat); }
  }

  lemma CreateFollows(d: Desk, uid: nat, pid: nat, seatArg: string, seat: SeatId)
    requires DeskOk(d, seat) && CreateSession(d, uid, pid, seatArg).Ok?
    ensures DeskOk(CreateSession(d, uid, pid, seatArg).value, seat)
  {
    hide Consistent, JoinUser, JoinSeat, SeatsKnown, Follows, Create, FirstOnSeat;
    CreateKeeps(d.st, uid, pid, ChooseSeat(d.st, seatArg).value);
    FreshId(d.st);
    if seat in d.st.seats && d.st.seats[seat].active.Some? { SeatActiveLive(d.st, seat); }
    CreateKnown(d, uid, pid, seatArg);
    CreateOwner(d, uid, pid, seatArg, seat);
  }

  lemma SeatActiveLive(st: State, seat: SeatId)
    requires Consistent(st) && seat in st.seats && st.seats[seat].active.Some?
    ensures var a := st.seats[seat].active.value;
            a in st.sessions && st.sessions[a].seat == Some(seat) && st.sessions[a].active
  {
    assert SeatOk(st, seat);
    assert st.seats[seat].active.value in OnSeat(st, seat);
  }

  lemma ActivateKnown(d: Desk, id: SessionId)
    requires SeatsKnown(d.st) && id in d.st.sessions
    ensures var st' := Activate(d.st, id); SeatsKnown(st') && st'.seats.Keys == d.st.seats.Keys
  {
    var st' := Activate(d.st, id);
    forall x | x in st'.sessions ensures x in d.st.sessions && st'.sessions[x].seat == d.st.sessions[x].seat {}
  }

  lemma ActivateOwner(d: Desk, id: SessionId, seat: SeatId)
    requires SeatsKnown(d.st) && d.st.seats.Keys <= {seat} && Follows(d) && id in d.st.sessions
    ensures Follows(ActivateSession(d, id).value)
  {
    hide Background, Foreground;
    if seat in d.st.seats { assert d.owner == SeatOwner(d.st, seat); }
    var st' := Activate(d.st, id);
    forall x | x in st'.sessions ensures x in d.st.sessions && st'.sessions[x].uid == d.st.sessions[x].uid {
      ModesKeepUid(d.st.sessions[x]);
    }
  }

  lemma ModesKeepUid(s: Session)
    ensures Background(s).uid == s.uid && Foreground(s).uid == s.uid
  {
  }

  lemma ActivateFollows(d: Desk, id: SessionId, seat: SeatId)
    requires DeskOk(d, seat) && id in d.st.sessions
    ensures DeskOk(ActivateSession(d, id).value, seat)
  {
    hide Consistent, SeatsKnown, Follows, Activate, HandoverFor, RunHandover;
    ActivateKeeps(d.st, id);
    ActivateKnown(d, id);
    ActivateOwner(d, id, seat);
  }

  /** What a removal keeps of the other sessions. */
  lemma RemoveKeepsFields(st: State, id: SessionId, x: SessionId)
    requires id in st.sessions && x in Remove(st, id).sessions
    ensures x in st.sessions && Remove(st, id).sessions[x].seat == st.sessions[x].seat
    ensures Remove(st, id).sessions[x].uid == st.sessions[x].uid
  {
    hide RemainingUsers, Without;
  }

  lemma FinalizeKnown(d: Desk, id: SessionId)
    requires SeatsKnown(d.st) && id in d.st.sessions
    ensures var st' := Finalize(d, id).st; SeatsKnown(st') && st'.seats.Keys == d.st.seats.Keys
  {
    hide RemainingUsers, Without;
    var st' := Remove(d.st, id);
    forall x | x in st'.sessions ensures x in d.st.sessions && st'.sessions[x].seat == d.st.sessions[x].seat {
      RemoveKeepsFields(d.st, id, x);
    }
  }

  lemma FinalizeOwner(d: Desk, id: SessionId, seat: SeatId)
    requires Consistent(d.st) && SeatsKnown(d.st) && d.st.seats.Keys <= {seat} && Follows(d) && id in d.st.sessions
    ensures Follows(Finalize(d, id))
  {
    hide Consistent, RemainingUsers, Without;
    if Promoted(d.st, id).Some? { PromotedIsOnSeat(d.st, id); }
    if seat in d.st.seats {
      ForegroundIsActive(d.st, id, seat);
      assert d.owner == SeatOwner(d.st, seat);
    }
    var st' := Remove(d.st, id);
    forall x | x in st'.sessions ensures x in d.st.sessions && st'.sessions[x].uid == d.st.sessions[x].uid {
      RemoveKeepsFields(d.st, id, x);
    }
  }

  lemma FinalizeFollows(d: Desk, id: SessionId, seat: SeatId)
    requires DeskOk(d, seat)
    ensures DeskOk(Finalize(d, id), seat)
  {
    hide Consistent, SeatsKnown, Follows, Remove;
    if id in d.st.sessions {
      RemoveKeeps(d.st, id);
      FinalizeKnown(d, id);
      FinalizeOwner(d, id, seat);
    }
  }

  /** On a known seat, being in the foreground is being the seat's active session. */
  lemma ForegroundIsActive(st: State, id: SessionId, seat: SeatId)
    requires Consistent(st) && id in st.sessions && seat in st.seats
    ensures st.sessions[id].seat == Some(seat) ==> (st.sessions[id].active <==> st.seats[seat].active == Some(id))
    ensures st.seats[seat].active.Some? ==>
            st.seats[seat].active.value in st.sessions && st.sessions[st.seats[seat].active.value].seat == Some(seat)
  {
    assert SeatOk(st, seat);
    if st.sessions[id].seat == Some(seat) { assert id in OnSeat(st, seat); }
    if st.seats[seat].active.Some? { SeatActiveLive(st, seat); }
  }

  lemma {:induction false} FinalizeAllFollows(d: Desk, ids: seq<SessionId>, seat: SeatId)
    requires DeskOk(d, seat)
    ensures DeskOk(FinalizeAll(d, ids), seat)
  {
    hide DeskOk, Finalize;
    if ids != [] {
      FinalizeAllFollows(d, ids[..|ids| - 1], seat);
      FinalizeFollows(FinalizeAll(d, ids[..|ids| - 1]), ids[|ids| - 1], seat);
    }
  }

  // ---------- runs of the Manager ----------

  datatype Call =
    | CreateCall(uid: nat, pid: nat, seatArg: string)
    | ActivateCall(id: SessionId)
    | ActivateOnSeatCall(id: SessionId, seat: SeatId)
    | ReleaseCall(id: SessionId)
    | TerminateUserCall(uid: nat)
    | TerminateSeatCall(seat: SeatId)

  /** A refused call changes nothing. */
  function Handle(d: Desk, c: Call): Desk {
    var r := match c
      case CreateCall(uid, pid, seatArg) => CreateSession(d, uid, pid, seatArg)
      case ActivateCall(id) => ActivateSession(d, id)
      case ActivateOnSeatCall(id, s) => ActivateSessionOnSeat(d, id, s)
      case ReleaseCall(id) => ReleaseSession(d, id)
      case TerminateUserCall(uid) => Ok(TerminateUser(d, uid))
      case TerminateSeatCall(s) => TerminateSeat(d, s);
    if r.Ok? then r.value else d
  }

  function HandleAll(d: Desk, cs: seq<Call>): Desk {
    if cs == [] then d else Handle(HandleAll(d, cs[..|cs| - 1]), cs[|cs| - 1])
  }

  lemma HandleFollows(d: Desk, c: Call, seat: SeatId)
    requires DeskOk(d, seat)
    ensures DeskOk(Handle(d, c), seat)
  {
    hide DeskOk, CreateSession, ActivateSession, Finalize, FinalizeAll;
    match c
    case CreateCall(uid, pid, seatArg) =>
      if CreateSession(d, uid, pid, seatArg).Ok? { CreateFollows(d, uid, pid, seatArg, seat); }
    case ActivateCall(id) =>
      if id in d.st.sessions { ActivateFollows(d, id, seat); } else { UnknownRefused(d, id); }
    case ActivateOnSeatCall(id, _) =>
      if id in d.st.sessions { ActivateFollows(d, id, seat); }
    case ReleaseCall(id) => FinalizeFollows(d, id, seat);
    case TerminateUserCall(uid) => FinalizeAllFollows(d, if uid in d.st.users then d.st.users[uid].sessions else [], seat);
    case TerminateSeatCall(s) => FinalizeAllFollows(d, if s in d.st.seats then d.st.seats[s].sessions else [], seat);
  }

  /** On a machine with at most one seat the devices are, after any sequence of Manager calls, owned
      by the user of the seat's active session, or by root when there is none. */
  lemma {:induction false} DevicesFollowActiveSession(seat: SeatId, present: bool, cs: seq<Call>)
    ensures DeskOk(HandleAll(Desk(Fresh(if present then {seat} else {}), ROOT), cs), seat)
  {
    var seats := if present then {seat} else {};
    if cs == [] {
      RunConsistent(seats, []);
    } else {
      hide DeskOk, Handle;
      DevicesFollowActiveSession(seat, present, cs[..|cs| - 1]);
      HandleFollows(HandleAll(Desk(Fresh(seats), ROOT), cs[..|cs| - 1]), cs[|cs| - 1], seat);
    }
  }

  lemma UnknownRefused(d: Desk, id: SessionId)
    requires id !in d.st.sessions
    ensures ActivateSession(d, id).Err?
  {
  }

  // ---------- if there were more seats ----------

  /** Were a second seat ever added, the devices could not follow both: two first logins of different users suffice. */
  lemma TwoSeatsDisagree(a: SeatId, b: SeatId, ua: nat, ub: nat)
    requires a != b && ua != ub && a.name != "" && b.name != ""
    ensures !Follows(HandleAll(Desk(Fresh({a, b}), ROOT), [CreateCall(ua, 1, a.name), CreateCall(ub, 2, b.name)]))
  {
    var d0 := Desk(Fresh({a, b}), ROOT);
    var c1, c2 := CreateCall(ua, 1, a.name), CreateCall(ub, 2, b.name);
    var d1 := Handle(d0, c1);
    assert SeatId(a.name) == a && SeatId(b.name) == b;
    assert [c1, c2][..1] == [c1] && [c1][..0] == [];
    assert HandleAll(d0, [c1]) == d1;
    var d2 := Handle(d1, c2);
    assert HandleAll(d0, [c1, c2]) == d2;
    assert SeatOwner(d2.st, a) == ua && d2.owner == ub;
  }

  /** One login on one of two seats would take the devices from the other, which has no session. */
  lemma LoginLeavesOtherSeat(seats: set<SeatId>, a: SeatId, b: SeatId)
    requires a in seats && b in seats && a != b && a.name != ""
    ensures !Follows(HandleAll(Desk(Fresh(seats), ROOT), [CreateCall(1, 1, a.name)]))
  {
    var d0, c := Desk(Fresh(seats), ROOT), CreateCall(1, 1, a.name);
    assert SeatId(a.name) == a && [c][..0] == [];
    var d := Handle(d0, c);
    assert HandleAll(d0, [c]) == d;
    assert SeatOwner(d.st, b) == ROOT && d.owner == 1;
  }

  /** The devices follow the active session over every sequence of calls exactly as long as there is at most one
      seat. The daemon only ever creates one; this says what adding seats would need. */
  lemma FollowsExactly(seats: set<SeatId>)
    ensures (forall cs: seq<Call> :: Follows(HandleAll(Desk(Fresh(seats), ROOT), cs))) <==> |seats| <= 1
  {
    hide Follows, HandleAll;
    if |seats| <= 1 {
      var seat := SEAT0;
      if seats != {} {
        seat :| seat in seats;
        assert |seats - {seat}| == |seats| - 1;
        assert seats == {seat} + (seats - {seat});
      }
      forall cs: seq<Call> ensures Follows(HandleAll(Desk(Fresh(seats), ROOT), cs)) {
        DevicesFollowActiveSession(seat, seats != {}, cs);
      }
    } else {
      var a :| a in seats;
      assert |seats - {a}| == |seats| - 1;
      var b :| b in seats - {a};
      if a.name != "" { LoginLeavesOtherSeat(seats, a, b); } else { LoginLeavesOtherSeat(seats, b, a); }
    }
  }

  // ---------- the other interfaces ----------

  /** Seat.ActivateSession and Session.Activate switch the session without any handover: the devices
      still follow exactly when the new session belongs to their present owner. */
  lemma BareActivateExactly(d: Desk, id: SessionId, seat: SeatId)
    requires DeskOk(d, seat) && id in d.st.sessions && d.st.sessions[id].seat == Some(seat)
    ensures Follows(Desk(Activate(d.st, id), d.owner)) <==> d.st.sessions[id].uid == d.owner
  {
    hide Consistent;
    assert seat in d.st.seats;
    assert SeatOwner(Activate(d.st, id), seat) == d.st.sessions[id].uid;
  }

  /** Session.Terminate removes the session without any handover: harmless exactly when it was not the active
      one, or when the next owner is the same. */
  lemma BareRemoveExactly(d: Desk, id: SessionId, seat: SeatId)
    requires DeskOk(d, seat) && id in d.st.sessions && d.st.sessions[id].seat == Some(seat)
    ensures Promoted(d.st, id).Some? ==> Promoted(d.st, id).value in d.st.sessions
    ensures Follows(Desk(Remove(d.st, id), d.owner)) <==>
            var p := Promoted(d.st, id);
            || !d.st.sessions[id].active
            || (if p.Some? then d.st.sessions[p.value].uid == d.st.sessions[id].uid else d.st.sessions[id].uid == ROOT)
  {
    assert seat in d.st.seats;
    if Promoted(d.st, id).Some? { PromotedIsOnSeat(d.st, id); }
    ForegroundIsActive(d.st, id, seat);
    hide Consistent, RemainingUsers, Without;
    var st' := Remove(d.st, id);
    assert st'.seats.Keys == {seat} && d.owner == SeatOwner(d.st, seat);
    if d.st.sessions[id].active {
      assert st'.seats[seat].active == Promoted(d.st, id);
    } else {
      assert st'.seats[seat].active == d.st.seats[seat].active;
    }
    assert Follows(Desk(st', d.owner)) <==> d.owner == SeatOwner(st', seat);
  }

  /** What Seat.Terminate and User.Terminate do to the login state: one bare removal after another. */
  function RemoveAll(st: State, ids: seq<SessionId>): State {
    if ids == [] then st else Remove(RemoveAll(st, ids[..|ids| - 1]), ids[|ids| - 1])
  }

  function Members(ids: seq<SessionId>): set<SessionId> { set x | x in ids }

  /** What is left of `st` in `st'`: the sessions outside `gone`, on their seats, and every active session
      outside `gone` still active. */
  ghost predicate LeftOver(st: State, st': State, gone: set<SessionId>) {
    && st'.sessions.Keys == st.sessions.Keys - gone && st'.seats.Keys == st.seats.Keys
    && (forall x :: x in st'.sessions ==> x in st.sessions && st'.sessions[x].uid == st.sessions[x].uid
                                          && st'.sessions[x].seat == st.sessions[x].seat)
    && (forall s :: s in st.seats && s in st'.seats && (st.seats[s].active.Some? ==> st.seats[s].active.value !in gone) ==>
          st'.seats[s].active == st.seats[s].active)
  }

  lemma RemoveLeaves(st: State, id: SessionId)
    ensures LeftOver(st, Remove(st, id), {id})
  {
    hide RemainingUsers, Without;
    if id in st.sessions {
      forall x | x in Remove(st, id).sessions
        ensures x in st.sessions && Remove(st, id).sessions[x].uid == st.sessions[x].uid
        ensures Remove(st, id).sessions[x].seat == st.sessions[x].seat
      {
        RemoveKeepsFields(st, id, x);
      }
    }
  }

  lemma LeftOverTransitive(a: State, b: State, c: State, gone: set<SessionId>, id: SessionId)
    requires LeftOver(a, b, gone) && LeftOver(b, c, {id})
    ensures LeftOver(a, c, gone + {id})
  {
  }

  lemma {:induction false} RemoveAllLeaves(st: State, ids: seq<SessionId>)
    requires Consistent(st)
    ensures Consistent(RemoveAll(st, ids)) && LeftOver(st, RemoveAll(st, ids), Members(ids))
  {
    hide Consistent, LeftOver, Remove;
    if ids == [] {
      NothingGone(st);
      assert Members(ids) == {};
    } else {
      var init, last := ids[..|ids| - 1], ids[|ids| - 1];
      RemoveAllLeaves(st, init);
      RemoveKeeps(RemoveAll(st, init), last);
      RemoveLeaves(RemoveAll(st, init), last);
      LeftOverTransitive(st, RemoveAll(st, init), RemoveAll(st, ids), Members(init), last);
      assert ids == init + [last];
      assert Members(ids) == Members(init) + {last};
    }
  }

  lemma NothingGone(st: State)
    ensures LeftOver(st, st, {})
  {
  }

  /** Whose session is active on the seat, if any is. */
  function SeatUser(st: State, seat: SeatId): Option<nat> {
    if seat in st.seats && st.seats[seat].active.Some? && st.seats[seat].active.value in st.sessions
    then Some(st.sessions[st.seats[seat].active.value].uid) else None
  }

  lemma SeatLists(st: State, seat: SeatId)
    requires Consistent(st) && seat in st.seats
    ensures forall x :: x in st.seats[seat].sessions <==> x in OnSeat(st, seat)
    ensures st.seats[seat].active.Some? <==> OnSeat(st, seat) != {}
    ensures st.seats[seat].active.Some? ==> st.seats[seat].active.value in OnSeat(st, seat)
  {
    assert SeatOk(st, seat);
    if st.seats[seat].sessions != [] { assert st.seats[seat].sessions[0] in OnSeat(st, seat); }
  }

  lemma UserLists(st: State, uid: nat, x: SessionId)
    requires Consistent(st)
    ensures x in UserOf(st, uid).sessions <==> x in OfUser(st, uid)
  {
    forall y | y in st.sessions ensures st.sessions[y].uid in st.users { assert SessionOk(st, y); }
    if uid in st.users { assert UserOk(st, uid); }
  }

  /** Seat.Terminate leaves the devices with the right owner exactly when root had them already. */
  lemma BareSeatTerminateExactly(d: Desk, seat: SeatId)
    requires DeskOk(d, seat) && seat in d.st.seats
    ensures Follows(Desk(RemoveAll(d.st, d.st.seats[seat].sessions), d.owner)) <==> d.owner == ROOT
  {
    hide Consistent, RemoveAll;
    var ids := d.st.seats[seat].sessions;
    var st' := RemoveAll(d.st, ids);
    RemoveAllLeaves(d.st, ids);
    SeatLists(d.st, seat);
    SeatLists(st', seat);
    assert OnSeat(st', seat) == OnSeat(d.st, seat) - Members(ids) == {};
    assert SeatOwner(st', seat) == ROOT;
  }

  /** User.Terminate does so exactly when the seat was not theirs, or they are root and nobody else is on it. */
  lemma BareUserTerminateExactly(d: Desk, seat: SeatId, uid: nat)
    requires DeskOk(d, seat)
    ensures Follows(Desk(RemoveAll(d.st, UserOf(d.st, uid).sessions), d.owner)) <==>
            SeatUser(d.st, seat) != Some(uid) || (uid == ROOT && OnSeat(d.st, seat) <= OfUser(d.st, uid))
  {
    hide Consistent, RemoveAll, UserOf;
    var ids := UserOf(d.st, uid).sessions;
    var st' := RemoveAll(d.st, ids);
    RemoveAllLeaves(d.st, ids);
    forall x ensures x in ids <==> x in OfUser(d.st, uid) { UserLists(d.st, uid, x); }
    if seat in d.st.seats {
      SeatLists(d.st, seat);
      SeatLists(st', seat);
      UserLeavesSeat(d.st, st', seat, uid, ids);
      assert Follows(Desk(st', d.owner)) <==> d.owner == SeatOwner(st', seat);
    }
  }

  /** The seat after a user's sessions are gone: as before if it was not theirs, else somebody else's or nobody's. */
  lemma UserLeavesSeat(st: State, st': State, seat: SeatId, uid: nat, ids: seq<SessionId>)
    requires seat in st.seats && seat in st'.seats && LeftOver(st, st', Members(ids))
    requires forall x :: x in ids <==> x in OfUser(st, uid)
    requires st.seats[seat].active.Some? <==> OnSeat(st, seat) != {}
    requires st.seats[seat].active.Some? ==> st.seats[seat].active.value in OnSeat(st, seat)
    requires st'.seats[seat].active.Some? <==> OnSeat(st', seat) != {}
    requires st'.seats[seat].active.Some? ==> st'.seats[seat].active.value in OnSeat(st', seat)
    ensures SeatUser(st, seat) != Some(uid) ==> SeatOwner(st', seat) == SeatOwner(st, seat)
    ensures SeatUser(st, seat) == Some(uid) ==>
              (SeatOwner(st', seat) == uid <==> uid == ROOT && OnSeat(st, seat) <= OfUser(st, uid))
  {
    assert OnSeat(st', seat) == OnSeat(st, seat) - OfUser(st, uid);
    if OnSeat(st', seat) == {} {
      forall x | x in OnSeat(st, seat) ensures x in OfUser(st, uid) { assert x !in OnSeat(st', seat); }
    } else { assert st'.sessions[st'.seats[seat].active.value].uid != uid; }
  }
}
