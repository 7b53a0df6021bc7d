/** Runs that mix the Manager's calls with the Seat, Session and User interfaces, which leave the devices alone: who owns
    the devices, and which calls put ownership right again. */
module SeatRepairs {
  import opened Common
  import opened Login
  import opened SeatDevices

  /** A consistent machine with its one seat, whoever owns the devices. */
  ghost predicate Sound(d: Desk, seat: SeatId) {
    Consistent(d.st) && SeatsKnown(d.st) && d.st.seats.Keys == {seat}
  }

  /** Who should own the devices. */
  function Due(st: State, seat: SeatId): nat {
    var u := SeatUser(st, seat);
    if u.Some? then u.value else ROOT
  }

  lemma FollowsIsDue(d: Desk, seat: SeatId)
    requires d.st.seats.Keys == {seat}
    ensures Follows(d) <==> d.owner == Due(d.st, seat)
  {
    assert seat in d.st.seats;
  }

  // ---------- calls that hand the devices over ----------

  /** The seat changes hands when the session goes. */
  predicate Frees(st: State, seat: SeatId, id: SessionId) {
    && id in st.sessions && seat in st.seats && st.seats[seat].active == Some(id)
    && var p := Promoted(st, id);
       p.Some? && p.value in st.sessions ==> st.sessions[p.value].uid != st.sessions[id].uid
  }

  predicate OnTheSeat(st: State, seat: SeatId, id: SessionId) { id in st.sessions && st.sessions[id].seat == Some(seat) }

  /** The Manager calls that hand the devices over: the first login on the seat, every activation on it, and every
      removal after which the seat is another user's or nobody's. */
  predicate Repairs(d: Desk, seat: SeatId, c: Call) {
    match c
    case CreateCall(uid, pid, seatArg) =>
      var chosen := ChooseSeat(d.st, seatArg);
      chosen.Ok? && chosen.value == Some(seat) && FirstOnSeat(d.st, chosen.value)
    case ActivateCall(id) => OnTheSeat(d.st, seat, id)
    case ActivateOnSeatCall(id, s) => s == seat && OnTheSeat(d.st, seat, id)
    case ReleaseCall(id) => Frees(d.st, seat, id)
    case TerminateUserCall(uid) => SeatUser(d.st, seat) == Some(uid)
    case TerminateSeatCall(s) => s == seat && SeatUser(d.st, seat).Some?
  }

  /** A call either puts ownership right, or changes neither the owner nor whose the seat is. */
  ghost predicate Settles(d: Desk, d': Desk, seat: SeatId, repairs: bool) {
    && Sound(d', seat)
    && (if repairs then d'.owner == Due(d'.st, seat)
        else d'.owner == d.owner && SeatUser(d'.st, seat) == SeatUser(d.st, seat))
  }

  lemma NothingSettled(d: Desk, seat: SeatId)
    requires Sound(d, seat)
    ensures Settles(d, d, seat, false)
  {
  }

  lemma CreateSettles(d: Desk, seat: SeatId, uid: nat, pid: nat, seatArg: string)
    requires Sound(d, seat) && CreateSession(d, uid, pid, seatArg).Ok?
    ensures Settles(d, CreateSession(d, uid, pid, seatArg).value, seat, Repairs(d, seat, CreateCall(uid, pid, seatArg)))
  {
    hide Consistent, JoinUser, SeatsKnown;
    CreateKeeps(d.st, uid, pid, ChooseSeat(d.st, seatArg).value);
    FreshId(d.st);
    CreateKnown(d, uid, pid, seatArg);
    if d.st.seats[seat].active.Some? { SeatActiveLive(d.st, seat); }
  }

  lemma ActivateSettles(d: Desk, seat: SeatId, id: SessionId)
    requires Sound(d, seat) && id in d.st.sessions
    ensures ActivateSession(d, id).Ok? && Settles(d, ActivateSession(d, id).value, seat, OnTheSeat(d.st, seat, id))
  {
    hide Consistent, SeatsKnown;
    ActivateKeeps(d.st, id);
    ActivateKnown(d, id);
    ActivateSeatUser(d.st, seat, id);
  }

  lemma ActivateSeatUser(st: State, seat: SeatId, id: SessionId)
    requires SeatsKnown(st) && st.seats.Keys == {seat} && id in st.sessions
    ensures SeatUser(Activate(st, id), seat) ==
            if OnTheSeat(st, seat, id) then Some(st.sessions[id].uid) else SeatUser(st, seat)
    ensures !OnTheSeat(st, seat, id) ==> st.sessions[id].seat.None?
  {
  }

  /** What a removal makes of the seat. */
  lemma RemoveSeatUser(st: State, seat: SeatId, id: SessionId)
    requires Consistent(st) && st.seats.Keys == {seat} && id in st.sessions
    ensures var p := Promoted(st, id);
            SeatUser(Remove(st, id), seat) ==
            if st.seats[seat].active != Some(id) then SeatUser(st, seat)
            else if p.Some? && p.value in st.sessions then Some(st.sessions[p.value].uid) else None
    ensures st.seats[seat].active == Some(id) ==>
              st.sessions[id].seat == Some(seat) && SeatUser(st, seat) == Some(st.sessions[id].uid)
  {
    hide Consistent, RemainingUsers, Without;
    if st.seats[seat].active.Some? { SeatActiveLive(st, seat); }
    if Promoted(st, id).Some? { PromotedIsOnSeat(st, id); }
  }

  lemma FinalizeSettles(d: Desk, seat: SeatId, id: SessionId)
    requires Sound(d, seat)
    ensures Settles(d, Finalize(d, id), seat, Frees(d.st, seat, id))
  {
    hide Consistent, SeatsKnown, Remove, Promoted;
    if id in d.st.sessions {
      RemoveKeeps(d.st, id);
      FinalizeKnown(d, id);
      RemoveSeatUser(d.st, seat, id);
      FinalizeOwnerIs(d, seat, id);
    }
  }

  /** The owner after a removal, in terms of whose the seat then is. */
  lemma FinalizeOwnerIs(d: Desk, seat: SeatId, id: SessionId)
    requires Sound(d, seat) && id in d.st.sessions
    ensures Finalize(d, id).owner ==
            var u := SeatUser(Remove(d.st, id), seat);
            if d.st.seats[seat].active != Some(id) || u == Some(d.st.sessions[id].uid) then d.owner
            else Due(Remove(d.st, id), seat)
  {
    hide Consistent, Remove, Promoted;
    ForegroundIsActive(d.st, id, seat);
    RemoveSeatUser(d.st, seat, id);
    assert Remove(d.st, id).seats.Keys == d.st.seats.Keys by { RemoveLeaves(d.st, id); }
    assert d.st.sessions[id].seat.Some? ==> d.st.sessions[id].seat == Some(seat);
  }

  // ---------- removing a list ----------

  lemma {:induction false} FinalizeAllState(d: Desk, ids: seq<SessionId>)
    ensures FinalizeAll(d, ids).st == RemoveAll(d.st, ids)
  {
    if ids != [] { FinalizeAllState(d, ids[..|ids| - 1]); }
  }

  /** Removing a list ends with ownership right, or leaves the owner and the seat as they were. */
  lemma {:induction false} FinalizeAllSettles(d: Desk, seat: SeatId, ids: seq<SessionId>)
    requires Sound(d, seat)
    ensures var d' := FinalizeAll(d, ids);
            Settles(d, d', seat, true) || Settles(d, d', seat, false)
    ensures seat in d.st.seats
    ensures (d.st.seats[seat].active.Some? ==> d.st.seats[seat].active.value !in ids) ==>
              Settles(d, FinalizeAll(d, ids), seat, false)
    decreases |ids|
  {
    hide Sound, Finalize, Frees, SeatUser;
    SoundSeat(d, seat);
    if ids == [] {
      NothingSettled(d, seat);
    } else {
      var init, last := ids[..|ids| - 1], ids[|ids| - 1];
      var mid := FinalizeAll(d, init);
      FinalizeAllSettles(d, seat, init);
      FinalizeSettles(mid, seat, last);
      if d.st.seats[seat].active.Some? ==> d.st.seats[seat].active.value !in ids {
        ActiveStays(d, seat, init);
        NotFreed(mid.st, seat, last);
      }
    }
  }

  lemma SoundSeat(d: Desk, seat: SeatId)
    requires Sound(d, seat)
    ensures seat in d.st.seats
  {
  }

  lemma ActiveStays(d: Desk, seat: SeatId, ids: seq<SessionId>)
    requires Sound(d, seat) && (d.st.seats[seat].active.Some? ==> d.st.seats[seat].active.value !in ids)
    ensures seat in FinalizeAll(d, ids).st.seats
    ensures FinalizeAll(d, ids).st.seats[seat].active == d.st.seats[seat].active
  {
    hide Consistent, RemoveAll, FinalizeAll;
    FinalizeAllState(d, ids);
    RemoveAllLeaves(d.st, ids);
  }

  lemma NotFreed(st: State, seat: SeatId, id: SessionId)
    requires seat in st.seats && st.seats[seat].active != Some(id)
    ensures !Frees(st, seat, id)
  {
  }

  lemma TerminateUserSettles(d: Desk, seat: SeatId, uid: nat)
    requires Sound(d, seat)
    ensures Settles(d, TerminateUser(d, uid), seat, SeatUser(d.st, seat) == Some(uid))
  {
    hide Consistent, FinalizeAll, RemoveAll, SeatsKnown;
    var ids := if uid in d.st.users then d.st.users[uid].sessions else [];
    var d' := FinalizeAll(d, ids);
    FinalizeAllSettles(d, seat, ids);
    FinalizeAllState(d, ids);
    RemoveAllLeaves(d.st, ids);
    forall x ensures x in ids <==> x in OfUser(d.st, uid) {
      UserLists(d.st, uid, x);
      assert x in UserOf(d.st, uid).sessions <==> x in ids;
    }
    SeatLists(d.st, seat);
    SeatLists(d'.st, seat);
    if SeatUser(d.st, seat) == Some(uid) {
      assert SeatUser(d'.st, seat) != Some(uid);
    }
  }

  lemma TerminateSeatSettles(d: Desk, seat: SeatId)
    requires Sound(d, seat)
    ensures Settles(d, TerminateSeat(d, seat).value, seat, SeatUser(d.st, seat).Some?)
  {
    hide Consistent, FinalizeAll, RemoveAll, SeatsKnown;
    var ids := d.st.seats[seat].sessions;
    var d' := FinalizeAll(d, ids);
    FinalizeAllSettles(d, seat, ids);
    FinalizeAllState(d, ids);
    RemoveAllLeaves(d.st, ids);
    SeatLists(d.st, seat);
    SeatLists(d'.st, seat);
    assert OnSeat(d'.st, seat) == OnSeat(d.st, seat) - Members(ids) == {};
  }

  /** Every Manager call puts ownership right if it is one of those, and otherwise changes neither the owner nor whose
      the seat is. */
  lemma CallSettles(d: Desk, seat: SeatId, c: Call)
    requires Sound(d, seat)
    ensures Settles(d, Handle(d, c), seat, Repairs(d, seat, c))
  {
    hide Settles, CreateSession, ActivateSession, Finalize, TerminateUser, SeatUser, Frees, FirstOnSeat;
    NothingSettled(d, seat);
    match c
    case CreateCall(uid, pid, seatArg) =>
      CreateRefused(d, seat, uid, pid, seatArg);
      if CreateSession(d, uid, pid, seatArg).Ok? { CreateSettles(d, seat, uid, pid, seatArg); }
    case ActivateCall(id) =>
      if id in d.st.sessions { ActivateSettles(d, seat, id); } else { UnknownRefused(d, id); }
    case ActivateOnSeatCall(id, s) => ActivateOnSeatSettles(d, seat, id, s);
    case ReleaseCall(id) => FinalizeSettles(d, seat, id);
      if id !in d.st.sessions { NobodyFreed(d.st, seat, id); }
    case TerminateUserCall(uid) => TerminateUserSettles(d, seat, uid);
    case TerminateSeatCall(s) =>
      if s == seat { TerminateSeatSettles(d, seat); }
  }

  lemma NobodyFreed(st: State, seat: SeatId, id: SessionId)
    requires id !in st.sessions
    ensures !Frees(st, seat, id)
  {
  }

  lemma CreateRefused(d: Desk, seat: SeatId, uid: nat, pid: nat, seatArg: string)
    ensures CreateSession(d, uid, pid, seatArg).Err? <==> ChooseSeat(d.st, seatArg).Err?
  {
  }

  lemma ActivateOnSeatSettles(d: Desk, seat: SeatId, id: SessionId, s: SeatId)
    requires Sound(d, seat)
    ensures Settles(d, Handle(d, ActivateOnSeatCall(id, s)), seat, s == seat && OnTheSeat(d.st, seat, id))
  {
    hide Consistent, ActivateSession, Settles;
    NothingSettled(d, seat);
    if id in d.st.sessions { ActivateSettles(d, seat, id); } else { UnknownRefused(d, id); }
    assert id in d.st.sessions && d.st.sessions[id].seat.Some? ==> d.st.sessions[id].seat.value in d.st.seats;
  }

  // ---------- mixed runs ----------

  /** A call on the Manager, or one that changes the login state behind its back: an activation, or the removal of one
      session, of a seat's sessions or of a user's. */
  datatype Mixed = Managed(call: Call) | BareActivate(id: SessionId) | BareRemove(ids: seq<SessionId>)

  function Act(d: Desk, m: Mixed): Desk {
    match m
    case Managed(c) => Handle(d, c)
    case BareActivate(id) => Desk(Activate(d.st, id), d.owner)
    case BareRemove(ids) => Desk(RemoveAll(d.st, ids), d.owner)
  }

  function ActAll(d: Desk, ms: seq<Mixed>): Desk {
    if ms == [] then d else Act(ActAll(d, ms[..|ms| - 1]), ms[|ms| - 1])
  }

  function Start(seat: SeatId): Desk { Desk(Fresh({seat}), ROOT) }

  /** How many calls there were when the devices were last handed over; 0 if never. */
  function LastRepair(seat: SeatId, ms: seq<Mixed>): (k: nat)
    ensures k <= |ms|
  {
    if ms == [] then 0 else
    var n := |ms| - 1;
    if ms[n].Managed? && Repairs(ActAll(Start(seat), ms[..n]), seat, ms[n].call) then n + 1 else LastRepair(seat, ms[..n])
  }

  lemma ActKeepsSound(d: Desk, seat: SeatId, m: Mixed)
    requires Sound(d, seat)
    ensures Sound(Act(d, m), seat)
  {
    hide Consistent, Handle, RemoveAll, Activate;
    match m
    case Managed(c) => CallSettles(d, seat, c);
    case BareActivate(id) =>
      ActivateKeeps(d.st, id);
      if id in d.st.sessions { ActivateKnown(d, id); } else { NoActivation(d.st, id); }
    case BareRemove(ids) => RemoveAllLeaves(d.st, ids);
  }

  lemma NoActivation(st: State, id: SessionId)
    requires id !in st.sessions
    ensures Activate(st, id) == st
  {
  }

  lemma StartIsSound(seat: SeatId)
    ensures Sound(Start(seat), seat) && Due(Start(seat).st, seat) == ROOT
  {
    RunConsistent({seat}, []);
  }

  /** Over every mixed run the owner is whoever was due when the devices were last handed over. */
  lemma {:induction false} OwnerIsLastDue(seat: SeatId, ms: seq<Mixed>)
    ensures Sound(ActAll(Start(seat), ms), seat)
    ensures ActAll(Start(seat), ms).owner == Due(ActAll(Start(seat), ms[..LastRepair(seat, ms)]).st, seat)
  {
    hide Sound, Due, Repairs, Handle;
    if ms == [] {
      StartIsSound(seat);
      assert ms[..0] == [];
    } else {
      var n := |ms| - 1;
      var init := ms[..n];
      OwnerIsLastDue(seat, init);
      var d := ActAll(Start(seat), init);
      ActKeepsSound(d, seat, ms[n]);
      assert ms[..n + 1] == ms;
      assert ms[..LastRepair(seat, init)] == init[..LastRepair(seat, init)];
      if ms[n].Managed? { CallSettles(d, seat, ms[n].call); }
    }
  }

  /** So the devices follow the active session exactly when the seat is whose it was at the last handover. */
  lemma MixedFollowsExactly(seat: SeatId, ms: seq<Mixed>)
    ensures Follows(ActAll(Start(seat), ms)) <==>
            Due(ActAll(Start(seat), ms).st, seat) == Due(ActAll(Start(seat), ms[..LastRepair(seat, ms)]).st, seat)
  {
    hide Due, ActAll, LastRepair, Consistent, SeatsKnown, Follows;
    OwnerIsLastDue(seat, ms);
    FollowsIsDue(ActAll(Start(seat), ms), seat);
  }
}
