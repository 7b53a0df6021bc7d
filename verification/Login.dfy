/** The login state as a value: sessions, seats, users and leader pids, and their consistency. */
module Login {
  import opened Common

  /** Decimal counter values; the source keeps them as strings. */
  type SessionId = nat
  datatype SeatId = SeatId(name: string)

  datatype SessionState = Online | Active | Closing
  datatype Session = Session(uid: nat, seat: Option<SeatId>, leader: nat, state: SessionState, active: bool)
  datatype Seat = Seat(sessions: seq<SessionId>, active: Option<SessionId>)
  datatype UserState = UserOnline | UserActive
  datatype User = User(sessions: seq<SessionId>, display: Option<SessionId>, state: UserState)

  datatype State = State(
    sessions: map<SessionId, Session>,
    seats: map<SeatId, Seat>,
    users: map<nat, User>,
    pids: map<nat, SessionId>,
    next: SessionId)

  // ---------- operations ----------

  /** No seat, an unknown seat, or a seat without an active session. */
  predicate FirstOnSeat(st: State, seat: Option<SeatId>) {
    seat.Some? && seat.value in st.seats ==> st.seats[seat.value].active.None?
  }

  function Foreground(s: Session): Session { s.(active := true, state := Active) }
  function Background(s: Session): Session { s.(active := false, state := Online) }

  function JoinSeat(seat: Seat, id: SessionId, first: bool): Seat {
    Seat(seat.sessions + [id], if first then Some(id) else seat.active)
  }

  function JoinUser(user: User, id: SessionId, first: bool): User {
    User(user.sessions + [id], if first then Some(id) else user.display, if first then UserActive else user.state)
  }

  function UserOf(st: State, uid: nat): User {
    if uid in st.users then st.users[uid] else User([], None, UserOnline)
  }

  function Create(st: State, uid: nat, leader: nat, seat: Option<SeatId>): State {
    var id, first := st.next, FirstOnSeat(st, seat);
    State(
      st.sessions[id := Session(uid, seat, leader, if first then Active else Online, first)],
      if seat.Some? && seat.value in st.seats
      then st.seats[seat.value := JoinSeat(st.seats[seat.value], id, first)] else st.seats,
      st.users[uid := JoinUser(UserOf(st, uid), id, first)],
      st.pids[leader := id],
      id + 1)
  }

  function Without(s: seq<SessionId>, id: SessionId): seq<SessionId> {
    if s == [] then [] else (if s[0] == id then [] else [s[0]]) + Without(s[1..], id)
  }

  function First(s: seq<SessionId>): Option<SessionId> { if s == [] then None else Some(s[0]) }

  /** A seat after one of its sessions is gone: the longest-standing session moves up. */
  function LeaveSeat(seat: Seat, id: SessionId): Seat {
    var rest := Without(seat.sessions, id);
    Seat(rest, if seat.active == Some(id) then First(rest) else seat.active)
  }

  /** The session promoted when `id` leaves the foreground of its seat, if any. */
  function Promoted(st: State, id: SessionId): Option<SessionId>
    requires id in st.sessions
  {
    var seat := st.sessions[id].seat;
    if seat.Some? && seat.value in st.seats && st.seats[seat.value].active == Some(id)
    then First(Without(st.seats[seat.value].sessions, id)) else None
  }

  function RemainingSessions(st: State, id: SessionId): map<SessionId, Session>
    requires id in st.sessions
  {
    var p, rest := Promoted(st, id), st.sessions - {id};
    if p.Some? && p.value in rest then rest[p.value := Foreground(rest[p.value])] else rest
  }

  function LeaveUser(user: User, id: SessionId, sessions: map<SessionId, Session>): User {
    var rest := Without(user.sessions, id);
    User(rest, if user.display == Some(id) then First(rest) else user.display,
         if exists s :: s in rest && s in sessions && sessions[s].state == Active then UserActive else UserOnline)
  }

  function RemainingUsers(st: State, id: SessionId): map<nat, User>
    requires id in st.sessions
  {
    var uid := st.sessions[id].uid;
    if uid !in st.users then st.users
    else if Without(st.users[uid].sessions, id) == [] then st.users - {uid}
    else st.users[uid := LeaveUser(st.users[uid], id, RemainingSessions(st, id))]
  }

  function Remove(st: State, id: SessionId): State {
    if id !in st.sessions then st else
    var s := st.sessions[id];
    State(
      RemainingSessions(st, id),
      if s.seat.Some? && s.seat.value in st.seats
      then st.seats[s.seat.value := LeaveSeat(st.seats[s.seat.value], id)] else st.seats,
      RemainingUsers(st, id),
      st.pids - {s.leader},
      st.next)
  }

  /** Sessions after `id` has displaced the active session of its seat. */
  function Displaced(st: State, id: SessionId): map<SessionId, Session>
    requires id in st.sessions
  {
    var seat := st.sessions[id].seat;
    if seat.Some? && seat.value in st.seats then
      var old_ := st.seats[seat.value].active;
      if old_.Some? && old_.value != id && old_.value in st.sessions
      then st.sessions[old_.value := Background(st.sessions[old_.value])] else st.sessions
    else st.sessions
  }

  function Activate(st: State, id: SessionId): State {
    if id !in st.sessions || st.sessions[id].seat.None? then st else
    var seat := st.sessions[id].seat.value;
    st.(sessions := Displaced(st, id)[id := Foreground(st.sessions[id])],
        seats := if seat in st.seats then st.seats[seat := st.seats[seat].(active := Some(id))] else st.seats)
  }

  // ---------- consistency ----------

  /** `list` holds each of `members` once. */
  ghost predicate Lists(list: seq<SessionId>, members: set<SessionId>) {
    Distinct(list) && forall id :: id in list <==> id in members
  }

  function OnSeat(st: State, seat: SeatId): set<SessionId> {
    set id | id in st.sessions && st.sessions[id].seat == Some(seat)
  }

  function OfUser(st: State, uid: nat): set<SessionId> {
    set id | id in st.sessions && st.sessions[id].uid == uid
  }

  /** A seat lists its live sessions; unless empty, exactly its active session is in the foreground. */
  ghost predicate SeatOk(st: State, seat: SeatId)
    requires seat in st.seats
  {
    var s := st.seats[seat];
    && Lists(s.sessions, OnSeat(st, seat))
    && (if s.active.None? then s.sessions == [] else s.active.value in s.sessions)
    && forall id :: id in OnSeat(st, seat) ==> (st.sessions[id].active <==> s.active == Some(id))
  }

  /** A user lists their live sessions, has at least one, and shows one of them. */
  ghost predicate UserOk(st: State, uid: nat)
    requires uid in st.users
  {
    var u := st.users[uid];
    && Lists(u.sessions, OfUser(st, uid)) && u.sessions != []
    && (u.display.Some? ==> u.display.value in u.sessions)
  }

  ghost predicate SessionOk(st: State, id: SessionId)
    requires id in st.sessions
  {
    var s := st.sessions[id];
    && id < st.next && s.uid in st.users
    && (s.active <==> s.state == Active) && s.state != Closing
    && (s.seat.None? || s.seat.value !in st.seats ==> s.active)
  }

  ghost predicate Consistent(st: State) {
    && (forall id :: id in st.sessions ==> SessionOk(st, id))
    && (forall seat :: seat in st.seats ==> SeatOk(st, seat))
    && (forall uid :: uid in st.users ==> UserOk(st, uid))
    && PidsOk(st)
  }

  // ---------- lists ----------

  lemma {:induction false} WithoutMembers(s: seq<SessionId>, id: SessionId)
    requires Distinct(s)
    ensures Distinct(Without(s, id)) && forall x :: x in Without(s, id) <==> x in s && x != id
  {
    if s != [] {
      WithoutMembers(s[1..], id);
      assert forall x :: x in s <==> x == s[0] || x in s[1..];
      var rest := Without(s[1..], id);
      assert s[0] !in rest;
      if s[0] == id { assert [] + rest == rest; }
    }
  }

  lemma ListsWithout(list: seq<SessionId>, members: set<SessionId>, id: SessionId)
    requires Lists(list, members)
    ensures Lists(Without(list, id), members - {id})
  {
    WithoutMembers(list, id);
  }

  lemma ListsSnoc(list: seq<SessionId>, members: set<SessionId>, id: SessionId)
    requires Lists(list, members) && id !in members
    ensures Lists(list + [id], members + {id})
  {
    assert forall x :: x in list + [id] <==> x in list || x == id;
  }

  // ---------- every operation keeps the state consistent ----------

  lemma FreshId(st: State)
    requires Consistent(st)
    ensures st.next !in st.sessions
  {
    hide SeatOk, UserOk;
    forall id | id in st.sessions ensures id < st.next { assert SessionOk(st, id); }
  }

  ghost predicate PidsOk(st: State) {
    forall p :: p in st.pids ==> st.pids[p] in st.sessions && st.sessions[st.pids[p]].leader == p
  }

  lemma CreateKeepsSeat(st: State, uid: nat, leader: nat, seat: Option<SeatId>, x: SeatId)
    requires Consistent(st) && x in st.seats
    ensures SeatOk(Create(st, uid, leader, seat), x)
  {
    hide UserOk, SessionOk, PidsOk, JoinUser;
    var st', id := Create(st, uid, leader, seat), st.next;
    FreshId(st);
    assert SeatOk(st, x);
    if seat == Some(x) {
      assert OnSeat(st', x) == OnSeat(st, x) + {id};
      ListsSnoc(st.seats[x].sessions, OnSeat(st, x), id);
    } else {
      assert OnSeat(st', x) == OnSeat(st, x);
    }
  }

  lemma CreateKeepsUser(st: State, uid: nat, leader: nat, seat: Option<SeatId>, x: nat)
    requires Consistent(st) && (x in st.users || x == uid)
    ensures UserOk(Create(st, uid, leader, seat), x)
  {
    hide SeatOk;
    var st', id := Create(st, uid, leader, seat), st.next;
    FreshId(st);
    if x == uid {
      assert OfUser(st', x) == OfUser(st, x) + {id};
      assert Lists(UserOf(st, uid).sessions, OfUser(st, uid)) by {
        if uid in st.users { assert UserOk(st, uid); }
        else { forall s | s in st.sessions ensures st.sessions[s].uid != uid { assert SessionOk(st, s); } }
      }
      ListsSnoc(UserOf(st, uid).sessions, OfUser(st, uid), id);
      if uid in st.users { assert UserOk(st, uid); }
    } else {
      assert UserOk(st, x);
      assert OfUser(st', x) == OfUser(st, x);
    }
  }

  lemma CreateKeeps(st: State, uid: nat, leader: nat, seat: Option<SeatId>)
    requires Consistent(st)
    ensures Consistent(Create(st, uid, leader, seat))
  {
    hide SeatOk, UserOk, SessionOk, PidsOk, JoinSeat, JoinUser;
    var st' := Create(st, uid, leader, seat);
    forall x | x in st'.seats ensures SeatOk(st', x) { CreateKeepsSeat(st, uid, leader, seat, x); }
    forall x | x in st'.users ensures UserOk(st', x) { CreateKeepsUser(st, uid, leader, seat, x); }
    forall x | x in st'.sessions ensures SessionOk(st', x) { CreateKeepsSession(st, uid, leader, seat, x); }
    CreateKeepsPids(st, uid, leader, seat);
  }

  lemma CreateKeepsSession(st: State, uid: nat, leader: nat, seat: Option<SeatId>, x: SessionId)
    requires Consistent(st) && x in Create(st, uid, leader, seat).sessions
    ensures SessionOk(Create(st, uid, leader, seat), x)
  {
    hide SeatOk, UserOk;
    if x != st.next { assert SessionOk(st, x); }
  }

  lemma CreateKeepsPids(st: State, uid: nat, leader: nat, seat: Option<SeatId>)
    requires Consistent(st)
    ensures PidsOk(Create(st, uid, leader, seat))
  {
    FreshId(st);
    hide SeatOk, UserOk, SessionOk;
  }

  lemma ActivateKeepsSeat(st: State, id: SessionId, x: SeatId)
    requires Consistent(st) && x in st.seats
    ensures SeatOk(Activate(st, id), x)
  {
    hide UserOk;
    assert SeatOk(st, x);
    var st' := Activate(st, id);
    if id in st.sessions && st.sessions[id].seat.Some? {
      var seat := st.sessions[id].seat.value;
      if seat in st.seats { assert SeatOk(st, seat); }
      assert OnSeat(st', x) == OnSeat(st, x);
    }
  }

  lemma ActivateKeepsUser(st: State, id: SessionId, x: nat)
    requires Consistent(st) && x in st.users
    ensures UserOk(Activate(st, id), x)
  {
    hide SeatOk;
    assert UserOk(st, x);
    assert OfUser(Activate(st, id), x) == OfUser(st, x);
  }

  lemma ActivateKeeps(st: State, id: SessionId)
    requires Consistent(st)
    ensures Consistent(Activate(st, id))
  {
    hide SeatOk, UserOk, SessionOk, PidsOk;
    var st' := Activate(st, id);
    ActivateKeepsPids(st, id);
    forall x | x in st'.seats ensures SeatOk(st', x) { ActivateKeepsSeat(st, id, x); }
    forall x | x in st'.users ensures UserOk(st', x) { ActivateKeepsUser(st, id, x); }
    forall x | x in st'.sessions ensures SessionOk(st', x) { ActivateKeepsSession(st, id, x); }
  }

  lemma ActivateKeepsPids(st: State, id: SessionId)
    requires PidsOk(st)
    ensures PidsOk(Activate(st, id))
  {
  }

  lemma ActivateKeepsSession(st: State, id: SessionId, x: SessionId)
    requires Consistent(st) && x in Activate(st, id).sessions
    ensures SessionOk(Activate(st, id), x)
  {
    hide UserOk, PidsOk;
    assert SessionOk(st, x);
    if id in st.sessions && st.sessions[id].seat.Some? && st.sessions[id].seat.value in st.seats {
      assert SeatOk(st, st.sessions[id].seat.value);
    }
  }

  /** On a consistent seat the promoted session is another live session of that seat. */
  lemma PromotedIsOnSeat(st: State, id: SessionId)
    requires Consistent(st) && id in st.sessions && Promoted(st, id).Some?
    ensures var p := Promoted(st, id).value;
            p != id && p in st.sessions && st.sessions[p].seat == st.sessions[id].seat
            && st.sessions[id].seat.Some? && st.sessions[id].seat.value in st.seats
  {
    var seat := st.sessions[id].seat.value;
    assert SeatOk(st, seat);
    WithoutMembers(st.seats[seat].sessions, id);
  }

  lemma RemoveKeepsSeat(st: State, id: SessionId, x: SeatId)
    requires Consistent(st) && x in st.seats && id in st.sessions
    ensures SeatOk(Remove(st, id), x)
  {
    hide UserOk, RemainingUsers, PidsOk, SessionOk, Without, Distinct;
    assert SeatOk(st, x);
    var st' := Remove(st, id);
    if Promoted(st, id).Some? { PromotedIsOnSeat(st, id); }
    if st.sessions[id].seat == Some(x) {
      RemoveKeepsOwnSeat(st, id, x);
    } else {
      assert OnSeat(st', x) == OnSeat(st, x);
    }
  }

  lemma RemoveKeepsOwnSeat(st: State, id: SessionId, x: SeatId)
    requires Consistent(st) && x in st.seats && id in st.sessions && st.sessions[id].seat == Some(x)
    ensures SeatOk(Remove(st, id), x)
  {
    hide UserOk, RemainingUsers, PidsOk, SessionOk, Without, Distinct;
    assert SeatOk(st, x);
    var st' := Remove(st, id);
    if Promoted(st, id).Some? { PromotedIsOnSeat(st, id); }
    assert OnSeat(st', x) == OnSeat(st, x) - {id};
    ListsWithout(st.seats[x].sessions, OnSeat(st, x), id);
    var rest := Without(st.seats[x].sessions, id);
    if rest != [] { assert rest[0] in rest; }
  }

  lemma RemoveKeepsUser(st: State, id: SessionId, x: nat)
    requires Consistent(st) && id in st.sessions && x in Remove(st, id).users
    ensures UserOk(Remove(st, id), x)
  {
    hide SeatOk, LeaveSeat, Promoted, PidsOk;
    var st' := Remove(st, id);
    assert SessionOk(st, id);
    assert UserOk(st, x);
    if st.sessions[id].uid == x {
      assert OfUser(st', x) == OfUser(st, x) - {id};
      ListsWithout(st.users[x].sessions, OfUser(st, x), id);
      var rest := Without(st.users[x].sessions, id);
      assert rest[0] in rest;
    } else {
      assert OfUser(st', x) == OfUser(st, x);
    }
  }

  lemma RemoveKeepsSession(st: State, id: SessionId, x: SessionId)
    requires Consistent(st) && id in st.sessions && x in Remove(st, id).sessions
    ensures SessionOk(Remove(st, id), x)
  {
    hide SeatOk;
    var st' := Remove(st, id);
    assert SessionOk(st, id) && SessionOk(st, x);
    if Promoted(st, id).Some? { PromotedIsOnSeat(st, id); }
    var uid := st.sessions[x].uid;
    if uid == st.sessions[id].uid {
      assert UserOk(st, uid);
      WithoutMembers(st.users[uid].sessions, id);
      assert x in Without(st.users[uid].sessions, id);
    }
  }

  lemma RemoveKeeps(st: State, id: SessionId)
    requires Consistent(st)
    ensures Consistent(Remove(st, id))
  {
    hide SeatOk, UserOk, SessionOk, LeaveSeat, RemainingUsers;
    var st' := Remove(st, id);
    if id in st.sessions {
      forall x | x in st'.seats ensures SeatOk(st', x) { RemoveKeepsSeat(st, id, x); }
      forall x | x in st'.users ensures UserOk(st', x) { RemoveKeepsUser(st, id, x); }
      forall x | x in st'.sessions ensures SessionOk(st', x) { RemoveKeepsSession(st, id, x); }
    }
  }

  // ---------- runs ----------

  datatype Op = CreateOp(uid: nat, leader: nat, seat: Option<SeatId>) | RemoveOp(id: SessionId) | ActivateOp(id: SessionId)

  function Apply(st: State, op: Op): State {
    match op
    case CreateOp(uid, leader, seat) => Create(st, uid, leader, seat)
    case RemoveOp(id) => Remove(st, id)
    case ActivateOp(id) => Activate(st, id)
  }

  function ApplyAll(st: State, ops: seq<Op>): State {
    if ops == [] then st else Apply(ApplyAll(st, ops[..|ops| - 1]), ops[|ops| - 1])
  }

  /** A fresh state: some empty seats and nothing else. */
  function Fresh(seats: set<SeatId>): State {
    State(map[], map s | s in seats :: Seat([], None), map[], map[], 1)
  }

  /** Every run of create, remove and activate, from any set of empty seats, is consistent. */
  lemma {:induction false} RunConsistent(seats: set<SeatId>, ops: seq<Op>)
    ensures Consistent(ApplyAll(Fresh(seats), ops)) && ApplyAll(Fresh(seats), ops).seats.Keys == seats
  {
    if ops == [] {
      assert forall x :: OnSeat(Fresh(seats), x) == {};
    } else {
      var n := |ops| - 1;
      RunConsistent(seats, ops[..n]);
      hide Consistent;
      var st := ApplyAll(Fresh(seats), ops[..n]);
      match ops[n]
      case CreateOp(uid, leader, seat) => CreateKeeps(st, uid, leader, seat);
      case RemoveOp(id) => RemoveKeeps(st, id);
      case ActivateOp(id) => ActivateKeeps(st, id);
    }
  }
}
