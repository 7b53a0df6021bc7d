/** Who comes next: session lists are kept in the order of creation, so promotion always takes the oldest session. */
module LoginOrder {
  import opened Common
  import opened Login

  ghost predicate Increasing(s: seq<SessionId>) { forall i, j :: 0 <= i < j < |s| ==> s[i] < s[j] }

  /** Every list of sessions is in the order in which they were created. */
  ghost predicate Ordered(st: State) {
    && (forall x :: x in st.seats ==> Increasing(st.seats[x].sessions))
    && (forall u :: u in st.users ==> Increasing(st.users[u].sessions))
  }

  /** `o` is the smallest member, if there is one. */
  ghost predicate IsOldest(o: Option<SessionId>, members: set<SessionId>) {
    if members == {} then o == None else o.Some? && o.value in members && forall x :: x in members ==> o.value <= x
  }

  // ---------- lists ----------

  lemma {:induction false} WithoutIncreasing(s: seq<SessionId>, id: SessionId)
    requires Increasing(s)
    ensures Increasing(Without(s, id))
  {
    if s != [] {
      WithoutIncreasing(s[1..], id);
      WithoutMembers(s[1..], id);
      IncreasingCons(s[0], Without(s[1..], id), s[1..]);
      assert Without(s, id) == if s[0] == id then Without(s[1..], id) else [s[0]] + Without(s[1..], id);
    }
  }

  lemma IncreasingCons(x: SessionId, rest: seq<SessionId>, s: seq<SessionId>)
    requires Increasing(rest) && Increasing([x] + s) && forall y :: y in rest ==> y in s
    ensures Increasing([x] + rest)
  {
    forall i | 0 <= i < |rest| ensures x < rest[i] {
      assert rest[i] in s;
      var j :| 0 <= j < |s| && s[j] == rest[i];
      assert ([x] + s)[0] < ([x] + s)[1 + j];
    }
  }

  lemma FirstIsOldest(list: seq<SessionId>, members: set<SessionId>)
    requires Increasing(list) && forall x :: x in list <==> x in members
    ensures IsOldest(First(list), members)
  {
    if list != [] {
      assert list[0] in members;
      forall x | x in members ensures list[0] <= x { var i :| 0 <= i < |list| && list[i] == x; }
    }
  }

  lemma IncreasingSnoc(s: seq<SessionId>, id: SessionId)
    requires Increasing(s) && forall x :: x in s ==> x < id
    ensures Increasing(s + [id])
  {
    forall i | 0 <= i < |s| ensures s[i] < id { assert s[i] in s; }
  }

  // ---------- every operation keeps the order ----------

  /** What the lists hold is older than what comes next. */
  lemma ListedAreOlder(st: State)
    requires Consistent(st)
    ensures forall x, i :: x in st.seats && i in st.seats[x].sessions ==> i < st.next
    ensures forall u, i :: u in st.users && i in st.users[u].sessions ==> i < st.next
  {
    forall id | id in st.sessions ensures id < st.next { assert SessionOk(st, id); }
    forall x, i | x in st.seats && i in st.seats[x].sessions ensures i < st.next {
      assert SeatOk(st, x) && i in OnSeat(st, x);
    }
    forall u, i | u in st.users && i in st.users[u].sessions ensures i < st.next {
      assert UserOk(st, u) && i in OfUser(st, u);
    }
  }

  lemma CreateKeepsOrder(st: State, uid: nat, leader: nat, seat: Option<SeatId>)
    requires Consistent(st) && Ordered(st)
    ensures Ordered(Create(st, uid, leader, seat))
  {
    hide Consistent, Increasing;
    ListedAreOlder(st);
    var st' := Create(st, uid, leader, seat);
    if seat.Some? && seat.value in st.seats { IncreasingSnoc(st.seats[seat.value].sessions, st.next); }
    EmptyIncreasing();
    IncreasingSnoc(UserOf(st, uid).sessions, st.next);
  }

  lemma EmptyIncreasing()
    ensures Increasing([])
  {
  }

  lemma RemoveKeepsOrder(st: State, id: SessionId)
    requires Ordered(st)
    ensures Ordered(Remove(st, id))
  {
    hide Increasing, Without;
    if id in st.sessions {
      var s := st.sessions[id];
      if s.seat.Some? && s.seat.value in st.seats { WithoutIncreasing(st.seats[s.seat.value].sessions, id); }
      if s.uid in st.users { WithoutIncreasing(st.users[s.uid].sessions, id); }
    }
  }

  lemma ActivateKeepsOrder(st: State, id: SessionId)
    requires Ordered(st)
    ensures Ordered(Activate(st, id))
  {
    hide Increasing;
  }

  /** Along every run all session lists are in the order of creation. */
  lemma {:induction false} RunOrdered(seats: set<SeatId>, ops: seq<Op>)
    ensures Ordered(ApplyAll(Fresh(seats), ops))
  {
    hide Consistent, Ordered;
    if ops == [] {
      FreshOrdered(seats);
    } else {
      var n := |ops| - 1;
      RunOrdered(seats, ops[..n]);
      RunConsistent(seats, ops[..n]);
      var st := ApplyAll(Fresh(seats), ops[..n]);
      match ops[n]
      case CreateOp(uid, leader, seat) => CreateKeepsOrder(st, uid, leader, seat);
      case RemoveOp(id) => RemoveKeepsOrder(st, id);
      case ActivateOp(id) => ActivateKeepsOrder(st, id);
    }
  }

  lemma FreshOrdered(seats: set<SeatId>)
    ensures Ordered(Fresh(seats))
  {
  }

  // ---------- ids ----------

  function Creations(ops: seq<Op>): nat {
    if ops == [] then 0 else Creations(ops[..|ops| - 1]) + if ops[|ops| - 1].CreateOp? then 1 else 0
  }

  /** The `n`-th session created in a run has id `n`, counted from 1. */
  lemma {:induction false} IdsCount(seats: set<SeatId>, ops: seq<Op>)
    ensures ApplyAll(Fresh(seats), ops).next == 1 + Creations(ops)
  {
    if ops != [] { IdsCount(seats, ops[..|ops| - 1]); }
  }

  // ---------- who comes next ----------

  /** What an operation leaves of a seat's choice of active session, said by the live sessions. */
  ghost predicate ActiveExactly(st: State, op: Op, st': State, x: SeatId)
    requires x in st.seats && x in st'.seats
  {
    var before, after := st.seats[x].active, st'.seats[x].active;
    match op
    case CreateOp(_, _, seat) => after == if seat == Some(x) && OnSeat(st, x) == {} then Some(st.next) else before
    case ActivateOp(id) => after == if id in OnSeat(st, x) then Some(id) else before
    case RemoveOp(id) => if before == Some(id) then IsOldest(after, OnSeat(st', x)) else after == before
  }

  /** On every seat a first login, an activation on it and nothing else choose the active session; when that session
      goes, the oldest live session of the seat takes over. */
  lemma ActiveStep(st: State, op: Op, x: SeatId)
    requires Consistent(st) && Ordered(st) && x in st.seats
    ensures x in Apply(st, op).seats && ActiveExactly(st, op, Apply(st, op), x)
  {
    hide UserOk, Increasing, UserOf, JoinUser, RemainingUsers, Without;
    assert SeatOk(st, x);
    match op
    case CreateOp(uid, leader, seat) => SeatEmptyExactly(st, x);
    case ActivateOp(id) =>
    case RemoveOp(id) =>
      if st.seats[x].active == Some(id) {
        SeatEmptyExactly(st, x);
        RemoveKeeps(st, id);
        RemoveKeepsOrder(st, id);
        var st' := Remove(st, id);
        assert SeatOk(st', x);
        assert st'.seats[x].active == First(st'.seats[x].sessions);
        FirstIsOldest(st'.seats[x].sessions, OnSeat(st', x));
      }
  }

  lemma SeatEmptyExactly(st: State, x: SeatId)
    requires Consistent(st) && x in st.seats
    ensures st.seats[x].active.None? <==> OnSeat(st, x) == {}
    ensures st.seats[x].active.Some? ==> st.seats[x].active.value in OnSeat(st, x)
  {
    assert SeatOk(st, x);
    if st.seats[x].sessions != [] { assert st.seats[x].sessions[0] in OnSeat(st, x); }
  }

  /** What an operation leaves of the session shown for a user. */
  ghost predicate DisplayExactly(st: State, op: Op, st': State, u: nat)
    requires u in st'.users
  {
    var before := if u in st.users then st.users[u].display else None;
    var after := st'.users[u].display;
    match op
    case CreateOp(uid, _, _) =>
      after == if uid == u && st.next in st'.sessions && st'.sessions[st.next].active then Some(st.next) else before
    case ActivateOp(_) => after == before
    case RemoveOp(id) =>
      if before == Some(id) then IsOldest(after, OfUser(st', u)) else after == before
  }

  /** A user shows the last session of theirs that came up in the foreground; when that one goes, the oldest of their
      live sessions. */
  lemma DisplayStep(st: State, op: Op, u: nat)
    requires Consistent(st) && Ordered(st) && u in Apply(st, op).users
    ensures DisplayExactly(st, op, Apply(st, op), u)
  {
    hide SeatOk, Increasing, JoinSeat, LeaveSeat, Without, Promoted;
    match op
    case CreateOp(uid, leader, seat) =>
    case ActivateOp(id) =>
    case RemoveOp(id) =>
      if u in st.users { assert UserOk(st, u); }
      if u in st.users && st.users[u].display == Some(id) {
        assert id in OfUser(st, u);
        RemoveKeeps(st, id);
        RemoveKeepsOrder(st, id);
        var st' := Remove(st, id);
        assert UserOk(st', u);
        assert st'.users[u].display == First(st'.users[u].sessions);
        FirstIsOldest(st'.users[u].sessions, OfUser(st', u));
      }
  }

  // ---------- what a session is ----------

  /** A session that is not the one removed stays, with its user, seat and leader; a created one has what was asked. */
  lemma SessionsStep(st: State, op: Op, x: SessionId)
    requires Consistent(st)
    ensures var st' := Apply(st, op);
            && (x in st'.sessions <==> (x in st.sessions && op != RemoveOp(x)) || (op.CreateOp? && x == st.next))
            && (x in st'.sessions ==>
                  var s := st'.sessions[x];
                  if op.CreateOp? && x == st.next then (s.uid, s.leader, s.seat) == (op.uid, op.leader, op.seat)
                  else x in st.sessions &&
                       (s.uid, s.leader, s.seat) == (st.sessions[x].uid, st.sessions[x].leader, st.sessions[x].seat))
  {
    hide Consistent, JoinSeat, JoinUser, RemainingUsers, LeaveSeat, Promoted;
    FreshId(st);
  }
}
