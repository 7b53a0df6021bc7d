/** Two facts about the login state that hold only sometimes, and exactly when. */
module LoginUsers {
  import opened Common
  import opened Login

  // ---------- finding a session by its leader ----------

  /** The session is live and found under its leader's pid. */
  predicate Findable(st: State, id: SessionId) {
    id in st.sessions && st.sessions[id].leader in st.pids && st.pids[st.sessions[id].leader] == id
  }

  ghost predicate PidsComplete(st: State) {
    forall id :: id in st.sessions ==> Findable(st, id)
  }

  /** A new session keeps all sessions findable exactly when no live session has the same leader. */
  lemma CreateKeepsPidsCompleteExactly(st: State, uid: nat, leader: nat, seat: Option<SeatId>)
    requires Consistent(st) && PidsComplete(st)
    ensures PidsComplete(Create(st, uid, leader, seat)) <==>
            forall id :: id in st.sessions ==> st.sessions[id].leader != leader
  {
    FreshId(st);
    hide Consistent, JoinSeat, JoinUser, UserOf;
    var st' := Create(st, uid, leader, seat);
    if PidsComplete(st') {
      forall id | id in st.sessions ensures st.sessions[id].leader != leader {
        assert id in st'.sessions && st'.sessions[id] == st.sessions[id] && Findable(st', id);
      }
    } else {
      var id :| id in st'.sessions && !Findable(st', id);
      assert id != st.next && st'.sessions[id] == st.sessions[id] && Findable(st, id);
    }
  }

  /** Removing a session leaves every other session findable that was so before exactly when the pid entry of its
      leader, if there is one, is its own: the entry goes whomever it belongs to. */
  lemma RemoveKeepsFindableExactly(st: State, id: SessionId)
    requires Consistent(st) && id in st.sessions
    ensures (forall x :: x in st.sessions && x != id && Findable(st, x) ==> Findable(Remove(st, id), x)) <==>
            var leader := st.sessions[id].leader; leader in st.pids ==> st.pids[leader] == id
  {
    hide SessionOk, SeatOk, UserOk, LeaveSeat, RemainingUsers, Promoted;
    var st', leader := Remove(st, id), st.sessions[id].leader;
    forall x | x in st.sessions && x != id
      ensures x in st'.sessions && st'.sessions[x].leader == st.sessions[x].leader {}
    if leader in st.pids && st.pids[leader] != id {
      assert Findable(st, st.pids[leader]) && !Findable(st', st.pids[leader]);
    }
  }

  /** So a removal keeps all sessions findable as long as they all were. */
  lemma RemoveKeepsPidsComplete(st: State, id: SessionId)
    requires PidsComplete(st)
    ensures PidsComplete(Remove(st, id))
  {
    hide LeaveSeat, RemainingUsers, Promoted;
    forall x | x in Remove(st, id).sessions ensures Findable(Remove(st, id), x) {
      assert Findable(st, x) && (id in st.sessions ==> Findable(st, id));
    }
  }

  lemma ActivateKeepsPidsComplete(st: State, id: SessionId)
    requires PidsComplete(st)
    ensures PidsComplete(Activate(st, id))
  {
    forall x | x in Activate(st, id).sessions ensures Findable(Activate(st, id), x) { assert Findable(st, x); }
  }

  /** The operation does not create a session whose leader already leads a live one. */
  predicate FreshLeader(st: State, op: Op) {
    op.CreateOp? ==> forall id :: id in st.sessions ==> st.sessions[id].leader != op.leader
  }

  /** Along a run all sessions can be found at all times exactly when no creation repeats the leader of a live one. */
  lemma {:induction false} AlwaysFindableExactly(seats: set<SeatId>, ops: seq<Op>)
    ensures (forall k :: 0 <= k <= |ops| ==> PidsComplete(ApplyAll(Fresh(seats), ops[..k]))) <==>
            (forall k :: 0 <= k < |ops| ==> FreshLeader(ApplyAll(Fresh(seats), ops[..k]), ops[k]))
  {
    hide PidsComplete, FreshLeader, Apply, Consistent;
    if ops == [] {
      assert ops[..0] == [];
      NobodyToFind(seats);
    } else {
      var n := |ops| - 1;
      var init := ops[..n];
      AlwaysFindableExactly(seats, init);
      assert forall k :: 0 <= k <= n ==> init[..k] == ops[..k];
      assert ops[..n + 1] == ops && init[..n] == init;
      RunConsistent(seats, init);
      var st := ApplyAll(Fresh(seats), init);
      if PidsComplete(st) { OpKeepsPidsCompleteExactly(st, ops[n]); }
      assert forall k :: 0 <= k < n ==> init[k] == ops[k];
    }
  }

  lemma NobodyToFind(seats: set<SeatId>)
    ensures PidsComplete(ApplyAll(Fresh(seats), []))
  {
  }

  lemma OpKeepsPidsCompleteExactly(st: State, op: Op)
    requires Consistent(st) && PidsComplete(st)
    ensures PidsComplete(Apply(st, op)) <==> FreshLeader(st, op)
  {
    hide PidsComplete, Consistent, Create, Remove, Activate;
    match op
    case CreateOp(uid, leader, seat) => CreateKeepsPidsCompleteExactly(st, uid, leader, seat);
    case RemoveOp(id) => RemoveKeepsPidsComplete(st, id);
    case ActivateOp(id) => ActivateKeepsPidsComplete(st, id);
  }

  // ---------- the state shown for a user ----------

  /** Some live session of the user, other than `except`, is in the foreground. */
  ghost predicate HasActive(st: State, uid: nat, except: Option<SessionId>) {
    exists id :: id in st.sessions && st.sessions[id].uid == uid && st.sessions[id].active && Some(id) != except
  }

  /** Users are shown active exactly when one of their sessions is. */
  ghost predicate UsersAccurate(st: State) {
    forall uid :: uid in st.users ==> (st.users[uid].state == UserActive <==> HasActive(st, uid, None))
  }

  lemma CreateKeepsAccurate(st: State, uid: nat, leader: nat, seat: Option<SeatId>)
    requires Consistent(st) && UsersAccurate(st)
    ensures UsersAccurate(Create(st, uid, leader, seat))
  {
    FreshId(st);
    var st', id := Create(st, uid, leader, seat), st.next;
    forall s | s in st.sessions ensures st.sessions[s].uid in st.users { assert SessionOk(st, s); }
    forall u | u in st'.users ensures st'.users[u].state == UserActive <==> HasActive(st', u, None) {
      assert HasActive(st', u, None) <==> HasActive(st, u, None) || (u == uid && FirstOnSeat(st, seat)) by {
        if HasActive(st, u, None) {
          var s :| s in st.sessions && st.sessions[s].uid == u && st.sessions[s].active;
          assert s in st'.sessions && st'.sessions[s] == st.sessions[s];
        }
        if u == uid && FirstOnSeat(st, seat) { assert st'.sessions[id].active; }
      }
    }
  }

  /** The session that `id` would push into the background. */
  function Displaces(st: State, id: SessionId): Option<SessionId>
    requires id in st.sessions
  {
    var seat := st.sessions[id].seat;
    if seat.Some? && seat.value in st.seats && st.seats[seat.value].active != Some(id)
    then st.seats[seat.value].active else None
  }

  lemma DisplacedIsActive(st: State, id: SessionId)
    requires Consistent(st) && id in st.sessions
    ensures Displaces(st, id).None? ==> st.sessions[id].active
    ensures Displaces(st, id).Some? ==>
      var o := Displaces(st, id).value;
      o != id && o in st.sessions && st.sessions[o].active && !st.sessions[id].active
  {
    hide UserOk;
    assert SessionOk(st, id);
    var seat := st.sessions[id].seat;
    if seat.Some? && seat.value in st.seats {
      assert SeatOk(st, seat.value);
      assert id in OnSeat(st, seat.value);
    }
  }

  /** After an activation: the displaced session is out, the activated one in, others as before. */
  lemma ActiveAfterActivate(st: State, id: SessionId, x: SessionId)
    requires Consistent(st) && id in st.sessions && x in st.sessions
    ensures x in Activate(st, id).sessions
    ensures Activate(st, id).sessions[x].uid == st.sessions[x].uid
    ensures Activate(st, id).sessions[x].active <==> (st.sessions[x].active && Some(x) != Displaces(st, id)) || x == id
  {
    DisplacedIsActive(st, id);
    hide Consistent;
  }

  lemma HasActiveAfterActivate(st: State, id: SessionId, u: nat)
    requires Consistent(st) && id in st.sessions
    ensures HasActive(Activate(st, id), u, None) <==> HasActive(st, u, Displaces(st, id)) || u == st.sessions[id].uid
  {
    var st', o := Activate(st, id), Displaces(st, id);
    forall x | x in st.sessions
      ensures x in st'.sessions && st'.sessions[x].uid == st.sessions[x].uid
      ensures st'.sessions[x].active <==> (st.sessions[x].active && Some(x) != o) || x == id
    {
      ActiveAfterActivate(st, id, x);
    }
    hide Consistent, Displaces;
    assert st'.sessions.Keys == st.sessions.Keys;
    if HasActive(st, u, o) {
      var x :| x in st.sessions && st.sessions[x].uid == u && st.sessions[x].active && Some(x) != o;
      assert st'.sessions[x].active;
    }
    if u == st.sessions[id].uid { assert st'.sessions[id].active; }
  }

  /** Activation leaves the shown user states right exactly when it displaces nobody, stays within
      one user, or finds both users with another session in the foreground. */
  lemma ActivateKeepsAccurateExactly(st: State, id: SessionId)
    requires Consistent(st) && UsersAccurate(st) && id in st.sessions
    ensures Displaces(st, id).Some? ==> Displaces(st, id).value in st.sessions
    ensures UsersAccurate(Activate(st, id)) <==>
            var o := Displaces(st, id);
            || o.None?
            || st.sessions[o.value].uid == st.sessions[id].uid
            || (HasActive(st, st.sessions[o.value].uid, o) && HasActive(st, st.sessions[id].uid, None))
  {
    DisplacedIsActive(st, id);
    var st', o, un := Activate(st, id), Displaces(st, id), st.sessions[id].uid;
    forall u ensures HasActive(st', u, None) <==> HasActive(st, u, o) || u == un { HasActiveAfterActivate(st, id, u); }
    assert un in st.users by { assert SessionOk(st, id); }
    if o.Some? { assert st.sessions[o.value].uid in st.users by { assert SessionOk(st, o.value); } }
    hide Consistent, Displaces, Displaced;
    assert st'.users == st.users;
    forall u ensures HasActive(st, u, o) ==> HasActive(st, u, None) {}
    if o.Some? {
      var uo := st.sessions[o.value].uid;
      assert HasActive(st, uo, None);
      forall u | u != uo ensures HasActive(st, u, o) <==> HasActive(st, u, None) {
        if HasActive(st, u, None) {
          var x :| x in st.sessions && st.sessions[x].uid == u && st.sessions[x].active;
          assert Some(x) != o;
        }
      }
      assert UsersAccurate(st') <==>
        (forall u :: u in st.users ==> (HasActive(st, u, None) <==> HasActive(st, u, o) || u == un));
    } else {
      forall u ensures HasActive(st, u, o) <==> HasActive(st, u, None) {}
      assert HasActive(st, un, None);
    }
  }

  lemma HasActiveAfterRemove(st: State, id: SessionId, u: nat)
    requires Consistent(st) && id in st.sessions
    ensures Promoted(st, id).Some? ==> Promoted(st, id).value in st.sessions
    ensures HasActive(Remove(st, id), u, None) <==>
            HasActive(st, u, Some(id)) || (Promoted(st, id).Some? && u == st.sessions[Promoted(st, id).value].uid)
  {
    hide Consistent, Promoted, RemainingUsers, LeaveSeat;
    var st', p := Remove(st, id), Promoted(st, id);
    if p.Some? { PromotedIsOnSeat(st, id); }
    if HasActive(st, u, Some(id)) {
      var x :| x in st.sessions && st.sessions[x].uid == u && st.sessions[x].active && Some(x) != Some(id);
      assert x in st'.sessions && st'.sessions[x].active && st'.sessions[x].uid == u;
    }
    if p.Some? && u == st.sessions[p.value].uid {
      assert st'.sessions[p.value].active && st'.sessions[p.value].uid == u;
    }
    if HasActive(st', u, None) {
      var x :| x in st'.sessions && st'.sessions[x].uid == u && st'.sessions[x].active;
      assert x in st.sessions && x != id;
    }
  }

  /** A remaining user's state is recomputed only if it was their session that went. */
  lemma StateAfterRemove(st: State, id: SessionId, u: nat)
    requires Consistent(st) && id in st.sessions && u in Remove(st, id).users
    ensures u in st.users
    ensures u != st.sessions[id].uid ==> Remove(st, id).users[u].state == st.users[u].state
    ensures u == st.sessions[id].uid ==>
      (Remove(st, id).users[u].state == UserActive <==> HasActive(Remove(st, id), u, None))
  {
    hide SeatOk, LeaveSeat, Promoted;
    var st' := Remove(st, id);
    assert SessionOk(st, id);
    if u == st.sessions[id].uid {
      RemoveKeeps(st, id);
      assert UserOk(st', u);
      assert forall s :: s in OfUser(st', u) ==> SessionOk(st', s);
    }
  }

  /** Removal leaves the shown user states right exactly when it promotes nobody, promotes a session
      of the same user, or of a user who already had a session in the foreground. */
  lemma RemoveKeepsAccurateExactly(st: State, id: SessionId)
    requires Consistent(st) && UsersAccurate(st) && id in st.sessions
    ensures Promoted(st, id).Some? ==> Promoted(st, id).value in st.sessions
    ensures UsersAccurate(Remove(st, id)) <==>
            var p := Promoted(st, id);
            || p.None?
            || st.sessions[p.value].uid == st.sessions[id].uid
            || HasActive(st, st.sessions[p.value].uid, None)
  {
    hide Consistent, Remove, HasActive, Promoted;
    var st', p, uid := Remove(st, id), Promoted(st, id), st.sessions[id].uid;
    HasActiveAfterRemove(st, id, uid);
    forall u | u in st'.users
      ensures u in st.users
      ensures u != uid ==> st'.users[u].state == st.users[u].state
      ensures u == uid ==> (st'.users[u].state == UserActive <==> HasActive(st', u, None))
    {
      StateAfterRemove(st, id, u);
    }
    forall u | u != uid
      ensures HasActive(st', u, None) <==> HasActive(st, u, None) || (p.Some? && u == st.sessions[p.value].uid)
    {
      HasActiveAfterRemove(st, id, u);
      OtherUsersUntouched(st, id, u);
    }
    if p.Some? { PromotedUserStays(st, id); }
  }

  lemma OtherUsersUntouched(st: State, id: SessionId, u: nat)
    requires id in st.sessions && u != st.sessions[id].uid
    ensures HasActive(st, u, Some(id)) <==> HasActive(st, u, None)
  {
    if HasActive(st, u, None) {
      var x :| x in st.sessions && st.sessions[x].uid == u && st.sessions[x].active;
      assert Some(x) != Some(id);
    }
  }

  lemma PromotedUserStays(st: State, id: SessionId)
    requires Consistent(st) && id in st.sessions && Promoted(st, id).Some?
    ensures Promoted(st, id).value in st.sessions
    ensures st.sessions[Promoted(st, id).value].uid in Remove(st, id).users
  {
    PromotedIsOnSeat(st, id);
    RemoveKeeps(st, id);
    var p, st' := Promoted(st, id).value, Remove(st, id);
    hide Promoted, SeatOk, UserOk;
    assert p in st'.sessions && st'.sessions[p].uid == st.sessions[p].uid && SessionOk(st', p);
  }
}
