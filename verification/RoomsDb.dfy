/** The room tables and the transactions that write them.

    A transaction is a value: it either commits a whole new database or aborts and leaves the old
    one. It sees the constraints the migrations install: the (room, user) primary key, the
    immediate index allowing one OWNER row a room, the index allowing one PENDING request a room
    and user, and the deferred trigger that counts the owners of a touched room at commit. */
module RoomsDb {
  import opened Wrappers

  type AppId = int
  type UserId = int
  type RoomId = int
  type RequestId = int
  type Time = nat

  datatype Identity = Identity(app: AppId, user: UserId)
  datatype Role = Owner | Member
  datatype Room = Room(app: AppId, version: nat, deletedAt: Option<Time>)
  datatype Seat = Seat(room: RoomId, user: UserId)
  datatype Membership = Membership(app: AppId, role: Role)
  datatype Status = Pending | Approved | Rejected | Cancelled
  datatype JoinRequest = JoinRequest(room: RoomId, app: AppId, user: UserId, status: Status,
                                     decidedBy: Option<UserId>)

  datatype Audit =
    | RoomCreated(app: AppId, actor: UserId, room: RoomId)
    | RequestDecided(app: AppId, actor: UserId, request: RequestId, room: RoomId, user: UserId, approved: bool)
    | MemberRemoved(app: AppId, actor: UserId, user: UserId, room: RoomId)
    | OwnerTransferred(app: AppId, actor: UserId, room: RoomId, newOwner: UserId)
    | RoomDeleted(app: AppId, actor: UserId, room: RoomId)

  datatype Db = Db(
    rooms: map<RoomId, Room>,
    members: map<Seat, Membership>,
    requests: map<RequestId, JoinRequest>,
    audit: seq<Audit>)

  datatype Outcome = Committed(db: Db) | Aborted

  // ---------------------------------------------------------------- constraints

  /** The users holding an OWNER row of the room: what the deferred trigger counts. */
  function Owners(members: map<Seat, Membership>, room: RoomId): set<UserId> {
    set s | s in members && s.room == room && members[s].role.Owner? :: s.user
  }

  predicate IsOwner(db: Db, room: RoomId, user: UserId) {
    Seat(room, user) in db.members && db.members[Seat(room, user)].role.Owner?
  }

  ghost predicate ExactlyOneOwner(db: Db, room: RoomId) {
    && (exists u :: IsOwner(db, room, u))
    && (forall u, v :: IsOwner(db, room, u) && IsOwner(db, room, v) ==> u == v)
  }

  /** The deferred trigger, fired when the transaction commits. */
  function CommitChecked(o: Outcome, room: RoomId): Outcome {
    if o.Committed? && |Owners(o.db.members, room)| == 1 then o else Aborted
  }

  predicate HasPending(requests: map<RequestId, JoinRequest>, room: RoomId, user: UserId) {
    exists q | q in requests :: requests[q].room == room && requests[q].user == user && requests[q].status.Pending?
  }

  function Bumped(rooms: map<RoomId, Room>, room: RoomId): map<RoomId, Room>
    requires room in rooms
  {
    rooms[room := rooms[room].(version := rooms[room].version + 1)]
  }

  // ---------------------------------------------------------------- transaction statements

  function CreateStatements(db: Db, room: RoomId, who: Identity): Outcome {
    if room in db.rooms || Seat(room, who.user) in db.members then Aborted
    else Committed(Db(
      db.rooms[room := Room(who.app, 1, None)],
      db.members[Seat(room, who.user) := Membership(who.app, Owner)],
      db.requests,
      db.audit + [RoomCreated(who.app, who.user, room)]))
  }

  /** The read inside the decision transaction: the request must still be pending in this room. */
  predicate Decidable(db: Db, room: RoomId, request: RequestId, who: Identity) {
    && request in db.requests
    && db.requests[request].room == room
    && db.requests[request].app == who.app
    && db.requests[request].status.Pending?
  }

  function DecideStatements(db: Db, room: RoomId, request: RequestId, approve: bool, who: Identity): Outcome {
    if !Decidable(db, room, request, who) then Aborted
    else
      var row := db.requests[request];
      var requests := db.requests[request := row.(status := if approve then Approved else Rejected,
                                                  decidedBy := Some(who.user))];
      var audit := db.audit + [RequestDecided(who.app, who.user, request, room, row.user, approve)];
      if !approve then Committed(db.(requests := requests, audit := audit))
      else if room !in db.rooms then Aborted
      else
        var seat := Seat(room, row.user);
        var members := if seat in db.members then db.members
                       else db.members[seat := Membership(who.app, Member)];
        Committed(Db(Bumped(db.rooms, room), members, requests, audit))
  }

  function RemoveStatements(db: Db, room: RoomId, user: UserId): Outcome {
    if Seat(room, user) !in db.members || room !in db.rooms then Aborted
    else Committed(db.(rooms := Bumped(db.rooms, room), members := db.members - {Seat(room, user)}))
  }

  function TransferStatements(db: Db, room: RoomId, heir: UserId, who: Identity): Outcome {
    var from, to := Seat(room, who.user), Seat(room, heir);
    if from !in db.members then Aborted
    else
      var demoted := db.members[from := db.members[from].(role := Member)];
      if to !in demoted || Owners(demoted, room) - {heir} != {} || room !in db.rooms then Aborted
      else Committed(Db(
        Bumped(db.rooms, room),
        demoted[to := demoted[to].(role := Owner)],
        db.requests,
        db.audit + [OwnerTransferred(who.app, who.user, room, heir)]))
  }

  function DeleteStatements(db: Db, room: RoomId, who: Identity, now: Time): Outcome {
    if room !in db.rooms then Aborted
    else
      var row := db.rooms[room];
      Committed(db.(
        rooms := db.rooms[room := row.(version := row.version + 1, deletedAt := Some(now))],
        audit := db.audit + [RoomDeleted(who.app, who.user, room)]))
  }

  // ---------------------------------------------------------------- committed transactions

  function Create(db: Db, room: RoomId, who: Identity): Outcome {
    CommitChecked(CreateStatements(db, room, who), room)
  }

  function Decide(db: Db, room: RoomId, request: RequestId, approve: bool, who: Identity): Outcome {
    var o := DecideStatements(db, room, request, approve, who);
    // A rejection writes neither table that carries the trigger.
    if approve then CommitChecked(o, room) else o
  }

  function Remove(db: Db, room: RoomId, user: UserId, who: Identity): Outcome {
    match CommitChecked(RemoveStatements(db, room, user), room)
    case Aborted => Aborted
    case Committed(d) => Committed(d.(audit := d.audit + [MemberRemoved(who.app, who.user, user, room)]))
  }

  function Leave(db: Db, room: RoomId, who: Identity): Outcome {
    CommitChecked(RemoveStatements(db, room, who.user), room)
  }

  function Transfer(db: Db, room: RoomId, heir: UserId, who: Identity): Outcome {
    CommitChecked(TransferStatements(db, room, heir, who), room)
  }

  function Delete(db: Db, room: RoomId, who: Identity, now: Time): Outcome {
    CommitChecked(DeleteStatements(db, room, who, now), room)
  }

  /** A single insert: the partial index refuses a second pending row for the room and user. */
  function InsertRequest(db: Db, request: RequestId, room: RoomId, who: Identity): Outcome {
    if request in db.requests || HasPending(db.requests, room, who.user) then Aborted
    else Committed(db.(requests := db.requests[request := JoinRequest(room, who.app, who.user, Pending, None)]))
  }

  /** A single update by id; it does not look at the status it overwrites. */
  function CancelRequest(db: Db, request: RequestId): Outcome {
    if request !in db.requests then Aborted
    else Committed(db.(requests := db.requests[request := db.requests[request].(status := Cancelled)]))
  }

  // ---------------------------------------------------------------- guards

  predicate IsMember(db: Db, room: RoomId, who: Identity) {
    && Seat(room, who.user) in db.members
    && db.members[Seat(room, who.user)].app == who.app
    && room in db.rooms
    && db.rooms[room].deletedAt.None?
  }

  predicate OwnerGuard(db: Db, room: RoomId, who: Identity) {
    IsMember(db, room, who) && IsOwner(db, room, who.user)
  }

  // ---------------------------------------------------------------- lemmas

  lemma OwnerCount(db: Db, room: RoomId)
    ensures |Owners(db.members, room)| == 1 <==> ExactlyOneOwner(db, room)
  {
    var owners := Owners(db.members, room);
    assert forall u :: u in owners <==> IsOwner(db, room, u) by {
      forall u ensures u in owners <==> IsOwner(db, room, u) {
        if u in owners {
          var s :| s in db.members && s.room == room && db.members[s].role.Owner? && s.user == u;
          assert s == Seat(room, u);
        }
        if IsOwner(db, room, u) {
          assert Seat(room, u).user in owners;
        }
      }
    }
    if |owners| == 1 {
      var u :| u in owners;
      assert |owners - {u}| == 0;
      assert owners == {u} + (owners - {u}) == {u};
      assert IsOwner(db, room, u);
    }
    if ExactlyOneOwner(db, room) {
      var u :| IsOwner(db, room, u);
      assert owners == {u};
    }
  }

  /** The immediate index alone keeps a transfer safe: from one owner, whatever the caller believed
      when its guard ran, the statements that get through leave the heir as the only owner, so the
      deferred check never fires. They get through exactly when the caller still holds a row, the
      heir holds a row, and the room's owner is one of the two. */
  lemma TransferNeedsOnlyTheIndex(db: Db, room: RoomId, heir: UserId, who: Identity)
    requires room in db.rooms && ExactlyOneOwner(db, room) && heir != who.user
    ensures var o := TransferStatements(db, room, heir, who);
            && Transfer(db, room, heir, who) == o
            && (o.Committed? <==>
                && Seat(room, who.user) in db.members
                && Seat(room, heir) in db.members
                && (IsOwner(db, room, who.user) || IsOwner(db, room, heir)))
            && (o.Committed? ==>
                forall u :: IsOwner(o.db, room, u) <==> u == heir)
  {
    var o := TransferStatements(db, room, heir, who);
    var from, to := Seat(room, who.user), Seat(room, heir);
    if from in db.members && to in db.members {
      var demoted := db.members[from := db.members[from].(role := Member)];
      var owners := Owners(demoted, room);
      forall u
        ensures u in owners <==> IsOwner(db, room, u) && u != who.user
      {
        if IsOwner(db, room, u) && u != who.user {
          assert Seat(room, u) in demoted && Seat(room, u).user in owners;
        }
        if u in owners {
          var s :| s in demoted && s.room == room && demoted[s].role.Owner? && s.user == u;
          assert s == Seat(room, u);
        }
      }
      var w :| IsOwner(db, room, w);
      if w != who.user && w != heir {
        assert w in owners - {heir};
      } else {
        assert owners - {heir} == {};
      }
    }
    if o.Committed? {
      assert IsOwner(o.db, room, heir);
      forall u | IsOwner(o.db, room, u) ensures u == heir {
        assert u != heir ==> IsOwner(db, room, u);
      }
      assert ExactlyOneOwner(o.db, room);
      OwnerCount(o.db, room);
    }
  }

  /** An approval adds a MEMBER row or leaves the existing row alone: it never changes who owns the
      room, in particular it does not demote an owner whose request is approved. */
  lemma ApprovalKeepsOwners(db: Db, room: RoomId, request: RequestId, approve: bool, who: Identity)
    requires ExactlyOneOwner(db, room)
    ensures var o := DecideStatements(db, room, request, approve, who);
            && Decide(db, room, request, approve, who) == o
            && (o.Committed? ==> forall u :: IsOwner(o.db, room, u) <==> IsOwner(db, room, u))
  {
    var o := DecideStatements(db, room, request, approve, who);
    if o.Committed? {
      assert forall u :: IsOwner(o.db, room, u) <==> IsOwner(db, room, u);
      assert ExactlyOneOwner(o.db, room);
      OwnerCount(o.db, room);
    }
  }

  /** A removal or a leave needs the commit-time check: it commits exactly when the row being
      deleted is a MEMBER row at commit, whatever role the guard saw earlier. */
  lemma RemovalNeedsTheTrigger(db: Db, room: RoomId, user: UserId, who: Identity)
    requires room in db.rooms && ExactlyOneOwner(db, room)
    ensures var kept := Seat(room, user) in db.members && db.members[Seat(room, user)].role.Member?;
            && (Remove(db, room, user, who).Committed? <==> kept)
            && (Leave(db, room, Identity(who.app, user)).Committed? <==> kept)
            && (RemoveStatements(db, room, user).Committed? <==> Seat(room, user) in db.members)
    ensures Remove(db, room, user, who).Committed? ==>
              forall u :: IsOwner(Remove(db, room, user, who).db, room, u) <==> IsOwner(db, room, u)
    ensures var o := Leave(db, room, Identity(who.app, user));
      o.Committed? ==> forall u :: IsOwner(o.db, room, u) <==> IsOwner(db, room, u)
  {
    var o := RemoveStatements(db, room, user);
    if o.Committed? {
      OwnerCount(o.db, room);
      var w :| IsOwner(db, room, w);
      if user == w {
        assert forall u :: IsOwner(o.db, room, u) ==> IsOwner(db, room, u);
        assert !IsOwner(o.db, room, w);
        assert !ExactlyOneOwner(o.db, room);
      } else {
        assert !IsOwner(db, room, user);
        assert forall u :: IsOwner(o.db, room, u) <==> IsOwner(db, room, u);
        assert ExactlyOneOwner(o.db, room);
      }
    }
  }

  /** Two transfers that both saw the same owner: the second one commits only if it names the heir
      the first one already installed, and then both leave the same owner. */
  lemma RacingTransfersAgree(db: Db, room: RoomId, first: UserId, second: UserId, who: Identity)
    requires room in db.rooms && ExactlyOneOwner(db, room) && IsOwner(db, room, who.user)
    requires first != who.user && second != who.user
    requires Transfer(db, room, first, who).Committed?
    requires Transfer(Transfer(db, room, first, who).db, room, second, who).Committed?
    ensures first == second
    ensures forall u :: IsOwner(Transfer(Transfer(db, room, first, who).db, room, second, who).db, room, u) <==>
        u == first
  {
    TransferNeedsOnlyTheIndex(db, room, first, who);
    var mid := Transfer(db, room, first, who).db;
    assert IsOwner(mid, room, first);
    TransferNeedsOnlyTheIndex(mid, room, second, who);
  }
}
