/** The transactions of the rooms service as they run: statement by statement against the tables,
    rolled back when a statement or the commit-time trigger fails. Each method leaves exactly the
    database its `RoomsDb` specification commits, or the tables untouched. */
module RoomsTables {
  import opened Wrappers
  import opened RoomsDb

  class Tables {
    var rooms: map<RoomId, Room>
    var members: map<Seat, Membership>
    var requests: map<RequestId, JoinRequest>
    var audit: seq<Audit>

    constructor ()
      ensures Contents() == Db(map[], map[], map[], [])
    {
      rooms, members, requests, audit := map[], map[], map[], [];
    }

    ghost function Contents(): Db
      reads this
    {
      Db(rooms, members, requests, audit)
    }

    /** The tables after a transaction: its committed database, or what was there before. */
    ghost predicate Holds(before: Db, o: Outcome, ok: bool)
      reads this
    {
      ok == o.Committed? && Contents() == (if ok then o.db else before)
    }

    method CreateRoom(room: RoomId, who: Identity) returns (ok: bool)
      modifies this
      ensures Holds(old(Contents()), Create(old(Contents()), room, who), ok)
    {
      var oldRooms, oldMembers, oldAudit := rooms, members, audit;
      var seat := Seat(room, who.user);
      if room in rooms || seat in members { return false; }
      rooms := rooms[room := Room(who.app, 1, None)];
      members := members[seat := Membership(who.app, Owner)];
      audit := audit + [RoomCreated(who.app, who.user, room)];
      ok := |Owners(members, room)| == 1;
      if !ok { rooms, members, audit := oldRooms, oldMembers, oldAudit; }
    }

    method InsertJoinRequest(request: RequestId, room: RoomId, who: Identity) returns (ok: bool)
      modifies this
      ensures Holds(old(Contents()), InsertRequest(old(Contents()), request, room, who), ok)
    {
      ok := request !in requests && !HasPending(requests, room, who.user);
      if ok { requests := requests[request := JoinRequest(room, who.app, who.user, Pending, None)]; }
    }

    method CancelJoinRequest(request: RequestId) returns (ok: bool)
      modifies this
      ensures Holds(old(Contents()), CancelRequest(old(Contents()), request), ok)
    {
      ok := request in requests;
      if ok { requests := requests[request := requests[request].(status := Cancelled)]; }
    }

    method DecideJoinRequest(room: RoomId, request: RequestId, approve: bool, who: Identity) returns (ok: bool)
      modifies this
      ensures Holds(old(Contents()), Decide(old(Contents()), room, request, approve, who), ok)
    {
      var oldRooms, oldMembers, oldRequests, oldAudit := rooms, members, requests, audit;
      if request !in requests { return false; }
      var row := requests[request];
      if row.room != room || row.app != who.app || row.status != Pending { return false; }
      requests := requests[request := row.(status := if approve then Approved else Rejected,
          decidedBy := Some(who.user))];
      ok := true;
      if approve {
        var seat := Seat(room, row.user);
        if seat !in members { members := members[seat := Membership(who.app, Member)]; }
        ok := room in rooms;
        if ok { rooms := Bumped(rooms, room); }
      }
      audit := audit + [RequestDecided(who.app, who.user, request, room, row.user, approve)];
      ok := ok && (approve ==> |Owners(members, room)| == 1);
      if !ok { rooms, members, requests, audit := oldRooms, oldMembers, oldRequests, oldAudit; }
    }

    /** The batch transaction of a removal; `audited` is false for a leave, which logs nothing. */
    method DeleteSeat(room: RoomId, user: UserId, who: Identity, audited: bool) returns (ok: bool)
      requires !audited ==> user == who.user
      modifies this
      ensures Holds(old(Contents()),
                    if audited then Remove(old(Contents()), room, user, who) else Leave(old(Contents()), room, who),
                    ok)
    {
      var oldRooms, oldMembers, oldAudit := rooms, members, audit;
      if Seat(room, user) !in members || room !in rooms { return false; }
      members := members - {Seat(room, user)};
      rooms := Bumped(rooms, room);
      if audited { audit := audit + [MemberRemoved(who.app, who.user, user, room)]; }
      ok := |Owners(members, room)| == 1;
      if !ok { rooms, members, audit := oldRooms, oldMembers, oldAudit; }
    }

    method TransferOwnership(room: RoomId, heir: UserId, who: Identity) returns (ok: bool)
      modifies this
      ensures Holds(old(Contents()), Transfer(old(Contents()), room, heir, who), ok)
    {
      var oldRooms, oldMembers, oldAudit := rooms, members, audit;
      var from, to := Seat(room, who.user), Seat(room, heir);
      if from !in members { return false; }
      members := members[from := members[from].(role := Member)];
      // The immediate index looks at the other OWNER rows when the heir's row is promoted.
      if to !in members || Owners(members, room) - {heir} != {} {
        members := oldMembers;
        return false;
      }
      members := members[to := members[to].(role := Owner)];
      ok := room in rooms;
      if ok { rooms := Bumped(rooms, room); }
      audit := audit + [OwnerTransferred(who.app, who.user, room, heir)];
      ok := ok && |Owners(members, room)| == 1;
      if !ok { rooms, members, audit := oldRooms, oldMembers, oldAudit; }
    }

    method DeleteRoom(room: RoomId, who: Identity, now: Time) returns (ok: bool, version: nat)
      modifies this
      ensures Holds(old(Contents()), Delete(old(Contents()), room, who, now), ok)
      ensures ok ==> room in rooms && version == rooms[room].version
    {
      var oldRooms, oldAudit := rooms, audit;
      version := 0;
      if room !in rooms { return false, 0; }
      version := rooms[room].version + 1;
      rooms := rooms[room := rooms[room].(version := version, deletedAt := Some(now))];
      audit := audit + [RoomDeleted(who.app, who.user, room)];
      ok := |Owners(members, room)| == 1;
      if !ok { rooms, audit := oldRooms, oldAudit; }
    }
  }
}
