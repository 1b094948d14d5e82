/** What a deletion tells its caller: the members it read before its transaction, which is the list
    the controller evicts. A member of the deleted room is missing from the list exactly when they
    joined, and did not leave again, between that reading and the commit. A call that committed before
    the deletion and reads its snapshot after it fails although it has taken effect. */
module RoomsDeletion {
  import opened Wrappers
  import opened RoomsDb
  import opened RoomsRuns
  import opened RoomsGuarantees
  import opened RoomsEffects
  import opened JoinRequests

  ghost function MembersOf(db: Db, room: RoomId): set<UserId> { set s | s in db.members && s.room == room :: s.user }

  /** At step `i` the deletion reads the room's members. */
  ghost predicate ListsAt(steps: seq<Step>, i: nat, id: CallId, room: RoomId, users: set<UserId>) {
    && i < |steps| && steps[i].Advance? && steps[i].id == id && id in Exec(steps[..i]).calls
    && Exec(steps[..i]).calls[id].op == DeleteRoom(room) && Exec(steps[..i]).calls[id].pc.Checked?
    && MembersOf(Exec(steps[..i]).db, room) == users
  }

  /** At step `j` the deletion commits. */
  ghost predicate DeletesAt(steps: seq<Step>, j: nat, id: CallId, room: RoomId, version: nat) {
    && j < |steps| && steps[j].Advance? && steps[j].id == id && id in Exec(steps[..j]).calls
    && Exec(steps[..j]).calls[id].op == DeleteRoom(room) && Exec(steps[..j]).calls[id].pc.Listed?
    && var before, after := Exec(steps[..j]).db, Exec(steps[..j + 1]).db;
    && room in before.rooms && room in after.rooms && IsDeleted(after, room)
    && after.rooms[room].version == version == before.rooms[room].version + 1
    && after.members == before.members
  }

  lemma {:induction false} ListingIsReal(steps: seq<Step>, id: CallId) returns (i: nat)
    requires id in Exec(steps).calls && Exec(steps).calls[id].op.DeleteRoom? && Exec(steps).calls[id].pc.Listed?
    ensures ListsAt(steps, i, id, Exec(steps).calls[id].op.room, Exec(steps).calls[id].pc.users)
    decreases |steps|
  {
    var before, step := steps[..|steps| - 1], steps[|steps| - 1];
    var s := Exec(before);
    if id in s.calls && s.calls[id].pc.Listed? {
      i := ListingIsReal(before, id);
      assert before[..i] == steps[..i];
    } else {
      i := |before|;
      assert steps[..i] == before;
    }
  }

  /** The reply of a deletion: its users are exactly the members at its listing step, and its version
      is the deleted room's at the later step that committed. */
  lemma {:induction false} DeletionReplies(steps: seq<Step>, id: CallId, users: set<UserId>, version: nat)
    returns (i: nat, j: nat)
    requires id in Exec(steps).calls && Exec(steps).calls[id].pc == Done(Deleted(users, version))
    ensures Exec(steps).calls[id].op.DeleteRoom? && i < j
    ensures ListsAt(steps, i, id, Exec(steps).calls[id].op.room, users)
    ensures DeletesAt(steps, j, id, Exec(steps).calls[id].op.room, version)
    decreases |steps|
  {
    var before, step := steps[..|steps| - 1], steps[|steps| - 1];
    var s := Exec(before);
    if id in s.calls && s.calls[id].pc == Done(Deleted(users, version)) {
      i, j := DeletionReplies(before, id, users, version);
      assert steps[..i] == before[..i] && steps[..j] == before[..j] && steps[..j + 1] == before[..j + 1];
    } else {
      i := ListingIsReal(before, id);
      j := |before|;
      assert steps[..i] == before[..i] && steps[..j] == before && steps[..j + 1] == steps;
    }
  }

  // ---------------------------------------------------------------- who is missed

  ghost predicate Seated(steps: seq<Step>, n: nat, room: RoomId, user: UserId)
    requires n <= |steps|
  {
    Seat(room, user) in Exec(steps[..n]).db.members
  }

  ghost predicate JoinsAt(steps: seq<Step>, m: nat, room: RoomId, user: UserId) {
    m < |steps| && JoinStep(Exec(steps[..m]), steps[m], room, user)
  }

  ghost predicate ExitsAt(steps: seq<Step>, m: nat, room: RoomId, user: UserId) {
    m < |steps| && ExitStep(Exec(steps[..m]), steps[m], room, user)
  }

  ghost predicate NeverLeft(steps: seq<Step>, i: nat, j: nat, room: RoomId, user: UserId) {
    forall n :: i <= n < j ==> !ExitsAt(steps, n, room, user)
  }

  /** The user joins at step `m` and does not leave after it, before step `j`. */
  ghost predicate StaysFrom(steps: seq<Step>, m: nat, j: nat, room: RoomId, user: UserId) {
    m < j && JoinsAt(steps, m, room, user) && NeverLeft(steps, m + 1, j, room, user)
  }

  /** The user joins at a step from `i` on and stays until step `j`. */
  ghost predicate JoinedToStay(steps: seq<Step>, i: nat, j: nat, room: RoomId, user: UserId) {
    exists m :: i <= m && StaysFrom(steps, m, j, room, user)
  }

  lemma StaysFromGrows(steps: seq<Step>, m: nat, j: nat, room: RoomId, user: UserId)
    requires m < j
    ensures StaysFrom(steps, m, j + 1, room, user) <==>
        StaysFrom(steps, m, j, room, user) && !ExitsAt(steps, j, room, user)
  {
  }

  lemma StayedShorter(steps: seq<Step>, i: nat, j: nat, room: RoomId, user: UserId)
    requires i <= j && JoinedToStay(steps, i, j + 1, room, user) && !JoinsAt(steps, j, room, user)
    ensures JoinedToStay(steps, i, j, room, user) && !ExitsAt(steps, j, room, user)
  {
    var m: nat :| i <= m && StaysFrom(steps, m, j + 1, room, user);
    assert m != j;
    StaysFromGrows(steps, m, j, room, user);
  }

  lemma StayedLonger(steps: seq<Step>, i: nat, j: nat, room: RoomId, user: UserId)
    requires i <= j && !ExitsAt(steps, j, room, user) && JoinedToStay(steps, i, j, room, user)
    ensures JoinedToStay(steps, i, j + 1, room, user)
  {
    var m: nat :| i <= m && StaysFrom(steps, m, j, room, user);
    StaysFromGrows(steps, m, j, room, user);
  }

  lemma JoinedToStayGrows(steps: seq<Step>, i: nat, j: nat, room: RoomId, user: UserId)
    requires i <= j < |steps|
    ensures JoinedToStay(steps, i, j + 1, room, user) <==>
            (JoinsAt(steps, j, room, user) || (JoinedToStay(steps, i, j, room, user) && !ExitsAt(steps, j, room, user)))
  {
    if JoinsAt(steps, j, room, user) {
      assert StaysFrom(steps, j, j + 1, room, user);
    } else if JoinedToStay(steps, i, j + 1, room, user) {
      StayedShorter(steps, i, j, room, user);
    } else if JoinedToStay(steps, i, j, room, user) && !ExitsAt(steps, j, room, user) {
      StayedLonger(steps, i, j, room, user);
    }
  }

  /** A user is seated exactly when they were and never left since, or joined since and stayed. */
  lemma {:induction false} SeatHistory(steps: seq<Step>, i: nat, j: nat, room: RoomId, user: UserId)
    requires i <= j <= |steps|
    ensures Seated(steps, j, room, user) <==>
            || (Seated(steps, i, room, user) && NeverLeft(steps, i, j, room, user))
            || JoinedToStay(steps, i, j, room, user)
    decreases j
  {
    if i < j {
      SeatHistory(steps, i, j - 1, room, user);
      JoinedToStayGrows(steps, i, j - 1, room, user);
      assert steps[..j][..j - 1] == steps[..j - 1] && steps[..j][j - 1] == steps[j - 1];
      SeatStep(Exec(steps[..j - 1]), steps[j - 1], room, user);
      assert NeverLeft(steps, i, j, room, user) <==>
             NeverLeft(steps, i, j - 1, room, user) && !ExitsAt(steps, j - 1, room, user);
    }
  }

  /** Exactly who a deletion misses: at its commit a user is a member and not on its list if and only
      if they were not seated when it listed, joined afterwards and did not leave again. And exactly
      whom it evicts in vain: those who left in between and did not come back. */
  lemma DeletionMissesExactly(steps: seq<Step>, id: CallId, users: set<UserId>, version: nat) returns (i: nat, j: nat)
    requires id in Exec(steps).calls && Exec(steps).calls[id].pc == Done(Deleted(users, version))
    ensures Exec(steps).calls[id].op.DeleteRoom? && i < j
    ensures ListsAt(steps, i, id, Exec(steps).calls[id].op.room, users)
    ensures DeletesAt(steps, j, id, Exec(steps).calls[id].op.room, version)
    ensures var room := Exec(steps).calls[id].op.room;
      forall u :: u in MembersOf(Exec(steps[..j]).db, room) && u !in users <==>
                  !Seated(steps, i, room, u) && JoinedToStay(steps, i, j, room, u)
    ensures var room := Exec(steps).calls[id].op.room;
      forall u :: u in users && u !in MembersOf(Exec(steps[..j]).db, room) <==>
                  Seated(steps, i, room, u) && !NeverLeft(steps, i, j, room, u) && !JoinedToStay(steps, i, j, room, u)
  {
    i, j := DeletionReplies(steps, id, users, version);
    var room := Exec(steps).calls[id].op.room;
    forall u
      ensures u in users <==> Seated(steps, i, room, u)
      ensures u in MembersOf(Exec(steps[..j]).db, room) <==> Seated(steps, j, room, u)
    {
      SeatIsMember(Exec(steps[..i]).db, room, u);
      SeatIsMember(Exec(steps[..j]).db, room, u);
    }
    forall u { SeatHistory(steps, i, j, room, u); }
  }

  lemma SeatIsMember(db: Db, room: RoomId, user: UserId)
    ensures user in MembersOf(db, room) <==> Seat(room, user) in db.members
  {
    if Seat(room, user) in db.members { assert Seat(room, user).user in MembersOf(db, room); }
  }

  // ---------------------------------------------------------------- it happens

  lemma RunListing() returns (steps: seq<Step>)
    ensures Exec(steps).db == SmallDb(map[2 := GuestRow()])
    ensures 3 in Exec(steps).calls && Exec(steps).calls[3] == Call(OWNER, DeleteRoom(1), Listed({1}))
    ensures forall id :: id > 3 ==> id !in Exec(steps).calls
  {
    steps := RunAskingToJoin();
    steps := Extended(steps, Begin(3, OWNER, DeleteRoom(1)));
    steps := Extended(steps, Advance(3, 0));
    assert Exec(steps).calls[3].pc == Checked;
    steps := Extended(steps, Advance(3, 0));
    assert MembersOf(SmallDb(map[2 := GuestRow()]), 1) == {1};
  }

  lemma RunApprovingMeanwhile() returns (steps: seq<Step>)
    ensures var db := Exec(steps).db;
      && db.rooms == map[1 := Room(7, 2, None)]
      && db.members == map[Seat(1, 1) := Membership(7, Owner), Seat(1, 2) := Membership(7, Member)]
    ensures 3 in Exec(steps).calls && Exec(steps).calls[3] == Call(OWNER, DeleteRoom(1), Listed({1}))
    ensures forall id :: id > 4 ==> id !in Exec(steps).calls
  {
    steps := RunListing();
    steps := Extended(steps, Begin(4, OWNER, DecideJoin(1, 2, true)));
    steps := Extended(steps, Advance(4, 0));
    var db := Exec(steps).db;
    assert Exec(steps).calls[4] == Call(OWNER, DecideJoin(1, 2, true), Ready);
    assert IsOwner(db, 1, 1) && ExactlyOneOwner(db, 1);
    ApprovalKeepsOwners(db, 1, 2, true, OWNER);
    steps := Extended(steps, Advance(4, 0));
  }

  /** A run in which a deletion succeeds without listing a member the room had when it committed. */
  lemma DeletionCanMissAMember() returns (steps: seq<Step>)
    ensures 3 in Exec(steps).calls && Exec(steps).calls[3].pc == Done(Deleted({1}, 3))
    ensures MembersOf(Exec(steps).db, 1) == {1, 2}
  {
    steps := RunApprovingMeanwhile();
    var db := Exec(steps).db;
    ExecInv(steps);
    assert ExactlyOneOwner(db, 1);
    var after := DeleteStatements(db, 1, OWNER, 0).db;
    assert Owners(after.members, 1) == {1};
    steps := Extended(steps, Advance(3, 0));
    assert Seat(1, 1) in db.members && Seat(1, 2) in db.members;
  }

  lemma RunLeaving() returns (steps: seq<Step>)
    ensures var s := Exec(steps);
      && s.db.rooms == map[1 := Room(7, 3, None)] && s.db.members == map[Seat(1, 1) := Membership(7, Owner)]
      && 5 in s.calls && s.calls[5] == Call(GUEST, LeaveRoom(1), Written) && 6 !in s.calls
  {
    steps := RunApprovingMeanwhile();
    steps := Extended(steps, Begin(5, GUEST, LeaveRoom(1)));
    steps := Extended(steps, Advance(5, 0));
    var db := Exec(steps).db;
    assert Exec(steps).calls[5].pc == Ready;
    ExecInv(steps);
    RemovalNeedsTheTrigger(db, 1, 2, OWNER);
    assert Leave(db, 1, Identity(GUEST.app, 2)).Committed?;
    steps := Extended(steps, Advance(5, 0));
    assert db.members - {Seat(1, 2)} == map[Seat(1, 1) := Membership(7, Owner)];
  }

  lemma RunDeletingMeanwhile() returns (steps: seq<Step>)
    ensures var s := Exec(steps);
      && 5 in s.calls && s.calls[5] == Call(GUEST, LeaveRoom(1), Written)
      && 6 in s.calls && s.calls[6].pc == Done(Deleted({1}, 4))
      && IsDeleted(s.db, 1) && s.db.rooms[1].app == 7 && Seat(1, 2) !in s.db.members
  {
    steps := RunLeaving();
    steps := Extended(steps, Begin(6, OWNER, DeleteRoom(1)));
    steps := Extended(steps, Advance(6, 0));
    assert Exec(steps).calls[6].pc == Checked;
    steps := Extended(steps, Advance(6, 0));
    assert Exec(steps).calls[6].pc == Listed({1}) by {
      assert MembersOf(Exec(steps).db, 1) == {1};
    }
    assert Owners(Exec(steps).db.members, 1) == {1};
    steps := Extended(steps, Advance(6, 0));
  }

  /** A run in which a leave fails after it has taken effect: its seat is gone and it has changed the
      database once, but the room is deleted before its snapshot; and the deletion, which lists only
      the owner, does not evict the leaver either. */
  lemma FailedLeaveTakesEffect() returns (steps: seq<Step>)
    ensures var s := Exec(steps);
      && 5 in s.calls && s.calls[5] == Call(GUEST, LeaveRoom(1), Done(Failed)) && Effects(steps, 5) == 1
      && 6 in s.calls && s.calls[6].pc == Done(Deleted({1}, 4))
      && Seat(1, 2) !in s.db.members
  {
    var before := RunDeletingMeanwhile();
    steps := Extended(before, Advance(5, 0));
    assert steps[..|before|] == before;
    assert MissesAt(steps, |before|, 5);
    OneEffectPerCall(steps, 5);
  }
}
