/** Why calls of the rooms service fail, and what the ones that do not fail go on to: a table of causes
    in terms of rows alone, exact at every step and traced back over every run. */
module RoomsFailures {
  import opened Wrappers
  import opened RoomsDb
  import opened RoomsRuns
  import opened RoomsEffects

  // ---------------------------------------------------------------- what a call can find

  /** The room exists in the caller's application and is not deleted. */
  predicate Open(db: Db, room: RoomId, app: AppId) {
    room in db.rooms && db.rooms[room].app == app && db.rooms[room].deletedAt == None
  }

  /** The caller holds a row of their own application in an undeleted room. */
  predicate Belongs(db: Db, room: RoomId, who: Identity) {
    && Seat(room, who.user) in db.members && db.members[Seat(room, who.user)].app == who.app
    && room in db.rooms && db.rooms[room].deletedAt == None
  }

  predicate Holds(db: Db, room: RoomId, user: UserId, role: Role) {
    Seat(room, user) in db.members && db.members[Seat(room, user)].role == role
  }

  /** A pending row of the caller's for the room. */
  predicate Waiting(db: Db, q: RequestId, room: RoomId, who: Identity) {
    q in db.requests && db.requests[q].room == room && db.requests[q].app == who.app
    && db.requests[q].user == who.user && db.requests[q].status == Pending
  }

  ghost predicate NoneWaiting(db: Db, room: RoomId, who: Identity) { forall q :: !Waiting(db, q, room, who) }

  predicate Gone(db: Db, room: RoomId) { room in db.rooms && db.rooms[room].deletedAt != None }

  /** The row a removal or leave is after: the caller's own, or the named user's. */
  function Leaver(c: Call): UserId
    requires c.op.RemoveMember? || c.op.LeaveRoom?
  {
    if c.op.LeaveRoom? then c.who.user else c.op.user
  }

  // ---------------------------------------------------------------- the table

  /** What makes the call's next step fail, by operation and by how far it has come. */
  ghost predicate Refused(db: Db, c: Call) {
    match c.op
    case CreateRoom => false
    case AskJoin(room) =>
      (match c.pc
       case Start => !Open(db, room, c.who.app)
       case Checked => Belongs(db, room, c.who)
       case Conflict => NoneWaiting(db, room, c.who)
       case _ => false)
    case CancelJoin(room) => c.pc.Start? && NoneWaiting(db, room, c.who)
    case DecideJoin(room, q, _) =>
      (match c.pc
       case Start => !(Belongs(db, room, c.who) && Holds(db, room, c.who.user, Owner))
       case Ready => !(q in db.requests && db.requests[q].room == room && db.requests[q].app == c.who.app
                       && db.requests[q].status == Pending)
       case _ => false)
    case RemoveMember(room, user) =>
      (match c.pc
       case Start => !(Belongs(db, room, c.who) && Holds(db, room, c.who.user, Owner))
       case Checked => !Holds(db, room, user, Member)
       case Ready => !Holds(db, room, user, Member)
       case Written => Gone(db, room)
       case _ => false)
    case LeaveRoom(room) =>
      (match c.pc
       case Start => !Belongs(db, room, c.who) || Holds(db, room, c.who.user, Owner)
       case Ready => !Holds(db, room, c.who.user, Member)
       case Written => Gone(db, room)
       case _ => false)
    case TransferRoom(room, heir) =>
      (match c.pc
       case Start => !(Belongs(db, room, c.who) && Holds(db, room, c.who.user, Owner))
       case Checked => if heir == c.who.user then !Belongs(db, room, c.who) else Seat(room, heir) !in db.members
       case Ready => !(&& Seat(room, c.who.user) in db.members && Seat(room, heir) in db.members
                       && (Holds(db, room, c.who.user, Owner) || Holds(db, room, heir, Owner)))
       case Written => Gone(db, room)
       case _ => false)
    case DeleteRoom(room) => c.pc.Start? && !(Belongs(db, room, c.who) && Holds(db, room, c.who.user, Owner))
  }

  /** How the call goes on when nothing refuses it: the next thing it reads or writes, or its answer. */
  ghost predicate GoesOn(db: Db, id: CallId, c: Call, pc: Pc) {
    match c.op
    case CreateRoom => pc == Done(Ok)
    case AskJoin(room) =>
      (match c.pc
       case Start => pc == Checked
       case Checked => pc == NotMember
       case NotMember => if NoneWaiting(db, room, c.who) then pc == Ready else Finds(db, room, c.who, pc)
       case Ready => pc == if NoneWaiting(db, room, c.who) then Done(Joined(id, true)) else Conflict
       case Conflict => Finds(db, room, c.who, pc)
       case _ => false)
    case CancelJoin(room) =>
      if c.pc.Start? then pc.Found? && Waiting(db, pc.request, room, c.who) else pc == Done(Ok)
    case DecideJoin(_, _, _) => pc == if c.pc.Start? then Ready else Done(Ok)
    case RemoveMember(_, _) =>
      (match c.pc
       case Start => pc == Checked
       case Checked => pc == Ready
       case Ready => pc == Written
       case _ => pc == Done(Ok))
    case LeaveRoom(_) =>
      (match c.pc
       case Start => pc == Ready
       case Ready => pc == Written
       case _ => pc == Done(Ok))
    case TransferRoom(_, heir) =>
      (match c.pc
       case Start => pc == Checked
       case Checked => pc == if heir == c.who.user then Done(Ok) else Ready
       case Ready => pc == Written
       case _ => pc == Done(Ok))
    case DeleteRoom(room) =>
      (match c.pc
       case Start => pc == Checked
       case Checked => pc.Listed? && forall u :: u in pc.users <==> Seat(room, u) in db.members
       case Listed(users) => pc.Done? && pc.reply.Deleted? && pc.reply.users == users
       case _ => false)
  }

  ghost predicate Finds(db: Db, room: RoomId, who: Identity, pc: Pc) {
    pc.Done? && pc.reply.Joined? && !pc.reply.created && Waiting(db, pc.reply.request, room, who)
  }

  /** The stages an operation passes through. */
  predicate Staged(c: Call) {
    match c.op
    case CreateRoom => c.pc.Start?
    case AskJoin(_) => c.pc.Start? || c.pc.Checked? || c.pc.NotMember? || c.pc.Ready? || c.pc.Conflict?
    case CancelJoin(_) => c.pc.Start? || c.pc.Found?
    case DecideJoin(_, _, _) => c.pc.Start? || c.pc.Ready?
    case RemoveMember(_, _) => c.pc.Start? || c.pc.Checked? || c.pc.Ready? || c.pc.Written?
    case LeaveRoom(_) => c.pc.Start? || c.pc.Ready? || c.pc.Written?
    case TransferRoom(_, _) => c.pc.Start? || c.pc.Checked? || c.pc.Ready? || c.pc.Written?
    case DeleteRoom(_) => c.pc.Start? || c.pc.Checked? || c.pc.Listed?
  }

  // ---------------------------------------------------------------- exact at every step

  /** The call's step fails exactly when the table says so, and goes on as it says otherwise. */
  ghost predicate Follows(db: Db, id: CallId, c: Call, pc: Pc) {
    if Refused(db, c) then pc == Done(Failed) else GoesOn(db, id, c, pc)
  }

  ghost predicate MayStep(db: Db, id: CallId, c: Call) { MayMove(db, id, c) && Staged(c) }

  lemma CreationFollows(db: Db, id: CallId, c: Call, now: Time)
    requires MayStep(db, id, c) && c.op.CreateRoom? && id !in db.rooms
    ensures Follows(db, id, c, Move(db, id, c, now).1)
  {
    CreationEffect(db, id, c.who);
  }

  lemma PendingIsWaiting(db: Db, room: RoomId, who: Identity)
    requires DbInv(db) && room in db.rooms && db.rooms[room].app == who.app
    ensures HasPending(db.requests, room, who.user) <==> !NoneWaiting(db, room, who)
    ensures forall q :: PendingRow(db, q, room, who) <==> Waiting(db, q, room, who)
  {
    if HasPending(db.requests, room, who.user) {
      var q :| q in db.requests && db.requests[q].room == room && db.requests[q].user == who.user
               && db.requests[q].status.Pending?;
      assert Waiting(db, q, room, who);
    }
  }

  lemma AskFollows(db: Db, id: CallId, c: Call, now: Time)
    requires MayStep(db, id, c) && c.op.AskJoin?
    ensures Follows(db, id, c, Move(db, id, c, now).1)
  {
    if !c.pc.Start? { PendingIsWaiting(db, c.op.room, c.who); }
  }

  lemma CancelFollows(db: Db, id: CallId, c: Call, now: Time)
    requires MayStep(db, id, c) && c.op.CancelJoin?
    ensures Follows(db, id, c, Move(db, id, c, now).1)
  {
    assert forall q :: PendingRow(db, q, c.op.room, c.who) <==> Waiting(db, q, c.op.room, c.who);
  }

  lemma DecideFollows(db: Db, id: CallId, c: Call, now: Time)
    requires MayStep(db, id, c) && c.op.DecideJoin?
    ensures Follows(db, id, c, Move(db, id, c, now).1)
  {
    if c.pc.Ready? { DecisionEffect(db, c.op.room, c.op.request, c.op.approve, c.who); }
  }

  lemma ExitFollows(db: Db, id: CallId, c: Call, now: Time)
    requires MayStep(db, id, c) && (c.op.RemoveMember? || c.op.LeaveRoom?)
    ensures Follows(db, id, c, Move(db, id, c, now).1)
  {
    if c.pc.Ready? { RemovalNeedsTheTrigger(db, c.op.room, Leaver(c), c.who); }
  }

  lemma TransferFollows(db: Db, id: CallId, c: Call, now: Time)
    requires MayStep(db, id, c) && c.op.TransferRoom?
    ensures Follows(db, id, c, Move(db, id, c, now).1)
  {
    if c.pc.Ready? { TransferNeedsOnlyTheIndex(db, c.op.room, c.op.heir, c.who); }
  }

  lemma DeleteFollows(db: Db, id: CallId, c: Call, now: Time)
    requires MayStep(db, id, c) && c.op.DeleteRoom?
    ensures Follows(db, id, c, Move(db, id, c, now).1)
  {
    if c.pc.Listed? { DeletionEffect(db, c.op.room, c.who, now); }
    if c.pc.Checked? {
      forall u
        ensures u in (set s | s in db.members && s.room == c.op.room :: s.user) <==> Seat(c.op.room, u) in db.members
      {
        if Seat(c.op.room, u) in db.members { assert Seat(c.op.room, u).user == u; }
      }
    }
  }

  lemma MovesFollow(db: Db, id: CallId, c: Call, now: Time)
    requires MayStep(db, id, c) && (c.op.CreateRoom? ==> id !in db.rooms)
    ensures Follows(db, id, c, Move(db, id, c, now).1)
  {
    match c.op
    case CreateRoom => CreationFollows(db, id, c, now);
    case AskJoin(_) => AskFollows(db, id, c, now);
    case CancelJoin(_) => CancelFollows(db, id, c, now);
    case DecideJoin(_, _, _) => DecideFollows(db, id, c, now);
    case RemoveMember(_, _) => ExitFollows(db, id, c, now);
    case LeaveRoom(_) => ExitFollows(db, id, c, now);
    case TransferRoom(_, _) => TransferFollows(db, id, c, now);
    case DeleteRoom(_) => DeleteFollows(db, id, c, now);
  }

  // ---------------------------------------------------------------- over runs

  lemma {:induction false} CallsAreStaged(steps: seq<Step>, id: CallId)
    requires id in Exec(steps).calls
    ensures Exec(steps).calls[id].pc.Done? || Staged(Exec(steps).calls[id])
  {
    var n := |steps| - 1;
    var s := Exec(steps[..n]);
    if id in s.calls {
      CallsAreStaged(steps[..n], id);
      CallsAreKept(s, steps[n], id);
      RepliesAreFinal(s, steps[n], id);
      if !s.calls[id].pc.Done? && steps[n].Advance? && steps[n].id == id {
        CallStepFollows(steps[..n], id, steps[n].now);
      }
    }
  }

  /** In every run: the next step of a call fails exactly when the table refuses it, and otherwise goes
      on as the table says. */
  lemma CallStepFollows(steps: seq<Step>, id: CallId, now: Time)
    requires id in Exec(steps).calls && !Exec(steps).calls[id].pc.Done? && Staged(Exec(steps).calls[id])
    ensures var s := Exec(steps); Follows(s.db, id, s.calls[id], Next(s, Advance(id, now)).calls[id].pc)
  {
    ExecInv(steps);
    MovesFollow(Exec(steps).db, id, Exec(steps).calls[id], now);
  }

  /** Every failed call of every run failed for cause: at one of its own steps, step `i`, the table
      refused it in the state of that step. So none fails that finds what it needs: an ask meets a room
      that is not open, a membership, or, having lost the race to insert, no pending row any more. */
  lemma {:induction false} FailuresHaveCause(steps: seq<Step>, id: CallId) returns (i: nat, pc: Pc)
    requires id in Exec(steps).calls && Exec(steps).calls[id].pc == Done(Failed)
    ensures StepsFrom(steps, i, id, pc) && !pc.Done?
    ensures Refused(Exec(steps[..i]).db, Exec(steps).calls[id].(pc := pc))
    decreases |steps|
  {
    var n := |steps| - 1;
    var s := Exec(steps[..n]);
    if id in s.calls {
      CallsAreKept(s, steps[n], id);
      RepliesAreFinal(s, steps[n], id);
      if s.calls[id].pc == Done(Failed) {
        i, pc := FailuresHaveCause(steps[..n], id);
        assert steps[..n][..i] == steps[..i];
        StepsFromGrows(steps, i, id, pc);
      } else {
        CallsAreStaged(steps[..n], id);
        CallStepFollows(steps[..n], id, steps[n].now);
        i, pc := n, s.calls[id].pc;
      }
    }
  }

  /** An ask that lost the race to insert, having met a waiting row, is answered with the row that waits
      when it looks again: it fails only if that row was settled in between and none took its place. */
  lemma LosersAreAnswered(steps: seq<Step>, id: CallId, now: Time, q: RequestId)
    requires id in Exec(steps).calls && Exec(steps).calls[id].op.AskJoin?
    requires var c := Exec(steps).calls[id];
      (c.pc.Conflict? || c.pc.NotMember?) && Waiting(Exec(steps).db, q, c.op.room, c.who)
    ensures Next(Exec(steps), Advance(id, now)).calls[id].pc == Done(Joined(q, false))
  {
    CallStepFollows(steps, id, now);
    ExecInv(steps);
    var db, c := Exec(steps).db, Exec(steps).calls[id];
    var pc := Next(Exec(steps), Advance(id, now)).calls[id].pc;
    assert Finds(db, c.op.room, c.who, pc);
    assert OnePending(db);
  }

  /** An ask that meets the index met a waiting row of its own room and user. */
  lemma {:induction false} ConflictMetARow(steps: seq<Step>, id: CallId) returns (l: nat)
    requires id in Exec(steps).calls && Exec(steps).calls[id].op.AskJoin? && Exec(steps).calls[id].pc.Conflict?
    ensures StepsFrom(steps, l, id, Ready)
    ensures var c := Exec(steps).calls[id]; !NoneWaiting(Exec(steps[..l]).db, c.op.room, c.who)
    decreases |steps|
  {
    var n := |steps| - 1;
    var s := Exec(steps[..n]);
    if id in s.calls {
      CallsAreKept(s, steps[n], id);
      if s.calls[id].pc.Conflict? {
        l := ConflictMetARow(steps[..n], id);
        assert steps[..n][..l] == steps[..l];
        StepsFromGrows(steps, l, id, Ready);
      } else {
        CallsAreStaged(steps[..n], id);
        CallStepFollows(steps[..n], id, steps[n].now);
        l := n;
      }
    }
  }

  /** Every failed ask of every run: its room was not open at its first step, or its user a member at
      its second, or its insert met a row at step `l` and none of its room and user waited any more
      when it looked again at step `i`. */
  lemma FailedAsksHaveCause(steps: seq<Step>, id: CallId) returns (l: nat, i: nat, pc: Pc)
    requires id in Exec(steps).calls && Exec(steps).calls[id].op.AskJoin? && Exec(steps).calls[id].pc == Done(Failed)
    ensures StepsFrom(steps, i, id, pc)
    ensures var c, db := Exec(steps).calls[id], Exec(steps[..i]).db;
      || (pc == Start && !Open(db, c.op.room, c.who.app))
      || (pc == Checked && Belongs(db, c.op.room, c.who))
      || (&& pc == Conflict && NoneWaiting(db, c.op.room, c.who)
          && l < i && id in Exec(steps[..l]).calls && Exec(steps[..l]).calls[id] == c.(pc := Ready)
          && !NoneWaiting(Exec(steps[..l]).db, c.op.room, c.who))
  {
    i, pc := FailuresHaveCause(steps, id);
    l := 0;
    if pc == Conflict {
      l := ConflictMetARow(steps[..i], id);
      assert steps[..i][..l] == steps[..l];
    }
  }
}
