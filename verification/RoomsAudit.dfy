/** The audit log as a record of ownership: in every run the owner of a room is the one its log names
    last. */
module RoomsAudit {
  import opened Wrappers
  import opened RoomsDb
  import opened RoomsRuns
  import opened RoomsGuarantees
  import opened RoomsEffects

  /** What one entry says about who owns the room. */
  function Names(e: Audit, room: RoomId): Option<UserId> {
    match e
    case RoomCreated(_, actor, r) => if r == room then Some(actor) else None
    case OwnerTransferred(_, _, r, heir) => if r == room then Some(heir) else None
    case _ => None
  }

  /** The owner the log names: the heir of the last transfer of the room, or its creator. */
  function AuditOwner(audit: seq<Audit>, room: RoomId): Option<UserId> {
    if audit == [] then None
    else if Names(audit[|audit| - 1], room).Some? then Names(audit[|audit| - 1], room)
    else AuditOwner(audit[..|audit| - 1], room)
  }

  lemma AuditOwnerAppends(audit: seq<Audit>, e: Audit, room: RoomId)
    ensures AuditOwner(audit + [e], room) == if Names(e, room).Some? then Names(e, room) else AuditOwner(audit, room)
  {
    assert (audit + [e])[..|audit|] == audit;
  }

  ghost predicate LogNamesOwner(db: Db, room: RoomId) {
    forall u :: IsOwner(db, room, u) <==> AuditOwner(db.audit, room) == Some(u)
  }

  lemma CreationIsNamed(db: Db, id: CallId, c: Call, now: Time)
    requires MayMove(db, id, c) && c.op.CreateRoom? && LogNamesOwner(db, id)
    ensures LogNamesOwner(Move(db, id, c, now).0, id)
  {
    if c.pc.Start? {
      CreationEffect(db, id, c.who);
      AuditOwnerAppends(db.audit, RoomCreated(c.who.app, c.who.user, id), id);
    }
  }

  lemma DecisionIsNamed(db: Db, id: CallId, c: Call, now: Time)
    requires MayMove(db, id, c) && c.op.DecideJoin? && LogNamesOwner(db, c.op.room)
    ensures LogNamesOwner(Move(db, id, c, now).0, c.op.room)
  {
    var room, q, approve := c.op.room, c.op.request, c.op.approve;
    if c.pc.Ready? {
      ApprovalKeepsOwners(db, room, q, approve, c.who);
      if q in db.requests {
        AuditOwnerAppends(db.audit, RequestDecided(c.who.app, c.who.user, q, room, db.requests[q].user, approve), room);
      }
    }
  }

  lemma RemovalIsNamed(db: Db, id: CallId, c: Call, now: Time)
    requires MayMove(db, id, c) && (c.op.RemoveMember? || c.op.LeaveRoom?) && LogNamesOwner(db, c.op.room)
    ensures LogNamesOwner(Move(db, id, c, now).0, c.op.room)
  {
    var room, user := c.op.room, if c.op.LeaveRoom? then c.who.user else c.op.user;
    if c.pc.Ready? {
      RemovalNeedsTheTrigger(db, room, user, c.who);
      AuditOwnerAppends(db.audit, MemberRemoved(c.who.app, c.who.user, user, room), room);
    }
  }

  lemma TransferIsNamed(db: Db, id: CallId, c: Call, now: Time)
    requires MayMove(db, id, c) && c.op.TransferRoom? && LogNamesOwner(db, c.op.room)
    ensures LogNamesOwner(Move(db, id, c, now).0, c.op.room)
  {
    if c.pc.Ready? {
      TransferNeedsOnlyTheIndex(db, c.op.room, c.op.heir, c.who);
      TransferEntry(db, c.op.room, c.op.heir, c.who);
    }
  }

  lemma TransferEntry(db: Db, room: RoomId, heir: UserId, who: Identity)
    ensures var o := Transfer(db, room, heir, who); o.Committed? ==> AuditOwner(o.db.audit, room) == Some(heir)
  {
    AuditOwnerAppends(db.audit, OwnerTransferred(who.app, who.user, room, heir), room);
  }

  lemma DeletionIsNamed(db: Db, id: CallId, c: Call, now: Time)
    requires MayMove(db, id, c) && c.op.DeleteRoom? && LogNamesOwner(db, c.op.room)
    ensures LogNamesOwner(Move(db, id, c, now).0, c.op.room)
  {
    if c.pc.Listed? {
      DeletionEffect(db, c.op.room, c.who, now);
      AuditOwnerAppends(db.audit, RoomDeleted(c.who.app, c.who.user, c.op.room), c.op.room);
    }
  }

  lemma OtherRoomsStayNamed(db: Db, id: CallId, c: Call, now: Time, room: RoomId)
    requires MayMove(db, id, c) && room != Target(id, c.op) && LogNamesOwner(db, room)
    ensures LogNamesOwner(Move(db, id, c, now).0, room)
  {
    var d := Move(db, id, c, now).0;
    MoveKeeps(db, id, c, now);
    MoveAudits(db, id, c, now);
    assert SameRoom(db, d, room);
    assert forall u :: IsOwner(d, room, u) <==> IsOwner(db, room, u);
    if d.audit != db.audit {
      assert d.audit == db.audit + [d.audit[|db.audit|]];
      AuditOwnerAppends(db.audit, d.audit[|db.audit|], room);
    }
  }

  lemma MovesAreNamed(db: Db, id: CallId, c: Call, now: Time)
    requires MayMove(db, id, c) && LogNamesOwner(db, Target(id, c.op))
    ensures LogNamesOwner(Move(db, id, c, now).0, Target(id, c.op))
  {
    match c.op
    case CreateRoom => CreationIsNamed(db, id, c, now);
    case AskJoin(_) =>
    case CancelJoin(_) =>
    case DecideJoin(_, _, _) => DecisionIsNamed(db, id, c, now);
    case RemoveMember(_, _) => RemovalIsNamed(db, id, c, now);
    case LeaveRoom(_) => RemovalIsNamed(db, id, c, now);
    case TransferRoom(_, _) => TransferIsNamed(db, id, c, now);
    case DeleteRoom(_) => DeletionIsNamed(db, id, c, now);
  }

  /** In every state of every run, deleted rooms included, a user owns a room exactly when the room's
      last creation or transfer entry on the audit log names them: no approval, removal, leave or
      deletion ever moves ownership, and every transfer does as its entry says. */
  lemma {:induction false} LogAlwaysNamesOwner(steps: seq<Step>, room: RoomId)
    ensures LogNamesOwner(Exec(steps).db, room)
  {
    if steps != [] {
      var before, step := steps[..|steps| - 1], steps[|steps| - 1];
      var s := Exec(before);
      LogAlwaysNamesOwner(before, room);
      ExecInv(before);
      if step.Advance? && step.id in s.calls {
        var c := s.calls[step.id];
        if room == Target(step.id, c.op) {
          MovesAreNamed(s.db, step.id, c, step.now);
        } else {
          OtherRoomsStayNamed(s.db, step.id, c, step.now, room);
        }
      }
    }
  }
}
