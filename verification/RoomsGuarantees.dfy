/** What the rooms service guarantees over every run of interleaved calls with stale guards. */
module RoomsGuarantees {
  import opened RoomsDb
  import opened RoomsRuns

  // ---------------------------------------------------------------- one owner, one pending request

  lemma EveryRoomHasExactlyOneOwner(steps: seq<Step>, room: RoomId)
    requires room in Exec(steps).db.rooms
    ensures ExactlyOneOwner(Exec(steps).db, room)
  {
    ExecInv(steps);
  }

  /** No two pending rows share a room and user, and every row belongs to its room's application. */
  lemma AtMostOnePendingRequest(steps: seq<Step>, p: RequestId, q: RequestId)
    requires var rows := Exec(steps).db.requests;
      p in rows && q in rows && rows[p].status.Pending? && rows[q].status.Pending?
    requires var rows := Exec(steps).db.requests; rows[p].room == rows[q].room && rows[p].user == rows[q].user
    ensures p == q
  {
    ExecInv(steps);
  }

  /** Applications never mix: seats and requests carry their room's application. */
  lemma TenantsNeverMix(steps: seq<Step>)
    ensures var db := Exec(steps).db;
      && (forall s :: s in db.members ==> s.room in db.rooms && db.members[s].app == db.rooms[s.room].app)
      && (forall q :: q in db.requests ==>
            db.requests[q].room in db.rooms && db.requests[q].app == db.rooms[db.requests[q].room].app)
  {
    ExecInv(steps);
  }

  // ---------------------------------------------------------------- the version as a clock

  /** The step commits an approval, removal, leave, transfer or deletion of this room. */
  ghost predicate StructuralCommit(s: State, step: Step, room: RoomId) {
    && step.Advance? && step.id in s.calls
    && var c := s.calls[step.id];
       var reply := Next(s, step).calls[step.id].pc;
    && Target(step.id, c.op) == room
    && (match c.op
        case DecideJoin(_, _, approve) => approve && c.pc.Ready? && reply == Done(Ok)
        case RemoveMember(_, _) => c.pc.Ready? && reply == Written
        case LeaveRoom(_) => c.pc.Ready? && reply == Written
        case TransferRoom(_, _) => c.pc.Ready? && reply == Written
        case DeleteRoom(_) => c.pc.Listed? && reply.Done? && reply.reply.Deleted?
        case _ => false)
  }

  ghost function CommitCount(steps: seq<Step>, room: RoomId): nat {
    if steps == [] then 0
    else
      var before := steps[..|steps| - 1];
      CommitCount(before, room) + if StructuralCommit(Exec(before), steps[|steps| - 1], room) then 1 else 0
  }

  lemma StepAndVersion(s: State, step: Step, room: RoomId)
    requires Inv(s)
    ensures var t := Next(s, step);
      && (room in s.db.rooms ==>
            && room in t.db.rooms
            && (StructuralCommit(s, step, room) ==> t.db.rooms[room].version == s.db.rooms[room].version + 1)
            && (!StructuralCommit(s, step, room) ==> SameRoom(s.db, t.db, room)))
      && (room !in s.db.rooms ==>
            && !StructuralCommit(s, step, room)
            && (room in t.db.rooms ==> t.db.rooms[room].version == 1))
  {
    if step.Advance? && step.id in s.calls {
      var c := s.calls[step.id];
      MoveKeeps(s.db, step.id, c, step.now);
      if Target(step.id, c.op) == room {
        StepOnTarget(s, step, room);
      }
    }
  }

  /** What the step does to the version and the seats of its own room. */
  ghost predicate Versioned(s: State, step: Step, room: RoomId) {
    var t := Next(s, step);
    && (room in s.db.rooms && StructuralCommit(s, step, room) ==>
          room in t.db.rooms && t.db.rooms[room].version == s.db.rooms[room].version + 1)
    && (room in s.db.rooms && !StructuralCommit(s, step, room) ==> SameRoom(s.db, t.db, room))
    && (room !in s.db.rooms ==>
          !StructuralCommit(s, step, room) && (room in t.db.rooms ==> t.db.rooms[room].version == 1))
  }

  ghost predicate Targets(s: State, step: Step, room: RoomId) {
    Inv(s) && step.Advance? && step.id in s.calls && Target(step.id, s.calls[step.id].op) == room
  }

  lemma ExitIsVersioned(s: State, step: Step, room: RoomId)
    requires Targets(s, step, room) && (s.calls[step.id].op.RemoveMember? || s.calls[step.id].op.LeaveRoom?)
    ensures Versioned(s, step, room)
  {
  }

  lemma TransferOrDecisionIsVersioned(s: State, step: Step, room: RoomId)
    requires Targets(s, step, room) && (s.calls[step.id].op.TransferRoom? || s.calls[step.id].op.DecideJoin?)
    ensures Versioned(s, step, room)
  {
  }

  lemma StepOnTarget(s: State, step: Step, room: RoomId)
    requires Targets(s, step, room)
    ensures Versioned(s, step, room)
  {
    var op := s.calls[step.id].op;
    if op.RemoveMember? || op.LeaveRoom? {
      ExitIsVersioned(s, step, room);
    } else if op.TransferRoom? || op.DecideJoin? {
      TransferOrDecisionIsVersioned(s, step, room);
    }
  }

  /** The version counts the structural commits: one plus their number, in every run. */
  lemma {:induction false} VersionCountsCommits(steps: seq<Step>, room: RoomId)
    ensures room in Exec(steps).db.rooms ==> Exec(steps).db.rooms[room].version == 1 + CommitCount(steps, room)
    ensures room !in Exec(steps).db.rooms ==> CommitCount(steps, room) == 0
  {
    if steps != [] {
      var before := steps[..|steps| - 1];
      VersionCountsCommits(before, room);
      ExecInv(before);
      StepAndVersion(Exec(before), steps[|steps| - 1], room);
    }
  }

  /** The version never falls, and two states of a run that show the same version of a room show
      the same room: same seats, same roles, same deletion mark. */
  lemma {:induction false} EqualVersionsShowEqualRooms(steps: seq<Step>, i: nat, room: RoomId)
    requires i <= |steps| && room in Exec(steps[..i]).db.rooms
    ensures room in Exec(steps).db.rooms
    ensures Exec(steps[..i]).db.rooms[room].version <= Exec(steps).db.rooms[room].version
    ensures Exec(steps[..i]).db.rooms[room].version == Exec(steps).db.rooms[room].version ==>
              SameRoom(Exec(steps[..i]).db, Exec(steps).db, room)
    decreases |steps|
  {
    if i == |steps| {
      assert steps[..i] == steps;
    } else {
      var before := steps[..|steps| - 1];
      assert before[..i] == steps[..i];
      EqualVersionsShowEqualRooms(before, i, room);
      ExecInv(before);
      StepAndVersion(Exec(before), steps[|steps| - 1], room);
    }
  }

  // ---------------------------------------------------------------- provenance of memberships

  ghost predicate OnceOwner(steps: seq<Step>, room: RoomId, user: UserId) {
    exists j :: 0 <= j <= |steps| && IsOwner(Exec(steps[..j]).db, room, user)
  }

  ghost predicate Created(a: Audit, room: RoomId, user: UserId) {
    a.RoomCreated? && a.room == room && a.actor == user
  }

  ghost predicate ApprovedEntry(a: Audit, room: RoomId, user: UserId) {
    a.RequestDecided? && a.approved && a.room == room && a.user == user
  }

  ghost predicate Admitted(audit: seq<Audit>, room: RoomId, user: UserId) {
    exists k :: 0 <= k < |audit| && (Created(audit[k], room, user) || ApprovedEntry(audit[k], room, user))
  }

  /** The entry a move appends names the call's caller and room. */
  lemma MoveAudits(db: Db, id: CallId, c: Call, now: Time)
    ensures var m := Move(db, id, c, now);
      && db.audit <= m.0.audit && |m.0.audit| <= |db.audit| + 1
      && (m.0.audit != db.audit ==>
            var a := m.0.audit[|db.audit|];
            if a.RoomCreated? then Created(a, id, c.who.user)
            else OwnerOp(c.op) && PastGuard(c.pc) && a.room == c.op.room && a.actor == c.who.user)
      && (forall s :: s in m.0.members && s !in db.members ==>
            m.0.audit != db.audit
            && (Created(m.0.audit[|db.audit|], s.room, s.user) || ApprovedEntry(m.0.audit[|db.audit|], s.room, s.user)))
  {
    match c.op
    case CreateRoom =>
    case AskJoin(_) =>
    case CancelJoin(_) =>
    case DecideJoin(_, _, _) =>
    case RemoveMember(_, _) =>
    case LeaveRoom(_) =>
    case TransferRoom(_, _) =>
    case DeleteRoom(_) =>
  }

  lemma OnceOwnerGrows(steps: seq<Step>, room: RoomId, user: UserId)
    requires steps != [] && OnceOwner(steps[..|steps| - 1], room, user)
    ensures OnceOwner(steps, room, user)
  {
    var before := steps[..|steps| - 1];
    var j :| 0 <= j <= |before| && IsOwner(Exec(before[..j]).db, room, user);
    assert before[..j] == steps[..j];
  }

  lemma AdmittedGrows(audit: seq<Audit>, longer: seq<Audit>, room: RoomId, user: UserId)
    requires audit <= longer && Admitted(audit, room, user)
    ensures Admitted(longer, room, user)
  {
    var k :| 0 <= k < |audit| && (Created(audit[k], room, user) || ApprovedEntry(audit[k], room, user));
    assert longer[k] == audit[k];
  }

  /** The calls past an owner guard really saw their caller as the owner in an earlier state. */
  lemma {:induction false} GuardedCallersWereOwners(steps: seq<Step>, id: CallId)
    requires id in Exec(steps).calls && OwnerOp(Exec(steps).calls[id].op) && PastGuard(Exec(steps).calls[id].pc)
    ensures OnceOwner(steps, Exec(steps).calls[id].op.room, Exec(steps).calls[id].who.user)
    decreases |steps|
  {
    var before := steps[..|steps| - 1];
    var s := Exec(before);
    var c := Exec(steps).calls[id];
    if id in s.calls && PastGuard(s.calls[id].pc) {
      GuardedCallersWereOwners(before, id);
      OnceOwnerGrows(steps, c.op.room, c.who.user);
    } else {
      assert OwnerGuard(s.db, c.op.room, c.who);
      assert steps[..|before|] == before;
    }
  }

  lemma {:induction false} AuditOnlyGrows(steps: seq<Step>, j: nat)
    requires j <= |steps|
    ensures |Exec(steps[..j]).db.audit| <= |Exec(steps).db.audit|
    decreases |steps|
  {
    if j == |steps| {
      assert steps[..j] == steps;
    } else {
      var before, step := steps[..|steps| - 1], steps[|steps| - 1];
      assert before[..j] == steps[..j];
      AuditOnlyGrows(before, j);
      var s := Exec(before);
      if step.Advance? && step.id in s.calls { MoveAudits(s.db, step.id, s.calls[step.id], step.now); }
    }
  }

  /** The user owned the room in a state of the run before audit entry `k` was appended. */
  ghost predicate OwnerBefore(steps: seq<Step>, k: nat, room: RoomId, user: UserId) {
    exists j :: 0 <= j <= |steps| && OwnsAt(steps, j, k, room, user)
  }

  ghost predicate OwnsAt(steps: seq<Step>, j: nat, k: nat, room: RoomId, user: UserId)
    requires j <= |steps|
  {
    IsOwner(Exec(steps[..j]).db, room, user) && |Exec(steps[..j]).db.audit| <= k
  }

  lemma OwnerBeforeGrows(steps: seq<Step>, k: nat, room: RoomId, user: UserId)
    requires steps != [] && OwnerBefore(steps[..|steps| - 1], k, room, user)
    ensures OwnerBefore(steps, k, room, user)
  {
    var before := steps[..|steps| - 1];
    var j :| 0 <= j <= |before| && OwnsAt(before, j, k, room, user);
    assert before[..j] == steps[..j];
    assert OwnsAt(steps, j, k, room, user);
  }

  lemma OnceOwnerIsBefore(steps: seq<Step>, room: RoomId, user: UserId)
    requires OnceOwner(steps, room, user)
    ensures OwnerBefore(steps, |Exec(steps).db.audit|, room, user)
  {
    var j :| 0 <= j <= |steps| && IsOwner(Exec(steps[..j]).db, room, user);
    AuditOnlyGrows(steps, j);
    assert OwnsAt(steps, j, |Exec(steps).db.audit|, room, user);
  }

  /** The last step keeps the log and appends at most one entry. */
  lemma AuditStep(steps: seq<Step>, k: nat)
    requires steps != [] && k < |Exec(steps).db.audit|
    ensures var before := Exec(steps[..|steps| - 1]).db.audit;
      if k < |before| then before[k] == Exec(steps).db.audit[k] else k == |before|
  {
    var s, step := Exec(steps[..|steps| - 1]), steps[|steps| - 1];
    if step.Advance? && step.id in s.calls { MoveAudits(s.db, step.id, s.calls[step.id], step.now); }
  }

  lemma NewEntryIsTheOwners(steps: seq<Step>, k: nat)
    requires steps != [] && k == |Exec(steps[..|steps| - 1]).db.audit| < |Exec(steps).db.audit|
    requires !Exec(steps).db.audit[k].RoomCreated?
    ensures var a := Exec(steps).db.audit[k]; OwnerBefore(steps[..|steps| - 1], k, a.room, a.actor)
  {
    var before, step := steps[..|steps| - 1], steps[|steps| - 1];
    var s, a := Exec(before), Exec(steps).db.audit[k];
    MoveAudits(s.db, step.id, s.calls[step.id], step.now);
    GuardedCallersWereOwners(before, step.id);
    OnceOwnerIsBefore(before, a.room, a.actor);
  }

  /** Every audited owner action was taken by someone who owned the room in a state before its entry
      was appended. */
  lemma {:induction false} AuditedActorsWereOwners(steps: seq<Step>, k: nat)
    requires k < |Exec(steps).db.audit| && !Exec(steps).db.audit[k].RoomCreated?
    ensures OwnerBefore(steps, k, Exec(steps).db.audit[k].room, Exec(steps).db.audit[k].actor)
    decreases |steps|
  {
    var before := steps[..|steps| - 1];
    var a := Exec(steps).db.audit[k];
    AuditStep(steps, k);
    if k < |Exec(before).db.audit| {
      AuditedActorsWereOwners(before, k);
    } else {
      NewEntryIsTheOwners(steps, k);
    }
    OwnerBeforeGrows(steps, k, a.room, a.actor);
  }

  /** Every current member created the room or has an approval on the append-only audit log. */
  lemma {:induction false} EveryMemberWasAdmitted(steps: seq<Step>, room: RoomId, user: UserId)
    requires Seat(room, user) in Exec(steps).db.members
    ensures Admitted(Exec(steps).db.audit, room, user)
    decreases |steps|
  {
    var before := steps[..|steps| - 1];
    var s := Exec(before);
    var step := steps[|steps| - 1];
    if step.Advance? && step.id in s.calls { MoveAudits(s.db, step.id, s.calls[step.id], step.now); }
    var audit := Exec(steps).db.audit;
    if Seat(room, user) in s.db.members {
      EveryMemberWasAdmitted(before, room, user);
      AdmittedGrows(s.db.audit, audit, room, user);
    } else {
      var k := |s.db.audit|;
      assert Created(audit[k], room, user) || ApprovedEntry(audit[k], room, user);
    }
  }

  /** The two together: the provenance of a membership. */
  lemma MembershipProvenance(steps: seq<Step>, room: RoomId, user: UserId) returns (k: nat)
    requires Seat(room, user) in Exec(steps).db.members
    ensures k < |Exec(steps).db.audit|
    ensures var a := Exec(steps).db.audit[k];
      Created(a, room, user) || (ApprovedEntry(a, room, user) && OwnerBefore(steps, k, room, a.actor))
  {
    EveryMemberWasAdmitted(steps, room, user);
    var audit := Exec(steps).db.audit;
    k :| 0 <= k < |audit| && (Created(audit[k], room, user) || ApprovedEntry(audit[k], room, user));
    if !audit[k].RoomCreated? { AuditedActorsWereOwners(steps, k); }
  }

  // ---------------------------------------------------------------- joins against exits

  /** The step commits the creation of the room by the user, or an approval of the user. */
  ghost predicate JoinStep(s: State, step: Step, room: RoomId, user: UserId) {
    && step.Advance? && step.id in s.calls && !s.calls[step.id].pc.Done?
    && Next(s, step).calls[step.id].pc == Done(Ok)
    && var c := s.calls[step.id];
    && Target(step.id, c.op) == room
    && ((c.op.CreateRoom? && c.who.user == user)
        || (c.op.DecideJoin? && c.op.approve && c.op.request in s.db.requests
            && s.db.requests[c.op.request].user == user))
  }

  /** The step commits the removal of the user, or the user's own leave. */
  ghost predicate ExitStep(s: State, step: Step, room: RoomId, user: UserId) {
    && step.Advance? && step.id in s.calls && s.calls[step.id].pc.Ready?
    && Next(s, step).calls[step.id].pc == Written
    && var c := s.calls[step.id];
    && Target(step.id, c.op) == room
    && ((c.op.RemoveMember? && c.op.user == user) || (c.op.LeaveRoom? && c.who.user == user))
  }

  ghost function Joins(steps: seq<Step>, room: RoomId, user: UserId): nat {
    if steps == [] then 0
    else
      var before := steps[..|steps| - 1];
      Joins(before, room, user) + if JoinStep(Exec(before), steps[|steps| - 1], room, user) then 1 else 0
  }

  ghost function Exits(steps: seq<Step>, room: RoomId, user: UserId): nat {
    if steps == [] then 0
    else
      var before := steps[..|steps| - 1];
      Exits(before, room, user) + if ExitStep(Exec(before), steps[|steps| - 1], room, user) then 1 else 0
  }

  lemma SeatStep(s: State, step: Step, room: RoomId, user: UserId)
    ensures var seat := Seat(room, user); var t := Next(s, step);
      && (seat !in s.db.members && seat in t.db.members ==> JoinStep(s, step, room, user))
      && (JoinStep(s, step, room, user) ==> seat in t.db.members)
      && (ExitStep(s, step, room, user) <==> seat in s.db.members && seat !in t.db.members)
  {
    if step.Advance? && step.id in s.calls {
      var c := s.calls[step.id];
      match c.op
      case CreateRoom =>
      case AskJoin(_) =>
      case CancelJoin(_) =>
      case DecideJoin(_, _, _) =>
      case RemoveMember(_, _) =>
      case LeaveRoom(_) =>
      case TransferRoom(_, _) =>
      case DeleteRoom(_) =>
    }
  }

  /** A seat disappears only by a committed exit and appears only by a committed join, so joins
      cover exits, with one to spare while the user is a member. */
  lemma {:induction false} JoinsCoverExits(steps: seq<Step>, room: RoomId, user: UserId)
    ensures Joins(steps, room, user) >= Exits(steps, room, user) + if Seat(room, user) in Exec(steps).db.members
        then 1 else 0
  {
    if steps != [] {
      var before := steps[..|steps| - 1];
      JoinsCoverExits(before, room, user);
      SeatStep(Exec(before), steps[|steps| - 1], room, user);
    }
  }
}
