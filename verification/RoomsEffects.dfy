/** What the room transactions do to the tables, in the tables' own terms, and what calls leave
    behind: at most one effect each, and none once their room is deleted unless they had read their
    guard before. */
module RoomsEffects {
  import opened Wrappers
  import opened RoomsDb
  import opened RoomsRuns

  // ---------------------------------------------------------------- one transaction

  /** Every seat but one is as it was. */
  ghost predicate SeatsKeptBut(a: Db, b: Db, room: RoomId, user: UserId) {
    forall s :: s != Seat(room, user) ==>
      (s in a.members <==> s in b.members) && (s in a.members ==> b.members[s] == a.members[s])
  }

  /** A new room holds its creator as owner and nobody else. */
  lemma CreationEffect(db: Db, room: RoomId, who: Identity)
    requires DbInv(db)
    ensures var o := Create(db, room, who);
      && (o.Committed? <==> room !in db.rooms)
      && (o.Committed? ==>
            && (forall u :: Seat(room, u) in o.db.members <==> u == who.user)
            && IsOwner(o.db, room, who.user) && IsMember(o.db, room, who) && o.db.rooms[room].version == 1
            && SeatsKeptBut(db, o.db, room, who.user))
  {
    var o := CreateStatements(db, room, who);
    assert room !in db.rooms ==> forall u :: Seat(room, u) !in db.members;
    if o.Committed? {
      assert IsOwner(o.db, room, who.user);
      assert forall u :: IsOwner(o.db, room, u) <==> u == who.user;
      OwnerCount(o.db, room);
    }
  }

  function Settled(row: JoinRequest, approve: bool, decider: UserId): JoinRequest {
    row.(status := if approve then Approved else Rejected, decidedBy := Some(decider))
  }

  /** A decision settles the one pending row it names, in the decider's name; an approval seats the
      requester, keeping the role of a seat already held, and a rejection changes no seat and no room. */
  lemma DecisionEffect(db: Db, room: RoomId, q: RequestId, approve: bool, who: Identity)
    requires DbInv(db) && room in db.rooms
    ensures var o := Decide(db, room, q, approve, who);
      && (o.Committed? <==> Decidable(db, room, q, who))
      && (o.Committed? ==>
            && o.db.requests == db.requests[q := Settled(db.requests[q], approve, who.user)]
            && var user := db.requests[q].user; var seat := Seat(room, user);
            && SeatsKeptBut(db, o.db, room, user)
            && (approve ==> IsSeated(o.db, seat) && (seat in db.members ==> o.db.members[seat] == db.members[seat])
                            && (seat !in db.members ==> o.db.members[seat] == Membership(who.app, Member)))
            && (!approve ==> o.db.members == db.members && o.db.rooms == db.rooms))
  {
    ApprovalKeepsOwners(db, room, q, approve, who);
  }

  predicate IsSeated(db: Db, seat: Seat) { seat in db.members }

  /** A deletion always commits on an existing room, marks it, and ends every membership in it. */
  lemma DeletionEffect(db: Db, room: RoomId, who: Identity, now: Time)
    requires DbInv(db)
    ensures var o := Delete(db, room, who, now);
      && (o.Committed? <==> room in db.rooms)
      && (o.Committed? ==>
            && o.db.rooms[room].deletedAt == Some(now) && o.db.members == db.members && o.db.requests == db.requests
            && forall w :: !IsMember(o.db, room, w))
  {
    var o := DeleteStatements(db, room, who, now);
    if o.Committed? {
      assert forall u :: IsOwner(o.db, room, u) <==> IsOwner(db, room, u);
      assert ExactlyOneOwner(db, room);
      var u :| IsOwner(db, room, u);
      assert IsOwner(o.db, room, u);
      OwnerCount(o.db, room);
    }
  }

  // ---------------------------------------------------------------- one effect a call

  /** The reply stands for a change of the database. */
  predicate Succeeded(pc: Pc) {
    pc.Done? && (pc.reply.Ok? || pc.reply.Deleted? || (pc.reply.Joined? && pc.reply.created))
  }

  predicate IsDeleted(db: Db, room: RoomId) { room in db.rooms && db.rooms[room].deletedAt.Some? }

  /** A step changes the database only when it commits or answers; a committed call only reads its
      snapshot, and that fails exactly when the room is deleted. */
  lemma EffectOfMove(db: Db, id: CallId, c: Call, now: Time)
    requires CallInv(db, id, c)
    ensures var m := Move(db, id, c, now);
      && (m.0 != db ==> !c.pc.Written? && (m.1.Written? || Succeeded(m.1)))
      && (c.pc.Written? ==> m == (db, Done(if IsDeleted(db, c.op.room) then Failed else Ok)))
      && (m.1.Written? && !c.pc.Written? ==> m.0 != db)
  {
  }

  ghost function Effects(steps: seq<Step>, id: CallId): nat {
    if steps == [] then 0
    else
      var before := steps[..|steps| - 1];
      var step := steps[|steps| - 1];
      Effects(before, id) + (if step.Advance? && step.id == id && Exec(steps).db != Exec(before).db then 1 else 0)
  }

  /** At step `j` the committed call reads its snapshot and finds the room deleted. */
  ghost predicate MissesAt(steps: seq<Step>, j: nat, id: CallId) {
    && j < |steps| && steps[j].Advance? && steps[j].id == id
    && id in Exec(steps[..j]).calls && Exec(steps[..j]).calls[id].pc.Written?
    && RoomOp(Exec(steps[..j]).calls[id].op)
    && IsDeleted(Exec(steps[..j]).db, Exec(steps[..j]).calls[id].op.room)
  }

  ghost predicate MissedSnapshot(steps: seq<Step>, id: CallId) { exists j :: MissesAt(steps, j, id) }

  lemma MissedGrows(steps: seq<Step>, id: CallId)
    requires steps != []
    ensures MissedSnapshot(steps, id) <==> MissedSnapshot(steps[..|steps| - 1], id) || MissesAt(steps, |steps| - 1, id)
  {
    var before := steps[..|steps| - 1];
    assert forall j :: 0 <= j <= |before| ==> before[..j] == steps[..j];
    if MissedSnapshot(steps, id) {
      var j: nat :| MissesAt(steps, j, id);
      assert j < |before| ==> MissesAt(before, j, id);
    }
    if MissedSnapshot(before, id) {
      var j: nat :| MissesAt(before, j, id);
      assert MissesAt(steps, j, id);
    }
  }

  lemma RepliesAreFinal(s: State, step: Step, id: CallId)
    requires id in s.calls
    ensures id in Next(s, step).calls && (s.calls[id].pc.Done? ==> Next(s, step).calls[id] == s.calls[id])
    ensures !(step.Advance? && step.id == id) ==> Next(s, step).calls[id] == s.calls[id]
  {
  }

  /** How often a call has changed the database, by where it stands. */
  ghost predicate Accounted(steps: seq<Step>, id: CallId) {
    var calls, n := Exec(steps).calls, Effects(steps, id);
    && n <= 1
    && (MissedSnapshot(steps, id) ==> id in calls && calls[id].pc == Done(Failed))
    && (id !in calls ==> n == 0)
    && (id in calls && !calls[id].pc.Done? ==> (n == 1 <==> calls[id].pc.Written?))
    && (id in calls && calls[id].pc == Done(Failed) ==> (n == 1 <==> MissedSnapshot(steps, id)))
    && (id in calls && n == 1 ==> Succeeded(calls[id].pc) || calls[id].pc.Written? || calls[id].pc == Done(Failed))
  }

  lemma OwnStepAccounted(steps: seq<Step>, id: CallId)
    requires steps != [] && Accounted(steps[..|steps| - 1], id) && Inv(Exec(steps[..|steps| - 1]))
    requires id in Exec(steps[..|steps| - 1]).calls && steps[|steps| - 1].Advance? && steps[|steps| - 1].id == id
    ensures Accounted(steps, id)
  {
    var before, step := steps[..|steps| - 1], steps[|steps| - 1];
    var s := Exec(before);
    MissedGrows(steps, id);
    RepliesAreFinal(s, step, id);
    if !s.calls[id].pc.Done? { EffectOfMove(s.db, id, s.calls[id], step.now); }
    DoneCallsRest(s.db, id, s.calls[id], step.now);
  }

  lemma DoneCallsRest(db: Db, id: CallId, c: Call, now: Time)
    ensures c.pc.Done? ==> Move(db, id, c, now) == (db, c.pc)
  {
  }

  /** In every run a call changes the database at most once. A call that failed has changed it exactly
      when its transaction committed and its snapshot then found the room deleted; one that has not
      answered, exactly when it has committed and its snapshot is still to come. */
  lemma {:induction false} OneEffectPerCall(steps: seq<Step>, id: CallId)
    ensures Accounted(steps, id)
  {
    if steps == [] {
      assert !MissedSnapshot(steps, id);
    } else {
      var before, step := steps[..|steps| - 1], steps[|steps| - 1];
      OneEffectPerCall(before, id);
      ExecInv(before);
      if step.Advance? && step.id == id && id in Exec(before).calls {
        OwnStepAccounted(steps, id);
      } else {
        MissedGrows(steps, id);
        if id in Exec(before).calls { RepliesAreFinal(Exec(before), step, id); }
      }
    }
  }

  // ---------------------------------------------------------------- deleted rooms

  lemma SeatMovesKeepDeleted(db: Db, id: CallId, c: Call, now: Time, room: RoomId)
    requires IsDeleted(db, room) && (c.op.DecideJoin? || c.op.RemoveMember? || c.op.LeaveRoom? || c.op.TransferRoom?)
    ensures IsDeleted(Move(db, id, c, now).0, room)
  {
  }

  lemma MoveKeepsDeleted(db: Db, id: CallId, c: Call, now: Time, room: RoomId)
    requires IsDeleted(db, room)
    ensures IsDeleted(Move(db, id, c, now).0, room)
  {
    if c.op.DecideJoin? || c.op.RemoveMember? || c.op.LeaveRoom?
        || c.op.TransferRoom? { SeatMovesKeepDeleted(db, id, c, now, room); }
  }

  /** Deletion is final in every continuation of the run. */
  lemma {:induction false} DeletionIsFinal(steps: seq<Step>, i: nat, room: RoomId)
    requires i <= |steps| && IsDeleted(Exec(steps[..i]).db, room)
    ensures IsDeleted(Exec(steps).db, room)
    decreases |steps|
  {
    if i == |steps| {
      assert steps[..i] == steps;
    } else {
      var before, step := steps[..|steps| - 1], steps[|steps| - 1];
      assert before[..i] == steps[..i];
      DeletionIsFinal(before, i, room);
      if step.Advance? && step.id in Exec(before).calls {
        MoveKeepsDeleted(Exec(before).db, step.id, Exec(before).calls[step.id], step.now, room);
      }
    }
  }

  /** No call that starts after the deletion gets past its first read, cancellation of one's own
      request excepted; so only calls that had read their guard earlier can still commit. */
  lemma DeletedRoomsRefuseNewCalls(db: Db, id: CallId, c: Call, now: Time)
    requires RoomOp(c.op) && !c.op.CancelJoin? && c.pc.Start? && IsDeleted(db, c.op.room)
    ensures Move(db, id, c, now) == (db, Done(Failed))
  {
  }

  /** Waiting at its first read, or turned away there. */
  predicate TurnedAway(pc: Pc) { pc.Start? || pc == Done(Failed) }

  /** In every run: a call that begins on a room after its deletion is turned away at its first read,
      and changes nothing. */
  lemma {:induction false} LateCallsAreTurnedAway(steps: seq<Step>, i: nat, id: CallId)
    requires i <= |steps| && id !in Exec(steps[..i]).calls && id in Exec(steps).calls
    requires var op := Exec(steps).calls[id].op;
      RoomOp(op) && !op.CancelJoin? && IsDeleted(Exec(steps[..i]).db, op.room)
    ensures TurnedAway(Exec(steps).calls[id].pc) && Effects(steps, id) == 0
    decreases |steps|
  {
    var before, step := steps[..|steps| - 1], steps[|steps| - 1];
    var s := Exec(before);
    assert steps[..|steps|] == steps;
    assert before[..i] == steps[..i];
    if id in s.calls {
      RepliesAreFinal(s, step, id);
      LateCallsAreTurnedAway(before, i, id);
      DeletionIsFinal(before, i, s.calls[id].op.room);
      if step.Advance? && step.id == id && s.calls[id].pc.Start? {
        DeletedRoomsRefuseNewCalls(s.db, id, s.calls[id], step.now);
      }
      DoneCallsRest(s.db, id, s.calls[id], if step.Advance? then step.now else 0);
    } else {
      OneEffectPerCall(before, id);
    }
  }

  // ---------------------------------------------------------------- who asks to join

  predicate IsOpen(db: Db, room: RoomId, app: AppId) {
    room in db.rooms && db.rooms[room].app == app && db.rooms[room].deletedAt.None?
  }

  /** Before step `n` the call stands at `pc` of the same operation it has at the end of the run, and
      step `n` is its. */
  ghost predicate StepsFrom(steps: seq<Step>, n: nat, id: CallId, pc: Pc) {
    && n < |steps| && steps[n].Advance? && steps[n].id == id
    && id in Exec(steps[..n]).calls && id in Exec(steps).calls
    && Exec(steps[..n]).calls[id] == Exec(steps).calls[id].(pc := pc)
  }

  /** The ask got past its first read, or past its second. */
  predicate SawOpen(pc: Pc) { !pc.Start? && pc != Done(Failed) }

  predicate SawOutside(pc: Pc) { SawOpen(pc) && !pc.Checked? }

  lemma CallsAreKept(s: State, step: Step, id: CallId)
    requires id in s.calls
    ensures id in Next(s, step).calls && Next(s, step).calls[id] == s.calls[id].(pc := Next(s, step).calls[id].pc)
  {
  }

  lemma StepsFromGrows(steps: seq<Step>, n: nat, id: CallId, pc: Pc)
    requires steps != [] && StepsFrom(steps[..|steps| - 1], n, id, pc)
    ensures StepsFrom(steps, n, id, pc)
  {
    var before := steps[..|steps| - 1];
    assert before[..n] == steps[..n];
    CallsAreKept(Exec(before), steps[|steps| - 1], id);
  }

  lemma AskMoves(db: Db, id: CallId, c: Call, now: Time)
    requires c.op.AskJoin?
    ensures var pc := Move(db, id, c, now).1;
      && (SawOpen(pc) && !SawOpen(c.pc) ==> c.pc.Start? && pc.Checked? && IsOpen(db, c.op.room, c.who.app))
      && (SawOutside(pc) && !SawOutside(c.pc) ==> c.pc.Checked? && !IsMember(db, c.op.room, c.who))
  {
  }

  /** At its first step the ask saw its room open. */
  lemma {:induction false} AskSawOpen(steps: seq<Step>, id: CallId) returns (i: nat)
    requires id in Exec(steps).calls && Exec(steps).calls[id].op.AskJoin? && SawOpen(Exec(steps).calls[id].pc)
    ensures StepsFrom(steps, i, id, Start)
    ensures var c := Exec(steps).calls[id]; IsOpen(Exec(steps[..i]).db, c.op.room, c.who.app)
    decreases |steps|
  {
    var n := |steps| - 1;
    var s := Exec(steps[..n]);
    if id in s.calls {
      CallsAreKept(s, steps[n], id);
      RepliesAreFinal(s, steps[n], id);
      if SawOpen(s.calls[id].pc) {
        i := AskSawOpen(steps[..n], id);
        assert steps[..n][..i] == steps[..i];
        StepsFromGrows(steps, i, id, Start);
      } else {
        i := n;
        AskMoves(s.db, id, s.calls[id], if steps[n].Advance? then steps[n].now else 0);
      }
    }
  }

  /** Every ask that was answered with a row, or got as far as looking for one, had read its room open
      at step `i` and its user outside the room at the later step `j`. */
  lemma {:induction false} AskersWereOutsiders(steps: seq<Step>, id: CallId) returns (i: nat, j: nat)
    requires id in Exec(steps).calls && Exec(steps).calls[id].op.AskJoin? && SawOutside(Exec(steps).calls[id].pc)
    ensures i < j && StepsFrom(steps, i, id, Start) && StepsFrom(steps, j, id, Checked)
    ensures var c := Exec(steps).calls[id];
      IsOpen(Exec(steps[..i]).db, c.op.room, c.who.app) && !IsMember(Exec(steps[..j]).db, c.op.room, c.who)
    decreases |steps|
  {
    var n := |steps| - 1;
    var s := Exec(steps[..n]);
    if id in s.calls {
      CallsAreKept(s, steps[n], id);
      RepliesAreFinal(s, steps[n], id);
      if SawOutside(s.calls[id].pc) {
        i, j := AskersWereOutsiders(steps[..n], id);
        assert steps[..n][..j] == steps[..j];
        StepsFromGrows(steps, j, id, Checked);
      } else {
        AskMoves(s.db, id, s.calls[id], if steps[n].Advance? then steps[n].now else 0);
        i := AskSawOpen(steps[..n], id);
        j := n;
      }
      assert steps[..n][..i] == steps[..i];
      StepsFromGrows(steps, i, id, Start);
    }
  }
}
