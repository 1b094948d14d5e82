/** Concurrent join requests: how callers converge on one row, and when a decision can be lost. */
module JoinRequests {
  import opened Wrappers
  import opened RoomsDb
  import opened RoomsRuns

  ghost predicate IsPending(db: Db, q: RequestId) {
    q in db.requests && db.requests[q].status.Pending?
  }

  /** The call has begun and not yet replied in the state after the first `j` steps. */
  ghost predicate InFlight(steps: seq<Step>, j: nat, id: CallId)
    requires j <= |steps|
  {
    id in Exec(steps[..j]).calls && !Exec(steps[..j]).calls[id].pc.Done?
  }

  /** Rows and `created: true` replies match one to one: row q exists exactly when call q made that
      reply, and no other call makes it. */
  lemma CreatedRepliesMatchRows(steps: seq<Step>, q: RequestId)
    ensures var s := Exec(steps);
      && (q in s.db.requests <==> q in s.calls && s.calls[q].pc == Done(Joined(q, true)))
      && (forall id :: id in s.calls && s.calls[id].pc == Done(Joined(q, true)) ==> id == q)
  {
    ExecInv(steps);
  }

  /** The step that answers the call, naming the row. */
  ghost predicate AnswersAt(steps: seq<Step>, i: nat, id: CallId, q: RequestId) {
    && i < |steps| && steps[i].Advance? && steps[i].id == id && InFlight(steps, i, id)
    && id in Exec(steps[..i + 1]).calls
    && var pc := Exec(steps[..i + 1]).calls[id].pc;
    && pc.Done? && pc.reply.Joined? && pc.reply.request == q
  }

  /** Every reply names a row of the caller's room and user that was pending in the state the call
      answered in, or in the state its own insert produced, and that its answer leaves pending. */
  lemma {:induction false} JoinReplyWasPending(steps: seq<Step>, id: CallId, q: RequestId, created: bool)
    returns (j: nat, k: nat)
    requires id in Exec(steps).calls && Exec(steps).calls[id].pc == Done(Joined(q, created))
    ensures AnswersAt(steps, j, id, q) && k == (if created then j + 1 else j)
    ensures IsPending(Exec(steps[..k]).db, q) && IsPending(Exec(steps[..j + 1]).db, q)
    ensures var row := Exec(steps[..k]).db.requests[q]; var c := Exec(steps).calls[id];
      c.op.AskJoin? && row.room == c.op.room && row.user == c.who.user
    decreases |steps|
  {
    var before := steps[..|steps| - 1];
    var s := Exec(before);
    if id in s.calls && s.calls[id].pc == Done(Joined(q, created)) {
      j, k := JoinReplyWasPending(before, id, q, created);
      assert steps[..j] == before[..j] && steps[..j + 1] == before[..j + 1] && steps[..k] == before[..k];
    } else {
      j := |before|;
      k := if created then |steps| else |before|;
      assert steps[..j] == before && steps[..|steps|] == steps;
      ExecInv(before);
      AskJoinReply(s, steps[|steps| - 1], id, q, created);
    }
  }

  lemma AskReplies(db: Db, id: CallId, c: Call, now: Time, q: RequestId, created: bool)
    requires c.op.AskJoin? && !c.pc.Done? && Move(db, id, c, now).1 == Done(Joined(q, created))
    ensures IsPending(if created then Move(db, id, c, now).0 else db, q) && IsPending(Move(db, id, c, now).0, q)
  {
  }

  lemma AskJoinReply(s: State, step: Step, id: CallId, q: RequestId, created: bool)
    requires Inv(s) && id in Next(s, step).calls && Next(s, step).calls[id].pc == Done(Joined(q, created))
    requires id in s.calls ==> s.calls[id].pc != Done(Joined(q, created))
    ensures id in s.calls && !s.calls[id].pc.Done?
    ensures step.Advance? && step.id == id && Next(s, step).calls[id].op.AskJoin?
    ensures var c := Next(s, step).calls[id]; var row := (if created then Next(s, step).db else s.db).requests;
      q in row && row[q].room == c.op.room && row[q].user == c.who.user
    ensures IsPending(if created then Next(s, step).db else s.db, q) && IsPending(Next(s, step).db, q)
  {
    var c := s.calls[step.id];
    MoveKeeps(s.db, step.id, c, step.now);
    assert CallInv(Next(s, step).db, id, Next(s, step).calls[id]);
    AskReplies(s.db, id, c, step.now, q, created);
  }

  /** A row never changes its room, application or user and is never deleted. */
  lemma {:induction false} RowsKeepTheirSubject(steps: seq<Step>, i: nat, q: RequestId)
    requires i <= |steps| && q in Exec(steps[..i]).db.requests
    ensures q in Exec(steps).db.requests
    ensures Exec(steps).db.requests[q].room == Exec(steps[..i]).db.requests[q].room
    ensures Exec(steps).db.requests[q].app == Exec(steps[..i]).db.requests[q].app
    ensures Exec(steps).db.requests[q].user == Exec(steps[..i]).db.requests[q].user
    decreases |steps|
  {
    if i == |steps| {
      assert steps[..i] == steps;
    } else {
      var before := steps[..|steps| - 1];
      assert before[..i] == steps[..i];
      RowsKeepTheirSubject(before, i, q);
      ExecInv(before);
      NextKeepsInv(Exec(before), steps[|steps| - 1]);
    }
  }

  // ---------------------------------------------------------------- when a decision is lost

  lemma CancelSettles(db: Db, id: CallId, c: Call, now: Time, q: RequestId)
    requires q in db.requests && c.op.CancelJoin? && (c.pc.Found? ==> c.pc.request in db.requests)
    ensures var d := Move(db, id, c, now).0;
      && q in d.requests
      && d.requests[q] == if c.pc == Found(q) then db.requests[q].(status := Cancelled) else db.requests[q]
  {
  }

  lemma OthersKeepSettled(db: Db, id: CallId, c: Call, now: Time, q: RequestId)
    requires q in db.requests && !db.requests[q].status.Pending? && !c.op.CancelJoin? && MayMove(db, id, c)
    ensures var d := Move(db, id, c, now).0; q in d.requests && d.requests[q] == db.requests[q]
  {
    if c.op.DecideJoin? || c.op.AskJoin? { RequestMovesKeepSettled(db, id, c, now, q); }
  }

  lemma RequestMovesKeepSettled(db: Db, id: CallId, c: Call, now: Time, q: RequestId)
    requires q in db.requests && !db.requests[q].status.Pending? && (c.op.DecideJoin? || c.op.AskJoin?)
        && MayMove(db, id, c)
    ensures var d := Move(db, id, c, now).0; q in d.requests && d.requests[q] == db.requests[q]
  {
  }

  /** A settled row changes status in exactly one case: a cancellation that read the row while it
      was pending performs its unguarded update now. */
  lemma SettledRowChangesOnlyByStaleCancel(s: State, step: Step, q: RequestId)
    requires Inv(s) && q in s.db.requests && !s.db.requests[q].status.Pending?
    ensures q in Next(s, step).db.requests
    ensures Next(s, step).db.requests[q].status != s.db.requests[q].status <==>
              && step.Advance? && step.id in s.calls
              && s.calls[step.id].op.CancelJoin? && s.calls[step.id].pc == Found(q)
              && !s.db.requests[q].status.Cancelled?
    ensures Next(s, step).db.requests[q].status != s.db.requests[q].status ==>
              Next(s, step).db.requests[q].status == Cancelled
  {
    if step.Advance? && step.id in s.calls {
      var c := s.calls[step.id];
      MoveKeeps(s.db, step.id, c, step.now);
      if c.op.CancelJoin? {
        CancelSettles(s.db, step.id, c, step.now, q);
      } else {
        OthersKeepSettled(s.db, step.id, c, step.now, q);
      }
    }
  }

  // ---------------------------------------------------------------- convergence

  /** The step decides the pending row, or cancels it. */
  ghost predicate Settles(s: State, step: Step, q: RequestId) {
    && step.Advance? && step.id in s.calls
    && var c := s.calls[step.id];
       || (c.op.CancelJoin? && c.pc == Found(q))
       || (c.op.DecideJoin? && c.op.request == q && c.pc.Ready? && Next(s, step).calls[step.id].pc == Done(Ok))
  }

  lemma DecisionSettles(db: Db, id: CallId, c: Call, now: Time, q: RequestId)
    requires MayMove(db, id, c) && IsPending(db, q) && !c.op.CancelJoin?
    ensures var m := Move(db, id, c, now);
      IsPending(m.0, q) <==> !(c.op.DecideJoin? && c.op.request == q && c.pc.Ready? && m.1 == Done(Ok))
  {
  }

  /** A pending row stays pending at a step exactly when the step does not settle it. */
  lemma PendingUntilSettled(s: State, step: Step, q: RequestId)
    requires Inv(s) && IsPending(s.db, q)
    ensures IsPending(Next(s, step).db, q) <==> !Settles(s, step, q)
  {
    if step.Advance? && step.id in s.calls {
      var c := s.calls[step.id];
      if c.op.CancelJoin? { CancelSettles(s.db, step.id, c, step.now, q); }
      else { DecisionSettles(s.db, step.id, c, step.now, q); }
    }
  }

  lemma PendingStep(s: State, step: Step, q: RequestId)
    requires Inv(s) && q in s.db.requests
    ensures IsPending(Next(s, step).db, q) <==> IsPending(s.db, q) && !Settles(s, step, q)
  {
    if IsPending(s.db, q) { PendingUntilSettled(s, step, q); } else { SettledRowChangesOnlyByStaleCancel(s, step, q); }
  }

  ghost predicate SettlesAt(steps: seq<Step>, m: nat, q: RequestId) {
    m < |steps| && Settles(Exec(steps[..m]), steps[m], q)
  }

  ghost predicate NeverSettled(steps: seq<Step>, i: nat, j: nat, q: RequestId) {
    forall m :: i <= m < j ==> !SettlesAt(steps, m, q)
  }

  lemma PrefixSettles(steps: seq<Step>, n: nat, m: nat, q: RequestId)
    requires m < n <= |steps|
    ensures SettlesAt(steps[..n], m, q) <==> SettlesAt(steps, m, q)
  {
    assert steps[..n][..m] == steps[..m];
  }

  lemma PrefixNeverSettled(steps: seq<Step>, n: nat, i: nat, j: nat, q: RequestId)
    requires j <= n <= |steps|
    ensures NeverSettled(steps[..n], i, j, q) <==> NeverSettled(steps, i, j, q)
  {
    forall m | i <= m < j ensures SettlesAt(steps[..n], m, q) <==>
        SettlesAt(steps, m, q) { PrefixSettles(steps, n, m, q); }
  }

  lemma NeverSettledGrows(steps: seq<Step>, i: nat, j: nat, q: RequestId)
    requires i <= j
    ensures NeverSettled(steps, i, j + 1, q) <==> NeverSettled(steps, i, j, q) && !SettlesAt(steps, j, q)
  {
  }

  lemma {:induction false} PendingLasts(steps: seq<Step>, i: nat, q: RequestId)
    requires i <= |steps| && IsPending(Exec(steps[..i]).db, q)
    ensures IsPending(Exec(steps).db, q) <==> NeverSettled(steps, i, |steps|, q)
    decreases |steps|
  {
    if i == |steps| {
      assert steps[..i] == steps;
    } else {
      var n := |steps| - 1;
      var before := steps[..n];
      assert before[..i] == steps[..i];
      PendingLasts(before, i, q);
      PrefixNeverSettled(steps, n, i, n, q);
      NeverSettledGrows(steps, i, n, q);
      RowsKeepTheirSubject(before, i, q);
      LastStepPending(steps, q);
    }
  }

  lemma LastStepPending(steps: seq<Step>, q: RequestId)
    requires steps != [] && q in Exec(steps[..|steps| - 1]).db.requests
    ensures IsPending(Exec(steps).db, q) <==>
            IsPending(Exec(steps[..|steps| - 1]).db, q) && !SettlesAt(steps, |steps| - 1, q)
  {
    ExecInv(steps[..|steps| - 1]);
    PendingStep(Exec(steps[..|steps| - 1]), steps[|steps| - 1], q);
  }

  lemma AnswerSettlesNothing(steps: seq<Step>, j: nat, b: CallId, q: RequestId, p: RequestId)
    requires AnswersAt(steps, j, b, q)
    ensures !SettlesAt(steps, j, p)
  {
    ExecInv(steps[..j + 1]);
    assert steps[..j + 1][..j] == steps[..j] && steps[..j + 1][j] == steps[j];
    assert CallInv(Exec(steps[..j + 1]).db, b, Exec(steps[..j + 1]).calls[b]);
  }

  /** A row pending after one answer is still pending after a later one exactly when nobody decides or
      cancels it in between. */
  lemma PendingBetweenAnswers(steps: seq<Step>, i: nat, j: nat, b: CallId, p: RequestId, q: RequestId)
    requires i < j && AnswersAt(steps, j, b, q) && IsPending(Exec(steps[..i + 1]).db, p)
    ensures IsPending(Exec(steps[..j + 1]).db, p) <==> NeverSettled(steps, i + 1, j, p)
  {
    var upTo := steps[..j + 1];
    assert upTo[..i + 1] == steps[..i + 1];
    PendingLasts(upTo, i + 1, p);
    PrefixNeverSettled(steps, j + 1, i + 1, j + 1, p);
    NeverSettledGrows(steps, i + 1, j, p);
    AnswerSettlesNothing(steps, j, b, q, p);
  }

  lemma LaterAnswerAgrees(steps: seq<Step>, i: nat, j: nat, b: CallId, p: RequestId, q: RequestId)
    requires i < j && AnswersAt(steps, j, b, q)
    requires IsPending(Exec(steps[..i + 1]).db, p) && IsPending(Exec(steps[..j + 1]).db, q)
    requires var row := Exec(steps[..i + 1]).db.requests[p]; var other := Exec(steps[..j + 1]).db.requests[q];
      row.room == other.room && row.user == other.user
    ensures p == q <==> NeverSettled(steps, i + 1, j, p)
  {
    PendingBetweenAnswers(steps, i, j, b, p, q);
    assert steps[..j + 1][..i + 1] == steps[..i + 1];
    RowsKeepTheirSubject(steps[..j + 1], i + 1, p);
    ExecInv(steps[..j + 1]);
  }

  /** Subject of the row a call answered with, right after its answer. */
  lemma AnsweredSubject(steps: seq<Step>, id: CallId, q: RequestId, created: bool) returns (j: nat)
    requires id in Exec(steps).calls && Exec(steps).calls[id].pc == Done(Joined(q, created))
    ensures AnswersAt(steps, j, id, q) && IsPending(Exec(steps[..j + 1]).db, q)
    ensures var row := Exec(steps[..j + 1]).db.requests[q]; var c := Exec(steps).calls[id];
      c.op.AskJoin? && row.room == c.op.room && row.user == c.who.user
  {
    var k;
    j, k := JoinReplyWasPending(steps, id, q, created);
    assert steps[..j + 1][..k] == steps[..k];
    RowsKeepTheirSubject(steps[..j + 1], k, q);
  }

  /** Convergence: two calls of one user about one room, answered at steps i and j of the run, get
      the same row exactly when no step between the two answers decides or cancels the row of the
      earlier one. */
  lemma ConcurrentAsksConverge(
      steps: seq<Step>, a: CallId, b: CallId, p: RequestId, q: RequestId, ca: bool, cb: bool)
    returns (i: nat, j: nat)
    requires var calls := Exec(steps).calls;
      && a in calls && calls[a].pc == Done(Joined(p, ca))
      && b in calls && calls[b].pc == Done(Joined(q, cb))
      && calls[a].op == calls[b].op && calls[a].who == calls[b].who
    ensures AnswersAt(steps, i, a, p) && AnswersAt(steps, j, b, q)
    ensures p == q <==> if i <= j then NeverSettled(steps, i + 1, j, p) else NeverSettled(steps, j + 1, i, q)
  {
    i := AnsweredSubject(steps, a, p, ca);
    j := AnsweredSubject(steps, b, q, cb);
    if i < j {
      LaterAnswerAgrees(steps, i, j, b, p, q);
    } else if j < i {
      LaterAnswerAgrees(steps, j, i, a, q, p);
    }
  }

  lemma ExecAppend(steps: seq<Step>, step: Step)
    ensures Exec(steps + [step]) == Next(Exec(steps), step)
  {
    assert (steps + [step])[..|steps|] == steps;
  }

  ghost predicate LostApproval(s: State, q: RequestId) {
    && q in s.db.requests && s.db.requests[q].status.Cancelled?
    && Seat(s.db.requests[q].room, s.db.requests[q].user) in s.db.members
    && exists k :: 0 <= k < |s.db.audit| && s.db.audit[k].RequestDecided? && s.db.audit[k].request == q
        && s.db.audit[k].approved
  }

  const OWNER := Identity(7, 1)
  const GUEST := Identity(7, 2)

  /** One room of one owner, with the given requests. */
  function SmallDb(requests: map<RequestId, JoinRequest>): Db {
    Db(map[1 := Room(7, 1, None)], map[Seat(1, 1) := Membership(7, Owner)], requests, [RoomCreated(7, 1, 1)])
  }

  function GuestRow(): JoinRequest { JoinRequest(1, 7, 2, Pending, None) }

  lemma Extended(steps: seq<Step>, step: Step) returns (longer: seq<Step>)
    ensures longer == steps + [step] && Exec(longer) == Next(Exec(steps), step)
  {
    longer := steps + [step];
    ExecAppend(steps, step);
  }

  lemma RunCreatingRoom() returns (steps: seq<Step>)
    ensures Exec(steps) == State(SmallDb(map[]), map[1 := Call(OWNER, CreateRoom, Done(Ok))])
  {
    steps := Extended([], Begin(1, OWNER, CreateRoom));
    steps := Extended(steps, Advance(1, 0));
    assert Owners(SmallDb(map[]).members, 1) == {1};
  }

  lemma RunAskingToJoin() returns (steps: seq<Step>)
    ensures Exec(steps).db == SmallDb(map[2 := GuestRow()])
    ensures forall id :: id > 2 ==> id !in Exec(steps).calls
  {
    steps := RunCreatingRoom();
    steps := Extended(steps, Begin(2, GUEST, AskJoin(1)));
    steps := Extended(steps, Advance(2, 0));
    assert Exec(steps).calls[2].pc == Checked;
    steps := Extended(steps, Advance(2, 0));
    assert Exec(steps).calls[2].pc == NotMember;
    steps := Extended(steps, Advance(2, 0));
    assert Exec(steps).calls[2].pc == Ready;
    steps := Extended(steps, Advance(2, 0));
  }

  lemma RunReadingBeforeCancel() returns (steps: seq<Step>)
    ensures Exec(steps).db == SmallDb(map[2 := GuestRow()])
    ensures 3 in Exec(steps).calls && Exec(steps).calls[3] == Call(GUEST, CancelJoin(1), Found(2))
    ensures 4 !in Exec(steps).calls
  {
    steps := RunAskingToJoin();
    steps := Extended(steps, Begin(3, GUEST, CancelJoin(1)));
    assert PendingRow(Exec(steps).db, 2, 1, GUEST);
    steps := Extended(steps, Advance(3, 0));
  }

  lemma RunApproving() returns (steps: seq<Step>)
    ensures var db := Exec(steps).db;
      && 2 in db.requests && db.requests[2].status == Approved
      && db.requests[2].room == 1 && db.requests[2].user == 2 && Seat(1, 2) in db.members
      && db.audit == [RoomCreated(7, 1, 1), RequestDecided(7, 1, 2, 1, 2, true)]
    ensures 3 in Exec(steps).calls && Exec(steps).calls[3] == Call(GUEST, CancelJoin(1), Found(2))
  {
    steps := RunReadingBeforeCancel();
    steps := Extended(steps, Begin(4, OWNER, DecideJoin(1, 2, true)));
    steps := Extended(steps, Advance(4, 0));
    var db := Exec(steps).db;
    assert Exec(steps).calls[4] == Call(OWNER, DecideJoin(1, 2, true), Ready);
    assert IsOwner(db, 1, 1) && ExactlyOneOwner(db, 1);
    ApprovalKeepsOwners(db, 1, 2, true, OWNER);
    steps := Extended(steps, Advance(4, 0));
  }

  /** It does happen: a run in which an approved request ends up cancelled although its applicant
      is a member and the approval is on the audit log. */
  lemma ADecisionCanBeLost() returns (steps: seq<Step>)
    ensures LostApproval(Exec(steps), 2)
  {
    steps := RunApproving();
    steps := Extended(steps, Advance(3, 0));
    assert Exec(steps).db.audit[1].RequestDecided?;
  }
}
