/** Study sessions under concurrent updates.

    An update reads the session's status in one step and overwrites it in another, guarded by the
    status it read (a compare-and-set). A start reads a membership, whose answer is the environment's,
    and inserts in a later step under the index that allows one active session a room and user; the
    retention job deletes old finished sessions. All these interleave freely. */
module Sessions {
  import opened Wrappers

  type SessionId = int
  type UserId = int
  type RoomId = int
  type Time = int
  /** A start's random session id is the call's own identifier. */
  type CallId = int

  datatype Status = Running | Paused | Finished
  /** `history` lists every status the row has held, oldest first. */
  datatype Session = Session(room: RoomId, app: int, user: UserId, status: Status, finishedAt: Option<Time>,
      history: seq<Status>)
  datatype Identity = Identity(app: int, user: UserId)

  datatype Error = NotFound | Forbidden | BadTransition | ChangedConcurrently | AlreadyActive
  datatype Pc = Begun | Admitted | Read(status: Status) | Done(status: Status) | Failed(error: Error)
  datatype Op = StartSession(room: RoomId) | Update(session: SessionId, next: Status)
  datatype Call = Call(who: Identity, op: Op, pc: Pc)

  datatype State = State(now: Time, sessions: map<SessionId, Session>, calls: map<CallId, Call>)

  datatype Step =
    | Begin(id: CallId, who: Identity, op: Op)
    | CheckMember(id: CallId, isMember: bool)    // a start's membership read and what it found
    | Advance(id: CallId)
    | Retain(app: int, before: Time)
    | Tick(d: nat)

  predicate Allowed(from: Status, to: Status) {
    match from
    case Running => to.Paused? || to.Finished?
    case Paused => to.Running? || to.Finished?
    case Finished => false
  }

  predicate Active(s: Session) { s.status.Running? || s.status.Paused? }

  predicate HasActive(sessions: map<SessionId, Session>, room: RoomId, user: UserId) {
    exists k | k in sessions :: sessions[k].room == room && sessions[k].user == user && Active(sessions[k])
  }

  // ---------------------------------------------------------------- one step

  /** The read of an update and its checks, in the order the service makes them. */
  function Checked(sessions: map<SessionId, Session>, id: SessionId, next: Status, who: Identity): Pc {
    if id !in sessions || sessions[id].app != who.app then Failed(NotFound)
    else if sessions[id].user != who.user then Failed(Forbidden)
    else if !Allowed(sessions[id].status, next) then Failed(BadTransition)
    else Read(sessions[id].status)
  }

  /** UPDATE ... WHERE id AND status: writes the row only if it still holds the status read. */
  function Swapped(sessions: map<SessionId, Session>, id: SessionId, expected: Status, next: Status,
      now: Time): map<SessionId, Session> {
    if id in sessions && sessions[id].status == expected then
      sessions[id := sessions[id].(status := next,
                                   finishedAt := if next.Finished? then Some(now) else None,
                                   history := sessions[id].history + [next])]
    else sessions
  }

  function Inserted(sessions: map<SessionId, Session>, id: SessionId, room: RoomId, who: Identity): map<SessionId,
      Session> {
    if id in sessions || HasActive(sessions, room, who.user) then sessions
    else sessions[id := Session(room, who.app, who.user, Running, None, [Running])]
  }

  function Retained(sessions: map<SessionId, Session>, app: int, before: Time): map<SessionId, Session> {
    map k | k in sessions && !(sessions[k].app == app && sessions[k].finishedAt.Some?
        && sessions[k].finishedAt.value < before)
      :: sessions[k]
  }

  function Moved(s: State, id: CallId): State
    requires id in s.calls
  {
    var c := s.calls[id];
    match c.op
    case StartSession(room) =>
      if !c.pc.Admitted? then s
      else
        var after := Inserted(s.sessions, id, room, c.who);
        s.(sessions := after,
           calls := s.calls[id := c.(pc := if after == s.sessions then Failed(AlreadyActive) else Done(Running))])
    case Update(session, next) =>
      (match c.pc
       case Begun => s.(calls := s.calls[id := c.(pc := Checked(s.sessions, session, next, c.who))])
       case Read(expected) =>
         if session in s.sessions && s.sessions[session].status == expected then
           // The transaction re-reads its own uncommitted row for the reply.
           var after := Swapped(s.sessions, session, expected, next, s.now);
           s.(sessions := after, calls := s.calls[id := c.(pc := Done(after[session].status))])
         else s.(calls := s.calls[id := c.(pc := Failed(ChangedConcurrently))])
       case _ => s)
  }

  function Next(s: State, step: Step): State {
    match step
    case Begin(id, who, op) =>
      if id in s.calls then s else s.(calls := s.calls[id := Call(who, op, Begun)])
    case CheckMember(id, isMember) =>
      if id !in s.calls || !s.calls[id].op.StartSession? || !s.calls[id].pc.Begun? then s
      else s.(calls := s.calls[id := s.calls[id].(pc := if isMember then Admitted else Failed(Forbidden))])
    case Advance(id) => if id in s.calls then Moved(s, id) else s
    case Retain(app, before) => s.(sessions := Retained(s.sessions, app, before))
    case Tick(d) => s.(now := s.now + d)
  }

  ghost function Exec(steps: seq<Step>): State {
    if steps == [] then State(0, map[], map[])
    else Next(Exec(steps[..|steps| - 1]), steps[|steps| - 1])
  }

  // ---------------------------------------------------------------- the invariant

  /** A path of allowed moves starting from running. */
  ghost predicate Path(history: seq<Status>) {
    && history != [] && history[0] == Running
    && forall i :: 0 <= i < |history| - 1 ==> Allowed(history[i], history[i + 1])
  }

  ghost predicate SessionInv(s: Session) {
    && Path(s.history) && s.history[|s.history| - 1] == s.status
    && (s.finishedAt.Some? <==> s.status.Finished?)
  }

  ghost predicate OneActive(sessions: map<SessionId, Session>) {
    forall j, k :: (j in sessions && k in sessions && Active(sessions[j]) && Active(sessions[k])
                    && sessions[j].room == sessions[k].room && sessions[j].user == sessions[k].user) ==> j == k
  }

  ghost predicate Inv(s: State) {
    && (forall k :: k in s.sessions ==> SessionInv(s.sessions[k]))
    && OneActive(s.sessions)
    && (forall k :: k in s.sessions ==> k in s.calls && s.calls[k].op.StartSession? && s.calls[k].pc.Done?)
    && (forall id :: id in s.calls && s.calls[id].op.Update? && s.calls[id].pc.Read? ==>
          Allowed(s.calls[id].pc.status, s.calls[id].op.next))
    && (forall id :: id in s.calls && s.calls[id].op.Update? && s.calls[id].pc.Done? ==>
          s.calls[id].pc.status == s.calls[id].op.next)
  }

  lemma SwapKeepsInv(sessions: map<SessionId, Session>, id: SessionId, expected: Status, next: Status, now: Time)
    requires (forall k :: k in sessions ==> SessionInv(sessions[k])) && OneActive(sessions) && Allowed(expected, next)
    ensures var t := Swapped(sessions, id, expected, next, now);
      (forall k :: k in t ==> SessionInv(t[k])) && OneActive(t)
  {
    var t := Swapped(sessions, id, expected, next, now);
    if id in sessions && sessions[id].status == expected {
      var before, after := sessions[id].history, t[id].history;
      assert SessionInv(sessions[id]);
      forall i | 0 <= i < |after| - 1 ensures Allowed(after[i], after[i + 1]) {
        assert after[i] == before[i];
        if i + 1 < |before| { assert after[i + 1] == before[i + 1]; }
      }
      assert Active(sessions[id]);
    }
  }

  lemma StartKeepsInv(s: State, id: CallId)
    requires Inv(s) && id in s.calls && s.calls[id].op.StartSession?
    ensures Inv(Moved(s, id))
  {
  }

  lemma UpdateKeepsInv(s: State, id: CallId)
    requires Inv(s) && id in s.calls && s.calls[id].op.Update?
    ensures Inv(Moved(s, id))
  {
    var c := s.calls[id];
    if c.pc.Read? { SwapKeepsInv(s.sessions, c.op.session, c.pc.status, c.op.next, s.now); }
  }

  lemma NextKeepsInv(s: State, step: Step)
    requires Inv(s)
    ensures Inv(Next(s, step))
  {
    if step.Advance? && step.id in s.calls {
      if s.calls[step.id].op.Update? { UpdateKeepsInv(s, step.id); } else { StartKeepsInv(s, step.id); }
    }
  }

  lemma {:induction false} ExecInv(steps: seq<Step>)
    ensures Inv(Exec(steps))
  {
    if steps != [] {
      ExecInv(steps[..|steps| - 1]);
      NextKeepsInv(Exec(steps[..|steps| - 1]), steps[|steps| - 1]);
    }
  }

  // ---------------------------------------------------------------- what every run guarantees

  /** Running and paused sessions go to each other or finish; finished ones go nowhere. */
  predicate IsMove(from: Status, to: Status) {
    || (from == Running && (to == Paused || to == Finished))
    || (from == Paused && (to == Running || to == Finished))
  }

  lemma AllowedIsMove(from: Status, to: Status)
    ensures Allowed(from, to) <==> IsMove(from, to)
  {
  }

  /** The committed history of a session moves between running and paused and stops for good at its
      first finished entry, and the finish time is set exactly when the session is finished. */
  lemma HistoryIsAPath(steps: seq<Step>, k: SessionId)
    requires k in Exec(steps).sessions
    ensures var s := Exec(steps).sessions[k];
      && Path(s.history) && s.history[|s.history| - 1] == s.status
      && (forall i :: 0 <= i < |s.history| && s.history[i].Finished? ==> i == |s.history| - 1)
      && s.history[0] == Running
      && (forall i :: 0 <= i < |s.history| - 1 ==> IsMove(s.history[i], s.history[i + 1]))
      && (s.finishedAt.Some? <==> s.status.Finished?)
  {
    ExecInv(steps);
    var h := Exec(steps).sessions[k].history;
    forall i | 0 <= i < |h| && h[i].Finished? ensures i == |h| - 1 {
      assert i < |h| - 1 ==> Allowed(h[i], h[i + 1]);
    }
  }

  /** Absorbing: once finished, a session never changes again in any continuation of the run, its
      finish time included. It may only disappear, by the retention job, and then for good. */
  lemma {:induction false} FinishedIsAbsorbing(steps: seq<Step>, i: nat, k: SessionId)
    requires i <= |steps| && k in Exec(steps[..i]).sessions && Exec(steps[..i]).sessions[k].status.Finished?
    ensures k in Exec(steps).sessions ==> Exec(steps).sessions[k] == Exec(steps[..i]).sessions[k]
    ensures k in Exec(steps).calls && Exec(steps).calls[k].op.StartSession? && Exec(steps).calls[k].pc.Done?
    decreases |steps|
  {
    if i == |steps| {
      assert steps[..i] == steps;
      ExecInv(steps);
    } else {
      var before := steps[..|steps| - 1];
      assert before[..i] == steps[..i];
      FinishedIsAbsorbing(before, i, k);
      ExecInv(before);
      FinishedStays(Exec(before), steps[|steps| - 1], k);
    }
  }

  lemma FinishedStays(s: State, step: Step, k: SessionId)
    requires Inv(s) && k in s.calls && s.calls[k].op.StartSession? && s.calls[k].pc.Done?
    requires k in s.sessions ==> s.sessions[k].status.Finished?
    ensures var t := Next(s, step);
      && (k in t.sessions ==> k in s.sessions && t.sessions[k] == s.sessions[k])
      && k in t.calls && t.calls[k].op.StartSession? && t.calls[k].pc.Done?
  {
    if step.Advance? && step.id in s.calls && s.calls[step.id].op.Update? { FinishedNotSwapped(s, step.id, k); }
  }

  lemma FinishedNotSwapped(s: State, id: CallId, k: SessionId)
    requires Inv(s) && id in s.calls && s.calls[id].op.Update? && (k in s.sessions ==> s.sessions[k].status.Finished?)
    ensures k in Moved(s, id).sessions ==> k in s.sessions && Moved(s, id).sessions[k] == s.sessions[k]
  {
  }

  lemma AtMostOneActiveSession(steps: seq<Step>, j: SessionId, k: SessionId)
    requires var rows := Exec(steps).sessions;
      && j in rows && k in rows && Active(rows[j]) && Active(rows[k]) && rows[j].room == rows[k].room
          && rows[j].user == rows[k].user
    ensures j == k
  {
    ExecInv(steps);
  }

  /** The call `c` went from its read to its reply by installing the status it asked for. */
  ghost predicate OwnSwap(s: State, t: State, id: CallId, c: Call) {
    && c.op.Update? && c.op.session in s.sessions && c.op.session in t.sessions
    && id in s.calls && s.calls[id].pc == Read(s.sessions[c.op.session].status)
    && Allowed(s.sessions[c.op.session].status, c.op.next)
    && c.pc == Done(c.op.next) && t.sessions[c.op.session].status == c.op.next
    && t.sessions[c.op.session].history == s.sessions[c.op.session].history + [c.op.next]
  }

  lemma ReplyingSwaps(s: State, step: Step, id: CallId)
    requires Inv(s) && id in Next(s, step).calls
    requires var c := Next(s, step).calls[id]; c.op.Update? && c.pc.Done?
    requires id in s.calls ==> !s.calls[id].pc.Done?
    ensures step == Advance(id) && OwnSwap(s, Next(s, step), id, Next(s, step).calls[id])
  {
    assert step == Advance(id) && id in s.calls;
  }

  /** Each successful update reports what its own compare-and-set installed: at the step that made
      the call succeed, the row went from the status the call had read to the one it asked for, and
      the reply is that status. */
  lemma {:induction false} ReplyReportsOwnSwap(steps: seq<Step>, id: CallId) returns (j: nat)
    requires id in Exec(steps).calls && Exec(steps).calls[id].op.Update? && Exec(steps).calls[id].pc.Done?
    ensures j < |steps| && steps[j] == Advance(id)
    ensures OwnSwap(Exec(steps[..j]), Exec(steps[..j + 1]), id, Exec(steps).calls[id])
    decreases |steps|
  {
    var before, step := steps[..|steps| - 1], steps[|steps| - 1];
    var s := Exec(before);
    ExecInv(before);
    if id in s.calls && s.calls[id].pc.Done? {
      DoneStays(s, step, id);
      j := ReplyReportsOwnSwap(before, id);
      assert before[..j] == steps[..j] && before[..j + 1] == steps[..j + 1];
    } else {
      j := |before|;
      assert steps[..j] == before && steps[..j + 1] == steps;
      ReplyingSwaps(s, step, id);
    }
  }

  lemma DoneStays(s: State, step: Step, id: CallId)
    requires id in s.calls && s.calls[id].pc.Done?
    ensures id in Next(s, step).calls && Next(s, step).calls[id] == s.calls[id]
  {
  }

  // ---------------------------------------------------------------- the table

  /** A row belongs to the call that started it, and an update that got past its checks to the row's
      creator. */
  ghost predicate OwnersInv(s: State) {
    && (forall k :: k in s.sessions ==>
          k in s.calls && s.calls[k].op.StartSession? && s.calls[k].op.room == s.sessions[k].room
          && s.calls[k].who == Identity(s.sessions[k].app, s.sessions[k].user) && s.calls[k].pc.Done?)
    && (forall id :: id in s.calls && s.calls[id].op.Update? && (s.calls[id].pc.Read? || s.calls[id].pc.Done?) ==>
          Controls(s, s.calls[id]))
  }

  ghost predicate Controls(s: State, c: Call)
    requires c.op.Update?
  {
    c.op.session in s.calls && s.calls[c.op.session].op.StartSession? && s.calls[c.op.session].who == c.who
  }

  lemma MovesKeepOwners(s: State, id: CallId)
    requires OwnersInv(s) && id in s.calls
    ensures OwnersInv(Moved(s, id))
  {
  }

  /** In every run a session is only ever controlled by the user who started it, in the application
      it was started in. */
  lemma {:induction false} OnlyTheCreatorControls(steps: seq<Step>)
    ensures OwnersInv(Exec(steps))
  {
    if steps != [] {
      var before, step := steps[..|steps| - 1], steps[|steps| - 1];
      OnlyTheCreatorControls(before);
      if step.Advance? && step.id in Exec(before).calls { MovesKeepOwners(Exec(before), step.id); }
    }
  }

  /** A start that reaches its insert succeeds exactly when the user has no active session in the
      room, and then the new session runs; otherwise no row changes. */
  lemma StartSucceedsIff(s: State, id: CallId)
    requires Inv(s) && id in s.calls && s.calls[id].op.StartSession? && s.calls[id].pc.Admitted?
    ensures var t := Moved(s, id); var room := s.calls[id].op.room; var user := s.calls[id].who.user;
      && (t.calls[id].pc.Done? <==> !HasActive(s.sessions, room, user))
      && (t.calls[id].pc.Done? ==> id in t.sessions && t.sessions[id].room == room && t.sessions[id].user == user
                                   && t.sessions[id].status.Running? && t.sessions == s.sessions[id := t.sessions[id]])
      && (!t.calls[id].pc.Done? ==> t.calls[id].pc == Failed(AlreadyActive) && t.sessions == s.sessions)
  {
    assert id !in s.sessions;
    if !HasActive(s.sessions, s.calls[id].op.room, s.calls[id].who.user) { assert id in Moved(s, id).sessions; }
  }

  /** The guarded write succeeds exactly when the row still has the status read; otherwise the call
      fails and no row changes. No other row changes either way. */
  lemma SwapSucceedsIff(s: State, id: CallId)
    requires Inv(s) && id in s.calls && s.calls[id].op.Update? && s.calls[id].pc.Read?
    ensures var t := Moved(s, id); var k := s.calls[id].op.session;
      && (t.calls[id].pc.Done? <==> k in s.sessions && s.sessions[k].status == s.calls[id].pc.status)
      && (t.calls[id].pc.Done? ==> t.sessions[k].finishedAt == (if s.calls[id].op.next.Finished? then Some(s.now)
          else None))
      && (!t.calls[id].pc.Done? ==> t.calls[id].pc == Failed(ChangedConcurrently) && t.sessions == s.sessions)
      && (forall j :: j != k ==>
            (j in t.sessions <==> j in s.sessions) && (j in s.sessions ==> t.sessions[j] == s.sessions[j]))
  {
  }

  // ---------------------------------------------------------------- conflicts

  ghost function StatusAt(steps: seq<Step>, n: nat, k: SessionId): Option<Status>
    requires n <= |steps|
  {
    var rows := Exec(steps[..n]).sessions;
    if k in rows then Some(rows[k].status) else None
  }

  /** At step `i` the update reads the status `st`. */
  ghost predicate ReadsAt(steps: seq<Step>, i: nat, id: CallId, st: Status) {
    && i < |steps| && steps[i] == Advance(id) && id in Exec(steps[..i]).calls
    && var c := Exec(steps[..i]).calls[id];
    && c.op.Update? && c.pc.Begun? && StatusAt(steps, i, c.op.session) == Some(st)
  }

  /** At step `j` the update, having read `st`, tries its guarded write. */
  ghost predicate WritesAt(steps: seq<Step>, j: nat, id: CallId, st: Status) {
    && j < |steps| && steps[j] == Advance(id) && id in Exec(steps[..j]).calls
    && Exec(steps[..j]).calls[id].op.Update? && Exec(steps[..j]).calls[id].pc == Read(st)
  }

  lemma {:induction false} FindChange(steps: seq<Step>, i: nat, j: nat, k: SessionId) returns (m: nat)
    requires i <= j <= |steps| && StatusAt(steps, i, k) != StatusAt(steps, j, k)
    ensures i <= m < j && StatusAt(steps, m, k) != StatusAt(steps, m + 1, k)
    decreases j
  {
    if StatusAt(steps, j - 1, k) != StatusAt(steps, j, k) {
      m := j - 1;
    } else {
      m := FindChange(steps, i, j - 1, k);
    }
  }

  lemma PendingRead(steps: seq<Step>, id: CallId, st: Status) returns (i: nat)
    requires id in Exec(steps).calls && Exec(steps).calls[id].op.Update? && Exec(steps).calls[id].pc == Read(st)
    ensures ReadsAt(steps, i, id, st) && StatusAt(steps, i + 1, Exec(steps).calls[id].op.session) == Some(st)
    ensures Exec(steps[..i]).calls[id].op == Exec(steps).calls[id].op
    decreases |steps|
  {
    var before := steps[..|steps| - 1];
    var s := Exec(before);
    if id in s.calls && s.calls[id].pc == Read(st) {
      i := PendingRead(before, id, st);
      assert steps[..i] == before[..i] && steps[..i + 1] == before[..i + 1];
    } else {
      i := |before|;
      assert steps[..i] == before && steps[..i + 1] == steps;
    }
  }

  /** The call tried its guarded write: it installed its status, or found a conflict. */
  predicate Tried(pc: Pc) { pc.Done? || pc == Failed(ChangedConcurrently) }

  lemma TriedStays(s: State, step: Step, id: CallId)
    requires id in s.calls && (s.calls[id].pc.Done? || s.calls[id].pc.Failed?)
    ensures id in Next(s, step).calls && Next(s, step).calls[id] == s.calls[id]
  {
  }

  lemma TryingStep(s: State, step: Step, id: CallId)
    requires Inv(s) && id in Next(s, step).calls
    requires Next(s, step).calls[id].op.Update? && Tried(Next(s, step).calls[id].pc)
    requires id in s.calls ==> !s.calls[id].pc.Done? && !s.calls[id].pc.Failed?
    ensures step == Advance(id) && id in s.calls && s.calls[id].pc.Read? && s.calls[id].op == Next(s, step).calls[id].op
    ensures var k := s.calls[id].op.session;
      Next(s, step).calls[id].pc.Done? <==> k in s.sessions && s.sessions[k].status == s.calls[id].pc.status
  {
    assert step == Advance(id) && id in s.calls;
    if s.calls[id].pc.Read? { SwapSucceedsIff(s, id); }
  }

  lemma PrefixStatus(steps: seq<Step>, n: nat, m: nat, k: SessionId)
    requires m <= n <= |steps|
    ensures StatusAt(steps[..n], m, k) == StatusAt(steps, m, k)
  {
    assert steps[..n][..m] == steps[..m];
  }

  lemma TriedNow(steps: seq<Step>, id: CallId) returns (i: nat, st: Status, m: nat)
    requires steps != [] && id in Exec(steps).calls && Exec(steps).calls[id].op.Update?
        && Tried(Exec(steps).calls[id].pc)
    requires var calls := Exec(steps[..|steps| - 1]).calls; id in calls ==> !calls[id].pc.Done? && !calls[id].pc.Failed?
    ensures i < |steps| - 1 && ReadsAt(steps, i, id, st) && WritesAt(steps, |steps| - 1, id, st)
    ensures var k, j := Exec(steps).calls[id].op.session, |steps| - 1;
      && (Exec(steps).calls[id].pc.Done? <==> StatusAt(steps, j, k) == Some(st))
      && (!Exec(steps).calls[id].pc.Done? ==> i < m < j && StatusAt(steps, m, k) != StatusAt(steps, m + 1, k))
  {
    var n := |steps| - 1;
    var s, k := Exec(steps[..n]), Exec(steps).calls[id].op.session;
    ExecInv(steps[..n]);
    TryingStep(s, steps[n], id);
    st := s.calls[id].pc.status;
    i := PendingRead(steps[..n], id, st);
    assert steps[..i] == steps[..n][..i];
    PrefixStatus(steps, n, i, k);
    PrefixStatus(steps, n, i + 1, k);
    m := 0;
    if StatusAt(steps, n, k) != Some(st) { m := FindChange(steps, i + 1, n, k); }
  }

  /** In every run: an update that got as far as its guarded write succeeds exactly when the session
      has at the write, step `j`, the status it had at the read, step `i`; and a conflict names a step
      `m` in between that changed it. */
  lemma {:induction false} ConflictsAreReal(steps: seq<Step>, id: CallId) returns (i: nat, j: nat, st: Status, m: nat)
    requires id in Exec(steps).calls && Exec(steps).calls[id].op.Update? && Tried(Exec(steps).calls[id].pc)
    ensures i < j && ReadsAt(steps, i, id, st) && WritesAt(steps, j, id, st)
    ensures var k := Exec(steps).calls[id].op.session;
      && (Exec(steps).calls[id].pc.Done? <==> StatusAt(steps, j, k) == Some(st))
      && (!Exec(steps).calls[id].pc.Done? ==> i < m < j && StatusAt(steps, m, k) != StatusAt(steps, m + 1, k))
    decreases |steps|
  {
    var n := |steps| - 1;
    var s, k := Exec(steps[..n]), Exec(steps).calls[id].op.session;
    if id in s.calls && (s.calls[id].pc.Done? || s.calls[id].pc.Failed?) {
      TriedStays(s, steps[n], id);
      i, j, st, m := ConflictsAreReal(steps[..n], id);
      assert steps[..i] == steps[..n][..i] && steps[..j] == steps[..n][..j];
      PrefixStatus(steps, n, i, k);
      PrefixStatus(steps, n, j, k);
      if m < j {
        PrefixStatus(steps, n, m, k);
        PrefixStatus(steps, n, m + 1, k);
      }
    } else {
      j := n;
      i, st, m := TriedNow(steps, id);
    }
  }

  predicate Answered(pc: Pc) { pc.Done? || pc.Failed? }

  /** At step `i` the start reads whether its user is a member of the room. */
  ghost predicate GuardedAt(steps: seq<Step>, i: nat, id: CallId, isMember: bool) {
    && i < |steps| && steps[i] == CheckMember(id, isMember) && id in Exec(steps[..i]).calls
    && Exec(steps[..i]).calls[id].op.StartSession? && Exec(steps[..i]).calls[id].pc.Begun?
  }

  /** At step `j` the start inserts, with or without an active session in its way. */
  ghost predicate InsertsAt(steps: seq<Step>, j: nat, id: CallId, blocked: bool) {
    && j < |steps| && steps[j] == Advance(id) && id in Exec(steps[..j]).calls
    && var s := Exec(steps[..j]); var c := s.calls[id];
    && c.op.StartSession? && c.pc.Admitted? && (blocked <==> HasActive(s.sessions, c.op.room, c.who.user))
  }

  lemma StartMoves(s: State, step: Step, id: CallId)
    requires Inv(s) && id in s.calls && s.calls[id].op.StartSession?
    ensures id in Next(s, step).calls && Next(s, step).calls[id].op == s.calls[id].op
    ensures var pc, pc' := s.calls[id].pc, Next(s, step).calls[id].pc;
      && (Answered(pc) ==> pc' == pc)
      && (pc.Begun? ==> pc' == pc || (pc'.Admitted? && step == CheckMember(id, true))
                        || (pc' == Failed(Forbidden) && step == CheckMember(id, false)))
      && (pc.Admitted? && pc' != pc ==>
            && step == Advance(id)
            && pc' == if HasActive(s.sessions, s.calls[id].op.room, s.calls[id].who.user) then Failed(AlreadyActive)
                      else Done(Running))
  {
    if step == Advance(id) && s.calls[id].pc.Admitted? { StartSucceedsIff(s, id); }
  }

  lemma AdmittedWasGuarded(steps: seq<Step>, id: CallId) returns (i: nat)
    requires id in Exec(steps).calls && Exec(steps).calls[id].op.StartSession? && Exec(steps).calls[id].pc.Admitted?
    ensures GuardedAt(steps, i, id, true)
    decreases |steps|
  {
    var n := |steps| - 1;
    ExecInv(steps[..n]);
    if id in Exec(steps[..n]).calls && Exec(steps[..n]).calls[id].pc.Admitted? {
      i := AdmittedWasGuarded(steps[..n], id);
      assert steps[..n][..i] == steps[..i];
    } else {
      i := n;
    }
  }

  /** In every run an answered start was refused as no member exactly when its membership read at step
      `i` found none; otherwise it inserted at a later step `j` and succeeded exactly when its user had
      no active session in the room there. */
  lemma {:induction false} StartsAreRefusedForCause(steps: seq<Step>, id: CallId) returns (i: nat, j: nat)
    requires id in Exec(steps).calls && Exec(steps).calls[id].op.StartSession? && Answered(Exec(steps).calls[id].pc)
    ensures var pc := Exec(steps).calls[id].pc;
      && GuardedAt(steps, i, id, pc != Failed(Forbidden))
      && (pc != Failed(Forbidden) ==>
            i < j && InsertsAt(steps, j, id, !pc.Done?) && (pc == Done(Running) || pc == Failed(AlreadyActive)))
    decreases |steps|
  {
    var n := |steps| - 1;
    var s := Exec(steps[..n]);
    ExecInv(steps[..n]);
    if id in s.calls {
      StartKeepsItsOp(s, steps[n], id);
      StartMoves(s, steps[n], id);
      if Answered(s.calls[id].pc) {
        i, j := StartsAreRefusedForCause(steps[..n], id);
        assert steps[..n][..i] == steps[..i];
        if j < n { assert steps[..n][..j] == steps[..j]; }
      } else if s.calls[id].pc.Begun? {
        i, j := n, 0;
      } else {
        i := AdmittedWasGuarded(steps[..n], id);
        j := n;
        assert steps[..n][..i] == steps[..i];
      }
    }
  }

  lemma StartKeepsItsOp(s: State, step: Step, id: CallId)
    requires id in s.calls
    ensures id in Next(s, step).calls && Next(s, step).calls[id].op == s.calls[id].op
  {
  }

  // ---------------------------------------------------------------- why updates fail

  /** Where an update goes from its state, in terms of the row and the caller alone. */
  predicate UpdateGoes(s: State, id: CallId, pc: Pc)
    requires id in s.calls && s.calls[id].op.Update?
  {
    var c := s.calls[id];
    var k, next := c.op.session, c.op.next;
    match c.pc
    case Begun =>
      pc == if k !in s.sessions || s.sessions[k].app != c.who.app then Failed(NotFound)
            else if s.sessions[k].user != c.who.user then Failed(Forbidden)
            else if !IsMove(s.sessions[k].status, next) then Failed(BadTransition)
            else Read(s.sessions[k].status)
    case Read(st) =>
      pc == if k in s.sessions && s.sessions[k].status == st then Done(next) else Failed(ChangedConcurrently)
    case _ => false
  }

  lemma UpdateStepsGo(s: State, id: CallId)
    requires Inv(s) && id in s.calls && s.calls[id].op.Update? && (s.calls[id].pc.Begun? || s.calls[id].pc.Read?)
    ensures id in Next(s, Advance(id)).calls && UpdateGoes(s, id, Next(s, Advance(id)).calls[id].pc)
  {
    var c := s.calls[id];
    if c.op.session in s.sessions { AllowedIsMove(s.sessions[c.op.session].status, c.op.next); }
    if c.pc.Read? { SwapSucceedsIff(s, id); }
  }

  lemma UpdatesMoveAlone(s: State, step: Step, id: CallId)
    requires id in s.calls && s.calls[id].op.Update?
    ensures id in Next(s, step).calls && Next(s, step).calls[id] == s.calls[id].(pc := Next(s, step).calls[id].pc)
    ensures Next(s, step).calls[id].pc != s.calls[id].pc ==>
              step == Advance(id) && (s.calls[id].pc.Begun? || s.calls[id].pc.Read?)
  {
  }

  /** In every run an update that is past its beginning stands where its own step `j` put it, by the row
      and the caller at that step. So it is refused exactly when the row is missing or another
      application's, another user's, or not in a status with that move, or has changed since it was
      read; the creator's allowed move always reaches its write. */
  lemma {:induction false} UpdatesFailForCause(steps: seq<Step>, id: CallId) returns (j: nat)
    requires id in Exec(steps).calls && Exec(steps).calls[id].op.Update? && !Exec(steps).calls[id].pc.Begun?
    ensures j < |steps| && steps[j] == Advance(id) && id in Exec(steps[..j]).calls
    ensures Exec(steps).calls[id] == Exec(steps[..j]).calls[id].(pc := Exec(steps).calls[id].pc)
    ensures UpdateGoes(Exec(steps[..j]), id, Exec(steps).calls[id].pc)
    decreases |steps|
  {
    var n := |steps| - 1;
    var s := Exec(steps[..n]);
    ExecInv(steps[..n]);
    if id in s.calls {
      UpdatesMoveAlone(s, steps[n], id);
      if Exec(steps).calls[id].pc == s.calls[id].pc {
        j := UpdatesFailForCause(steps[..n], id);
        assert steps[..n][..j] == steps[..j];
      } else {
        j := n;
        UpdateStepsGo(s, id);
      }
    }
  }

  // ---------------------------------------------------------------- what each step changes

  /** The user has a session in the room that is not finished. */
  ghost predicate Occupied(s: State, room: RoomId, user: UserId) {
    exists k | k in s.sessions ::
      s.sessions[k].room == room && s.sessions[k].user == user && s.sessions[k].status != Finished
  }

  /** The start `k` inserts its session. */
  ghost predicate Starts(s: State, step: Step, k: SessionId) {
    step == Advance(k) && k in s.calls && s.calls[k].op.StartSession? && s.calls[k].pc == Admitted
    && !Occupied(s, s.calls[k].op.room, s.calls[k].who.user)
  }

  /** The update overwrites the session, which still has the status it read. */
  predicate Rewrites(s: State, step: Step, k: SessionId) {
    step.Advance? && step.id in s.calls && k in s.sessions
    && var c := s.calls[step.id];
    c.op.Update? && c.op.session == k && c.pc == Read(s.sessions[k].status)
  }

  /** The retention of the session's application deletes it. */
  predicate Expires(step: Step, row: Session) {
    step.Retain? && row.app == step.app && row.status == Finished && row.finishedAt.Some?
    && row.finishedAt.value < step.before
  }

  ghost predicate SessionFollows(s: State, t: State, step: Step, k: SessionId) {
    && (k in t.sessions <==> Starts(s, step, k) || (k in s.sessions && !Expires(step, s.sessions[k])))
    && (k in t.sessions && k !in s.sessions ==>
          var c := s.calls[k];
          t.sessions[k] == Session(c.op.room, c.who.app, c.who.user, Running, None, [Running]))
    && (k in t.sessions && k in s.sessions ==>
          var row, now := s.sessions[k], t.sessions[k];
          if Rewrites(s, step, k) then
            var next := s.calls[step.id].op.next;
            now == row.(status := next, finishedAt := if next == Finished then Some(s.now) else None,
                        history := row.history + [next])
          else now == row)
  }

  lemma OccupiedIsActive(s: State, room: RoomId, user: UserId)
    ensures HasActive(s.sessions, room, user) <==> Occupied(s, room, user)
  {
    forall k | k in s.sessions ensures Active(s.sessions[k]) <==> s.sessions[k].status != Finished {
    }
  }

  /** A session appears by its own start, while its user has no unfinished session in the room, changes
      only by an update that finds the status it read, and disappears only by its application's
      retention, finished before the cut. */
  lemma SessionsExactly(s: State, step: Step, k: SessionId)
    requires Inv(s)
    ensures SessionFollows(s, Next(s, step), step, k)
  {
    if k in s.sessions { assert SessionInv(s.sessions[k]); }
    if step.Advance? && step.id in s.calls {
      var c := s.calls[step.id];
      if c.op.StartSession? {
        OccupiedIsActive(s, c.op.room, c.who.user);
        if c.pc.Admitted? { StartSucceedsIff(s, step.id); }
      }
    }
  }

  ghost predicate CallFollows(s: State, t: State, step: Step, id: CallId) {
    && t.now == s.now + (if step.Tick? then step.d else 0)
    && (id in t.calls <==> id in s.calls || (step.Begin? && step.id == id))
    && (id in t.calls && id !in s.calls ==> t.calls[id] == Call(step.who, step.op, Begun))
    && (id in s.calls && s.calls[id].op.StartSession? ==>
          t.calls[id] == s.calls[id].(pc :=
            if s.calls[id].pc == Begun && step == CheckMember(id, true) then Admitted
            else if s.calls[id].pc == Begun && step == CheckMember(id, false) then Failed(Forbidden)
            else if s.calls[id].pc == Admitted && step == Advance(id) then
              (if Occupied(s, s.calls[id].op.room, s.calls[id].who.user) then Failed(AlreadyActive) else Done(Running))
            else s.calls[id].pc))
  }

  /** A call stays as it began; a start goes on by its own membership read and its own insert, which
      fails exactly when its user has an unfinished session in the room. */
  lemma StartsExactly(s: State, step: Step, id: CallId)
    requires Inv(s)
    ensures CallFollows(s, Next(s, step), step, id)
  {
    if id in s.calls && s.calls[id].op.StartSession? {
      OccupiedIsActive(s, s.calls[id].op.room, s.calls[id].who.user);
      if s.calls[id].pc.Admitted? { StartSucceedsIff(s, id); }
    }
  }

  class SessionTable {
    var sessions: map<SessionId, Session>

    constructor ()
      ensures sessions == map[]
    {
      sessions := map[];
    }

    /** The insert of a start; the partial index refuses a second active row. */
    method Insert(id: SessionId, room: RoomId, who: Identity) returns (ok: bool)
      requires id !in sessions
      modifies this
      ensures sessions == Inserted(old(sessions), id, room, who)
      ensures ok <==> sessions != old(sessions)
    {
      ok := !HasActive(sessions, room, who.user);
      if ok {
        sessions := sessions[id := Session(room, who.app, who.user, Running, None, [Running])];
        assert id in sessions;
      }
    }

    /** Runs an update transaction without interruption between its read and its write: it either
        fails with the checks' error, leaving the table alone, or installs and reports the status. */
    method UpdateStatus(id: SessionId, next: Status, who: Identity, now: Time) returns (reply: Pc)
      modifies this
      ensures reply.Done? || reply.Failed?
      ensures reply.Failed? ==> sessions == old(sessions) && reply == Checked(old(sessions), id, next, who)
      ensures reply.Done? ==>
        && reply == Done(next) && id in old(sessions) && Allowed(old(sessions)[id].status, next)
        && sessions == Swapped(old(sessions), id, old(sessions)[id].status, next, now)
    {
      if id !in sessions || sessions[id].app != who.app { return Failed(NotFound); }
      var row := sessions[id];
      if row.user != who.user { return Failed(Forbidden); }
      if !Allowed(row.status, next) { return Failed(BadTransition); }
      var changed := CompareAndSet(id, row.status, next, now);
      if changed != 1 { return Failed(ChangedConcurrently); }
      reply := Done(sessions[id].status);
    }

    method CompareAndSet(id: SessionId, expected: Status, next: Status, now: Time) returns (changed: nat)
      modifies this
      ensures sessions == Swapped(old(sessions), id, expected, next, now)
      ensures changed == if id in old(sessions) && old(sessions)[id].status == expected then 1 else 0
    {
      changed := 0;
      if id in sessions && sessions[id].status == expected {
        var row := sessions[id];
        row := row.(status := next, history := row.history + [next]);
        row := row.(finishedAt := if next.Finished? then Some(now) else None);
        sessions := sessions[id := row];
        changed := 1;
      }
    }
  }
}
