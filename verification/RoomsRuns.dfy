/** Concurrent calls of the rooms service.

    Every call is a small program: its guard reads, its single statements, its transaction and the
    snapshot it answers with are separate steps, and the steps of different calls interleave freely.
    A guard is therefore stale by the time the transaction that relies on it commits, and a snapshot
    may come too late. A run is a list of steps from the empty database; an action that does not apply
    leaves the state as it is. */
module RoomsRuns {
  import opened Wrappers
  import opened RoomsDb

  /** A call's identifier doubles as the random row id it may insert, so ids are fresh. */
  type CallId = int

  datatype Op =
    | CreateRoom
    | AskJoin(room: RoomId)
    | CancelJoin(room: RoomId)
    | DecideJoin(room: RoomId, request: RequestId, approve: bool)
    | RemoveMember(room: RoomId, user: UserId)
    | LeaveRoom(room: RoomId)
    | TransferRoom(room: RoomId, heir: UserId)
    | DeleteRoom(room: RoomId)

  datatype Reply = Failed | Ok | Joined(request: RequestId, created: bool) | Deleted(users: set<UserId>, version: nat)

  /** Where a call stands: which of its reads have happened, that its transaction has committed and
      the snapshot it answers with is still to be read, or what it answered. */
  datatype Pc = Start | Checked | NotMember | Ready | Found(request: RequestId) | Listed(users: set<UserId>)
              | Conflict | Written | Done(reply: Reply)

  datatype Call = Call(who: Identity, op: Op, pc: Pc)
  datatype State = State(db: Db, calls: map<CallId, Call>)
  datatype Step = Begin(id: CallId, who: Identity, op: Op) | Advance(id: CallId, now: Time)

  // ---------------------------------------------------------------- one step

  ghost predicate PendingRow(db: Db, q: RequestId, room: RoomId, who: Identity) {
    && q in db.requests && db.requests[q].room == room && db.requests[q].app == who.app
    && db.requests[q].user == who.user && db.requests[q].status.Pending?
  }

  ghost function FindPending(db: Db, room: RoomId, who: Identity): (r: Option<RequestId>)
    ensures r.Some? ==> PendingRow(db, r.value, room, who)
    ensures r.None? ==> forall q :: !PendingRow(db, q, room, who)
  {
    if exists q :: PendingRow(db, q, room, who) then
      var q :| PendingRow(db, q, room, who);
      Some(q)
    else None
  }

  function Settle(db: Db, o: Outcome): (Db, Pc) {
    match o
    case Committed(d) => (d, Done(Ok))
    case Aborted => (db, Done(Failed))
  }

  /** The transactions of a removal, a leave and a transfer: the answer waits for the snapshot. */
  function Write(db: Db, o: Outcome): (Db, Pc) {
    match o
    case Committed(d) => (d, Written)
    case Aborted => (db, Done(Failed))
  }

  /** The snapshot reads only rooms that are not deleted. */
  function Snapshot(db: Db, room: RoomId, who: Identity): (Db, Pc) {
    (db, Done(if room in db.rooms && db.rooms[room].app == who.app
        && db.rooms[room].deletedAt.None? then Ok else Failed))
  }

  ghost function MoveAskJoin(db: Db, id: CallId, c: Call, room: RoomId): (Db, Pc) {
    match c.pc
    case Start =>
      if room in db.rooms && db.rooms[room].app == c.who.app && db.rooms[room].deletedAt.None?
      then (db, Checked) else (db, Done(Failed))
    case Checked => (db, if IsMember(db, room, c.who) then Done(Failed) else NotMember)
    case NotMember =>
      (match FindPending(db, room, c.who)
       case Some(q) => (db, Done(Joined(q, false)))
       case None => (db, Ready))
    case Ready =>
      (match InsertRequest(db, id, room, c.who)
       case Committed(d) => (d, Done(Joined(id, true)))
       case Aborted => (db, Conflict))
    case Conflict =>
      (match FindPending(db, room, c.who)
       case Some(q) => (db, Done(Joined(q, false)))
       case None => (db, Done(Failed)))
    case _ => (db, c.pc)
  }

  ghost function MoveCancelJoin(db: Db, c: Call, room: RoomId): (Db, Pc) {
    match c.pc
    case Start =>
      (match FindPending(db, room, c.who)
       case Some(q) => (db, Found(q))
       case None => (db, Done(Failed)))
    case Found(q) => Settle(db, CancelRequest(db, q))
    case _ => (db, c.pc)
  }

  function MoveTransfer(db: Db, c: Call, room: RoomId, heir: UserId): (Db, Pc) {
    match c.pc
    case Start => (db, if OwnerGuard(db, room, c.who) then Checked else Done(Failed))
    case Checked =>
      if heir == c.who.user then (db, Done(if IsMember(db, room, c.who) then Ok else Failed))
      else (db, if Seat(room, heir) in db.members then Ready else Done(Failed))
    case Ready => Write(db, Transfer(db, room, heir, c.who))
    case Written => Snapshot(db, room, c.who)
    case _ => (db, c.pc)
  }

  function MoveDelete(db: Db, c: Call, room: RoomId, now: Time): (Db, Pc) {
    match c.pc
    case Start => (db, if OwnerGuard(db, room, c.who) then Checked else Done(Failed))
    case Checked => (db, Listed(set s | s in db.members && s.room == room :: s.user))
    case Listed(users) =>
      (match Delete(db, room, c.who, now)
       case Committed(d) => (d, Done(Deleted(users, if room in d.rooms then d.rooms[room].version else 0)))
       case Aborted => (db, Done(Failed)))
    case _ => (db, c.pc)
  }

  function MoveRemove(db: Db, c: Call, room: RoomId, user: UserId): (Db, Pc) {
    match c.pc
    case Start => (db, if OwnerGuard(db, room, c.who) then Checked else Done(Failed))
    case Checked =>
      (db, if Seat(room, user) in db.members && db.members[Seat(room, user)].role.Member? then Ready else Done(Failed))
    case Ready => Write(db, Remove(db, room, user, c.who))
    case Written => Snapshot(db, room, c.who)
    case _ => (db, c.pc)
  }

  ghost function Move(db: Db, id: CallId, c: Call, now: Time): (Db, Pc) {
    match c.op
    case CreateRoom => if c.pc.Start? then Settle(db, Create(db, id, c.who)) else (db, c.pc)
    case AskJoin(room) => MoveAskJoin(db, id, c, room)
    case CancelJoin(room) => MoveCancelJoin(db, c, room)
    case DecideJoin(room, q, approve) =>
      if c.pc.Start? then (db, if OwnerGuard(db, room, c.who) then Ready else Done(Failed))
      else if c.pc.Ready? then Settle(db, Decide(db, room, q, approve, c.who))
      else (db, c.pc)
    case RemoveMember(room, user) => MoveRemove(db, c, room, user)
    case LeaveRoom(room) =>
      if c.pc.Start? then
        (db, if IsMember(db, room, c.who) && !IsOwner(db, room, c.who.user) then Ready else Done(Failed))
      else if c.pc.Ready? then Write(db, Leave(db, room, c.who))
      else if c.pc.Written? then Snapshot(db, room, c.who)
      else (db, c.pc)
    case TransferRoom(room, heir) => MoveTransfer(db, c, room, heir)
    case DeleteRoom(room) => MoveDelete(db, c, room, now)
  }

  ghost function Next(s: State, step: Step): State {
    match step
    case Begin(id, who, op) =>
      if id in s.calls then s else s.(calls := s.calls[id := Call(who, op, Start)])
    case Advance(id, now) =>
      if id !in s.calls then s
      else
        var c := s.calls[id];
        var moved := Move(s.db, id, c, now);
        State(moved.0, s.calls[id := c.(pc := moved.1)])
  }

  // ---------------------------------------------------------------- runs

  ghost function Exec(steps: seq<Step>): State {
    if steps == [] then State(Db(map[], map[], map[], []), map[])
    else Next(Exec(steps[..|steps| - 1]), steps[|steps| - 1])
  }

  // ---------------------------------------------------------------- what every state satisfies

  ghost predicate DbInv(db: Db) {
    && (forall r :: r in db.rooms ==> db.rooms[r].version >= 1 && ExactlyOneOwner(db, r))
    && (forall s :: s in db.members ==> s.room in db.rooms && db.members[s].app == db.rooms[s.room].app)
    && (forall q :: q in db.requests ==>
          db.requests[q].room in db.rooms && db.requests[q].app == db.rooms[db.requests[q].room].app)
    && OnePending(db)
  }

  ghost predicate OnePending(db: Db) {
    forall p, q ::
      (&& p in db.requests && q in db.requests
       && db.requests[p].status.Pending? && db.requests[q].status.Pending?
       && db.requests[p].room == db.requests[q].room
       && db.requests[p].user == db.requests[q].user) ==> p == q
  }

  predicate RoomOp(op: Op) { !op.CreateRoom? }

  /** Operations guarded by the owner check, whose caller's application is the room's. */
  predicate OwnerOp(op: Op) { op.DecideJoin? || op.RemoveMember? || op.TransferRoom? || op.DeleteRoom? }

  predicate PastGuard(pc: Pc) { !pc.Start? && !pc.Done? }

  /** Operations that answer with a snapshot read after their transaction. */
  predicate AnswersWithSnapshot(op: Op) { op.RemoveMember? || op.LeaveRoom? || op.TransferRoom? }

  /** What a call may rely on once it has left its first step, and what its reply means. */
  ghost predicate CallInv(db: Db, id: CallId, c: Call) {
    && (RoomOp(c.op) && PastGuard(c.pc) ==> c.op.room in db.rooms && db.rooms[c.op.room].app == c.who.app)
    && (c.pc.Done? && c.pc.reply.Joined? ==>
          && c.op.AskJoin?
          && c.pc.reply.request in db.requests
          && db.requests[c.pc.reply.request].room == c.op.room
          && db.requests[c.pc.reply.request].user == c.who.user
          && (c.pc.reply.created <==> c.pc.reply.request == id))
    && (c.pc.Found? ==> c.op.CancelJoin? && c.pc.request in db.requests && db.requests[c.pc.request].user == c.who.user)
    && (c.op.TransferRoom? && c.pc.Ready? ==> c.op.heir != c.who.user)
    && (c.pc.Written? ==> AnswersWithSnapshot(c.op))
  }

  ghost predicate Inv(s: State) {
    && DbInv(s.db)
    && (forall id :: id in s.calls ==> CallInv(s.db, id, s.calls[id]))
    && (forall r :: r in s.db.rooms ==>
          r in s.calls && s.calls[r].op.CreateRoom? && s.calls[r].pc == Done(Ok)
          && s.calls[r].who.app == s.db.rooms[r].app)
    && (forall q :: q in s.db.requests ==> q in s.calls && s.calls[q].pc == Done(Joined(q, true)))
  }

  // ---------------------------------------------------------------- what a step may change

  /** The structural part of one room: its row and its seats. */
  ghost predicate SameRoom(a: Db, b: Db, room: RoomId) {
    && (room in a.rooms <==> room in b.rooms)
    && (room in a.rooms ==> a.rooms[room] == b.rooms[room])
    && (forall u :: Seat(room, u) in a.members <==> Seat(room, u) in b.members)
    && (forall u :: Seat(room, u) in a.members && Seat(room, u) in b.members ==>
          a.members[Seat(room, u)] == b.members[Seat(room, u)])
  }

  ghost predicate RequestsKept(a: Db, b: Db) {
    forall q :: q in a.requests ==>
      q in b.requests && b.requests[q].room == a.requests[q].room
      && b.requests[q].app == a.requests[q].app && b.requests[q].user == a.requests[q].user
  }

  ghost predicate RoomsKept(a: Db, b: Db) {
    forall r :: r in a.rooms ==> r in b.rooms && b.rooms[r].app == a.rooms[r].app
  }

  /** A transaction on `room` keeps the database invariant and leaves every other room alone. */
  ghost predicate GoodCommit(a: Db, b: Db, room: RoomId) {
    && DbInv(b) && RoomsKept(a, b) && RequestsKept(a, b)
    && (forall r :: r != room ==> SameRoom(a, b, r))
    && a.audit <= b.audit
  }

  lemma OtherRoomsKeepOwners(a: Db, b: Db, room: RoomId)
    requires forall r :: r in a.rooms ==> ExactlyOneOwner(a, r)
    requires forall r :: r != room ==> SameRoom(a, b, r)
    requires room in b.rooms ==> ExactlyOneOwner(b, room)
    ensures forall r :: r in b.rooms ==> ExactlyOneOwner(b, r)
  {
    forall r | r in b.rooms ensures ExactlyOneOwner(b, r) {
      if r != room {
        assert SameRoom(a, b, r);
        assert forall u :: IsOwner(b, r, u) <==> IsOwner(a, r, u);
        assert ExactlyOneOwner(a, r);
        var w :| IsOwner(a, r, w);
        assert IsOwner(b, r, w);
      }
    }
  }

  lemma CreateIsGood(db: Db, room: RoomId, who: Identity)
    requires DbInv(db)
    ensures var o := Create(db, room, who); o.Committed? ==>
      GoodCommit(db, o.db, room) && room !in db.rooms && room in o.db.rooms
          && o.db.rooms[room] == Room(who.app, 1, None)
      && o.db.requests == db.requests
  {
    var o := Create(db, room, who);
    if o.Committed? {
      OwnerCount(o.db, room);
      OtherRoomsKeepOwners(db, o.db, room);
    }
  }

  lemma DecideIsGood(db: Db, room: RoomId, q: RequestId, approve: bool, who: Identity)
    requires DbInv(db) && room in db.rooms && db.rooms[room].app == who.app
    ensures var o := Decide(db, room, q, approve, who); o.Committed? ==>
      (GoodCommit(db, o.db, room) && o.db.rooms.Keys == db.rooms.Keys && o.db.requests.Keys == db.requests.Keys)
  {
    var o := Decide(db, room, q, approve, who);
    if o.Committed? {
      ApprovalKeepsOwners(db, room, q, approve, who);
      var w :| IsOwner(db, room, w);
      assert IsOwner(o.db, room, w);
      OtherRoomsKeepOwners(db, o.db, room);
    }
  }

  lemma RemovalIsGood(db: Db, room: RoomId, user: UserId, who: Identity)
    requires DbInv(db)
    ensures var o := Remove(db, room, user, who); o.Committed? ==>
      (GoodCommit(db, o.db, room) && o.db.rooms.Keys == db.rooms.Keys && o.db.requests == db.requests)
    ensures var o := Leave(db, room, Identity(who.app, user)); o.Committed? ==>
      (GoodCommit(db, o.db, room) && o.db.rooms.Keys == db.rooms.Keys && o.db.requests == db.requests)
  {
    var o := CommitChecked(RemoveStatements(db, room, user), room);
    if o.Committed? {
      OwnerCount(o.db, room);
      OtherRoomsKeepOwners(db, o.db, room);
      var r := Remove(db, room, user, who);
      assert forall u :: IsOwner(r.db, room, u) <==> IsOwner(o.db, room, u);
      var w :| IsOwner(o.db, room, w);
      assert IsOwner(r.db, room, w);
      OtherRoomsKeepOwners(db, r.db, room);
    }
  }

  lemma TransferIsGood(db: Db, room: RoomId, heir: UserId, who: Identity)
    requires DbInv(db) && heir != who.user
    ensures var o := Transfer(db, room, heir, who); o.Committed? ==>
      (GoodCommit(db, o.db, room) && o.db.rooms.Keys == db.rooms.Keys && o.db.requests == db.requests)
  {
    var o := Transfer(db, room, heir, who);
    if o.Committed? {
      TransferNeedsOnlyTheIndex(db, room, heir, who);
      assert IsOwner(o.db, room, heir);
      OtherRoomsKeepOwners(db, o.db, room);
    }
  }

  lemma DeleteIsGood(db: Db, room: RoomId, who: Identity, now: Time)
    requires DbInv(db)
    ensures var o := Delete(db, room, who, now); o.Committed? ==>
      (GoodCommit(db, o.db, room) && o.db.rooms.Keys == db.rooms.Keys && o.db.requests == db.requests)
  {
    var o := Delete(db, room, who, now);
    if o.Committed? {
      OwnerCount(o.db, room);
      OtherRoomsKeepOwners(db, o.db, room);
    }
  }

  lemma InsertIsGood(db: Db, id: CallId, room: RoomId, who: Identity)
    requires DbInv(db) && room in db.rooms && db.rooms[room].app == who.app
    ensures var o := InsertRequest(db, id, room, who); o.Committed? ==>
      GoodCommit(db, o.db, room) && o.db.rooms == db.rooms && o.db.requests.Keys == db.requests.Keys + {id}
  {
    var o := InsertRequest(db, id, room, who);
    if o.Committed? {
      OtherRoomsKeepOwners(db, o.db, room) by {
        var w :| IsOwner(db, room, w);
        assert IsOwner(o.db, room, w);
        assert forall u :: IsOwner(o.db, room, u) <==> IsOwner(db, room, u);
      }
    }
  }

  lemma CancelIsGood(db: Db, q: RequestId)
    requires DbInv(db) && q in db.requests
    ensures var o := CancelRequest(db, q);
      && o.Committed? && DbInv(o.db) && RoomsKept(db, o.db) && RequestsKept(db, o.db)
      && o.db.rooms == db.rooms && o.db.members == db.members && o.db.audit == db.audit
      && o.db.requests.Keys == db.requests.Keys
  {
    var o := CancelRequest(db, q);
    forall r | r in o.db.rooms ensures ExactlyOneOwner(o.db, r) {
      assert ExactlyOneOwner(db, r);
      var w :| IsOwner(db, r, w);
      assert IsOwner(o.db, r, w);
      assert forall u :: IsOwner(o.db, r, u) <==> IsOwner(db, r, u);
    }
  }

  function Target(id: CallId, op: Op): RoomId {
    if op.CreateRoom? then id else op.room
  }

  /** What one move of one call does to the database, whatever the other calls have done. */
  ghost predicate MoveGood(db: Db, id: CallId, c: Call, m: (Db, Pc)) {
    && DbInv(m.0) && RoomsKept(db, m.0) && RequestsKept(db, m.0) && db.audit <= m.0.audit
    && (forall r :: r != Target(id, c.op) ==> SameRoom(db, m.0, r))
    && CallInv(m.0, id, c.(pc := m.1))
    && (c.pc.Done? ==> m == (db, c.pc))
    && (m.0.rooms.Keys == db.rooms.Keys
        || (c.op.CreateRoom? && m.1 == Done(Ok) && m.0.rooms == db.rooms[id := Room(c.who.app, 1, None)]))
    && (m.0.requests.Keys == db.requests.Keys
        || (m.1 == Done(Joined(id, true)) && m.0.requests.Keys == db.requests.Keys + {id}))
  }

  ghost predicate MayMove(db: Db, id: CallId, c: Call) {
    DbInv(db) && CallInv(db, id, c) && (!c.pc.Done? ==> id !in db.requests)
  }

  lemma ReadingIsGood(db: Db, id: CallId, c: Call, pc: Pc)
    requires DbInv(db) && CallInv(db, id, c.(pc := pc)) && (c.pc.Done? ==> pc == c.pc)
    ensures MoveGood(db, id, c, (db, pc))
  {
  }

  lemma AskJoinReads(db: Db, id: CallId, c: Call, now: Time)
    requires MayMove(db, id, c) && c.op.AskJoin? && !c.pc.Ready?
    ensures var m := Move(db, id, c, now); m.0 == db && CallInv(db, id, c.(pc := m.1)) && (c.pc.Done? ==> m.1 == c.pc)
  {
  }

  lemma AskJoinMove(db: Db, id: CallId, c: Call, now: Time)
    requires MayMove(db, id, c) && c.op.AskJoin?
    ensures MoveGood(db, id, c, Move(db, id, c, now))
  {
    if c.pc.Ready? {
      InsertIsGood(db, id, c.op.room, c.who);
      if InsertRequest(db, id, c.op.room, c.who).Aborted? { ReadingIsGood(db, id, c, Conflict); }
    } else {
      AskJoinReads(db, id, c, now);
      ReadingIsGood(db, id, c, Move(db, id, c, now).1);
    }
  }

  lemma CancelJoinMove(db: Db, id: CallId, c: Call, now: Time)
    requires MayMove(db, id, c) && c.op.CancelJoin?
    ensures MoveGood(db, id, c, Move(db, id, c, now))
  {
    if c.pc.Found? { CancelIsGood(db, c.pc.request); }
  }

  lemma DecideMove(db: Db, id: CallId, c: Call, now: Time)
    requires MayMove(db, id, c) && c.op.DecideJoin?
    ensures MoveGood(db, id, c, Move(db, id, c, now))
  {
    if c.pc.Ready? { DecideIsGood(db, c.op.room, c.op.request, c.op.approve, c.who); }
  }

  lemma RemovalMove(db: Db, id: CallId, c: Call, now: Time)
    requires MayMove(db, id, c) && (c.op.RemoveMember? || c.op.LeaveRoom?)
    ensures MoveGood(db, id, c, Move(db, id, c, now))
  {
    if c.pc.Ready? {
      RemovalIsGood(db, c.op.room, if c.op.LeaveRoom? then c.who.user else c.op.user, c.who);
    } else {
      ReadingIsGood(db, id, c, Move(db, id, c, now).1);
    }
  }

  lemma TransferMove(db: Db, id: CallId, c: Call, now: Time)
    requires MayMove(db, id, c) && c.op.TransferRoom?
    ensures MoveGood(db, id, c, Move(db, id, c, now))
  {
    if c.pc.Ready? {
      TransferIsGood(db, c.op.room, c.op.heir, c.who);
    } else {
      ReadingIsGood(db, id, c, Move(db, id, c, now).1);
    }
  }

  lemma CreateOrDeleteMove(db: Db, id: CallId, c: Call, now: Time)
    requires MayMove(db, id, c) && (c.op.CreateRoom? || c.op.DeleteRoom?)
    ensures MoveGood(db, id, c, Move(db, id, c, now))
  {
    if c.op.CreateRoom? { CreateIsGood(db, id, c.who); }
    else if c.pc.Listed? { DeleteIsGood(db, c.op.room, c.who, now); }
  }

  lemma MoveKeeps(db: Db, id: CallId, c: Call, now: Time)
    requires MayMove(db, id, c)
    ensures MoveGood(db, id, c, Move(db, id, c, now))
  {
    match c.op {
      case AskJoin(_) => AskJoinMove(db, id, c, now);
      case CancelJoin(_) => CancelJoinMove(db, id, c, now);
      case DecideJoin(_, _, _) => DecideMove(db, id, c, now);
      case RemoveMember(_, _) => RemovalMove(db, id, c, now);
      case LeaveRoom(_) => RemovalMove(db, id, c, now);
      case TransferRoom(_, _) => TransferMove(db, id, c, now);
      case CreateRoom => CreateOrDeleteMove(db, id, c, now);
      case DeleteRoom(_) => CreateOrDeleteMove(db, id, c, now);
    }
  }

  lemma OtherCallsKeep(a: Db, b: Db, id: CallId, c: Call)
    requires CallInv(a, id, c) && RoomsKept(a, b) && RequestsKept(a, b)
    ensures CallInv(b, id, c)
  {
  }

  lemma AdvanceKeepsInv(s: State, id: CallId, now: Time)
    requires Inv(s) && id in s.calls
    ensures Inv(Next(s, Advance(id, now)))
    ensures MoveGood(s.db, id, s.calls[id], Move(s.db, id, s.calls[id], now))
  {
    var c, t := s.calls[id], Next(s, Advance(id, now));
    MoveKeeps(s.db, id, c, now);
    forall k | k in t.calls ensures CallInv(t.db, k, t.calls[k]) {
      if k != id { OtherCallsKeep(s.db, t.db, k, s.calls[k]); }
    }
  }

  lemma NextKeepsInv(s: State, step: Step)
    requires Inv(s)
    ensures Inv(Next(s, step))
    ensures RoomsKept(s.db, Next(s, step).db) && RequestsKept(s.db, Next(s, step).db)
    ensures s.db.audit <= Next(s, step).db.audit
  {
    if step.Advance? && step.id in s.calls { AdvanceKeepsInv(s, step.id, step.now); }
  }

  lemma {:induction false} ExecInv(steps: seq<Step>)
    ensures Inv(Exec(steps))
  {
    if steps != [] {
      ExecInv(steps[..|steps| - 1]);
      NextKeepsInv(Exec(steps[..|steps| - 1]), steps[|steps| - 1]);
    }
  }
}
