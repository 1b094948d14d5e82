/** Idempotent creates under concurrent retries.

    A call of `execute` validates the key and digests the request, then runs one transaction that
    inserts the record and creates the resource. A unique violation sends it to the record lookup
    and from there to the replay read; transaction, lookup and replay are separate steps, and the
    steps of any number of calls interleave with the daily cleanup, with deletions of resources and
    with the clock. */
module Idempotency {
  import opened Canonical

  type Time = int
  type ResourceId = int

  /** The call's random resource id is the call's own identifier. */
  type CallId = int

  const DAY: Time := 86_400_000

  datatype Operation = RoomsCreate | ChatSend | SessionsStart

  /** The primary key of the record table: tenant, user, operation and key. */
  datatype Scope = Scope(app: int, user: int, operation: Operation, key: string)
  /** The digest is taken as injective on canonical requests, so the canonical request stands for it. */
  datatype Record = Record(digest: Json, resource: ResourceId, createdAt: Time)
  /** The creation entry on the audit log. */
  datatype Creation = Creation(scope: Scope, digest: Json, resource: ResourceId, at: Time)

  datatype Error = InvalidKey | IdempotencyConflict | ResultUnavailable | CreateFailed | UniqueViolation
  datatype Phase = Begun | Violated | Matched(resource: ResourceId) | Replied(resource: ResourceId,
      created: bool) | Refused(error: Error)
  /** `decidedAt` is when the call learned its resource: its commit or its lookup. */
  datatype Call = Call(scope: Scope, digest: Json, phase: Phase, decidedAt: Time)

  /** How the caller's create callback ends inside the transaction. */
  datatype Callback = Creates | HitsUniqueIndex | Throws

  datatype State = State(
    now: Time,
    records: map<Scope, Record>,
    resources: set<ResourceId>,
    audit: seq<Creation>,
    calls: map<CallId, Call>,
    published: seq<ResourceId>)

  datatype Step =
    | Begin(id: CallId, scope: Scope, request: Json)
    | Transact(id: CallId, callback: Callback)
    | Lookup(id: CallId)
    | Replay(id: CallId)
    | Publish(id: CallId)
    | Clean
    | Drop(resource: ResourceId)
    | Tick(d: nat)

  predicate KeyChar(c: char) {
    'A' <= c <= 'Z' || 'a' <= c <= 'z' || '0' <= c <= '9' || c == '.' || c == '_' || c == ':' || c == '-'
  }

  predicate ValidKey(key: string) {
    1 <= |key| <= 128 && forall c | c in key :: KeyChar(c)
  }

  // ---------------------------------------------------------------- one step

  function BeginPhase(scope: Scope): Phase {
    if ValidKey(scope.key) then Begun else Refused(InvalidKey)
  }

  /** The lookup's answer: the record is gone, belongs to another request, or names the resource. */
  function LookupPhase(records: map<Scope, Record>, c: Call): Phase {
    if c.scope !in records then Refused(UniqueViolation)
    else if records[c.scope].digest != c.digest then Refused(IdempotencyConflict)
    else Matched(records[c.scope].resource)
  }

  function Transacted(s: State, id: CallId, callback: Callback): State
    requires id in s.calls
  {
    var c := s.calls[id];
    if c.scope in s.records || callback.HitsUniqueIndex? then s.(calls := s.calls[id := c.(phase := Violated)])
    else if callback.Throws? then s.(calls := s.calls[id := c.(phase := Refused(CreateFailed))])
    else s.(
      records := s.records[c.scope := Record(c.digest, id, s.now)],
      resources := s.resources + {id},
      audit := s.audit + [Creation(c.scope, c.digest, id, s.now)],
      calls := s.calls[id := c.(phase := Replied(id, true), decidedAt := s.now)])
  }

  function Cleaned(records: map<Scope, Record>, now: Time): map<Scope, Record> {
    map k | k in records && records[k].createdAt >= now - DAY :: records[k]
  }

  predicate InPhase(s: State, id: CallId, phase: Phase) { id in s.calls && s.calls[id].phase == phase }

  function Next(cmp: Compare, s: State, step: Step): State {
    match step
    case Begin(id, scope, request) =>
      if id in s.calls then s
      else s.(calls := s.calls[id := Call(scope, Canon(cmp, request), BeginPhase(scope), s.now)])
    case Transact(id, callback) =>
      if !InPhase(s, id, Begun) then s else Transacted(s, id, callback)
    case Lookup(id) =>
      if !InPhase(s, id, Violated) then s
      else s.(calls := s.calls[id := s.calls[id].(phase := LookupPhase(s.records, s.calls[id]), decidedAt := s.now)])
    case Replay(id) =>
      if id !in s.calls || !s.calls[id].phase.Matched? then s
      else
        var r := s.calls[id].phase.resource;
        s.(calls := s.calls[id := s.calls[id].(phase := if r in s.resources then Replied(r, false)
            else Refused(ResultUnavailable))])
    case Publish(id) =>
      // The controllers publish exactly when the reply says `created`, after the commit.
      if !InPhase(s, id, Replied(id, true)) || id in s.published then s
      else s.(published := s.published + [id])
    case Clean => s.(records := Cleaned(s.records, s.now))
    case Drop(resource) => s.(resources := s.resources - {resource})
    case Tick(d) => s.(now := s.now + d)
  }

  ghost function Exec(cmp: Compare, steps: seq<Step>): State {
    if steps == [] then State(0, map[], {}, [], map[], [])
    else Next(cmp, Exec(cmp, steps[..|steps| - 1]), steps[|steps| - 1])
  }

  // ---------------------------------------------------------------- the invariant

  /** A creation's record is still there, or more than a day has passed. */
  ghost predicate LiveOrOld(s: State, c: Creation) {
    || (c.scope in s.records && s.records[c.scope] == Record(c.digest, c.resource, c.at))
    || c.at + DAY < s.now
  }

  /** The entries of one scope are more than a day apart, whichever comes first. */
  ghost predicate DayApart(audit: seq<Creation>) {
    forall i, j :: 0 <= i < j < |audit| && audit[i].scope == audit[j].scope ==> audit[i].at + DAY < audit[j].at
  }

  ghost predicate AuditInv(s: State) {
    && DayApart(s.audit)
    && (forall i :: 0 <= i < |s.audit| ==> LiveOrOld(s, s.audit[i]) && s.audit[i].at <= s.now)
    && (forall k :: k in s.records ==>
          Creation(k, s.records[k].digest, s.records[k].resource, s.records[k].createdAt) in s.audit)
  }

  /** Each resource has one creation entry, written by the call it names. */
  ghost predicate CreatorInv(s: State) {
    && (forall i, j :: 0 <= i < j < |s.audit| ==> s.audit[i].resource != s.audit[j].resource)
    && (forall i :: 0 <= i < |s.audit| ==>
          var c := s.audit[i];
          && InPhase(s, c.resource, Replied(c.resource, true))
          && s.calls[c.resource].scope == c.scope && s.calls[c.resource].digest == c.digest
          && s.calls[c.resource].decidedAt == c.at)
    && (forall id :: id in s.calls && s.calls[id].phase.Replied? && s.calls[id].phase.created ==>
        s.calls[id].phase.resource == id)
  }

  predicate Knows(phase: Phase) { phase.Matched? || phase.Replied? }

  /** A call that knows its resource has a creation of the same scope and digest to show for it. */
  ghost predicate WitnessedBy(s: State, c: Call, e: Creation) {
    && Knows(c.phase) && e in s.audit
    && e.scope == c.scope && e.digest == c.digest && e.resource == c.phase.resource && e.at <= c.decidedAt
  }

  ghost predicate Witnessed(s: State, id: CallId)
    requires id in s.calls
  {
    exists e :: WitnessedBy(s, s.calls[id], e)
  }

  ghost predicate CallsInv(s: State) {
    forall id :: id in s.calls && Knows(s.calls[id].phase) ==> Witnessed(s, id)
  }

  ghost predicate PublishedInv(s: State) {
    && (forall i, j :: 0 <= i < j < |s.published| ==> s.published[i] != s.published[j])
    && (forall r :: r in s.published ==> InPhase(s, r, Replied(r, true)))
  }

  ghost predicate Inv(s: State) {
    AuditInv(s) && CreatorInv(s) && CallsInv(s) && PublishedInv(s)
  }

  /** The call knew the same resource before. */
  ghost predicate KnewAlready(s: State, t: State, id: CallId)
    requires id in t.calls && Knows(t.calls[id].phase)
  {
    && id in s.calls && Knows(s.calls[id].phase)
    && s.calls[id].phase.resource == t.calls[id].phase.resource
    && s.calls[id].scope == t.calls[id].scope && s.calls[id].digest == t.calls[id].digest
    && s.calls[id].decidedAt == t.calls[id].decidedAt
  }

  lemma CallsKeepWitnesses(s: State, t: State)
    requires CallsInv(s) && s.audit <= t.audit
    requires forall id :: id in t.calls && Knows(t.calls[id].phase) ==> KnewAlready(s, t, id) || Witnessed(t, id)
    ensures CallsInv(t)
  {
    forall id | id in t.calls && Knows(t.calls[id].phase)
      ensures Witnessed(t, id)
    {
      if KnewAlready(s, t, id) {
        assert Witnessed(s, id);
        var e :| WitnessedBy(s, s.calls[id], e);
        var i :| 0 <= i < |s.audit| && s.audit[i] == e;
        assert t.audit[i] == e;
        assert WitnessedBy(t, t.calls[id], e);
      }
    }
  }

  /** Without a new entry it is enough that no record of a creation younger than a day goes away. */
  lemma AuditKept(s: State, t: State)
    requires AuditInv(s) && t.audit == s.audit && s.now <= t.now
    requires forall k :: k in t.records ==> k in s.records && s.records[k] == t.records[k]
    requires forall k :: k in s.records && k !in t.records ==> s.records[k].createdAt + DAY < t.now
    ensures AuditInv(t)
  {
    forall i | 0 <= i < |t.audit| ensures LiveOrOld(t, t.audit[i]) && t.audit[i].at <= t.now {
      assert LiveOrOld(s, s.audit[i]);
    }
  }

  lemma CreatorsKept(s: State, t: State)
    requires CreatorInv(s) && t.audit == s.audit
    requires forall id :: id in s.calls ==> id in t.calls && (s.calls[id].phase.Replied? ==> t.calls[id] == s.calls[id])
    requires forall id :: id in t.calls && t.calls[id].phase.Replied? && t.calls[id].phase.created ==>
      id in s.calls && t.calls[id] == s.calls[id]
    ensures CreatorInv(t)
  {
    forall i | 0 <= i < |t.audit|
      ensures var c := t.audit[i];
        InPhase(t, c.resource, Replied(c.resource, true)) && t.calls[c.resource] == s.calls[c.resource]
    {
      assert InPhase(s, s.audit[i].resource, Replied(s.audit[i].resource, true));
    }
  }

  /** The scope's earlier creations have no record left, so they are more than a day old. */
  lemma EarlierCreationsAreOld(s: State, k: Scope)
    requires AuditInv(s) && k !in s.records
    ensures forall i :: 0 <= i < |s.audit| && s.audit[i].scope == k ==> s.audit[i].at + DAY < s.now
  {
    forall i | 0 <= i < |s.audit| && s.audit[i].scope == k ensures s.audit[i].at + DAY < s.now {
      assert LiveOrOld(s, s.audit[i]);
    }
  }

  lemma DayApartGrows(s: State, e: Creation)
    requires DayApart(s.audit) && forall i :: 0 <= i < |s.audit| && s.audit[i].scope == e.scope ==>
        s.audit[i].at + DAY < e.at
    ensures DayApart(s.audit + [e])
  {
  }

  lemma CommitKeepsAudit(cmp: Compare, s: State, id: CallId)
    requires Inv(s) && InPhase(s, id, Begun) && s.calls[id].scope !in s.records
    ensures AuditInv(Next(cmp, s, Transact(id, Creates)))
  {
    var t := Next(cmp, s, Transact(id, Creates));
    var c := s.calls[id];
    var e := Creation(c.scope, c.digest, id, s.now);
    assert t.audit == s.audit + [e];
    EarlierCreationsAreOld(s, c.scope);
    DayApartGrows(s, e);
    forall i | 0 <= i < |s.audit| ensures LiveOrOld(t, t.audit[i]) && t.audit[i].at <= t.now {
      assert LiveOrOld(s, s.audit[i]);
    }
    forall k | k in t.records
      ensures Creation(k, t.records[k].digest, t.records[k].resource, t.records[k].createdAt) in t.audit
    {
      if k == c.scope { assert t.audit[|s.audit|] == e; }
    }
  }

  lemma CommitKeepsCreators(cmp: Compare, s: State, id: CallId)
    requires Inv(s) && InPhase(s, id, Begun) && s.calls[id].scope !in s.records
    ensures CreatorInv(Next(cmp, s, Transact(id, Creates)))
  {
    var t := Next(cmp, s, Transact(id, Creates));
    forall i | 0 <= i < |s.audit|
      ensures s.audit[i].resource != id && t.audit[i] == s.audit[i]
      ensures InPhase(t, s.audit[i].resource, Replied(s.audit[i].resource, true))
    {
      assert InPhase(s, s.audit[i].resource, Replied(s.audit[i].resource, true));
    }
  }

  lemma TransactKeepsInv(cmp: Compare, s: State, id: CallId, callback: Callback)
    requires Inv(s)
    ensures Inv(Next(cmp, s, Transact(id, callback)))
  {
    var t := Next(cmp, s, Transact(id, callback));
    if InPhase(s, id, Begun) && s.calls[id].scope !in s.records && callback.Creates? {
      CommitKeepsAudit(cmp, s, id);
      CommitKeepsCreators(cmp, s, id);
      var e := Creation(s.calls[id].scope, s.calls[id].digest, id, s.now);
      assert t.audit[|s.audit|] == e;
      assert WitnessedBy(t, t.calls[id], e);
    } else {
      AuditKept(s, t);
      CreatorsKept(s, t);
    }
    CallsKeepWitnesses(s, t);
  }

  lemma LookupKeepsInv(cmp: Compare, s: State, id: CallId)
    requires Inv(s)
    ensures Inv(Next(cmp, s, Lookup(id)))
  {
    var t := Next(cmp, s, Lookup(id));
    AuditKept(s, t);
    CreatorsKept(s, t);
    if InPhase(s, id, Violated) && Knows(t.calls[id].phase) {
      var c := s.calls[id];
      var r := s.records[c.scope];
      var e := Creation(c.scope, r.digest, r.resource, r.createdAt);
      assert e in s.audit;
      var i :| 0 <= i < |s.audit| && s.audit[i] == e;
      assert WitnessedBy(t, t.calls[id], e);
    }
    CallsKeepWitnesses(s, t);
  }

  lemma BeginKeepsInv(cmp: Compare, s: State, id: CallId, scope: Scope, request: Json)
    requires Inv(s)
    ensures Inv(Next(cmp, s, Begin(id, scope, request)))
  {
    var t := Next(cmp, s, Begin(id, scope, request));
    AuditKept(s, t);
    CreatorsKept(s, t);
    CallsKeepWitnesses(s, t);
  }

  lemma ReplayKeepsInv(cmp: Compare, s: State, id: CallId)
    requires Inv(s)
    ensures Inv(Next(cmp, s, Replay(id)))
  {
    var t := Next(cmp, s, Replay(id));
    AuditKept(s, t);
    CreatorsKept(s, t);
    CallsKeepWitnesses(s, t);
  }

  lemma PublishKeepsInv(cmp: Compare, s: State, id: CallId)
    requires Inv(s)
    ensures Inv(Next(cmp, s, Publish(id)))
  {
    var t := Next(cmp, s, Publish(id));
    AuditKept(s, t);
    CreatorsKept(s, t);
    CallsKeepWitnesses(s, t);
  }

  /** The environment: cleanup, deletions and the clock. */
  lemma EnvironmentKeepsInv(cmp: Compare, s: State, step: Step)
    requires Inv(s) && (step.Clean? || step.Tick? || step.Drop?)
    ensures Inv(Next(cmp, s, step))
  {
    var t := Next(cmp, s, step);
    AuditKept(s, t);
    CreatorsKept(s, t);
    CallsKeepWitnesses(s, t);
  }

  lemma NextKeepsInv(cmp: Compare, s: State, step: Step)
    requires Inv(s)
    ensures Inv(Next(cmp, s, step))
  {
    match step
    case Begin(id, scope, request) => BeginKeepsInv(cmp, s, id, scope, request);
    case Transact(id, callback) => TransactKeepsInv(cmp, s, id, callback);
    case Lookup(id) => LookupKeepsInv(cmp, s, id);
    case Replay(id) => ReplayKeepsInv(cmp, s, id);
    case Publish(id) => PublishKeepsInv(cmp, s, id);
    case Clean => EnvironmentKeepsInv(cmp, s, step);
    case Drop(_) => EnvironmentKeepsInv(cmp, s, step);
    case Tick(_) => EnvironmentKeepsInv(cmp, s, step);
  }

  lemma {:induction false} ExecInv(cmp: Compare, steps: seq<Step>)
    ensures Inv(Exec(cmp, steps))
  {
    if steps != [] {
      ExecInv(cmp, steps[..|steps| - 1]);
      NextKeepsInv(cmp, Exec(cmp, steps[..|steps| - 1]), steps[|steps| - 1]);
    }
  }

  // ---------------------------------------------------------------- what callers may rely on

  /** At most one creation of a scope a day: two are more than 24 hours apart. */
  lemma CreationsAreADayApart(cmp: Compare, steps: seq<Step>, i: nat, j: nat)
    requires i < j < |Exec(cmp, steps).audit| && Exec(cmp, steps).audit[i].scope == Exec(cmp, steps).audit[j].scope
    ensures Exec(cmp, steps).audit[i].at + 86_400_000 < Exec(cmp, steps).audit[j].at
  {
    ExecInv(cmp, steps);
  }

  /** `created: true` replies and creation entries match one to one: call r made that reply exactly
      when resource r has an entry, it has only one, and no other call replied so with r. */
  lemma CreatedRepliesMatchEntries(cmp: Compare, steps: seq<Step>, r: ResourceId)
    ensures var s := Exec(cmp, steps);
      && (InPhase(s, r, Replied(r, true)) <==> exists i :: 0 <= i < |s.audit| && s.audit[i].resource == r)
      && (forall i, j ::
            0 <= i < |s.audit| && 0 <= j < |s.audit| && s.audit[i].resource == r && s.audit[j].resource == r ==> i == j)
      && (forall id :: InPhase(s, id, Replied(r, true)) ==> id == r)
  {
    ExecInv(cmp, steps);
    var s := Exec(cmp, steps);
    if InPhase(s, r, Replied(r, true)) {
      assert Witnessed(s, r);
      var e :| WitnessedBy(s, s.calls[r], e);
      var i :| 0 <= i < |s.audit| && s.audit[i] == e;
      assert s.audit[i].resource == r;
    }
  }

  /** A creation is published at most once, and only creations are published. */
  lemma PublishedAtMostOnce(cmp: Compare, steps: seq<Step>)
    ensures var s := Exec(cmp, steps);
      && (forall i, j :: 0 <= i < j < |s.published| ==> s.published[i] != s.published[j])
      && (forall r :: r in s.published ==> exists i :: 0 <= i < |s.audit| && s.audit[i].resource == r)
  {
    ExecInv(cmp, steps);
    var s := Exec(cmp, steps);
    forall r | r in s.published ensures exists i :: 0 <= i < |s.audit| && s.audit[i].resource == r {
      CreatedRepliesMatchEntries(cmp, steps, r);
    }
  }

  /** Every successful reply names a creation of its own scope and of the same canonical request:
      a call with a different request never succeeds on the record. */
  lemma RepliesNameTheirCreation(cmp: Compare, steps: seq<Step>, id: CallId) returns (e: Creation)
    requires id in Exec(cmp, steps).calls && Exec(cmp, steps).calls[id].phase.Replied?
    ensures WitnessedBy(Exec(cmp, steps), Exec(cmp, steps).calls[id], e)
  {
    ExecInv(cmp, steps);
    assert Witnessed(Exec(cmp, steps), id);
    e :| WitnessedBy(Exec(cmp, steps), Exec(cmp, steps).calls[id], e);
  }

  /** Retries agree: two successful calls on one scope, each decided within 24 hours of the other's
      creation, answer with the same resource, and they carried the same canonical request. */
  lemma RetriesAgree(cmp: Compare, steps: seq<Step>, a: CallId, b: CallId) returns (ea: Creation, eb: Creation)
    requires var calls := Exec(cmp, steps).calls;
      && a in calls && b in calls && calls[a].phase.Replied? && calls[b].phase.Replied?
          && calls[a].scope == calls[b].scope
    ensures var s := Exec(cmp, steps);
      && WitnessedBy(s, s.calls[a], ea) && WitnessedBy(s, s.calls[b], eb)
      && (s.calls[a].decidedAt <= eb.at + 86_400_000 && s.calls[b].decidedAt <= ea.at + 86_400_000 ==>
            s.calls[a].phase.resource == s.calls[b].phase.resource && s.calls[a].digest == s.calls[b].digest)
  {
    ExecInv(cmp, steps);
    ea := RepliesNameTheirCreation(cmp, steps, a);
    eb := RepliesNameTheirCreation(cmp, steps, b);
    var audit := Exec(cmp, steps).audit;
    var i :| 0 <= i < |audit| && audit[i] == ea;
    var j :| 0 <= j < |audit| && audit[j] == eb;
    if i < j { assert audit[i].at + DAY < audit[j].at; }
    if j < i { assert audit[j].at + DAY < audit[i].at; }
  }

  /** A record found by the lookup matches exactly when the two requests are equal up to key order,
      and any other request is refused with a conflict. */
  lemma LookupComparesUnorderedRequests(cmp: Compare, records: map<Scope, Record>, c: Call, recorded: Json,
      request: Json)
    requires Comparator(cmp) && Separates(cmp) && WellFormed(recorded) && WellFormed(request)
    requires c.scope in records && records[c.scope].digest == Canon(cmp, recorded) && c.digest == Canon(cmp, request)
    ensures LookupPhase(records, c) ==
              if Same(recorded, request) then Matched(records[c.scope].resource) else Refused(IdempotencyConflict)
  {
    CanonDecidesSame(cmp, recorded, request);
  }

  /** A record outlives every step until it is more than 24 hours old, and only the cleanup takes it. */
  lemma RecordsLiveADay(cmp: Compare, s: State, step: Step, k: Scope)
    requires k in s.records && Inv(s)
    ensures var t := Next(cmp, s, step);
      if k in t.records then t.records[k] == s.records[k]
      else step.Clean? && s.records[k].createdAt + 86_400_000 < s.now
  {
  }

  /** The steps of one call touch no other scope's record and append no other scope's entry. */
  lemma OtherScopesUntouched(cmp: Compare, s: State, step: Step, k: Scope)
    requires step.Begin? || step.Transact? || step.Lookup? || step.Replay? || step.Publish?
    requires step.id in s.calls && s.calls[step.id].scope != k
    ensures var t := Next(cmp, s, step);
      && (k in t.records <==> k in s.records) && (k in s.records ==> t.records[k] == s.records[k])
      && s.audit <= t.audit
      && (forall i :: |s.audit| <= i < |t.audit| ==> t.audit[i].scope != k)
      && (forall id :: id in s.calls && s.calls[id].scope == k ==> id in t.calls && t.calls[id] == s.calls[id])
  {
  }

  // ---------------------------------------------------------------- creating and replaying succeed

  lemma ExecExtends(cmp: Compare, steps: seq<Step>, step: Step)
    ensures Exec(cmp, steps + [step]) == Next(cmp, Exec(cmp, steps), step)
  {
    assert (steps + [step])[..|steps|] == steps;
  }

  /** A key without a record creates: record, resource and audit entry appear together, and the reply
      says so. */
  lemma FreshKeyCreates(cmp: Compare, s: State, id: CallId)
    requires InPhase(s, id, Begun) && s.calls[id].scope !in s.records
    ensures var t := Next(cmp, s, Transact(id, Creates)); var c := s.calls[id];
      && InPhase(t, id, Replied(id, true)) && id in t.resources && Creation(c.scope, c.digest, id, s.now) in t.audit
      && c.scope in t.records && t.records[c.scope] == Record(c.digest, id, s.now)
      && (forall k :: k != c.scope ==> (k in t.records <==> k in s.records))
  {
    var t, c := Next(cmp, s, Transact(id, Creates)), s.calls[id];
    assert t.audit[|s.audit|] == Creation(c.scope, c.digest, id, s.now);
  }

  /** Only valid keys ever get as far as a record or a creation. */
  lemma {:induction false} RecordsHaveValidKeys(cmp: Compare, steps: seq<Step>)
    ensures var s := Exec(cmp, steps);
      && (forall k :: k in s.records ==> ValidKey(k.key))
      && (forall i :: 0 <= i < |s.audit| ==> ValidKey(s.audit[i].scope.key))
      && (forall id :: id in s.calls && s.calls[id].phase.Begun? ==> ValidKey(s.calls[id].scope.key))
  {
    if steps != [] { RecordsHaveValidKeys(cmp, steps[..|steps| - 1]); }
  }
}
