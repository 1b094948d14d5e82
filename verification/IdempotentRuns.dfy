/** Retries over whole runs: what a live record destines a retry to, however the steps of other calls
    interleave with it, and that calls on other scopes make no difference at all. */
module IdempotentRuns {
  import opened Canonical
  import opened Idempotency

  // ---------------------------------------------------------------- a retry of a live record

  /** Where a call that met the record `r` may stand: on its way, or answered by the record alone. */
  ghost predicate Destined(s: State, id: CallId, r: Record) {
    && id in s.calls
    && var c := s.calls[id];
       match c.phase
       case Begun => true
       case Violated => true
       case Matched(x) => x == r.resource && c.digest == r.digest
       case Replied(x, created) => x == r.resource && !created && c.digest == r.digest
       case Refused(e) =>
         || (e == IdempotencyConflict && c.digest != r.digest)
         || (e == ResultUnavailable && c.digest == r.digest && r.resource !in s.resources)
  }

  ghost predicate Meets(s: State, id: CallId, k: Scope, r: Record) {
    && k in s.records && s.records[k] == r
    && id in s.calls && s.calls[id].scope == k && Destined(s, id, r)
  }

  lemma CreatorsAreDone(s: State, k: Scope)
    requires Inv(s) && k in s.records
    ensures InPhase(s, s.records[k].resource, Replied(s.records[k].resource, true))
    ensures s.calls[s.records[k].resource].scope == k
  {
    var r := s.records[k];
    var e := Creation(k, r.digest, r.resource, r.createdAt);
    assert e in s.audit;
    var i :| 0 <= i < |s.audit| && s.audit[i] == e;
    assert InPhase(s, s.audit[i].resource, Replied(s.audit[i].resource, true));
  }

  lemma OthersKeepMeeting(cmp: Compare, s: State, step: Step, id: CallId, k: Scope, r: Record)
    requires Inv(s) && Meets(s, id, k, r) && Next(cmp, s, step).now <= r.createdAt + DAY
    requires !((step.Transact? || step.Lookup? || step.Replay?) && step.id == id)
    ensures Meets(Next(cmp, s, step), id, k, r)
  {
    RecordsLiveADay(cmp, s, step, k);
    CreatorsAreDone(s, k);
  }

  lemma OwnStepKeepsMeeting(cmp: Compare, s: State, step: Step, id: CallId, k: Scope, r: Record)
    requires Inv(s) && Meets(s, id, k, r) && (step.Transact? || step.Lookup? || step.Replay?) && step.id == id
    ensures Meets(Next(cmp, s, step), id, k, r)
  {
  }

  lemma MeetingAddsNothing(cmp: Compare, s: State, step: Step, k: Scope)
    requires k in s.records
    ensures var t := Next(cmp, s, step);
      s.audit <= t.audit && forall n :: |s.audit| <= n < |t.audit| ==> t.audit[n].scope != k
  {
  }

  lemma TimePasses(cmp: Compare, s: State, step: Step)
    ensures s.now <= Next(cmp, s, step).now
  {
  }

  /** In every run: a call that has not yet tried when its scope has a record is, while the record is
      at most 24 hours old, answered by that record whatever other calls do in between. The same
      request gets the record's resource, unless that is gone; a different one gets the conflict;
      and the scope sees no further creation. */
  lemma {:induction false} RetryReplays(cmp: Compare, steps: seq<Step>, i: nat, id: CallId)
    requires i <= |steps|
    requires var s := Exec(cmp, steps[..i]); InPhase(s, id, Begun) && s.calls[id].scope in s.records
    requires var s := Exec(cmp, steps[..i]); Exec(cmp, steps).now <= s.records[s.calls[id].scope].createdAt + 86_400_000
    ensures var s, t := Exec(cmp, steps[..i]), Exec(cmp, steps); var k := s.calls[id].scope;
      && Meets(t, id, k, s.records[k])
      && s.audit <= t.audit && (forall n :: |s.audit| <= n < |t.audit| ==> t.audit[n].scope != k)
    decreases |steps|
  {
    if i == |steps| {
      assert steps[..i] == steps;
    } else {
      var before, step := steps[..|steps| - 1], steps[|steps| - 1];
      assert before[..i] == steps[..i];
      var s, u := Exec(cmp, steps[..i]), Exec(cmp, before);
      var k := s.calls[id].scope;
      var r := s.records[k];
      TimePasses(cmp, u, step);
      RetryReplays(cmp, before, i, id);
      ExecInv(cmp, before);
      MeetingAddsNothing(cmp, u, step, k);
      if (step.Transact? || step.Lookup? || step.Replay?) && step.id == id {
        OwnStepKeepsMeeting(cmp, u, step, id, k, r);
      } else {
        OthersKeepMeeting(cmp, u, step, id, k, r);
      }
    }
  }

  // ---------------------------------------------------------------- requests, not digests

  /** The call began at step `j` with the request. */
  ghost predicate BeganWith(cmp: Compare, steps: seq<Step>, j: nat, id: CallId, scope: Scope, request: Json) {
    j < |steps| && steps[j] == Begin(id, scope, request) && id !in Exec(cmp, steps[..j]).calls
  }

  lemma CallsKeepRequests(cmp: Compare, s: State, step: Step, id: CallId)
    requires id in s.calls
    ensures id in Next(cmp, s, step).calls
    ensures Next(cmp, s, step).calls[id].digest == s.calls[id].digest
    ensures Next(cmp, s, step).calls[id].scope == s.calls[id].scope
  {
  }

  /** Every call's digest is the canonical form of the request its begin step carried. */
  lemma {:induction false} DigestsAreCanonical(cmp: Compare, steps: seq<Step>, id: CallId)
    returns (j: nat, request: Json)
    requires id in Exec(cmp, steps).calls
    ensures BeganWith(cmp, steps, j, id, Exec(cmp, steps).calls[id].scope, request)
    ensures Exec(cmp, steps).calls[id].digest == Canon(cmp, request)
    decreases |steps|
  {
    var n := |steps| - 1;
    var s := Exec(cmp, steps[..n]);
    if id in s.calls {
      CallsKeepRequests(cmp, s, steps[n], id);
      j, request := DigestsAreCanonical(cmp, steps[..n], id);
      assert steps[..n][..j] == steps[..j];
    } else {
      j, request := n, steps[n].request;
    }
  }

  /** A live record's digest is that of the call that created it. */
  lemma RecordsDigestTheirCreator(s: State, k: Scope)
    requires Inv(s) && k in s.records
    ensures var r := s.records[k]; r.resource in s.calls && s.calls[r.resource].digest == r.digest
  {
    var r := s.records[k];
    var e := Creation(k, r.digest, r.resource, r.createdAt);
    assert e in s.audit;
    var i :| 0 <= i < |s.audit| && s.audit[i] == e;
    assert s.calls[s.audit[i].resource].digest == s.audit[i].digest;
  }

  /** What a retry that met a live record was answered, in terms of the two requests. */
  predicate AnsweredBy(phase: Phase, resource: ResourceId, same: bool) {
    match phase
    case Replied(x, created) => x == resource && !created && same
    case Refused(e) => if same then e == ResultUnavailable else e == IdempotencyConflict
    case Matched(x) => x == resource && same
    case _ => true
  }

  /** In every run a call that meets a live record is answered according to the requests themselves:
      with the recorded resource when the request its begin step carried equals, up to key order, the
      one that created the record, and with a conflict when it does not. */
  lemma RetriesCompareRequests(cmp: Compare, steps: seq<Step>, i: nat, id: CallId)
    returns (j: nat, request: Json, l: nat, recorded: Json)
    requires Comparator(cmp) && Separates(cmp) && i <= |steps|
    requires var s := Exec(cmp, steps[..i]); InPhase(s, id, Begun) && s.calls[id].scope in s.records
    requires var s := Exec(cmp, steps[..i]); Exec(cmp, steps).now <= s.records[s.calls[id].scope].createdAt + 86_400_000
    ensures var s := Exec(cmp, steps[..i]); var k := s.calls[id].scope;
      && BeganWith(cmp, steps, j, id, k, request) && BeganWith(cmp, steps, l, s.records[k].resource, k, recorded)
      && id in Exec(cmp, steps).calls
      && (WellFormed(request) && WellFormed(recorded) ==>
            AnsweredBy(Exec(cmp, steps).calls[id].phase, s.records[k].resource, Same(recorded, request)))
  {
    var s, t := Exec(cmp, steps[..i]), Exec(cmp, steps);
    var k := s.calls[id].scope;
    RetryReplays(cmp, steps, i, id);
    ExecInv(cmp, steps);
    CreatorsAreDone(t, k);
    RecordsDigestTheirCreator(t, k);
    j, request := DigestsAreCanonical(cmp, steps, id);
    l, recorded := DigestsAreCanonical(cmp, steps, t.records[k].resource);
    if WellFormed(request) && WellFormed(recorded) { CanonDecidesSame(cmp, recorded, request); }
  }

  // ---------------------------------------------------------------- refusals have a cause

  /** A creation of the scope, no later than the call learned of it. */
  ghost predicate Explains(s: State, c: Call, e: Creation) { e in s.audit && e.scope == c.scope && e.at <= c.decidedAt }

  ghost predicate HasCause(s: State, c: Call, same: bool) {
    exists e :: Explains(s, c, e) && (e.digest == c.digest <==> same)
  }

  lemma CausesLast(s: State, t: State, c: Call, same: bool)
    requires HasCause(s, c, same) && s.audit <= t.audit
    ensures HasCause(t, c, same)
  {
    var e :| Explains(s, c, e) && (e.digest == c.digest <==> same);
    var i :| 0 <= i < |s.audit| && s.audit[i] == e;
    assert t.audit[i] == e && Explains(t, c, e);
  }

  /** What a refused call can show: a conflict, a creation of its key by another request; a missing
      result, a creation by the same request. */
  ghost predicate Caused(s: State, c: Call) {
    && (c.phase == Refused(IdempotencyConflict) ==> HasCause(s, c, false))
    && (c.phase == Refused(ResultUnavailable) ==> HasCause(s, c, true))
  }

  lemma LookupIsCaused(cmp: Compare, s: State, id: CallId)
    requires Inv(s) && InPhase(s, id, Violated)
    ensures Caused(Next(cmp, s, Lookup(id)), Next(cmp, s, Lookup(id)).calls[id])
  {
    var c, t := s.calls[id], Next(cmp, s, Lookup(id));
    if c.scope in s.records {
      var r := s.records[c.scope];
      var e := Creation(c.scope, r.digest, r.resource, r.createdAt);
      assert e in s.audit;
      var i :| 0 <= i < |s.audit| && s.audit[i] == e;
      assert s.audit[i].at <= s.now;
      assert Explains(t, t.calls[id], e);
    }
  }

  lemma ReplayIsCaused(cmp: Compare, s: State, id: CallId)
    requires Inv(s) && id in s.calls && s.calls[id].phase.Matched?
    ensures Caused(Next(cmp, s, Replay(id)), Next(cmp, s, Replay(id)).calls[id])
  {
    assert Witnessed(s, id);
    var e :| WitnessedBy(s, s.calls[id], e);
    var t := Next(cmp, s, Replay(id));
    assert Explains(t, t.calls[id], e);
  }

  lemma OthersStayCaused(cmp: Compare, s: State, step: Step, id: CallId)
    requires id in s.calls && Caused(s, s.calls[id])
    requires id in Next(cmp, s, step).calls && Next(cmp, s, step).calls[id].phase == s.calls[id].phase
    ensures Caused(Next(cmp, s, step), Next(cmp, s, step).calls[id])
  {
    var t := Next(cmp, s, step);
    assert s.audit <= t.audit;
    assert s.calls[id].phase.Refused? ==> t.calls[id] == s.calls[id];
    if s.calls[id].phase == Refused(IdempotencyConflict) { CausesLast(s, t, s.calls[id], false); }
    if s.calls[id].phase == Refused(ResultUnavailable) { CausesLast(s, t, s.calls[id], true); }
  }

  /** In every run no call is refused without cause: behind each conflict is a creation under the same
      key by a different request, and behind each missing result one by the same request. */
  lemma {:induction false} RefusalsHaveCause(cmp: Compare, steps: seq<Step>, id: CallId)
    requires id in Exec(cmp, steps).calls
    ensures Caused(Exec(cmp, steps), Exec(cmp, steps).calls[id])
  {
    var n := |steps| - 1;
    var s := Exec(cmp, steps[..n]);
    if id in s.calls {
      RefusalsHaveCause(cmp, steps[..n], id);
      ExecInv(cmp, steps[..n]);
      if steps[n] == Lookup(id) && s.calls[id].phase.Violated? {
        LookupIsCaused(cmp, s, id);
      } else if steps[n] == Replay(id) && s.calls[id].phase.Matched? {
        ReplayIsCaused(cmp, s, id);
      } else if Exec(cmp, steps).calls[id].phase == s.calls[id].phase {
        OthersStayCaused(cmp, s, steps[n], id);
      }
    }
  }

  // ---------------------------------------------------------------- scopes do not see one another

  function OfScope(audit: seq<Creation>, k: Scope): seq<Creation> {
    if audit == [] then []
    else
      var n := |audit| - 1;
      OfScope(audit[..n], k) + (if audit[n].scope == k then [audit[n]] else [])
  }

  /** The step is the environment's, begins a call on the scope, or belongs to one. */
  predicate Concerns(s: State, step: Step, k: Scope) {
    match step
    case Begin(id, scope, _) => id !in s.calls && scope == k
    case Transact(id, _) => id in s.calls && s.calls[id].scope == k
    case Lookup(id) => id in s.calls && s.calls[id].scope == k
    case Replay(id) => id in s.calls && s.calls[id].scope == k
    case Publish(id) => id in s.calls && s.calls[id].scope == k
    case _ => true
  }

  /** The run without the other scopes' calls. */
  ghost function Only(cmp: Compare, steps: seq<Step>, k: Scope): seq<Step> {
    if steps == [] then []
    else
      var before, step := steps[..|steps| - 1], steps[|steps| - 1];
      Only(cmp, before, k) + (if Concerns(Exec(cmp, before), step, k) then [step] else [])
  }

  ghost predicate SameCalls(s: State, t: State, k: Scope) {
    forall id :: (id in t.calls <==> id in s.calls && s.calls[id].scope == k)
        && (id in t.calls ==> t.calls[id] == s.calls[id])
  }

  ghost predicate SameRows(s: State, t: State, k: Scope) {
    && s.now == t.now && SameCalls(s, t, k)
    && (k in s.records <==> k in t.records) && (k in s.records ==> t.records[k] == s.records[k])
    && (forall id :: id in t.calls ==> (id in s.resources <==> id in t.resources))
    && (forall id :: id in t.calls ==> (id in s.published <==> id in t.published))
  }

  /** The two states agree on everything that belongs to the scope. */
  ghost predicate Agree(s: State, t: State, k: Scope) {
    SameRows(s, t, k) && OfScope(s.audit, k) == OfScope(t.audit, k)
  }

  lemma OfScopeAppends(audit: seq<Creation>, c: Creation, k: Scope)
    ensures OfScope(audit + [c], k) == OfScope(audit, k) + (if c.scope == k then [c] else [])
  {
    assert (audit + [c])[..|audit|] == audit;
  }

  /** Resources and publications carry the ids of calls. */
  ghost predicate Belongs(s: State) {
    (forall r :: r in s.resources ==> r in s.calls) && (forall r :: r in s.published ==> r in s.calls)
  }

  lemma {:induction false} RunsBelong(cmp: Compare, steps: seq<Step>)
    ensures Belongs(Exec(cmp, steps))
  {
    if steps != [] { RunsBelong(cmp, steps[..|steps| - 1]); }
  }

  lemma EnvironmentAgrees(cmp: Compare, s: State, t: State, step: Step, k: Scope)
    requires Agree(s, t, k) && (step.Clean? || step.Drop? || step.Tick? || step.Publish?) && Concerns(s, step, k)
    ensures Agree(Next(cmp, s, step), Next(cmp, t, step), k)
  {
  }

  lemma BeginAgrees(cmp: Compare, s: State, t: State, step: Step, k: Scope)
    requires Agree(s, t, k) && Belongs(s) && Belongs(t) && step.Begin? && Concerns(s, step, k)
    ensures Agree(Next(cmp, s, step), Next(cmp, t, step), k)
  {
    assert step.id !in t.calls;
  }

  lemma ViolationAgrees(cmp: Compare, s: State, t: State, id: CallId, callback: Callback, k: Scope)
    requires Agree(s, t, k) && Concerns(s, Transact(id, callback), k)
    requires !InPhase(s, id, Begun) || k in s.records || !callback.Creates?
    ensures Agree(Next(cmp, s, Transact(id, callback)), Next(cmp, t, Transact(id, callback)), k)
  {
  }

  lemma CreationRowsAgree(cmp: Compare, s: State, t: State, id: CallId, k: Scope)
    requires SameRows(s, t, k) && InPhase(s, id, Begun) && s.calls[id].scope == k && k !in s.records
    ensures SameRows(Next(cmp, s, Transact(id, Creates)), Next(cmp, t, Transact(id, Creates)), k)
  {
  }

  lemma CreationEntry(cmp: Compare, s: State, id: CallId, k: Scope)
    requires InPhase(s, id, Begun) && s.calls[id].scope !in s.records
    ensures var c := s.calls[id];
      OfScope(Next(cmp, s, Transact(id, Creates)).audit, k)
      == OfScope(s.audit, k) + (if c.scope == k then [Creation(k, c.digest, id, s.now)] else [])
  {
    OfScopeAppends(s.audit, Creation(s.calls[id].scope, s.calls[id].digest, id, s.now), k);
  }

  lemma CreationAgrees(cmp: Compare, s: State, t: State, id: CallId, k: Scope)
    requires Agree(s, t, k) && InPhase(s, id, Begun) && s.calls[id].scope == k && k !in s.records
    ensures Agree(Next(cmp, s, Transact(id, Creates)), Next(cmp, t, Transact(id, Creates)), k)
  {
    assert InPhase(t, id, Begun);
    CreationRowsAgree(cmp, s, t, id, k);
    CreationEntry(cmp, s, id, k);
    CreationEntry(cmp, t, id, k);
  }

  lemma TransactAgrees(cmp: Compare, s: State, t: State, id: CallId, callback: Callback, k: Scope)
    requires Agree(s, t, k) && Concerns(s, Transact(id, callback), k)
    ensures Agree(Next(cmp, s, Transact(id, callback)), Next(cmp, t, Transact(id, callback)), k)
  {
    if InPhase(s, id, Begun) && k !in s.records && callback.Creates? {
      CreationAgrees(cmp, s, t, id, k);
    } else {
      ViolationAgrees(cmp, s, t, id, callback, k);
    }
  }

  lemma MatchedResourceIsOfScope(s: State, id: CallId)
    requires Inv(s) && id in s.calls && s.calls[id].phase.Matched?
    ensures var r := s.calls[id].phase.resource; r in s.calls && s.calls[r].scope == s.calls[id].scope
  {
    assert Witnessed(s, id);
    var e :| WitnessedBy(s, s.calls[id], e);
    var i :| 0 <= i < |s.audit| && s.audit[i] == e;
    assert InPhase(s, s.audit[i].resource, Replied(s.audit[i].resource, true));
  }

  lemma AnswersAgree(cmp: Compare, s: State, t: State, step: Step, k: Scope)
    requires Inv(s) && Agree(s, t, k) && (step.Lookup? || step.Replay?) && Concerns(s, step, k)
    ensures Agree(Next(cmp, s, step), Next(cmp, t, step), k)
  {
    if step.Replay? && s.calls[step.id].phase.Matched? { MatchedResourceIsOfScope(s, step.id); }
  }

  lemma OtherCreationRowsAgree(cmp: Compare, s: State, t: State, id: CallId, k: Scope)
    requires SameRows(s, t, k) && InPhase(s, id, Begun) && s.calls[id].scope != k && s.calls[id].scope !in s.records
    ensures SameRows(Next(cmp, s, Transact(id, Creates)), t, k)
  {
    FreshKeyCreates(cmp, s, id);
  }

  lemma OtherCreationAgrees(cmp: Compare, s: State, t: State, id: CallId, k: Scope)
    requires Agree(s, t, k) && InPhase(s, id, Begun) && s.calls[id].scope != k && s.calls[id].scope !in s.records
    ensures Agree(Next(cmp, s, Transact(id, Creates)), t, k)
  {
    OtherCreationRowsAgree(cmp, s, t, id, k);
    CreationEntry(cmp, s, id, k);
  }

  lemma OthersQuietStepsAgree(cmp: Compare, s: State, t: State, step: Step, k: Scope)
    requires Agree(s, t, k) && !Concerns(s, step, k) && Next(cmp, s, step).audit == s.audit
    requires Next(cmp, s, step).records == s.records && Next(cmp, s, step).resources == s.resources
    ensures Agree(Next(cmp, s, step), t, k)
  {
    if step.id in s.calls && s.calls[step.id].scope != k { OtherScopesUntouched(cmp, s, step, k); }
  }

  lemma OthersAgree(cmp: Compare, s: State, t: State, step: Step, k: Scope)
    requires Agree(s, t, k) && !Concerns(s, step, k)
    ensures Agree(Next(cmp, s, step), t, k)
  {
    if step.Transact? && InPhase(s, step.id, Begun) && s.calls[step.id].scope !in s.records && step.callback.Creates? {
      OtherCreationAgrees(cmp, s, t, step.id, k);
    } else {
      OthersQuietStepsAgree(cmp, s, t, step, k);
    }
  }

  /** Dropping every other scope's calls from a run changes no record, creation, call, resource or
      publication of the scope: tenants, users, operations and keys never affect one another. */
  lemma {:induction false} ScopesAreIndependent(cmp: Compare, steps: seq<Step>, k: Scope)
    ensures Agree(Exec(cmp, steps), Exec(cmp, Only(cmp, steps, k)), k)
  {
    if steps != [] {
      var before, step := steps[..|steps| - 1], steps[|steps| - 1];
      var s, t := Exec(cmp, before), Exec(cmp, Only(cmp, before, k));
      ScopesAreIndependent(cmp, before, k);
      ExecInv(cmp, before);
      RunsBelong(cmp, before);
      RunsBelong(cmp, Only(cmp, before, k));
      if Concerns(s, step, k) {
        ExecExtends(cmp, Only(cmp, before, k), step);
        ConcernedStepAgrees(cmp, s, t, step, k);
      } else {
        OthersAgree(cmp, s, t, step, k);
        assert Only(cmp, steps, k) == Only(cmp, before, k);
      }
    }
  }

  lemma ConcernedStepAgrees(cmp: Compare, s: State, t: State, step: Step, k: Scope)
    requires Inv(s) && Belongs(s) && Belongs(t) && Agree(s, t, k) && Concerns(s, step, k)
    ensures Agree(Next(cmp, s, step), Next(cmp, t, step), k)
  {
    match step
    case Begin(_, _, _) => BeginAgrees(cmp, s, t, step, k);
    case Transact(id, callback) => TransactAgrees(cmp, s, t, id, callback, k);
    case Lookup(_) => AnswersAgree(cmp, s, t, step, k);
    case Replay(_) => AnswersAgree(cmp, s, t, step, k);
    case _ => EnvironmentAgrees(cmp, s, t, step, k);
  }
}
