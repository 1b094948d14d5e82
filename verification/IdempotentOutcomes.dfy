/** What decides the answer of an idempotent call: each of its steps exactly, and the step of the run
    behind every answer. */
module IdempotentOutcomes {
  import opened Canonical
  import opened Idempotency

  /** 1 to 128 letters, digits, dots, underscores, colons or hyphens. */
  predicate WellFormedKey(key: string) {
    && 1 <= |key| <= 128
    && forall i :: 0 <= i < |key| ==>
         || 'A' <= key[i] <= 'Z' || 'a' <= key[i] <= 'z' || '0' <= key[i] <= '9'
         || key[i] in ['.', '_', ':', '-']
  }

  lemma KeysAreWellFormed(key: string)
    ensures ValidKey(key) <==> WellFormedKey(key)
  {
    assert forall i :: 0 <= i < |key| ==> key[i] in key;
  }

  /** The outcome of a call's own step, from the state it is taken in. */
  predicate Decides(s: State, step: Step, id: CallId, phase: Phase) {
    match step
    case Begin(b, scope, _) =>
      b == id && id !in s.calls && phase == if WellFormedKey(scope.key) then Begun else Refused(InvalidKey)
    case Transact(b, callback) =>
      && b == id && id in s.calls && s.calls[id].phase == Begun
      && phase == if s.calls[id].scope in s.records then Violated
                  else (match callback
                        case Creates => Replied(id, true)
                        case HitsUniqueIndex => Violated
                        case Throws => Refused(CreateFailed))
    case Lookup(b) =>
      && b == id && id in s.calls && s.calls[id].phase == Violated
      && var k := s.calls[id].scope;
         phase == if k !in s.records then Refused(UniqueViolation)
                  else if s.records[k].digest != s.calls[id].digest then Refused(IdempotencyConflict)
                  else Matched(s.records[k].resource)
    case Replay(b) =>
      && b == id && id in s.calls && s.calls[id].phase.Matched?
      && var r := s.calls[id].phase.resource;
         phase == if r in s.resources then Replied(r, false) else Refused(ResultUnavailable)
    case _ => false
  }

  lemma PhasesAreDecided(cmp: Compare, s: State, step: Step, id: CallId)
    requires id in Next(cmp, s, step).calls
    ensures var phase := Next(cmp, s, step).calls[id].phase;
      (id in s.calls && s.calls[id].phase == phase) || Decides(s, step, id, phase)
  {
    if step.Begin? { KeysAreWellFormed(step.scope.key); }
  }

  /** A call's step is taken with exactly the outcome its state decides. */
  lemma StepsDecide(cmp: Compare, s: State, step: Step, id: CallId, phase: Phase)
    requires Decides(s, step, id, phase)
    ensures id in Next(cmp, s, step).calls && Next(cmp, s, step).calls[id].phase == phase
  {
    if step.Begin? { KeysAreWellFormed(step.scope.key); }
  }

  ghost predicate DecidedAt(cmp: Compare, steps: seq<Step>, j: nat, id: CallId, phase: Phase) {
    j < |steps| && Decides(Exec(cmp, steps[..j]), steps[j], id, phase)
  }

  /** In every run each call stands where one of its own steps, step `j`, put it, by the state of that
      step. So an invalid key is refused exactly when its characters or length are wrong; a conflict had
      another request's record before it; a replayed reply carries a resource that was there when it was
      replayed; and a missing result is reported exactly when the matched resource was not. */
  lemma {:induction false} OutcomesHaveCause(cmp: Compare, steps: seq<Step>, id: CallId) returns (j: nat)
    requires id in Exec(cmp, steps).calls
    ensures DecidedAt(cmp, steps, j, id, Exec(cmp, steps).calls[id].phase)
    decreases |steps|
  {
    var n := |steps| - 1;
    var s := Exec(cmp, steps[..n]);
    PhasesAreDecided(cmp, s, steps[n], id);
    if id in s.calls && s.calls[id].phase == Exec(cmp, steps).calls[id].phase {
      j := OutcomesHaveCause(cmp, steps[..n], id);
      assert steps[..n][..j] == steps[..j];
    } else {
      j := n;
    }
  }

  /** The answers spelled out. */
  lemma AnswersAreTested(cmp: Compare, steps: seq<Step>, id: CallId) returns (j: nat)
    requires id in Exec(cmp, steps).calls
    ensures j < |steps|
    ensures var s := Exec(cmp, steps[..j]);
      match Exec(cmp, steps).calls[id].phase
      case Replied(x, created) =>
        if created then steps[j] == Transact(id, Creates) && x == id && id in s.calls && s.calls[id].scope !in s.records
        else steps[j] == Replay(id) && x in s.resources
      case Refused(e) =>
        (match e
         case InvalidKey => steps[j].Begin? && steps[j].id == id && !WellFormedKey(steps[j].scope.key)
         case CreateFailed => steps[j] == Transact(id, Throws)
         case UniqueViolation => steps[j] == Lookup(id) && id in s.calls && s.calls[id].scope !in s.records
         case IdempotencyConflict =>
           && steps[j] == Lookup(id) && id in s.calls && s.calls[id].scope in s.records
           && s.records[s.calls[id].scope].digest != s.calls[id].digest
         case ResultUnavailable =>
           && steps[j] == Replay(id) && id in s.calls && s.calls[id].phase.Matched?
           && s.calls[id].phase.resource !in s.resources)
      case _ => true
  {
    j := OutcomesHaveCause(cmp, steps, id);
  }

  /** A cleanup keeps exactly the records that are at most 86,400,000 ms old. */
  lemma CleanupKeepsADay(cmp: Compare, s: State, k: Scope)
    ensures var t := Next(cmp, s, Clean);
      && (k in t.records <==> k in s.records && s.now - s.records[k].createdAt <= 86_400_000)
      && (k in t.records ==> t.records[k] == s.records[k])
      && t.calls == s.calls && t.audit == s.audit && t.resources == s.resources && t.published == s.published
  {
  }

  /** A resource is there exactly from its creation until it is dropped. */
  lemma ResourcesExactly(cmp: Compare, s: State, step: Step, r: ResourceId)
    ensures r in Next(cmp, s, step).resources <==>
            || (r in s.resources && step != Drop(r))
            || (step == Transact(r, Creates) && r in s.calls && s.calls[r].phase == Begun &&
                s.calls[r].scope !in s.records)
  {
  }

  /** A creation is published exactly by its own creating call, once it has replied. */
  lemma PublishesExactly(cmp: Compare, s: State, step: Step, r: ResourceId)
    ensures r in Next(cmp, s, step).published <==>
            r in s.published || (step == Publish(r) && r in s.calls && s.calls[r].phase == Replied(r, true))
  {
    var t := Next(cmp, s, step);
    if step.Publish? && t.published != s.published { assert t.published == s.published + [step.id]; }
  }
}
