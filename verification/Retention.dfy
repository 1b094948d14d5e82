/** The tables behind idempotent creates and the daily cleanup, statement by statement. */
module Retention {
  import opened Wrappers
  import Canonical
  import Idempotency

  type AppId = int
  type Time = int

  const DAY_MS := 86_400_000

  datatype Application = Application(app: AppId, chatDays: Option<int>, sessionDays: Option<int>)
  datatype ChatMessage = ChatMessage(app: AppId, sentAt: Time)
  datatype StudySession = StudySession(app: AppId, finishedAt: Option<Time>)

  /** The application asks for its rows to be dropped after the days. */
  ghost predicate Asks(applications: seq<Application>, app: AppId, days: int, chat: bool) {
    exists i :: 0 <= i < |applications| && applications[i].app == app && Setting(applications[i], chat) == Some(days)
  }

  /** Older than a retention its own application asks for. */
  ghost predicate MessageExpired(applications: seq<Application>, m: ChatMessage, now: Time) {
    exists days :: Asks(applications, m.app, days, true) && m.sentAt < now - days * 86_400_000
  }

  ghost predicate SessionExpired(applications: seq<Application>, s: StudySession, now: Time) {
    exists days :: Asks(applications, s.app, days, false) && s.finishedAt.Some?
        && s.finishedAt.value < now - days * 86_400_000
  }

  function Setting(a: Application, chat: bool): Option<int> {
    if chat then a.chatDays else a.sessionDays
  }

  lemma AsksGrows(applications: seq<Application>, last: Application, app: AppId, days: int, chat: bool)
    ensures Asks(applications + [last], app, days, chat) <==>
              Asks(applications, app, days, chat) || (last.app == app && Setting(last, chat) == Some(days))
  {
    var longer := applications + [last];
    if Asks(applications, app, days, chat) {
      var i :| 0 <= i < |applications| && applications[i].app == app && Setting(applications[i], chat) == Some(days);
      assert longer[i] == applications[i];
    }
    if last.app == app && Setting(last, chat) == Some(days) {
      assert longer[|applications|] == last;
    }
  }

  lemma MessageExpiryGrows(applications: seq<Application>, last: Application, m: ChatMessage, now: Time)
    ensures MessageExpired(applications + [last], m, now) <==>
              MessageExpired(applications, m, now)
              || (last.app == m.app && last.chatDays.Some? && m.sentAt < now - last.chatDays.value * DAY_MS)
  {
    forall days ensures Asks(applications + [last], m.app, days, true) <==>
        Asks(applications, m.app, days, true) || (last.app == m.app && last.chatDays == Some(days))
    {
      AsksGrows(applications, last, m.app, days, true);
    }
  }

  lemma SessionExpiryGrows(applications: seq<Application>, last: Application, s: StudySession, now: Time)
    ensures SessionExpired(applications + [last], s, now) <==>
              SessionExpired(applications, s, now)
              || (last.app == s.app && last.sessionDays.Some? && s.finishedAt.Some?
                  && s.finishedAt.value < now - last.sessionDays.value * DAY_MS)
  {
    forall days ensures Asks(applications + [last], s.app, days, false) <==>
        Asks(applications, s.app, days, false) || (last.app == s.app && last.sessionDays == Some(days))
    {
      AsksGrows(applications, last, s.app, days, false);
    }
  }

  class Database {
    var records: map<Idempotency.Scope, Idempotency.Record>
    var resources: set<Idempotency.ResourceId>
    var audit: seq<Idempotency.Creation>
    var messages: map<int, ChatMessage>
    var sessions: map<int, StudySession>

    constructor ()
      ensures records == map[] && resources == {} && audit == [] && messages == map[] && sessions == map[]
    {
      records, resources, audit, messages, sessions := map[], {}, [], map[], map[];
    }

    /** The transaction of `execute`: insert the record, run the callback, roll back on failure. */
    method Transact(scope: Idempotency.Scope, digest: Canonical.Json, resource: Idempotency.ResourceId,
                    callback: Idempotency.Callback, now: Time)
      returns (phase: Idempotency.Phase)
      modifies this
      ensures messages == old(messages) && sessions == old(sessions)
      ensures var s := Idempotency.State(now, old(records), old(resources), old(audit),
                                         map[resource := Idempotency.Call(scope, digest, Idempotency.Begun, now)], []);
              var t := Idempotency.Transacted(s, resource, callback);
              records == t.records && resources == t.resources && audit == t.audit && phase == t.calls[resource].phase
    {
      if scope in records { return Idempotency.Violated; }
      var saved := records;
      records := records[scope := Idempotency.Record(digest, resource, now)];
      match callback
      case HitsUniqueIndex =>
        records := saved;
        phase := Idempotency.Violated;
      case Throws =>
        records := saved;
        phase := Idempotency.Refused(Idempotency.CreateFailed);
      case Creates =>
        resources := resources + {resource};
        audit := audit + [Idempotency.Creation(scope, digest, resource, now)];
        phase := Idempotency.Replied(resource, true);
    }

    method DeleteMessages(app: AppId, before: Time)
      modifies this`messages
      ensures forall k :: k in messages <==>
          k in old(messages) && !(old(messages)[k].app == app && old(messages)[k].sentAt < before)
      ensures forall k :: k in messages ==> messages[k] == old(messages)[k]
    {
      messages := map k | k in messages && !(messages[k].app == app && messages[k].sentAt < before) :: messages[k];
    }

    method DeleteSessions(app: AppId, before: Time)
      modifies this`sessions
      ensures forall k :: k in sessions <==>
          k in old(sessions) && !(old(sessions)[k].app == app && old(sessions)[k].finishedAt.Some?
                                  && old(sessions)[k].finishedAt.value < before)
      ensures forall k :: k in sessions ==> sessions[k] == old(sessions)[k]
    {
      sessions := map k | k in sessions && !(sessions[k].app == app && sessions[k].finishedAt.Some?
                    && sessions[k].finishedAt.value < before)
                  :: sessions[k];
    }

    /** The cleanup under its advisory lock: expired records first, then each application's rows.
        What goes is exactly what an application's own setting calls expired; running sessions and
        applications without a setting keep everything. */
    method Clean(applications: seq<Application>, now: Time, locked: bool)
      modifies this
      ensures audit == old(audit) && resources == old(resources)
      ensures !locked ==> records == old(records) && messages == old(messages) && sessions == old(sessions)
      ensures locked ==> records == Idempotency.Cleaned(old(records), now)
      ensures locked ==> forall k :: k in records <==>
          k in old(records) && now - old(records)[k].createdAt <= 86_400_000
      ensures locked ==> forall k :: k in messages <==>
          k in old(messages) && !MessageExpired(applications, old(messages)[k], now)
      ensures locked ==> forall k :: k in sessions <==>
          k in old(sessions) && !SessionExpired(applications, old(sessions)[k], now)
      ensures forall k :: k in messages ==> k in old(messages) && messages[k] == old(messages)[k]
      ensures forall k :: k in sessions ==> k in old(sessions) && sessions[k] == old(sessions)[k]
    {
      if !locked { return; }
      records := map k | k in records && !(records[k].createdAt < now - DAY_MS) :: records[k];
      for i := 0 to |applications|
        invariant audit == old(audit) && resources == old(resources)
        invariant records == Idempotency.Cleaned(old(records), now)
        invariant forall k :: k in messages <==>
            k in old(messages) && !MessageExpired(applications[..i], old(messages)[k], now)
        invariant forall k :: k in messages ==> messages[k] == old(messages)[k]
        invariant forall k :: k in sessions <==>
            k in old(sessions) && !SessionExpired(applications[..i], old(sessions)[k], now)
        invariant forall k :: k in sessions ==> sessions[k] == old(sessions)[k]
      {
        var a := applications[i];
        assert applications[..i + 1] == applications[..i] + [a];
        forall m { MessageExpiryGrows(applications[..i], a, m, now); }
        forall s { SessionExpiryGrows(applications[..i], a, s, now); }
        if a.chatDays.Some? {
          var before := now - a.chatDays.value * DAY_MS;
          DeleteMessages(a.app, before);
        }
        if a.sessionDays.Some? {
          var before := now - a.sessionDays.value * DAY_MS;
          DeleteSessions(a.app, before);
        }
      }
      assert applications[..|applications|] == applications;
    }
  }
}
