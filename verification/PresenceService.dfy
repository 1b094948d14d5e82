/** The presence service over the Redis keys, command by command and loop by loop. */
module PresenceService {
  import opened Wrappers
  import opened Presence

  class Service {
    const ttlSeconds: nat
    var now: Time
    var conns: map<ConnKey, Entry>
    var indexes: map<RoomKey, Index>

    constructor (ttlSeconds: nat)
      ensures this.ttlSeconds == ttlSeconds && Contents() == Redis(0, map[], map[])
    {
      this.ttlSeconds, now, conns, indexes := ttlSeconds, 0, map[], map[];
    }

    function Contents(): Redis
      reads this
    {
      Redis(now, conns, indexes)
    }

    /** SREM followed by Redis deleting a set left empty. */
    method RemoveFromIndex(room: RoomKey, gone: set<ConnKey>)
      modifies this`indexes
      ensures Contents() == SRem(old(Contents()), room, gone)
    {
      var left := Members(Contents(), room) - gone;
      if left == {} {
        indexes := indexes - {room};
      } else {
        indexes := indexes[room := indexes[room].(keys := left)];
      }
    }

    /** The shared body of register and set-away. */
    method WriteConnection(key: ConnKey, user: UserId, away: bool)
      modifies this
      ensures Contents() == Written(old(Contents()), ttlSeconds, key, user, away)
    {
      var members := Members(Contents(), key.of);
      conns := conns[key := Entry(Present(user, away), now + ttlSeconds)];
      indexes := indexes[key.of := Index(members + {key}, now + ttlSeconds * 2)];
    }

    method RefreshConnection(key: ConnKey)
      modifies this
      ensures Contents() == Refreshed(old(Contents()), ttlSeconds, key)
    {
      if Live(Contents(), key) {
        conns := conns[key := conns[key].(expires := now + ttlSeconds)];
        if Members(Contents(), key.of) != {} {
          indexes := indexes[key.of := indexes[key.of].(expires := now + ttlSeconds * 2)];
        }
      } else {
        RemoveFromIndex(key.of, {key});
      }
    }

    method UnregisterConnection(key: ConnKey)
      modifies this
      ensures Contents() == Unregistered(old(Contents()), key)
    {
      conns := conns - {key};
      RemoveFromIndex(key.of, {key});
    }

    /** Collects the user's keys from the index, one read value at a time, then deletes them. */
    method RemoveUserOf(room: RoomKey, user: UserId)
      modifies this
      ensures Contents() == UserRemoved(old(Contents()), room, user)
    {
      var keys := Members(Contents(), room);
      var targets: set<ConnKey> := {};
      var rest := keys;
      while rest != {}
        invariant rest <= keys && Contents() == old(Contents())
        invariant targets == set k | k in keys - rest && IsOf(Contents(), k, user)
        decreases |rest|
      {
        var key :| key in rest;
        rest := rest - {key};
        if IsOf(Contents(), key, user) { targets := targets + {key}; }
      }
      assert targets == set k | k in keys && IsOf(Contents(), k, user);
      if targets == {} { return; }
      conns := conns - targets;
      RemoveFromIndex(room, targets);
    }

    /** One pass over the index in any order, one over the active session rows in any order, one
        over the requested users. Given an index that agrees with the connection keys, the answer is
        the direct status of each requested user, and the side effect is only the stale cleanup. */
    method StatusesFor(room: RoomKey, userIds: seq<UserId>, sessions: set<Session>)
        returns (statuses: map<UserId, Status>)
      requires Indexed(Contents()) && OwnKeys(Contents())
      modifies this`indexes
      ensures statuses.Keys == set u | u in userIds
      ensures forall u :: u in userIds ==> statuses[u] == StatusOf(old(Contents()), sessions, room, u)
      ensures forall u :: u in userIds ==> IsStatus(statuses[u], old(Contents()), sessions, room, u)
      ensures Contents() == if userIds == [] then old(Contents()) else Cleaned(old(Contents()), room)
    {
      var requested := set u | u in userIds;
      statuses := map u | u in requested :: Offline;
      if userIds == [] { return; }
      ghost var before := Contents();
      var connections := CollectConnections(room, requested);
      var running, paused := CollectSessions(room, requested, sessions);
      var rest := requested;
      while rest != {}
        invariant rest <= requested && Contents() == Cleaned(before, room)
        invariant statuses.Keys == requested
        invariant forall u :: u in rest ==> statuses[u] == Offline
        invariant forall u :: u in requested - rest ==> statuses[u] == StatusOf(before, sessions, room, u)
        decreases |rest|
      {
        EmptyOrSome(rest);
        var user :| user in rest;
        rest := rest - {user};
        if user in connections {
          ConnectionsDecide(before, room, requested, connections, user);
          if user in running { statuses := statuses[user := Focusing]; }
          else if user in paused { statuses := statuses[user := Idle]; }
          else if EveryAway(connections[user]) { statuses := statuses[user := Away]; }
          else { statuses := statuses[user := Online]; }
        } else {
          ConnectionsDecide(before, room, requested, connections, user);
        }
      }
      AllStatusesExactly(before, sessions, room);
    }

    /** The single-user query is the batch of one, and agrees with every batch naming the user. */
    method StatusFor(room: RoomKey, user: UserId, sessions: set<Session>) returns (status: Status)
      requires Indexed(Contents()) && OwnKeys(Contents())
      modifies this`indexes
      ensures status == StatusOf(old(Contents()), sessions, room, user)
      ensures IsStatus(status, old(Contents()), sessions, room, user)
    {
      var statuses := StatusesFor(room, [user], sessions);
      assert user in [user];
      status := statuses[user];
    }

    /** Groups the away flags of the requested users' connections and drops the stale members. */
    method CollectConnections(room: RoomKey, requested: set<UserId>) returns (connections: map<UserId, seq<bool>>)
      modifies this`indexes
      ensures Contents() == Cleaned(old(Contents()), room)
      ensures Grouped(old(Contents()), requested, connections, Members(old(Contents()), room))
    {
      var keys := Members(Contents(), room);
      connections := map[];
      var stale: set<ConnKey> := {};
      var rest := keys;
      while rest != {}
        invariant rest <= keys && Contents() == old(Contents())
        invariant stale == set k | k in keys - rest && !Parses(Contents(), k)
        invariant Grouped(Contents(), requested, connections, keys - rest)
        decreases |rest|
      {
        var key :| key in rest;
        ghost var seen := keys - rest;
        rest := rest - {key};
        assert keys - rest == seen + {key};
        if !Parses(Contents(), key) {
          stale := stale + {key};
          GroupedSkips(Contents(), requested, connections, seen, key);
        } else if conns[key].value.user !in requested {
          GroupedSkips(Contents(), requested, connections, seen, key);
        } else {
          var user := conns[key].value.user;
          var current := if user in connections then connections[user] else [];
          GroupedAppends(Contents(), requested, connections, seen, key);
          connections := connections[user := current + [conns[key].value.away]];
        }
      }
      assert keys - {} == keys;
      assert stale == Stale(Contents(), room);
      if stale != {} { RemoveFromIndex(room, stale); }
    }

    /** The requested users with a running row, and those with only a paused one. */
    method CollectSessions(room: RoomKey, requested: set<UserId>, sessions: set<Session>)
      returns (running: set<UserId>, paused: set<UserId>)
      ensures forall u :: u in running <==> u in requested && Session(room, u, Running) in sessions
      ensures forall u :: u in paused <==> u in requested && Session(room, u, Paused) in sessions && u !in running
    {
      var rows := set s | s in sessions && s.room == room && s.user in requested
          && (s.status.Running? || s.status.Paused?);
      running, paused := {}, {};
      var rest := rows;
      while rest != {}
        invariant rest <= rows
        invariant forall u :: u in running <==> Session(room, u, Running) in rows - rest
        invariant forall u :: u in paused <==>
            Session(room, u, Paused) in rows - rest && Session(room, u, Running) !in rows - rest
        decreases |rest|
      {
        var row :| row in rest;
        rest := rest - {row};
        if row.user !in running {
          if row.status.Running? {
            running, paused := running + {row.user}, paused - {row.user};
          } else {
            paused := paused + {row.user};
          }
        }
      }
      assert rows - {} == rows;
      assert forall u :: Session(room, u, Running) in rows <==> u in requested && Session(room, u, Running) in sessions;
      assert forall u :: Session(room, u, Paused) in rows <==> u in requested && Session(room, u, Paused) in sessions;
    }
  }

  ghost predicate Sourced(r: Redis, seen: set<ConnKey>, user: UserId, away: bool) {
    exists k :: k in seen && IsOf(r, k, user) && r.conns[k].value.away == away
  }

  ghost predicate Covers(r: Redis, requested: set<UserId>, groups: map<UserId, seq<bool>>, k: ConnKey) {
    Parses(r, k) && r.conns[k].value.user in requested ==>
      r.conns[k].value.user in groups && r.conns[k].value.away in groups[r.conns[k].value.user]
  }

  /** The groups hold exactly the parsed connections of requested users among the seen keys. */
  ghost predicate Grouped(r: Redis, requested: set<UserId>, groups: map<UserId, seq<bool>>, seen: set<ConnKey>) {
    && (forall k :: k in seen ==> Covers(r, requested, groups, k))
    && (forall u :: u in groups ==> groups[u] != [])
    && (forall u, i :: u in groups && 0 <= i < |groups[u]| ==> Sourced(r, seen, u, groups[u][i]))
  }

  lemma SourcedGrows(r: Redis, seen: set<ConnKey>, more: set<ConnKey>, user: UserId, away: bool)
    requires seen <= more && Sourced(r, seen, user, away)
    ensures Sourced(r, more, user, away)
  {
    var k :| k in seen && IsOf(r, k, user) && r.conns[k].value.away == away;
    assert k in more;
  }

  lemma GroupedSkips(r: Redis, requested: set<UserId>, groups: map<UserId, seq<bool>>, seen: set<ConnKey>, key: ConnKey)
    requires Grouped(r, requested, groups, seen)
    requires !Parses(r, key) || r.conns[key].value.user !in requested
    ensures Grouped(r, requested, groups, seen + {key})
  {
    forall u, i | u in groups && 0 <= i < |groups[u]| ensures Sourced(r, seen + {key}, u, groups[u][i]) {
      SourcedGrows(r, seen, seen + {key}, u, groups[u][i]);
    }
  }

  function Appended(groups: map<UserId, seq<bool>>, user: UserId, away: bool): map<UserId, seq<bool>> {
    groups[user := (if user in groups then groups[user] else []) + [away]]
  }

  lemma AppendedMembers(groups: map<UserId, seq<bool>>, user: UserId, away: bool)
    ensures away in Appended(groups, user, away)[user]
    ensures forall u, b :: u in groups && b in groups[u] ==> b in Appended(groups, user, away)[u]
  {
    var after := Appended(groups, user, away);
    assert after[user][|after[user]| - 1] == away;
    forall u, b | u in groups && b in groups[u] ensures b in after[u] {
      var i :| 0 <= i < |groups[u]| && groups[u][i] == b;
      assert after[u][i] == b;
    }
  }

  lemma GroupedAppends(r: Redis, requested: set<UserId>, groups: map<UserId, seq<bool>>, seen: set<ConnKey>,
      key: ConnKey)
    requires Grouped(r, requested, groups, seen)
    requires Parses(r, key) && r.conns[key].value.user in requested
    ensures Grouped(r, requested, Appended(groups, r.conns[key].value.user, r.conns[key].value.away), seen + {key})
  {
    var user, away := r.conns[key].value.user, r.conns[key].value.away;
    var after := Appended(groups, user, away);
    AppendedMembers(groups, user, away);
    forall u, i | u in after && 0 <= i < |after[u]| ensures Sourced(r, seen + {key}, u, after[u][i]) {
      if u in groups && i < |groups[u]| {
        SourcedGrows(r, seen, seen + {key}, u, groups[u][i]);
      } else {
        assert key in seen + {key} && IsOf(r, key, u);
      }
    }
    forall k | k in seen + {key} ensures Covers(r, requested, after, k) {
      if k != key { assert Covers(r, requested, groups, k); }
    }
  }

  lemma ConnectionIsGrouped(r: Redis, requested: set<UserId>, groups: map<UserId, seq<bool>>, k: ConnKey, user: UserId)
    requires Indexed(r) && user in requested && Grouped(r, requested, groups, Members(r, k.of)) && IsOf(r, k, user)
    ensures user in groups && r.conns[k].value.away in groups[user]
  {
    assert Live(r, k);
    assert Covers(r, requested, groups, k);
  }

  lemma GroupedIsConnection(r: Redis, room: RoomKey, requested: set<UserId>, groups: map<UserId, seq<bool>>,
      user: UserId, i: nat)
    returns (k: ConnKey)
    requires OwnKeys(r) && Grouped(r, requested, groups, Members(r, room))
    requires user in groups && i < |groups[user]|
    ensures k.of == room && IsOf(r, k, user) && r.conns[k].value.away == groups[user][i]
  {
    assert Sourced(r, Members(r, room), user, groups[user][i]);
    k :| k in Members(r, room) && IsOf(r, k, user) && r.conns[k].value.away == groups[user][i];
  }

  predicate EveryAway(flags: seq<bool>) { forall i | 0 <= i < |flags| :: flags[i] }

  /** With an index that agrees with the connection keys, a user's group decides both whether the
      user is connected at all and whether every connection is away. */
  lemma ConnectionsDecide(r: Redis, room: RoomKey, requested: set<UserId>, groups: map<UserId, seq<bool>>, user: UserId)
    requires Indexed(r) && OwnKeys(r) && user in requested && Grouped(r, requested, groups, Members(r, room))
    ensures user in groups <==> Connected(r, room, user)
    ensures user in groups ==> (EveryAway(groups[user]) <==> AllAway(r, room, user))
  {
    if Connected(r, room, user) {
      var k: ConnKey :| k.of == room && IsOf(r, k, user);
      ConnectionIsGrouped(r, requested, groups, k, user);
    }
    if user in groups {
      var first := GroupedIsConnection(r, room, requested, groups, user, 0);
      if EveryAway(groups[user]) {
        forall k: ConnKey | k.of == room && IsOf(r, k, user) ensures r.conns[k].value.away {
          ConnectionIsGrouped(r, requested, groups, k, user);
        }
      } else {
        var i :| 0 <= i < |groups[user]| && !groups[user][i];
        var k := GroupedIsConnection(r, room, requested, groups, user, i);
      }
    }
  }

  lemma AllStatusesExactly(r: Redis, sessions: set<Session>, room: RoomKey)
    ensures forall u :: IsStatus(StatusOf(r, sessions, room, u), r, sessions, room, u)
  {
    forall u { StatusExactly(r, sessions, room, u); }
  }
}
