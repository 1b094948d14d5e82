/** One gateway instance: the handlers that update its sockets and the shared presence keys. Each
    method leaves the sockets and keys exactly as the matching action of `Eviction` says. */
module Gateway {
  import opened Wrappers
  import opened Eviction

  /** The presence keys every instance shares. */
  class PresenceKeys {
    var live: map<Live, UserId>

    constructor ()
      ensures live == map[]
    {
      live := map[];
    }
  }

  class RealtimeGateway {
    const instance: InstanceId
    const redis: PresenceKeys
    var sockets: map<SocketId, Socket>

    constructor (instance: InstanceId, redis: PresenceKeys)
      ensures this.instance == instance && this.redis == redis && sockets == map[]
    {
      this.instance, this.redis, this.sockets := instance, redis, map[];
    }

    /** Answers false, changing nothing, unless the membership read found the user in the room. */
    method SubscribeRoom(client: SocketId, room: RoomId, isMember: bool) returns (ok: bool)
      requires client in sockets
      modifies this, redis
      ensures ok == isMember
      ensures sockets == if ok then old(sockets)[client := Entered(old(sockets)[client], room)] else old(sockets)
      ensures redis.live == if ok then old(redis.live)[Live(old(sockets)[client].app, room, client) :=
          old(sockets)[client].user]
                            else old(redis.live)
    {
      if !isMember { return false; }
      var s := sockets[client];
      sockets := sockets[client := s.(topics := s.topics + {room})];
      sockets := sockets[client := sockets[client].(joined := sockets[client].joined + {room})];
      redis.live := redis.live[Live(s.app, room, client) := s.user];
      ok := true;
    }

    method UnsubscribeRoom(client: SocketId, room: RoomId)
      requires client in sockets
      modifies this, redis
      ensures sockets == old(sockets)[client := Dropped(old(sockets)[client], room)]
      ensures redis.live == old(redis.live) - {Live(old(sockets)[client].app, room, client)}
    {
      var s := sockets[client];
      s := s.(joined := s.joined - {room});
      s := s.(topics := s.topics - {room});
      sockets := sockets[client := s];
      redis.live := redis.live - {Live(s.app, room, client)};
    }

    /** `subscribed` and `evict` say which of the three answers was given. */
    method SetAway(client: SocketId, room: RoomId, isMember: bool) returns (subscribed: bool, evict: bool)
      requires client in sockets
      modifies redis
      ensures subscribed == (room in sockets[client].joined)
      ensures evict == (subscribed && !isMember)
      ensures redis.live == if subscribed && isMember
                            then old(redis.live)[Live(sockets[client].app, room, client) := sockets[client].user]
                            else old(redis.live)
    {
      subscribed := room in sockets[client].joined;
      evict := false;
      if !subscribed { return; }
      if !isMember { evict := true; return; }
      redis.live := redis.live[Live(sockets[client].app, room, client) := sockets[client].user];
    }

    /** Visits every socket of the instance, in any order, and drops the ones the eviction names. */
    method HandleRoomEviction(seat: Seat) returns (evictedConnection: bool)
      requires forall id :: id in sockets ==> id.instance == instance
      modifies this, redis
      ensures sockets == EvictSockets(old(sockets), instance, seat)
      ensures redis.live == EvictPresence(old(redis.live), old(sockets), instance, seat)
      ensures evictedConnection <==> exists id :: Hit(old(sockets), id, instance, seat)
    {
      evictedConnection := false;
      var rest := sockets.Keys;
      while rest != {}
        invariant rest <= old(sockets).Keys
        invariant sockets == map id | id in old(sockets) ::
                    if id !in rest && Hit(old(sockets), id, instance, seat) then Dropped(old(sockets)[id], seat.room)
                    else old(sockets)[id]
        invariant redis.live == map k | k in old(redis.live) &&
                    !(k.app == seat.app && k.room == seat.room && k.socket !in rest
                        && Hit(old(sockets), k.socket, instance, seat))
                    :: old(redis.live)[k]
        invariant evictedConnection <==> exists id :: id !in rest && Hit(old(sockets), id, instance, seat)
        decreases |rest|
      {
        var client :| client in rest;
        rest := rest - {client};
        var s := sockets[client];
        if s.app == seat.app && s.user == seat.user && seat.room in s.joined {
          assert Hit(old(sockets), client, instance, seat);
          sockets := sockets[client := s.(joined := s.joined - {seat.room}, topics := s.topics - {seat.room})];
          redis.live := redis.live - {Live(seat.app, seat.room, client)};
          evictedConnection := true;
        }
      }
    }

    /** Unregisters the socket from each joined room in turn and forgets it. */
    method HandleDisconnect(client: SocketId)
      requires client in sockets
      modifies this, redis
      ensures sockets == old(sockets) - {client}
      ensures redis.live == Unregistered(old(redis.live), client, old(sockets)[client], old(sockets)[client].joined)
    {
      var s := sockets[client];
      var rest := s.joined;
      while rest != {}
        invariant rest <= s.joined && sockets == old(sockets)
        invariant redis.live == Unregistered(old(redis.live), client, s, s.joined - rest)
        decreases |rest|
      {
        EmptyOrSome(rest);
        var room :| room in rest;
        rest := rest - {room};
        redis.live := redis.live - {Live(s.app, room, client)};
      }
      assert s.joined - {} == s.joined;
      sockets := sockets - {client};
    }
  }

  /** Read against the world model: an eviction handler run on the sockets of one instance does to
      the whole world's sockets what the delivery action does. */
  lemma HandlerActsOnItsInstance(all: map<SocketId, Socket>, to: InstanceId, seat: Seat)
    ensures var mine := map id | id in all && id.instance == to :: all[id];
            var others := map id | id in all && id.instance != to :: all[id];
            EvictSockets(all, to, seat) == EvictSockets(mine, to, seat) + others
  {
    var mine := map id | id in all && id.instance == to :: all[id];
    forall id | id in all && id.instance == to
      ensures Hit(all, id, to, seat) <==> Hit(mine, id, to, seat)
    {
      assert mine[id] == all[id];
    }
  }
}
