/** Eviction across instances.

    The world holds the membership seats, the sockets of every gateway instance with their joined
    rooms and room topics, the live presence keys, and the messages still on their way: evictions a
    controller has yet to publish, control messages and topic-leave messages not yet delivered to an
    instance. Each service method and each gateway handler is one atomic action; publication and
    every delivery are separate actions, and actions interleave freely. */
module Eviction {

  type AppId = int
  type UserId = int
  type RoomId = int
  type InstanceId = int

  datatype SocketId = SocketId(instance: InstanceId, number: int)
  datatype Socket = Socket(app: AppId, user: UserId, joined: set<RoomId>, topics: set<RoomId>)
  datatype Seat = Seat(app: AppId, room: RoomId, user: UserId)
  datatype Live = Live(app: AppId, room: RoomId, socket: SocketId)
  datatype Message = Message(to: InstanceId, seat: Seat)
  datatype RoomRef = RoomRef(app: AppId, room: RoomId)

  datatype World = World(
    instances: set<InstanceId>,
    seats: set<Seat>,
    deleted: set<RoomRef>,
    sockets: map<SocketId, Socket>,
    presence: map<Live, UserId>,
    outbox: multiset<Seat>,
    control: multiset<Message>,
    leaves: multiset<Message>)

  datatype Action =
    | Admit(seat: Seat)                          // room creation or approval
    | Exit(seat: Seat)                           // removal or leave, then eviction to publish
    | DeleteRoom(ref: RoomRef)
    | Publish(seat: Seat)
    | DeliverLeave(message: Message)
    | DeliverEvict(message: Message)
    | Connect(id: SocketId, app: AppId, user: UserId)
    | Disconnect(id: SocketId)
    | Subscribe(id: SocketId, room: RoomId)
    | Unsubscribe(id: SocketId, room: RoomId)
    | SetAway(id: SocketId, room: RoomId)
    | Expire(key: Live)

  predicate IsMember(seats: set<Seat>, deleted: set<RoomRef>, seat: Seat) {
    seat in seats && RoomRef(seat.app, seat.room) !in deleted
  }

  // ---------------------------------------------------------------- handler effects

  function Entered(s: Socket, room: RoomId): Socket {
    s.(joined := s.joined + {room}, topics := s.topics + {room})
  }

  function Dropped(s: Socket, room: RoomId): Socket {
    s.(joined := s.joined - {room}, topics := s.topics - {room})
  }

  predicate Owns(s: Socket, seat: Seat) { s.app == seat.app && s.user == seat.user }

  /** The sockets an eviction drops on one instance: the user's sockets that joined the room. */
  predicate Hit(sockets: map<SocketId, Socket>, id: SocketId, to: InstanceId, seat: Seat) {
    id in sockets && id.instance == to && Owns(sockets[id], seat) && seat.room in sockets[id].joined
  }

  function EvictSockets(sockets: map<SocketId, Socket>, to: InstanceId, seat: Seat): map<SocketId, Socket> {
    map id | id in sockets :: if Hit(sockets, id, to, seat) then Dropped(sockets[id], seat.room) else sockets[id]
  }

  function EvictPresence(presence: map<Live, UserId>, sockets: map<SocketId, Socket>, to: InstanceId,
      seat: Seat): map<Live, UserId> {
    map k | k in presence && !(k.app == seat.app && k.room == seat.room && Hit(sockets, k.socket, to, seat)) ::
        presence[k]
  }

  function LeaveTopic(sockets: map<SocketId, Socket>, to: InstanceId, seat: Seat): map<SocketId, Socket> {
    map id | id in sockets ::
      if id.instance == to && Owns(sockets[id], seat) then sockets[id].(topics := sockets[id].topics - {seat.room})
      else sockets[id]
  }

  /** Presence keys of a disconnecting socket are removed room by joined room. */
  function Unregistered(presence: map<Live, UserId>, id: SocketId, s: Socket, rooms: set<RoomId>): map<Live, UserId> {
    map k | k in presence && !(k.app == s.app && k.socket == id && k.room in rooms) :: presence[k]
  }

  /** The presence keys a service method removes for a user of a room, whatever the socket. */
  function WithoutUser(presence: map<Live, UserId>, seat: Seat): map<Live, UserId> {
    map k | k in presence && !(k.app == seat.app && k.room == seat.room && presence[k] == seat.user) :: presence[k]
  }

  function SeatsOf(seats: set<Seat>, ref: RoomRef): set<Seat> {
    set s | s in seats && RoomRef(s.app, s.room) == ref
  }

  function WithoutMembers(presence: map<Live, UserId>, seats: set<Seat>, ref: RoomRef): map<Live, UserId> {
    map k | k in presence && !(RoomRef(k.app, k.room) == ref && Seat(k.app, k.room, presence[k]) in seats) ::
        presence[k]
  }

  function ToAll(instances: set<InstanceId>, seat: Seat): multiset<Message> {
    multiset(set i | i in instances :: Message(i, seat))
  }

  // ---------------------------------------------------------------- one action

  function Next(w: World, a: Action): World {
    match a
    case Admit(seat) => w.(seats := w.seats + {seat})
    case Exit(seat) =>
      if !IsMember(w.seats, w.deleted, seat) then w
      else w.(seats := w.seats - {seat}, presence := WithoutUser(w.presence, seat), outbox := w.outbox + multiset{seat})
    case DeleteRoom(ref) =>
      if ref in w.deleted then w
      else w.(deleted := w.deleted + {ref},
              presence := WithoutMembers(w.presence, w.seats, ref),
              outbox := w.outbox + multiset(SeatsOf(w.seats, ref)))
    case Publish(seat) =>
      if seat !in w.outbox then w
      else w.(outbox := w.outbox - multiset{seat},
              control := w.control + ToAll(w.instances, seat),
              leaves := w.leaves + ToAll(w.instances, seat))
    case DeliverLeave(m) =>
      if m !in w.leaves then w
      else w.(leaves := w.leaves - multiset{m}, sockets := LeaveTopic(w.sockets, m.to, m.seat))
    case DeliverEvict(m) =>
      if m !in w.control then w
      else w.(control := w.control - multiset{m},
              sockets := EvictSockets(w.sockets, m.to, m.seat),
              presence := EvictPresence(w.presence, w.sockets, m.to, m.seat))
    case Connect(id, app, user) =>
      if id in w.sockets || id.instance !in w.instances then w
      else w.(sockets := w.sockets[id := Socket(app, user, {}, {})])
    case Disconnect(id) =>
      if id !in w.sockets then w
      else w.(sockets := w.sockets - {id},
              presence := Unregistered(w.presence, id, w.sockets[id], w.sockets[id].joined))
    case Subscribe(id, room) =>
      if id !in w.sockets || !IsMember(w.seats, w.deleted, SeatFor(w.sockets[id], room)) then w
      else w.(sockets := w.sockets[id := Entered(w.sockets[id], room)],
              presence := w.presence[Live(w.sockets[id].app, room, id) := w.sockets[id].user])
    case Unsubscribe(id, room) =>
      if id !in w.sockets then w
      else w.(sockets := w.sockets[id := Dropped(w.sockets[id], room)],
              presence := w.presence - {Live(w.sockets[id].app, room, id)})
    case SetAway(id, room) =>
      if id !in w.sockets || room !in w.sockets[id].joined then w
      else if !IsMember(w.seats, w.deleted, SeatFor(w.sockets[id], room)) then
        w.(outbox := w.outbox + multiset{SeatFor(w.sockets[id], room)})
      else w.(presence := w.presence[Live(w.sockets[id].app, room, id) := w.sockets[id].user])
    case Expire(key) => w.(presence := w.presence - {key})
  }

  function SeatFor(s: Socket, room: RoomId): Seat { Seat(s.app, room, s.user) }

  ghost function Exec(instances: set<InstanceId>, actions: seq<Action>): World {
    if actions == [] then World(instances, {}, {}, map[], map[], multiset{}, multiset{}, multiset{})
    else Next(Exec(instances, actions[..|actions| - 1]), actions[|actions| - 1])
  }

  // ---------------------------------------------------------------- the invariant

  /** Why a socket may still have joined a room. */
  ghost predicate Justified(w: World, to: InstanceId, seat: Seat) {
    || IsMember(w.seats, w.deleted, seat)
    || seat in w.outbox
    || Message(to, seat) in w.control
  }

  ghost predicate SocketsJustified(w: World) {
    forall id, room :: id in w.sockets && room in w.sockets[id].joined ==>
      Justified(w, id.instance, SeatFor(w.sockets[id], room))
  }

  ghost predicate TopicsJoined(w: World) {
    forall id :: id in w.sockets ==> w.sockets[id].topics <= w.sockets[id].joined && id.instance in w.instances
  }

  /** A live key belongs to a connected socket of that user that has joined the room. */
  ghost predicate PresenceJoined(w: World) {
    forall k :: k in w.presence ==>
      k.socket in w.sockets && w.sockets[k.socket].app == k.app && w.sockets[k.socket].user == w.presence[k]
      && k.room in w.sockets[k.socket].joined
  }

  ghost predicate Inv(w: World) {
    SocketsJustified(w) && TopicsJoined(w) && PresenceJoined(w)
  }

  ghost predicate FromBefore(w: World, a: Action, id: SocketId, room: RoomId, t: World) {
    && id in w.sockets && id in t.sockets && SeatFor(w.sockets[id], room) == SeatFor(t.sockets[id], room)
    && (room in w.sockets[id].joined
        || (a == Subscribe(id, room) && IsMember(w.seats, w.deleted, SeatFor(w.sockets[id], room))))
  }

  lemma JoinedSourceOnConnection(w: World, a: Action, id: SocketId, room: RoomId)
    requires a.Connect? || a.Disconnect? || a.Subscribe? || a.Unsubscribe?
    requires id in Next(w, a).sockets && room in Next(w, a).sockets[id].joined
    ensures FromBefore(w, a, id, room, Next(w, a))
  {
  }

  lemma JoinedSourceOnDelivery(w: World, a: Action, id: SocketId, room: RoomId)
    requires a.DeliverLeave? || a.DeliverEvict?
    requires id in Next(w, a).sockets && room in Next(w, a).sockets[id].joined
    ensures FromBefore(w, a, id, room, Next(w, a))
  {
  }

  lemma SocketsUntouched(w: World, a: Action)
    requires a.Admit? || a.Exit? || a.DeleteRoom? || a.Publish? || a.SetAway? || a.Expire?
    ensures Next(w, a).sockets == w.sockets
  {
  }

  /** Joined rooms come from before the action, or from a subscription it authorized. */
  lemma JoinedSource(w: World, a: Action, id: SocketId, room: RoomId)
    requires id in Next(w, a).sockets && room in Next(w, a).sockets[id].joined
    ensures FromBefore(w, a, id, room, Next(w, a))
  {
    if a.Connect? || a.Disconnect? || a.Subscribe? || a.Unsubscribe? {
      JoinedSourceOnConnection(w, a, id, room);
    } else if a.DeliverLeave? || a.DeliverEvict? {
      JoinedSourceOnDelivery(w, a, id, room);
    } else {
      SocketsUntouched(w, a);
    }
  }

  lemma PublishKeepsJustified(w: World, seat: Seat)
    requires Inv(w)
    ensures SocketsJustified(Next(w, Publish(seat)))
  {
    var t := Next(w, Publish(seat));
    forall id, room | id in t.sockets && room in t.sockets[id].joined
      ensures Justified(t, id.instance, SeatFor(t.sockets[id], room))
    {
      assert Justified(w, id.instance, SeatFor(w.sockets[id], room));
      if SeatFor(w.sockets[id], room) == seat && seat in w.outbox {
        assert Message(id.instance, seat) in ToAll(w.instances, seat);
      }
    }
  }

  lemma EvictKeepsJustified(w: World, m: Message)
    requires Inv(w)
    ensures SocketsJustified(Next(w, DeliverEvict(m)))
  {
    var t := Next(w, DeliverEvict(m));
    forall id, room | id in t.sockets && room in t.sockets[id].joined
      ensures Justified(t, id.instance, SeatFor(t.sockets[id], room))
    {
      assert Justified(w, id.instance, SeatFor(w.sockets[id], room));
    }
  }

  lemma ServicesKeepJustified(w: World, a: Action)
    requires Inv(w) && (a.Admit? || a.Exit? || a.DeleteRoom?)
    ensures SocketsJustified(Next(w, a))
  {
    var t := Next(w, a);
    forall id, room | id in t.sockets && room in t.sockets[id].joined
      ensures Justified(t, id.instance, SeatFor(t.sockets[id], room))
    {
      var seat := SeatFor(w.sockets[id], room);
      assert Justified(w, id.instance, seat);
      if a.DeleteRoom? && a.ref == RoomRef(seat.app, seat.room) && IsMember(w.seats, w.deleted, seat) {
        assert seat in SeatsOf(w.seats, a.ref);
      }
    }
  }

  /** No seat is lost and no pending eviction forgotten. */
  ghost predicate Framed(w: World, t: World) {
    w.seats == t.seats && w.deleted == t.deleted && w.control == t.control && forall e :: e in w.outbox ==>
        e in t.outbox
  }

  lemma EntriesFrame(w: World, a: Action)
    requires a.Connect? || a.Subscribe? || a.SetAway?
    ensures Framed(w, Next(w, a))
  {
  }

  lemma ExitsFrame(w: World, a: Action)
    requires a.Disconnect? || a.Unsubscribe? || a.Expire?
    ensures Framed(w, Next(w, a))
  {
  }

  lemma HandlerFrame(w: World, a: Action)
    requires !a.Admit? && !a.Exit? && !a.DeleteRoom? && !a.Publish? && !a.DeliverEvict?
    ensures Framed(w, Next(w, a))
  {
    if a.Connect? || a.Subscribe? || a.SetAway? {
      EntriesFrame(w, a);
    } else if a.Disconnect? || a.Unsubscribe? || a.Expire? {
      ExitsFrame(w, a);
    }
  }

  lemma HandlersKeepJustified(w: World, a: Action)
    requires Inv(w) && !a.Admit? && !a.Exit? && !a.DeleteRoom? && !a.Publish? && !a.DeliverEvict?
    ensures SocketsJustified(Next(w, a))
  {
    HandlerFrame(w, a);
    forall id, room | id in Next(w, a).sockets && room in Next(w, a).sockets[id].joined
      ensures Justified(Next(w, a), id.instance, SeatFor(Next(w, a).sockets[id], room))
    {
      JoinedSource(w, a, id, room);
      if room in w.sockets[id].joined {
        assert Justified(w, id.instance, SeatFor(w.sockets[id], room));
      }
    }
  }

  lemma ConnectionsKeepTopics(w: World, a: Action)
    requires TopicsJoined(w) && (a.Connect? || a.Disconnect? || a.Subscribe? || a.Unsubscribe?)
    ensures TopicsJoined(Next(w, a))
  {
  }

  lemma DeliveriesKeepTopics(w: World, a: Action)
    requires TopicsJoined(w) && (a.DeliverLeave? || a.DeliverEvict?)
    ensures TopicsJoined(Next(w, a))
  {
  }

  lemma TopicsStayJoined(w: World, a: Action)
    requires Inv(w)
    ensures TopicsJoined(Next(w, a))
  {
    if a.Connect? || a.Disconnect? || a.Subscribe? || a.Unsubscribe? {
      ConnectionsKeepTopics(w, a);
    } else if a.DeliverLeave? || a.DeliverEvict? {
      DeliveriesKeepTopics(w, a);
    } else {
      SocketsUntouched(w, a);
    }
  }

  lemma ConnectionsKeepPresence(w: World, a: Action)
    requires Inv(w) && (a.Connect? || a.Disconnect? || a.Subscribe? || a.Unsubscribe?)
    ensures PresenceJoined(Next(w, a))
  {
  }

  lemma DeliveriesKeepPresence(w: World, a: Action)
    requires Inv(w) && (a.DeliverLeave? || a.DeliverEvict?)
    ensures PresenceJoined(Next(w, a))
  {
  }

  lemma PresenceStaysJoined(w: World, a: Action)
    requires Inv(w)
    ensures PresenceJoined(Next(w, a))
  {
    if a.Connect? || a.Disconnect? || a.Subscribe? || a.Unsubscribe? {
      ConnectionsKeepPresence(w, a);
    } else if a.DeliverLeave? || a.DeliverEvict? {
      DeliveriesKeepPresence(w, a);
    } else {
      SocketsUntouched(w, a);
    }
  }

  lemma SocketsStayJustified(w: World, a: Action)
    requires Inv(w)
    ensures SocketsJustified(Next(w, a))
  {
    match a
    case Publish(seat) => PublishKeepsJustified(w, seat);
    case DeliverEvict(m) => EvictKeepsJustified(w, m);
    case Admit(_) => ServicesKeepJustified(w, a);
    case Exit(_) => ServicesKeepJustified(w, a);
    case DeleteRoom(_) => ServicesKeepJustified(w, a);
    case _ => HandlersKeepJustified(w, a);
  }

  lemma NextKeepsInv(w: World, a: Action)
    requires Inv(w)
    ensures Inv(Next(w, a))
  {
    SocketsStayJustified(w, a);
    TopicsStayJoined(w, a);
    PresenceStaysJoined(w, a);
  }

  /** In every run: a joined room is a current membership of an undeleted room, or its eviction is
      still to be published or still undelivered to the socket's instance; topics and live presence
      keys are among the joined rooms. */
  lemma {:induction false} EveryRunKeepsInv(instances: set<InstanceId>, actions: seq<Action>)
    ensures Inv(Exec(instances, actions))
  {
    if actions != [] {
      EveryRunKeepsInv(instances, actions[..|actions| - 1]);
      NextKeepsInv(Exec(instances, actions[..|actions| - 1]), actions[|actions| - 1]);
    }
  }

  // ---------------------------------------------------------------- silence after delivery

  /** The sockets a room event reaches. */
  function Recipients(w: World, ref: RoomRef): set<SocketId> {
    set id | id in w.sockets && w.sockets[id].app == ref.app && ref.room in w.sockets[id].topics
  }

  ghost predicate Silent(w: World, to: InstanceId, seat: Seat) {
    forall id :: id in w.sockets && id.instance == to && Owns(w.sockets[id], seat) ==>
      && seat.room !in w.sockets[id].joined
      && id !in Recipients(w, RoomRef(seat.app, seat.room))
      && Live(seat.app, seat.room, id) !in w.presence
  }

  /** Delivering an eviction silences the user's sockets on that instance. */
  lemma DeliverySilences(w: World, m: Message)
    requires Inv(w) && m in w.control
    ensures Silent(Next(w, DeliverEvict(m)), m.to, m.seat)
  {
    NextKeepsInv(w, DeliverEvict(m));
  }

  /** So does having nothing left in flight for someone who is no member. */
  lemma QuietMeansSilent(w: World, to: InstanceId, seat: Seat)
    requires Inv(w) && !IsMember(w.seats, w.deleted, seat)
    requires seat !in w.outbox && Message(to, seat) !in w.control
    ensures Silent(w, to, seat)
  {
    forall id | id in w.sockets && id.instance == to && Owns(w.sockets[id], seat)
      ensures seat.room !in w.sockets[id].joined
    {
      assert SeatFor(w.sockets[id], seat.room) == seat;
    }
  }

  ghost function After(w: World, actions: seq<Action>): World {
    if actions == [] then w else Next(After(w, actions[..|actions| - 1]), actions[|actions| - 1])
  }

  lemma NonMemberStays(w: World, a: Action, seat: Seat)
    requires !IsMember(w.seats, w.deleted, seat)
    requires a != Admit(seat) || RoomRef(seat.app, seat.room) in w.deleted
    ensures !IsMember(Next(w, a).seats, Next(w, a).deleted, seat) && w.deleted <= Next(w, a).deleted
  {
    match a
    case Admit(_) =>
    case Exit(_) =>
    case DeleteRoom(_) =>
    case _ =>
  }

  /** One action keeps silence unless it admits the user again. */
  lemma SilenceStep(w: World, a: Action, to: InstanceId, seat: Seat)
    requires Inv(w) && Silent(w, to, seat) && !IsMember(w.seats, w.deleted, seat)
    requires a != Admit(seat) || RoomRef(seat.app, seat.room) in w.deleted
    ensures var t := Next(w, a);
      && Inv(t) && Silent(t, to, seat) && !IsMember(t.seats, t.deleted, seat) && w.deleted <= t.deleted
  {
    var t := Next(w, a);
    NextKeepsInv(w, a);
    NonMemberStays(w, a, seat);
    forall id | id in t.sockets && id.instance == to && Owns(t.sockets[id], seat)
      ensures seat.room !in t.sockets[id].joined
    {
      if seat.room in t.sockets[id].joined {
        JoinedSource(w, a, id, seat.room);
      }
    }
  }

  /** Silence lasts: until the user is admitted again (never, once the room is deleted), no action
      of any instance puts one of these sockets back in the room's topic or presence. */
  lemma {:induction false} SilenceLasts(w: World, actions: seq<Action>, to: InstanceId, seat: Seat)
    requires Inv(w) && Silent(w, to, seat) && !IsMember(w.seats, w.deleted, seat)
    requires Admit(seat) !in actions || RoomRef(seat.app, seat.room) in w.deleted
    ensures var t := After(w, actions);
      Inv(t) && Silent(t, to, seat) && !IsMember(t.seats, t.deleted, seat) && w.deleted <= t.deleted
  {
    if actions != [] {
      var before := actions[..|actions| - 1];
      SilenceLasts(w, before, to, seat);
      SilenceStep(After(w, before), actions[|actions| - 1], to, seat);
    }
  }

  // ---------------------------------------------------------------- nothing is dropped without cause

  /** The eviction handler runs for this socket and room. */
  predicate Evicts(w: World, a: Action, id: SocketId, room: RoomId)
    requires id in w.sockets
  {
    a.DeliverEvict? && a.message in w.control && a.message == Message(id.instance, SeatFor(w.sockets[id], room))
  }

  predicate Enters(w: World, a: Action, id: SocketId, room: RoomId)
    requires id in w.sockets
  {
    a == Subscribe(id, room) && IsMember(w.seats, w.deleted, SeatFor(w.sockets[id], room))
  }

  /** The leave message of the socket's user and this room is delivered to its instance. */
  predicate Silences(w: World, a: Action, id: SocketId, room: RoomId)
    requires id in w.sockets
  {
    a.DeliverLeave? && a.message in w.leaves && a.message == Message(id.instance, SeatFor(w.sockets[id], room))
  }

  lemma JoinedExactlyOnDelivery(w: World, a: Action, id: SocketId, room: RoomId)
    requires id in w.sockets && a.DeliverEvict?
    ensures var t := Next(w, a);
      && id in t.sockets
      && (room in t.sockets[id].joined <==> room in w.sockets[id].joined && !Evicts(w, a, id, room))
      && (TopicsJoined(w) ==> (room in t.sockets[id].topics <==>
          room in w.sockets[id].topics && !Evicts(w, a, id, room)))
  {
  }

  lemma JoinedExactlyOnConnection(w: World, a: Action, id: SocketId, room: RoomId)
    requires id in w.sockets && id in Next(w, a).sockets
        && (a.Connect? || a.Disconnect? || a.Subscribe? || a.Unsubscribe?)
    ensures var t := Next(w, a);
      && (room in t.sockets[id].joined <==>
            Enters(w, a, id, room) || (room in w.sockets[id].joined && a != Unsubscribe(id, room)))
      && (room in t.sockets[id].topics <==>
            Enters(w, a, id, room) || (room in w.sockets[id].topics && a != Unsubscribe(id, room)))
  {
  }

  /** A connected socket's rooms change by its own subscription and unsubscription and by its own
      eviction, and by nothing else; its topics also by a pending leave message for its user and room. */
  lemma JoinedExactly(w: World, a: Action, id: SocketId, room: RoomId)
    requires id in w.sockets && id in Next(w, a).sockets && TopicsJoined(w)
    ensures var t := Next(w, a);
      && (room in t.sockets[id].joined <==>
            Enters(w, a, id, room) || (room in w.sockets[id].joined && a != Unsubscribe(id, room)
                && !Evicts(w, a, id, room)))
      && (room in t.sockets[id].topics <==>
            Enters(w, a, id, room) || (room in w.sockets[id].topics && a != Unsubscribe(id, room)
                && !Evicts(w, a, id, room) && !Silences(w, a, id, room)))
  {
    if a.DeliverEvict? {
      JoinedExactlyOnDelivery(w, a, id, room);
    } else if a.Connect? || a.Disconnect? || a.Subscribe? || a.Unsubscribe? {
      JoinedExactlyOnConnection(w, a, id, room);
    } else if !a.DeliverLeave? {
      SocketsUntouched(w, a);
    }
  }

  // ---------------------------------------------------------------- removals take effect

  /** Removal and leave end the seat and the user's presence at once, and put one eviction out. */
  lemma ExitTakesEffect(w: World, seat: Seat)
    requires Inv(w) && IsMember(w.seats, w.deleted, seat)
    ensures var t := Next(w, Exit(seat));
      && !IsMember(t.seats, t.deleted, seat) && t.outbox == w.outbox + multiset{seat}
      && (forall other :: other != seat ==> (other in t.seats <==> other in w.seats))
      && (forall k :: k in t.presence <==>
            k in w.presence && !(k.app == seat.app && k.room == seat.room && w.presence[k] == seat.user))
  {
  }

  /** Deletion ends every membership and every presence in the room, and puts out one eviction for
      every seat it had. */
  lemma DeletionTakesEffect(w: World, ref: RoomRef, seat: Seat)
    requires Inv(w) && ref !in w.deleted && seat in w.seats && RoomRef(seat.app, seat.room) == ref
    ensures var t := Next(w, DeleteRoom(ref));
      && !IsMember(t.seats, t.deleted, seat) && t.outbox[seat] == w.outbox[seat] + 1
      && (forall k :: k in t.presence && RoomRef(k.app, k.room) == ref ==> t.presence[k] != seat.user)
  {
    assert seat in SeatsOf(w.seats, ref);
  }

  /** A publication reaches every instance, as a topic leave and as an eviction. */
  lemma PublicationReachesEveryInstance(w: World, seat: Seat, i: InstanceId)
    requires seat in w.outbox && i in w.instances
    ensures var t := Next(w, Publish(seat)); Message(i, seat) in t.control && Message(i, seat) in t.leaves
  {
    assert Message(i, seat) in ToAll(w.instances, seat);
  }

  /** A delivered topic leave already keeps room events from the user's sockets on that instance. */
  lemma LeaveEndsEvents(w: World, m: Message, id: SocketId)
    requires m in w.leaves && id in w.sockets && id.instance == m.to && Owns(w.sockets[id], m.seat)
    ensures id !in Recipients(Next(w, DeliverLeave(m)), RoomRef(m.seat.app, m.seat.room))
  {
  }

  /** Every live presence key is a current member's. */
  ghost predicate PresenceOfMembers(w: World) {
    forall k :: k in w.presence ==> IsMember(w.seats, w.deleted, Seat(k.app, k.room, w.presence[k]))
  }

  lemma ExitsKeepPresenceOfMembers(w: World, a: Action)
    requires Inv(w) && PresenceOfMembers(w) && (a.Exit? || a.DeleteRoom? || a.Admit?)
    ensures PresenceOfMembers(Next(w, a))
  {
    if a.Exit? && IsMember(w.seats, w.deleted, a.seat) { ExitTakesEffect(w, a.seat); }
    if a.DeleteRoom? && a.ref !in w.deleted {
      forall seat | seat in w.seats && RoomRef(seat.app, seat.room) == a.ref { DeletionTakesEffect(w, a.ref, seat); }
    }
  }

  lemma HandlersKeepPresenceOfMembers(w: World, a: Action)
    requires Inv(w) && PresenceOfMembers(w) && !a.Exit? && !a.DeleteRoom? && !a.Admit?
    ensures PresenceOfMembers(Next(w, a))
  {
  }

  /** In every run presence shows current members of undeleted rooms only, at every moment: removal,
      leave and deletion need no delivery for that. */
  lemma {:induction false} PresenceShowsMembers(instances: set<InstanceId>, actions: seq<Action>)
    ensures PresenceOfMembers(Exec(instances, actions))
  {
    if actions != [] {
      var n := |actions| - 1;
      var w := Exec(instances, actions[..n]);
      PresenceShowsMembers(instances, actions[..n]);
      EveryRunKeepsInv(instances, actions[..n]);
      if actions[n].Exit? || actions[n].DeleteRoom? || actions[n].Admit? {
        ExitsKeepPresenceOfMembers(w, actions[n]);
      } else {
        HandlersKeepPresenceOfMembers(w, actions[n]);
      }
    }
  }

  /** The socket hears nothing of the room. */
  predicate Deaf(w: World, id: SocketId, room: RoomId) { id in w.sockets ==> room !in w.sockets[id].topics }

  lemma DeafStep(w: World, a: Action, id: SocketId, room: RoomId)
    requires Inv(w) && Deaf(w, id, room) && a != Subscribe(id, room)
    ensures Deaf(Next(w, a), id, room)
  {
    if id in w.sockets && id in Next(w, a).sockets { JoinedExactly(w, a, id, room); }
  }

  /** A delivered topic leave keeps the room's events from each of the user's sockets on that instance
      in every continuation, until that socket subscribes again. */
  lemma {:induction false} LeaveEndsEventsForGood(w: World, m: Message, id: SocketId, actions: seq<Action>)
    requires Inv(w) && m in w.leaves && id in w.sockets && id.instance == m.to && Owns(w.sockets[id], m.seat)
    requires Subscribe(id, m.seat.room) !in actions
    ensures var t := After(Next(w, DeliverLeave(m)), actions); Inv(t) && Deaf(t, id, m.seat.room)
  {
    if actions == [] {
      NextKeepsInv(w, DeliverLeave(m));
      LeaveEndsEvents(w, m, id);
      var t := Next(w, DeliverLeave(m));
      assert id in t.sockets && t.sockets[id].app == m.seat.app;
    } else {
      var n := |actions| - 1;
      LeaveEndsEventsForGood(w, m, id, actions[..n]);
      NextKeepsInv(After(Next(w, DeliverLeave(m)), actions[..n]), actions[n]);
      DeafStep(After(Next(w, DeliverLeave(m)), actions[..n]), actions[n], id, m.seat.room);
    }
  }

  lemma AwaitingStep(w: World, a: Action, m: Message)
    requires m in w.control && a != DeliverEvict(m)
    ensures m in Next(w, a).control
  {
  }

  /** A published eviction is never lost: in every continuation it waits at each instance until it is
      delivered there. */
  lemma {:induction false} EvictionAwaitsDelivery(w: World, seat: Seat, to: InstanceId, actions: seq<Action>)
    requires seat in w.outbox && to in w.instances && DeliverEvict(Message(to, seat)) !in actions
    ensures Message(to, seat) in After(Next(w, Publish(seat)), actions).control
  {
    if actions == [] {
      PublicationReachesEveryInstance(w, seat, to);
    } else {
      var n := |actions| - 1;
      EvictionAwaitsDelivery(w, seat, to, actions[..n]);
      AwaitingStep(After(Next(w, Publish(seat)), actions[..n]), actions[n], Message(to, seat));
    }
  }

  /** Publications and deliveries of one seat's evictions to one instance. */
  predicate Drains(actions: seq<Action>, to: InstanceId, seat: Seat) {
    forall i :: 0 <= i < |actions| ==> actions[i] == Publish(seat) || actions[i] == DeliverEvict(Message(to, seat))
  }

  lemma DrainStep(w: World, a: Action, to: InstanceId, seat: Seat)
    requires Inv(w) && !IsMember(w.seats, w.deleted, seat)
    requires a == Publish(seat) || a == DeliverEvict(Message(to, seat))
    ensures Inv(Next(w, a)) && !IsMember(Next(w, a).seats, Next(w, a).deleted, seat)
    ensures a == Publish(seat) && seat in w.outbox ==> Next(w, a).outbox[seat] == w.outbox[seat] - 1
    ensures a == DeliverEvict(Message(to, seat)) && Message(to, seat) in w.control ==>
              Next(w, a).outbox == w.outbox && Next(w, a).control[Message(to, seat)] == w.control[Message(to, seat)] - 1
  {
    NextKeepsInv(w, a);
    NonMemberStays(w, a, seat);
  }

  lemma AfterExtends(w: World, actions: seq<Action>, a: Action)
    ensures After(w, actions + [a]) == Next(After(w, actions), a)
  {
    assert (actions + [a])[..|actions|] == actions;
  }

  lemma AfterStep(w: World, v: World, first: seq<Action>, before: seq<Action>, last: Action)
    requires After(w, first + before) == After(v, before)
    ensures After(w, first + (before + [last])) == After(v, before + [last])
  {
    AfterExtends(w, first + before, last);
    AfterExtends(v, before, last);
    assert first + (before + [last]) == first + before + [last];
  }

  lemma {:induction false} AfterFrom(w: World, v: World, a: Action, rest: seq<Action>)
    requires After(w, [a]) == v
    ensures After(w, [a] + rest) == After(v, rest)
  {
    if rest == [] {
      assert [a] + rest == [a];
    } else {
      var n := |rest| - 1;
      AfterFrom(w, v, a, rest[..n]);
      AfterStep(w, v, [a], rest[..n], rest[n]);
      assert rest == rest[..n] + [rest[n]];
    }
  }

  lemma AfterFirst(w: World, a: Action, rest: seq<Action>)
    ensures After(w, [a] + rest) == After(Next(w, a), rest)
  {
    AfterExtends(w, [], a);
    assert [] + [a] == [a];
    AfterFrom(w, Next(w, a), a, rest);
  }

  /** Silence is always within reach: publishing what is pending for someone who is no member and
      delivering it to the instance silences their sockets there. */
  lemma {:induction false} DrainingSilences(w: World, to: InstanceId, seat: Seat) returns (actions: seq<Action>)
    requires Inv(w) && !IsMember(w.seats, w.deleted, seat)
    ensures Drains(actions, to, seat) && Silent(After(w, actions), to, seat)
    decreases w.outbox[seat], w.control[Message(to, seat)]
  {
    if seat in w.outbox || Message(to, seat) in w.control {
      var a := if seat in w.outbox then Publish(seat) else DeliverEvict(Message(to, seat));
      DrainStep(w, a, to, seat);
      var rest := DrainingSilences(Next(w, a), to, seat);
      actions := [a] + rest;
      AfterFirst(w, a, rest);
    } else {
      actions := [];
      QuietMeansSilent(w, to, seat);
    }
  }
}
