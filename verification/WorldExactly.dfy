/** What one action of the eviction world changes, part by part, in terms of who did what to whom: every
    part names the only actions that touch an element, so everything else stays. */
module WorldExactly {
  import opened Eviction

  // ---------------------------------------------------------------- seats and sockets

  /** The room is there, and the user has a seat in it. */
  predicate Seated(w: World, app: AppId, room: RoomId, user: UserId) {
    Seat(app, room, user) in w.seats && RoomRef(app, room) !in w.deleted
  }

  ghost predicate SeatFollows(w: World, t: World, a: Action, seat: Seat, ref: RoomRef) {
    && (seat in t.seats <==>
          a == Admit(seat) || (seat in w.seats && !(a == Exit(seat) && Seated(w, seat.app, seat.room, seat.user))))
    && (ref in t.deleted <==> ref in w.deleted || a == DeleteRoom(ref))
    && t.instances == w.instances
  }

  lemma ConnectionSeats(w: World, a: Action)
    requires a.Connect? || a.Disconnect? || a.Subscribe? || a.Unsubscribe? || a.SetAway?
    ensures Next(w, a).seats == w.seats && Next(w, a).deleted == w.deleted && Next(w, a).instances == w.instances
  {
  }

  lemma EvictionSeats(w: World, m: Message)
    ensures var t := Next(w, DeliverEvict(m));
      t.seats == w.seats && t.deleted == w.deleted && t.instances == w.instances
  {
  }

  lemma PublicationSeats(w: World, seat: Seat)
    ensures var t := Next(w, Publish(seat));
      t.seats == w.seats && t.deleted == w.deleted && t.instances == w.instances
  {
  }

  lemma DeliverySeats(w: World, a: Action)
    requires a.DeliverLeave? || a.Expire?
    ensures Next(w, a).seats == w.seats && Next(w, a).deleted == w.deleted && Next(w, a).instances == w.instances
  {
  }

  /** A seat is taken by admission and given up by a member's exit; a room is deleted once and for all. */
  lemma SeatsExactly(w: World, a: Action, seat: Seat, ref: RoomRef)
    ensures SeatFollows(w, Next(w, a), a, seat, ref)
  {
    match a
    case DeliverEvict(m) => EvictionSeats(w, m);
    case Publish(s) => PublicationSeats(w, s);
    case DeliverLeave(_) => DeliverySeats(w, a);
    case Expire(_) => DeliverySeats(w, a);
    case Admit(_) =>
    case Exit(_) =>
    case DeleteRoom(_) =>
    case _ => ConnectionSeats(w, a);
  }

  ghost predicate SocketFollows(w: World, t: World, a: Action, id: SocketId) {
    && (id in t.sockets <==>
          || (id in w.sockets && a != Disconnect(id))
          || (a.Connect? && a.id == id && id.instance in w.instances))
    && (id in t.sockets && id in w.sockets ==>
          t.sockets[id].app == w.sockets[id].app && t.sockets[id].user == w.sockets[id].user)
    && (id in t.sockets && id !in w.sockets ==>
          a.Connect? && t.sockets[id].app == a.app && t.sockets[id].user == a.user
          && t.sockets[id].joined == {} && t.sockets[id].topics == {})
  }

  lemma ConnectionSockets(w: World, a: Action, id: SocketId)
    requires a.Connect? || a.Disconnect?
    ensures SocketFollows(w, Next(w, a), a, id)
  {
  }

  lemma SubscriptionSockets(w: World, a: Action, id: SocketId)
    requires a.Subscribe? || a.Unsubscribe?
    ensures SocketFollows(w, Next(w, a), a, id)
  {
  }

  lemma DeliverySockets(w: World, a: Action, id: SocketId)
    requires a.DeliverEvict? || a.DeliverLeave?
    ensures SocketFollows(w, Next(w, a), a, id)
  {
  }

  /** A socket comes by its own connection and goes by its own disconnection, and is always its user's. */
  lemma SocketsExactly(w: World, a: Action, id: SocketId)
    ensures SocketFollows(w, Next(w, a), a, id)
  {
    if a.Connect? || a.Disconnect? {
      ConnectionSockets(w, a, id);
    } else if a.Subscribe? || a.Unsubscribe? {
      SubscriptionSockets(w, a, id);
    } else if a.DeliverEvict? || a.DeliverLeave? {
      DeliverySockets(w, a, id);
    } else {
      SocketsUntouched(w, a);
    }
  }

  // ---------------------------------------------------------------- presence keys

  /** The key's own socket subscribes to the key's room, or sets itself away or back there, as a member. */
  predicate Renews(w: World, a: Action, k: Live) {
    && k.socket in w.sockets && w.sockets[k.socket].app == k.app
    && Seated(w, k.app, k.room, w.sockets[k.socket].user)
    && (|| a == Subscribe(k.socket, k.room)
        || (a == SetAway(k.socket, k.room) && k.room in w.sockets[k.socket].joined))
  }

  /** The key's own socket unsubscribes or disconnects; its user is evicted from its room on its
      socket's instance, or leaves the room; the room is deleted; or the key expires. */
  predicate Ends(w: World, a: Action, k: Live)
    requires k in w.presence
  {
    match a
    case Unsubscribe(id, room) => id == k.socket && room == k.room
    case Disconnect(id) => id == k.socket
    case DeliverEvict(m) => m in w.control && m == Message(k.socket.instance, Seat(k.app, k.room, w.presence[k]))
    case Exit(seat) => seat == Seat(k.app, k.room, w.presence[k])
    case DeleteRoom(ref) => ref == RoomRef(k.app, k.room)
    case Expire(key) => key == k
    case _ => false
  }

  ghost predicate KeyFollows(w: World, t: World, a: Action, k: Live) {
    && (k in t.presence <==> Renews(w, a, k) || (k in w.presence && !Ends(w, a, k)))
    && (k in t.presence ==>
          t.presence[k] == if Renews(w, a, k) then w.sockets[k.socket].user else w.presence[k])
  }

  lemma HandlerKeys(w: World, a: Action, k: Live)
    requires Inv(w) && PresenceOfMembers(w)
    requires a.Subscribe? || a.Unsubscribe? || a.SetAway? || a.Expire?
    ensures KeyFollows(w, Next(w, a), a, k)
  {
  }

  lemma DisconnectKeys(w: World, a: Action, k: Live)
    requires Inv(w) && PresenceOfMembers(w) && (a.Connect? || a.Disconnect?)
    ensures KeyFollows(w, Next(w, a), a, k)
  {
  }

  lemma DeliveryKeys(w: World, a: Action, k: Live)
    requires Inv(w) && PresenceOfMembers(w) && (a.DeliverEvict? || a.DeliverLeave? || a.Publish?)
    ensures KeyFollows(w, Next(w, a), a, k)
  {
  }

  lemma ServiceKeys(w: World, a: Action, k: Live)
    requires Inv(w) && PresenceOfMembers(w) && (a.Admit? || a.Exit? || a.DeleteRoom?)
    ensures KeyFollows(w, Next(w, a), a, k)
  {
  }

  /** In every run: exactly when a presence key is there after the next action. It is renewed by its own
      socket only, and goes only by its own socket, its own user's exit or eviction there, its room's
      deletion or its expiry; every other key stays as it is. */
  lemma PresenceExactly(instances: set<InstanceId>, actions: seq<Action>, a: Action, k: Live)
    ensures KeyFollows(Exec(instances, actions), Next(Exec(instances, actions), a), a, k)
  {
    var w := Exec(instances, actions);
    EveryRunKeepsInv(instances, actions);
    PresenceShowsMembers(instances, actions);
    if a.Connect? || a.Disconnect? {
      DisconnectKeys(w, a, k);
    } else if a.DeliverEvict? || a.DeliverLeave? || a.Publish? {
      DeliveryKeys(w, a, k);
    } else if a.Admit? || a.Exit? || a.DeleteRoom? {
      ServiceKeys(w, a, k);
    } else {
      HandlerKeys(w, a, k);
    }
  }

  // ---------------------------------------------------------------- messages on their way

  /** One more eviction to publish for a member's exit, for each seat of a deleted room, and for a
      socket that sets itself away in a room its user has no seat in; one less when it is published. */
  function Published(w: World, a: Action, seat: Seat): int {
    match a
    case Exit(s) => if s == seat && Seated(w, s.app, s.room, s.user) then 1 else 0
    case DeleteRoom(ref) =>
      if ref == RoomRef(seat.app, seat.room) && ref !in w.deleted && seat in w.seats then 1 else 0
    case SetAway(id, room) =>
      if id in w.sockets && room in w.sockets[id].joined && room == seat.room
         && w.sockets[id].app == seat.app && w.sockets[id].user == seat.user
         && !Seated(w, seat.app, room, seat.user) then 1 else 0
    case Publish(s) => if s == seat && s in w.outbox then -1 else 0
    case _ => 0
  }

  lemma OutboxExactly(w: World, a: Action, seat: Seat)
    ensures Next(w, a).outbox[seat] == w.outbox[seat] + Published(w, a, seat)
  {
  }

  ghost predicate MessageFollows(w: World, t: World, a: Action, m: Message) {
    var more := if a == Publish(m.seat) && m.seat in w.outbox && m.to in w.instances then 1 else 0;
    && t.control[m] == w.control[m] + more - (if a == DeliverEvict(m) && m in w.control then 1 else 0)
    && t.leaves[m] == w.leaves[m] + more - (if a == DeliverLeave(m) && m in w.leaves then 1 else 0)
  }

  lemma OtherMessages(w: World, a: Action, m: Message)
    requires !a.Publish? && !a.DeliverEvict? && !a.DeliverLeave?
    ensures MessageFollows(w, Next(w, a), a, m)
  {
  }

  lemma PublishedMessages(w: World, seat: Seat, m: Message)
    ensures MessageFollows(w, Next(w, Publish(seat)), Publish(seat), m)
  {
  }

  lemma DeliveredMessages(w: World, a: Action, m: Message)
    requires a.DeliverEvict? || a.DeliverLeave?
    ensures MessageFollows(w, Next(w, a), a, m)
  {
  }

  /** A publication adds one message for each instance, and a delivery takes its own. */
  lemma MessagesExactly(w: World, a: Action, m: Message)
    ensures MessageFollows(w, Next(w, a), a, m)
  {
    if a.Publish? {
      PublishedMessages(w, a.seat, m);
    } else if a.DeliverEvict? || a.DeliverLeave? {
      DeliveredMessages(w, a, m);
    } else {
      OtherMessages(w, a, m);
    }
  }
}
