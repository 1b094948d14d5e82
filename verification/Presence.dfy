/** The presence index: connection keys that expire, and one index set a room that expires later.

    Service methods are atomic steps under one clock. Each instance reads its own TTL from its
    environment, so a run carries a set of TTLs; the index agrees with the connection keys in every
    run exactly when no TTL in the set is more than twice another. */
module Presence {

  type UserId = int
  type Time = nat

  datatype RoomKey = RoomKey(app: int, room: int)
  datatype ConnKey = ConnKey(of: RoomKey, socket: int)
  /** What a connection key stores: the JSON this service writes, or text it cannot parse. */
  datatype Value = Present(user: UserId, away: bool) | Garbage
  datatype Entry = Entry(value: Value, expires: Time)
  datatype Index = Index(keys: set<ConnKey>, expires: Time)

  datatype Redis = Redis(now: Time, conns: map<ConnKey, Entry>, indexes: map<RoomKey, Index>)

  datatype Step =
    | Write(ttl: nat, key: ConnKey, user: UserId, away: bool)   // register and set-away
    | Refresh(ttl: nat, key: ConnKey)
    | Unregister(key: ConnKey)
    | RemoveUser(room: RoomKey, user: UserId)
    | Cleanup(room: RoomKey)                                    // the stale removal inside statusesFor
    | Tick(d: nat)

  // ---------------------------------------------------------------- Redis commands

  predicate Live(r: Redis, k: ConnKey) { k in r.conns && r.now < r.conns[k].expires }

  /** SMEMBERS of the room index; an expired index reads as empty. */
  function Members(r: Redis, room: RoomKey): set<ConnKey> {
    if room in r.indexes && r.now < r.indexes[room].expires then r.indexes[room].keys else {}
  }

  function SAdd(r: Redis, room: RoomKey, k: ConnKey, expires: Time): Redis {
    r.(indexes := r.indexes[room := Index(Members(r, room) + {k}, expires)])
  }

  /** SREM; a set left empty is deleted. */
  function SRem(r: Redis, room: RoomKey, gone: set<ConnKey>): Redis {
    var left := Members(r, room) - gone;
    if left == {} then r.(indexes := r.indexes - {room})
    else r.(indexes := r.indexes[room := r.indexes[room].(keys := left)])
  }

  /** EXPIRE on the index: nothing happens when the set is gone. */
  function Extend(r: Redis, room: RoomKey, expires: Time): Redis {
    if Members(r, room) == {} then r
    else r.(indexes := r.indexes[room := r.indexes[room].(expires := expires)])
  }

  // ---------------------------------------------------------------- service methods

  function Written(r: Redis, ttl: nat, k: ConnKey, user: UserId, away: bool): Redis {
    SAdd(r.(conns := r.conns[k := Entry(Present(user, away), r.now + ttl)]), k.of, k, r.now + 2 * ttl)
  }

  function Refreshed(r: Redis, ttl: nat, k: ConnKey): Redis {
    if Live(r, k) then
      Extend(r.(conns := r.conns[k := r.conns[k].(expires := r.now + ttl)]), k.of, r.now + 2 * ttl)
    else SRem(r, k.of, {k})
  }

  function Unregistered(r: Redis, k: ConnKey): Redis {
    SRem(r.(conns := r.conns - {k}), k.of, {k})
  }

  predicate Parses(r: Redis, k: ConnKey) { Live(r, k) && r.conns[k].value.Present? }

  predicate IsOf(r: Redis, k: ConnKey, user: UserId) { Parses(r, k) && r.conns[k].value.user == user }

  /** The user's live connections among the index members. */
  function Targets(r: Redis, room: RoomKey, user: UserId): set<ConnKey> {
    set k | k in Members(r, room) && IsOf(r, k, user)
  }

  function UserRemoved(r: Redis, room: RoomKey, user: UserId): Redis {
    var targets := Targets(r, room, user);
    if targets == {} then r else SRem(r.(conns := r.conns - targets), room, targets)
  }

  /** The index members whose connection key is gone or does not parse. */
  function Stale(r: Redis, room: RoomKey): set<ConnKey> {
    set k | k in Members(r, room) && !Parses(r, k)
  }

  function Cleaned(r: Redis, room: RoomKey): Redis {
    if Stale(r, room) == {} then r else SRem(r, room, Stale(r, room))
  }

  function Next(r: Redis, step: Step): Redis {
    match step
    case Write(ttl, k, user, away) => Written(r, ttl, k, user, away)
    case Refresh(ttl, k) => Refreshed(r, ttl, k)
    case Unregister(k) => Unregistered(r, k)
    case RemoveUser(room, user) => UserRemoved(r, room, user)
    case Cleanup(room) => Cleaned(r, room)
    case Tick(d) => r.(now := r.now + d)
  }

  ghost function Exec(steps: seq<Step>): Redis {
    if steps == [] then Redis(0, map[], map[])
    else Next(Exec(steps[..|steps| - 1]), steps[|steps| - 1])
  }

  predicate UsesTtl(step: Step, ttls: set<nat>) {
    match step
    case Write(ttl, _, _, _) => ttl in ttls
    case Refresh(ttl, _) => ttl in ttls
    case _ => true
  }

  ghost predicate Uses(steps: seq<Step>, ttls: set<nat>) {
    forall i :: 0 <= i < |steps| ==> UsesTtl(steps[i], ttls)
  }

  // ---------------------------------------------------------------- the invariant

  predicate Compatible(ttls: set<nat>) {
    forall a, b | a in ttls && b in ttls :: a <= 2 * b
  }

  /** Every live connection parses and is a member of its room's index, which expires no earlier. */
  ghost predicate Indexed(r: Redis) {
    forall k :: Live(r, k) ==>
      && r.conns[k].value.Present?
      && k in Members(r, k.of) && r.conns[k].expires <= r.indexes[k.of].expires
  }

  ghost predicate Bounded(r: Redis, ttls: set<nat>) {
    forall k, b :: Live(r, k) && b in ttls ==> r.conns[k].expires <= r.now + 2 * b
  }

  /** An index lists only connections of its own room. */
  ghost predicate OwnKeys(r: Redis) {
    forall room, k :: room in r.indexes && k in r.indexes[room].keys ==> k.of == room
  }

  ghost predicate Inv(r: Redis, ttls: set<nat>) {
    Indexed(r) && Bounded(r, ttls) && OwnKeys(r)
  }

  lemma SRemMembers(r: Redis, room: RoomKey, gone: set<ConnKey>, at: RoomKey, k: ConnKey)
    requires k in Members(r, at) && (at == room ==> k !in gone)
    ensures var t := SRem(r, room, gone);
      k in Members(t, at) && at in t.indexes && t.indexes[at].expires == r.indexes[at].expires
  {
    if at == room { assert k in Members(r, room) - gone; }
  }

  /** Before the removal, everything live outside `gone` is indexed, and nothing in `gone` is live. */
  ghost predicate IndexedBut(r: Redis, gone: set<ConnKey>) {
    forall k :: Live(r, k) ==>
      && k !in gone && r.conns[k].value.Present?
      && k in Members(r, k.of) && r.conns[k].expires <= r.indexes[k.of].expires
  }

  lemma SRemFrame(r: Redis, room: RoomKey, gone: set<ConnKey>)
    ensures SRem(r, room, gone).conns == r.conns && SRem(r, room, gone).now == r.now
  {
  }

  lemma SRemOwnKeys(r: Redis, room: RoomKey, gone: set<ConnKey>)
    requires OwnKeys(r)
    ensures OwnKeys(SRem(r, room, gone))
  {
    var t := SRem(r, room, gone);
    forall q, k | q in t.indexes && k in t.indexes[q].keys ensures k.of == q {
      assert q in r.indexes && k in r.indexes[q].keys;
    }
  }

  lemma SRemIndexed(r: Redis, room: RoomKey, gone: set<ConnKey>)
    requires IndexedBut(r, gone)
    ensures Indexed(SRem(r, room, gone))
  {
    SRemFrame(r, room, gone);
    var t := SRem(r, room, gone);
    forall k | Live(t, k)
      ensures t.conns[k].value.Present? && k in Members(t, k.of) && t.conns[k].expires <= t.indexes[k.of].expires
    {
      assert Live(r, k);
      SRemMembers(r, room, gone, k.of, k);
    }
  }

  lemma BoundedKept(r: Redis, t: Redis, ttls: set<nat>)
    requires Bounded(r, ttls) && t.conns == r.conns && t.now == r.now
    ensures Bounded(t, ttls)
  {
    forall k, b | Live(t, k) && b in ttls ensures t.conns[k].expires <= t.now + 2 * b {
      assert Live(r, k);
    }
  }

  lemma SRemKeeps(r: Redis, room: RoomKey, gone: set<ConnKey>, ttls: set<nat>)
    requires Bounded(r, ttls) && OwnKeys(r) && IndexedBut(r, gone)
    ensures Inv(SRem(r, room, gone), ttls)
  {
    SRemFrame(r, room, gone);
    SRemOwnKeys(r, room, gone);
    SRemIndexed(r, room, gone);
    BoundedKept(r, SRem(r, room, gone), ttls);
  }

  lemma DelKeeps(r: Redis, gone: set<ConnKey>, ttls: set<nat>)
    requires Inv(r, ttls)
    ensures var t := r.(conns := r.conns - gone); Bounded(t, ttls) && OwnKeys(t) && IndexedBut(t, gone)
  {
    var t := r.(conns := r.conns - gone);
    forall k | Live(t, k) ensures Live(r, k) { }
  }

  lemma WrittenKeeps(r: Redis, ttl: nat, k: ConnKey, user: UserId, away: bool, ttls: set<nat>)
    requires Inv(r, ttls) && Compatible(ttls) && ttl in ttls
    ensures Inv(Written(r, ttl, k, user, away), ttls)
  {
    var t := Written(r, ttl, k, user, away);
    forall c | Live(t, c)
      ensures t.conns[c].value.Present? && c in Members(t, c.of) && t.conns[c].expires <= t.indexes[c.of].expires
    {
      if c != k {
        assert Live(r, c);
        if c.of == k.of { assert c in Members(r, k.of); }
      }
    }
  }

  lemma RefreshedKeeps(r: Redis, ttl: nat, k: ConnKey, ttls: set<nat>)
    requires Inv(r, ttls) && Compatible(ttls) && ttl in ttls
    ensures Inv(Refreshed(r, ttl, k), ttls)
  {
    if Live(r, k) {
      var t := Refreshed(r, ttl, k);
      assert k in Members(r, k.of);
      forall c | Live(t, c)
        ensures t.conns[c].value.Present? && c in Members(t, c.of) && t.conns[c].expires <= t.indexes[c.of].expires
      {
        assert Live(r, c);
      }
    } else {
      assert IndexedBut(r, {k});
      SRemKeeps(r, k.of, {k}, ttls);
    }
  }

  lemma UserRemovedKeeps(r: Redis, room: RoomKey, user: UserId, ttls: set<nat>)
    requires Inv(r, ttls)
    ensures Inv(UserRemoved(r, room, user), ttls)
  {
    var targets := Targets(r, room, user);
    DelKeeps(r, targets, ttls);
    if targets != {} { SRemKeeps(r.(conns := r.conns - targets), room, targets, ttls); }
  }

  lemma CleanedKeeps(r: Redis, room: RoomKey, ttls: set<nat>)
    requires Inv(r, ttls)
    ensures Inv(Cleaned(r, room), ttls)
  {
    assert IndexedBut(r, Stale(r, room));
    SRemKeeps(r, room, Stale(r, room), ttls);
  }

  lemma UnregisteredKeeps(r: Redis, k: ConnKey, ttls: set<nat>)
    requires Inv(r, ttls)
    ensures Inv(Unregistered(r, k), ttls)
  {
    DelKeeps(r, {k}, ttls);
    SRemKeeps(r.(conns := r.conns - {k}), k.of, {k}, ttls);
  }

  lemma NextKeepsInv(r: Redis, step: Step, ttls: set<nat>)
    requires Inv(r, ttls) && Compatible(ttls) && UsesTtl(step, ttls)
    ensures Inv(Next(r, step), ttls)
  {
    match step
    case Write(ttl, k, user, away) => WrittenKeeps(r, ttl, k, user, away, ttls);
    case Refresh(ttl, k) => RefreshedKeeps(r, ttl, k, ttls);
    case Tick(d) =>
      forall k | Live(Next(r, step), k) ensures Live(r, k) { }
    case Unregister(k) => UnregisteredKeeps(r, k, ttls);
    case RemoveUser(room, user) => UserRemovedKeeps(r, room, user, ttls);
    case Cleanup(room) => CleanedKeeps(r, room, ttls);
  }

  lemma {:induction false} ExecInv(steps: seq<Step>, ttls: set<nat>)
    requires Compatible(ttls) && Uses(steps, ttls)
    ensures Inv(Exec(steps), ttls)
  {
    if steps != [] {
      ExecInv(steps[..|steps| - 1], ttls);
      NextKeepsInv(Exec(steps[..|steps| - 1]), steps[|steps| - 1], ttls);
    }
  }

  // ---------------------------------------------------------------- the condition is exact

  /** With a TTL more than twice another, the shorter-lived instance's write shortens the index
      below a connection the longer-lived instance keeps alive. */
  lemma IncompatibleTtlsLoseAConnection(a: nat, b: nat) returns (steps: seq<Step>)
    requires 2 * b < a
    ensures Uses(steps, {a, b}) && !Indexed(Exec(steps))
  {
    var room := RoomKey(1, 1);
    var k, l := ConnKey(room, 1), ConnKey(room, 2);
    var s1, s2, s3 := Write(a, k, 1, false), Write(b, l, 2, false), Tick(2 * b);
    steps := [s1, s2, s3];
    assert steps[..2] == [s1, s2] && [s1, s2][..1] == [s1] && [s1][..0] == [];
    var r1 := Next(Exec([]), s1);
    var r2 := Next(r1, s2);
    assert Exec([s1]) == r1 && Exec([s1, s2]) == r2;
    var r3 := Exec(steps);
    assert r3 == Next(r2, s3);
    assert Live(r3, k) && Members(r3, room) == {};
  }

  /** The index agrees with the connection keys in every run using these TTLs if and only if they
      are compatible. One shared TTL is always compatible with itself. */
  lemma IndexedIffCompatible(ttls: set<nat>)
    ensures (forall steps :: Uses(steps, ttls) ==> Indexed(Exec(steps))) <==> Compatible(ttls)
  {
    if Compatible(ttls) {
      forall steps | Uses(steps, ttls) ensures Indexed(Exec(steps)) { ExecInv(steps, ttls); }
    } else {
      var a, b :| a in ttls && b in ttls && 2 * b < a;
      var steps := IncompatibleTtlsLoseAConnection(a, b);
      assert Uses(steps, ttls) by {
        forall i | 0 <= i < |steps| ensures UsesTtl(steps[i], ttls) { assert UsesTtl(steps[i], {a, b}); }
      }
    }
  }

  // ---------------------------------------------------------------- statuses

  datatype Status = Online | Focusing | Idle | Away | Offline
  datatype SessionStatus = Running | Paused | Finished
  datatype Session = Session(room: RoomKey, user: UserId, status: SessionStatus)

  ghost predicate Connected(r: Redis, room: RoomKey, user: UserId) {
    exists k: ConnKey :: k.of == room && IsOf(r, k, user)
  }

  ghost predicate AllAway(r: Redis, room: RoomKey, user: UserId) {
    forall k: ConnKey :: k.of == room && IsOf(r, k, user) ==> r.conns[k].value.away
  }

  /** The direct definition: over all live connections and all sessions, with no index, order or
      batch in sight. */
  ghost function StatusOf(r: Redis, sessions: set<Session>, room: RoomKey, user: UserId): Status {
    if !Connected(r, room, user) then Offline
    else if Session(room, user, Running) in sessions then Focusing
    else if Session(room, user, Paused) in sessions then Idle
    else if AllAway(r, room, user) then Away
    else Online
  }

  /** The stale cleanup never drops a live connection and never changes anyone's status. */
  lemma CleanupIsHarmless(r: Redis, room: RoomKey, sessions: set<Session>, at: RoomKey, user: UserId)
    requires Indexed(r)
    ensures forall k :: k in Stale(r, room) ==> !Live(r, k)
    ensures StatusOf(Cleaned(r, room), sessions, at, user) == StatusOf(r, sessions, at, user)
  {
    var t := Cleaned(r, room);
    assert t.conns == r.conns && t.now == r.now;
    assert forall k :: IsOf(t, k, user) <==> IsOf(r, k, user);
    if Connected(r, at, user) {
      var k: ConnKey :| k.of == at && IsOf(r, k, user);
      assert IsOf(t, k, user);
    }
  }

  // ---------------------------------------------------------------- what each step does to a connection

  /** What a step leaves of one connection. */
  predicate Leaves(r: Redis, t: Redis, step: Step, k: ConnKey) {
    match step
    case Write(ttl, w, user, away) =>
      if w == k then (Live(t, k) <==> ttl > 0) && k in t.conns && t.conns[k] == Entry(Present(user, away), r.now + ttl)
      else SameConn(r, t, k)
    case Refresh(ttl, w) =>
      if w == k && Live(r, k) then (Live(t, k) <==> ttl > 0) && k in t.conns
          && t.conns[k] == Entry(r.conns[k].value, r.now + ttl)
      else SameConn(r, t, k)
    case Unregister(w) => if w == k then !Live(t, k) else SameConn(r, t, k)
    case RemoveUser(room, user) => if k.of == room && IsOf(r, k, user) then !Live(t, k) else SameConn(r, t, k)
    case Cleanup(_) => SameConn(r, t, k)
    case Tick(d) => Live(t, k) <==> Live(r, k) && r.now + d < r.conns[k].expires
  }

  lemma WriteLeaves(r: Redis, step: Step, k: ConnKey)
    requires step.Write? || step.Tick? || step.Cleanup?
    ensures Leaves(r, Next(r, step), step, k)
  {
  }

  lemma RefreshLeaves(r: Redis, step: Step, k: ConnKey)
    requires step.Refresh? || step.Unregister?
    ensures Leaves(r, Next(r, step), step, k)
  {
  }

  lemma RemoveUserLeaves(r: Redis, room: RoomKey, user: UserId, k: ConnKey)
    requires Indexed(r) && OwnKeys(r)
    ensures Leaves(r, Next(r, RemoveUser(room, user)), RemoveUser(room, user), k)
  {
    UserRemovedConns(r, room, user);
    if k.of == room && IsOf(r, k, user) { assert k in Members(r, room); }
  }

  lemma UserRemovedConns(r: Redis, room: RoomKey, user: UserId)
    ensures UserRemoved(r, room, user).conns == r.conns - Targets(r, room, user)
        && UserRemoved(r, room, user).now == r.now
  {
  }

  /** Exactly which connections are live after a step, and what they say: a write makes its own live,
      a refresh prolongs a live one, unregistering ends one, removing a user ends that user's in that
      room, and nothing else touches any. */
  lemma LiveExactly(r: Redis, step: Step, k: ConnKey)
    requires Indexed(r) && OwnKeys(r)
    ensures Leaves(r, Next(r, step), step, k)
  {
    if step.RemoveUser? { RemoveUserLeaves(r, step.room, step.user, k); }
    else if step.Refresh? || step.Unregister? { RefreshLeaves(r, step, k); }
    else { WriteLeaves(r, step, k); }
  }

  predicate SameConn(r: Redis, t: Redis, k: ConnKey) {
    (k in r.conns <==> k in t.conns) && (k in r.conns ==> t.conns[k] == r.conns[k]) && t.now == r.now
  }

  // ---------------------------------------------------------------- what each step does to an index

  /** The connection says that it is this user's, and still counts. */
  predicate SaysUser(r: Redis, k: ConnKey, user: UserId) {
    Readable(r, k) && r.conns[k].value.user == user
  }

  predicate Readable(r: Redis, k: ConnKey) {
    k in r.conns && r.now < r.conns[k].expires && r.conns[k].value.Present?
  }

  /** Whether the step leaves `k` in the room's index. */
  predicate Lists(r: Redis, step: Step, room: RoomKey, k: ConnKey) {
    var listed := k in Members(r, room);
    match step
    case Write(ttl, w, _, _) => if room == w.of then ttl > 0 && (listed || k == w) else listed
    case Refresh(ttl, w) =>
      if room != w.of then listed
      else if w in r.conns && r.now < r.conns[w].expires then listed && ttl > 0
      else listed && k != w
    case Unregister(w) => listed && !(room == w.of && k == w)
    case RemoveUser(at, user) => listed && !(room == at && SaysUser(r, k, user))
    case Cleanup(at) => listed && (room == at ==> Readable(r, k))
    case Tick(d) => listed && r.now + d < r.indexes[room].expires
  }

  /** Until when a step lets the room's index stand. */
  function StandsUntil(r: Redis, step: Step, room: RoomKey): Time {
    if (step.Write? || (step.Refresh? && step.key in r.conns && r.now < r.conns[step.key].expires))
        && room == step.key.of then r.now + 2 * step.ttl
    else if room in r.indexes then r.indexes[room].expires
    else 0
  }

  ghost predicate IndexFollows(r: Redis, t: Redis, step: Step, room: RoomKey, k: ConnKey) {
    && (k in Members(t, room) <==> Lists(r, step, room, k))
    && (k in Members(t, room) ==> t.indexes[room].expires == StandsUntil(r, step, room))
  }

  lemma WriteLists(r: Redis, step: Step, room: RoomKey, k: ConnKey)
    requires step.Write? || step.Tick? || step.Unregister?
    ensures IndexFollows(r, Next(r, step), step, room, k)
  {
  }

  lemma RefreshLists(r: Redis, ttl: nat, w: ConnKey, room: RoomKey, k: ConnKey)
    ensures IndexFollows(r, Next(r, Refresh(ttl, w)), Refresh(ttl, w), room, k)
  {
  }

  lemma RemoveUserLists(r: Redis, at: RoomKey, user: UserId, room: RoomKey, k: ConnKey)
    ensures IndexFollows(r, Next(r, RemoveUser(at, user)), RemoveUser(at, user), room, k)
  {
    assert IsOf(r, k, user) <==> SaysUser(r, k, user);
    var targets := Targets(r, at, user);
    var left := r.(conns := r.conns - targets);
    assert Members(left, room) == Members(r, room);
    if targets != {} && Lists(r, RemoveUser(at, user), room, k) { SRemMembers(left, at, targets, room, k); }
    if room == at && k in Members(r, room) && SaysUser(r, k, user) { assert k in targets; }
  }

  lemma CleanupLists(r: Redis, at: RoomKey, room: RoomKey, k: ConnKey)
    ensures IndexFollows(r, Next(r, Cleanup(at)), Cleanup(at), room, k)
  {
    assert Parses(r, k) <==> Readable(r, k);
    if Lists(r, Cleanup(at), room, k) { SRemMembers(r, at, Stale(r, at), room, k); }
    if room == at && k in Members(r, room) && !Readable(r, k) { assert k in Stale(r, at); }
  }

  /** Exactly which connections a room's index lists after a step, and until when: a write lists its own,
      only a refresh that finds no key, an unregistering, the removal of its user, a cleanup that finds
      nothing to read, and the index's expiry unlist one. */
  lemma IndexExactly(r: Redis, step: Step, room: RoomKey, k: ConnKey)
    ensures IndexFollows(r, Next(r, step), step, room, k)
  {
    match step
    case Refresh(ttl, w) => RefreshLists(r, ttl, w, room, k);
    case RemoveUser(at, user) => RemoveUserLists(r, at, user, room, k);
    case Cleanup(at) => CleanupLists(r, at, room, k);
    case _ => WriteLists(r, step, room, k);
  }

  // ---------------------------------------------------------------- leases

  /** What a connection last said, and until when it counts. */
  datatype Lease = NoLease | Lease(user: UserId, away: bool, until: Time)

  function Clock(steps: seq<Step>): Time {
    if steps == [] then 0
    else
      var last := steps[|steps| - 1];
      Clock(steps[..|steps| - 1]) + (if last.Tick? then last.d else 0)
  }

  predicate Runs(l: Lease, now: Time) { l.Lease? && now < l.until }

  /** One step of a connection's lease: a write opens it, a refresh prolongs one that still runs,
      unregistering and the removal of its user end it. */
  function LeaseStep(l: Lease, now: Time, step: Step, k: ConnKey): Lease {
    match step
    case Write(ttl, w, user, away) => if w == k then Lease(user, away, now + ttl) else l
    case Refresh(ttl, w) => if w == k && Runs(l, now) then l.(until := now + ttl) else l
    case Unregister(w) => if w == k then NoLease else l
    case RemoveUser(room, user) => if k.of == room && Runs(l, now) && l.user == user then NoLease else l
    case _ => l
  }

  /** The lease a run leaves a connection, from the steps alone. */
  function LeaseOf(steps: seq<Step>, k: ConnKey): Lease {
    if steps == [] then NoLease
    else LeaseStep(LeaseOf(steps[..|steps| - 1], k), Clock(steps[..|steps| - 1]), steps[|steps| - 1], k)
  }

  ghost predicate Holds(r: Redis, l: Lease, k: ConnKey) {
    && (Live(r, k) <==> Runs(l, r.now))
    && (Live(r, k) ==> r.conns[k] == Entry(Present(l.user, l.away), l.until))
  }

  lemma LeasesFollow(r: Redis, t: Redis, step: Step, l: Lease, k: ConnKey)
    requires Leaves(r, t, step, k) && Holds(r, l, k) && t.now == r.now + (if step.Tick? then step.d else 0)
    requires step.Tick? ==> t.conns == r.conns
    ensures Holds(t, LeaseStep(l, r.now, step, k), k)
  {
  }

  lemma StepHoldsLease(r: Redis, step: Step, l: Lease, k: ConnKey)
    requires Indexed(r) && OwnKeys(r) && Holds(r, l, k)
    ensures Holds(Next(r, step), LeaseStep(l, r.now, step, k), k)
  {
    LiveExactly(r, step, k);
    TimeMoves(r, step);
    LeasesFollow(r, Next(r, step), step, l, k);
  }

  lemma TimeMoves(r: Redis, step: Step)
    ensures Next(r, step).now == r.now + (if step.Tick? then step.d else 0)
    ensures step.Tick? ==> Next(r, step).conns == r.conns
  {
  }

  /** In every run with compatible TTLs a connection is live, and says what it says, exactly as long as
      its lease runs: the keys, the index and its cleanup make no difference to who is present. */
  lemma {:induction false} LiveExactlyWhileLeased(steps: seq<Step>, ttls: set<nat>, k: ConnKey)
    requires Compatible(ttls) && Uses(steps, ttls)
    ensures Exec(steps).now == Clock(steps) && Holds(Exec(steps), LeaseOf(steps, k), k)
  {
    if steps != [] {
      var before, step := steps[..|steps| - 1], steps[|steps| - 1];
      LiveExactlyWhileLeased(before, ttls, k);
      ExecInv(before, ttls);
      StepHoldsLease(Exec(before), step, LeaseOf(before, k), k);
      TimeMoves(Exec(before), step);
    }
  }

  // ---------------------------------------------------------------- what a status means

  /** A status in terms of whether the user has a connection that is not away, one that is away, a
      running session and a paused one. */
  predicate Means(status: Status, attentive: bool, away: bool, running: bool, paused: bool) {
    && (status == Offline <==> !attentive && !away)
    && (status == Focusing <==> (attentive || away) && running)
    && (status == Idle <==> (attentive || away) && !running && paused)
    && (status == Away <==> !attentive && away && !running && !paused)
    && (status == Online <==> attentive && !running && !paused)
  }

  /** The key is unexpired, of that room, and says that user and that. */
  predicate Says(r: Redis, k: ConnKey, room: RoomKey, user: UserId, away: bool) {
    k.of == room && k in r.conns && r.now < r.conns[k].expires && r.conns[k].value == Present(user, away)
  }

  ghost predicate SomeKeySays(r: Redis, room: RoomKey, user: UserId, away: bool) {
    exists k :: Says(r, k, room, user, away)
  }

  /** The status of the user by the keys and the session rows themselves. */
  ghost predicate IsStatus(status: Status, r: Redis, sessions: set<Session>, room: RoomKey, user: UserId) {
    Means(status, SomeKeySays(r, room, user, false), SomeKeySays(r, room, user, true),
          Session(room, user, Running) in sessions, Session(room, user, Paused) in sessions)
  }

  lemma SayingIsOf(r: Redis, room: RoomKey, user: UserId, k: ConnKey)
    ensures k.of == room && IsOf(r, k, user) <==> Says(r, k, room, user, true) || Says(r, k, room, user, false)
    ensures Says(r, k, room, user, true) ==> r.conns[k].value.away
    ensures Says(r, k, room, user, false) ==> !r.conns[k].value.away
  {
  }

  lemma StatusExactly(r: Redis, sessions: set<Session>, room: RoomKey, user: UserId)
    ensures IsStatus(StatusOf(r, sessions, room, user), r, sessions, room, user)
  {
    forall k { SayingIsOf(r, room, user, k); }
    if Connected(r, room, user) {
      var k: ConnKey :| k.of == room && IsOf(r, k, user);
      assert Says(r, k, room, user, true) || Says(r, k, room, user, false);
    }
    if SomeKeySays(r, room, user, false) {
      var k :| Says(r, k, room, user, false);
      assert k.of == room && IsOf(r, k, user) && !r.conns[k].value.away;
    }
    if SomeKeySays(r, room, user, true) {
      var k :| Says(r, k, room, user, true);
      assert k.of == room && IsOf(r, k, user);
    }
    if Connected(r, room, user) && !AllAway(r, room, user) {
      var k: ConnKey :| k.of == room && IsOf(r, k, user) && !r.conns[k].value.away;
      assert Says(r, k, room, user, false);
    }
  }

  /** The connection's lease runs, of that room, and says that user and that. */
  predicate LeaseSays(steps: seq<Step>, k: ConnKey, room: RoomKey, user: UserId, away: bool) {
    var l := LeaseOf(steps, k);
    k.of == room && l.Lease? && Clock(steps) < l.until && l.user == user && l.away == away
  }

  ghost predicate SomeLeaseSays(steps: seq<Step>, room: RoomKey, user: UserId, away: bool) {
    exists k :: LeaseSays(steps, k, room, user, away)
  }

  lemma LeasesAreKeys(steps: seq<Step>, ttls: set<nat>, room: RoomKey, user: UserId, away: bool)
    requires Compatible(ttls) && Uses(steps, ttls)
    ensures SomeLeaseSays(steps, room, user, away) <==> SomeKeySays(Exec(steps), room, user, away)
  {
    forall k ensures LeaseSays(steps, k, room, user, away) <==> Says(Exec(steps), k, room, user, away) {
      LiveExactlyWhileLeased(steps, ttls, k);
    }
  }

  /** In every run with compatible TTLs a user's status follows from the steps of the run and the
      session rows alone: which leases run and what they last said. */
  lemma StatusFollowsLeases(steps: seq<Step>, ttls: set<nat>, sessions: set<Session>, room: RoomKey, user: UserId)
    requires Compatible(ttls) && Uses(steps, ttls)
    ensures Means(StatusOf(Exec(steps), sessions, room, user),
                  SomeLeaseSays(steps, room, user, false), SomeLeaseSays(steps, room, user, true),
                  Session(room, user, Running) in sessions, Session(room, user, Paused) in sessions)
  {
    StatusExactly(Exec(steps), sessions, room, user);
    LeasesAreKeys(steps, ttls, room, user, false);
    LeasesAreKeys(steps, ttls, room, user, true);
  }
}
