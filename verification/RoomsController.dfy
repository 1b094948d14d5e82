/** The rooms controller's exits: what it announces, in order, once a leave, a removal or a deletion has
    come back. The service results are parameters; a failed call announces nothing. */
module RoomsController {
  import opened Wrappers
  import opened Eviction

  datatype Event = RoomState | MembershipUpdated

  datatype Effect =
    | ToRoom(ref: RoomRef, event: Event, version: nat)
    | ToUser(app: AppId, user: UserId, event: Event, roomVersion: Option<nat>)
    | Evict(seat: Seat)

  /** The evictions of a log, with repetitions. */
  function Evictions(log: seq<Effect>): multiset<Seat> {
    if log == [] then multiset{}
    else Evictions(log[..|log| - 1]) + (if log[|log| - 1].Evict? then multiset{log[|log| - 1].seat} else multiset{})
  }

  /** Nobody is told a room's new state before the evictions that belong to it are out. */
  predicate EvictsFirst(log: seq<Effect>) {
    forall i, j :: 0 <= i < j < |log| && log[i].ToRoom? ==> !log[j].Evict?
  }

  /** One user's part of a deletion. */
  function Farewell(ref: RoomRef, user: UserId, version: nat): seq<Effect> {
    [ToUser(ref.app, user, MembershipUpdated, Some(version)), Evict(Seat(ref.app, ref.room, user))]
  }

  function Farewells(ref: RoomRef, users: seq<UserId>, version: nat): seq<Effect> {
    if users == [] then []
    else Farewells(ref, users[..|users| - 1], version) + Farewell(ref, users[|users| - 1], version)
  }

  /** What a leave or a removal announces: one eviction of the seat, one notice to its user and one
      room state, and the eviction before the room state. */
  ghost predicate Exits(log: seq<Effect>, seat: Seat, version: nat) {
    && multiset(log) == multiset{
         Evict(seat), ToUser(seat.app, seat.user, MembershipUpdated, Some(version)),
         ToRoom(RoomRef(seat.app, seat.room), RoomState, version)}
    && EvictsFirst(log)
  }

  class Controller {
    var log: seq<Effect>

    constructor ()
      ensures log == []
    {
      log := [];
    }

    method Announce(e: Effect)
      modifies this
      ensures log == old(log) + [e]
    {
      log := log + [e];
    }

    method Leave(ref: RoomRef, user: UserId, version: nat)
      modifies this
      ensures old(log) <= log && Exits(log[|old(log)|..], Seat(ref.app, ref.room, user), version)
    {
      Announce(Evict(Seat(ref.app, ref.room, user)));
      Announce(ToUser(ref.app, user, MembershipUpdated, Some(version)));
      Announce(ToRoom(ref, RoomState, version));
      assert log[|old(log)|..] == [Evict(Seat(ref.app, ref.room, user)),
                                   ToUser(ref.app, user, MembershipUpdated, Some(version)),
                                   ToRoom(ref, RoomState, version)];
    }

    method RemoveMember(ref: RoomRef, user: UserId, version: nat)
      modifies this
      ensures old(log) <= log && Exits(log[|old(log)|..], Seat(ref.app, ref.room, user), version)
    {
      Announce(ToUser(ref.app, user, MembershipUpdated, Some(version)));
      Announce(Evict(Seat(ref.app, ref.room, user)));
      Announce(ToRoom(ref, RoomState, version));
      assert log[|old(log)|..] == [ToUser(ref.app, user, MembershipUpdated, Some(version)),
                                   Evict(Seat(ref.app, ref.room, user)),
                                   ToRoom(ref, RoomState, version)];
    }

    /** Says farewell to the listed members one by one. */
    method Delete(ref: RoomRef, users: seq<UserId>, version: nat)
      modifies this
      ensures log == old(log) + Farewells(ref, users, version)
    {
      for i := 0 to |users|
        invariant log == old(log) + Farewells(ref, users[..i], version)
      {
        assert users[..i + 1][..i] == users[..i];
        Announce(ToUser(ref.app, users[i], MembershipUpdated, Some(version)));
        Announce(Evict(Seat(ref.app, ref.room, users[i])));
      }
      assert users[..|users|] == users;
    }
  }

  // ---------------------------------------------------------------- against the world of evictions

  /** The listed users are the room's members, each once. */
  ghost predicate Lists(users: seq<UserId>, seats: set<Seat>, ref: RoomRef) {
    && (forall i, j :: 0 <= i < j < |users| ==> users[i] != users[j])
    && (forall s :: s in SeatsOf(seats, ref) <==> s.app == ref.app && s.room == ref.room && s.user in users)
  }

  lemma EvictionsAppend(log: seq<Effect>, user: Effect, evict: Effect)
    requires !user.Evict? && evict.Evict?
    ensures Evictions(log + [user, evict]) == Evictions(log) + multiset{evict.seat}
  {
    var all := log + [user, evict];
    assert all[..|all| - 1] == log + [user];
    assert (log + [user])[..|log|] == log;
  }

  lemma {:induction false} FarewellsEvict(ref: RoomRef, users: seq<UserId>, version: nat, seat: Seat)
    requires forall i, j :: 0 <= i < j < |users| ==> users[i] != users[j]
    ensures Evictions(Farewells(ref, users, version))[seat]
            == if seat.app == ref.app && seat.room == ref.room && seat.user in users then 1 else 0
  {
    if users != [] {
      var rest, last := users[..|users| - 1], users[|users| - 1];
      FarewellsEvict(ref, rest, version, seat);
      EvictionsAppend(Farewells(ref, rest, version),
                      ToUser(ref.app, last, MembershipUpdated, Some(version)), Evict(Seat(ref.app, ref.room, last)));
      assert forall u :: u in users <==> u in rest || u == last;
    }
  }

  /** A deletion publishes exactly the evictions the world model holds pending for it: one for every
      member listed, whichever order the list has. */
  lemma DeletionPublishesPendingEvictions(w: World, ref: RoomRef, users: seq<UserId>, version: nat)
    requires ref !in w.deleted && Lists(users, w.seats, ref)
    ensures Next(w, DeleteRoom(ref)).outbox == w.outbox + Evictions(Farewells(ref, users, version))
  {
    forall seat ensures Evictions(Farewells(ref, users, version))[seat] == multiset(SeatsOf(w.seats, ref))[seat] {
      FarewellsEvict(ref, users, version, seat);
      assert seat in SeatsOf(w.seats, ref) <==> seat.app == ref.app && seat.room == ref.room && seat.user in users;
    }
    assert Evictions(Farewells(ref, users, version)) == multiset(SeatsOf(w.seats, ref));
  }

  lemma {:induction false} EvictionsAreEvictEffects(log: seq<Effect>, seat: Seat)
    ensures Evictions(log)[seat] == multiset(log)[Evict(seat)]
  {
    if log != [] {
      var n := |log| - 1;
      EvictionsAreEvictEffects(log[..n], seat);
      assert log == log[..n] + [log[n]];
    }
  }

  /** Whatever log a leave or a removal leaves by its contract: it publishes exactly the one eviction
      the world model holds pending for the exit, and no room state before it. */
  lemma ExitPublishesPendingEviction(w: World, seat: Seat, version: nat, log: seq<Effect>)
    requires IsMember(w.seats, w.deleted, seat) && Exits(log, seat, version)
    ensures Evictions(log) == multiset{seat} && Next(w, Exit(seat)).outbox == w.outbox + Evictions(log)
    ensures forall i, j :: 0 <= i < |log| && 0 <= j < |log| && log[i].Evict? && log[j].ToRoom? ==> i < j
  {
    forall s ensures Evictions(log)[s] == multiset{seat}[s] {
      EvictionsAreEvictEffects(log, s);
      var state := ToRoom(RoomRef(seat.app, seat.room), RoomState, version);
      var told := ToUser(seat.app, seat.user, MembershipUpdated, Some(version));
      assert multiset{Evict(seat), told, state}[Evict(s)] == if s == seat then 1 else 0;
    }
    assert Evictions(log) == multiset{seat};
  }
}
