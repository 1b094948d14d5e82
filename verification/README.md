# Study room server: verified model

The study room server runs as several stateless API instances over PostgreSQL tables, Redis keys
that expire, and Redis publish/subscribe. Most of what it promises depends on how the steps of
concurrent calls interleave. This project models those parts as state machines and classes and
proves their guarantees over every run; three self-contained parts (the contract compiler, the rate
limiter and the cursor pages) are modelled as programs with a specification.

`dafny verify dfyconfig.toml` checks everything.

| file | what it models |
|---|---|
| `RoomsDb`, `RoomsTables` | the transactions of the rooms service: specifications, and the statements run against mutable tables |
| `RoomsRuns`, `RoomsGuarantees`, `RoomsEffects`, `RoomsAudit`, `RoomsDeletion`, `RoomsFailures`, `JoinRequests` | concurrent calls whose guards are stale when their transactions commit, and what holds in every run |
| `Eviction`, `WorldExactly`, `Gateway`, `RoomsController` | removal, publication, delivery and socket handlers across instances; the handlers and the controller as classes |
| `Idempotency`, `IdempotentRuns`, `IdempotentOutcomes`, `Canonical`, `Retention` | insert-or-replay creation, canonical request trees, the daily cleanup |
| `Presence`, `PresenceService` | the Redis room index over expiring connection keys; the service as a class |
| `Sessions` | the study-session compare-and-set machine and its table |
| `ContractCodec`, `ContractRoundTrip`, `ContractEnvelope`, `ContractAcceptance` | the emitted Dart codec: compiler, evaluator, round trips, accepted documents |
| `RequestDtos` | the emitted validator decorators against the JSON Schema meaning |
| `RateLimit`, `Pages`, `AppCache`, `ExpiryTimer`, `Keys` | the fixed-window limiter, cursor pages, the application cache, the token timer, key encodings |

How runs are modelled. A run is a sequence of steps from the empty state, and `Exec` folds it; a step
that does not apply changes nothing, so a statement about every sequence is a statement about every
interleaving. In the rooms machine each guard read, each single statement, each transaction and each
snapshot read after one is one step. In the eviction world each service method and each gateway handler is one step, and publication
and every per-instance delivery are steps of their own.

What is assumed of the environment: a transaction or a single statement is atomic and enforces its
constraints (the primary keys, the one-owner index and the deferred owner trigger, the one-pending and
one-active indexes); random ids are fresh, so a call's id doubles as the id of the row it inserts;
SHA-256 is injective, so a digest is the canonical request itself; `cursor` with `skip: 1` yields the
rows strictly after the cursor; publications are delivered to every instance unless a step loses them.

Results where the code does less than one might expect, each with a concrete run or input and the
exact condition or step that causes it:

* A decided join request can change: cancelling is an unguarded find-then-update
  (`JoinRequests.ADecisionCanBeLost`, `JoinRequests.SettledRowChangesOnlyByStaleCancel`).
* A removal, leave or transfer can fail after it has taken effect: exactly when its room is deleted
  between its commit and its snapshot (`RoomsEffects.OneEffectPerCall`,
  `RoomsDeletion.FailedLeaveTakesEffect`).
* A deletion lists the members before its transaction, so it does not evict exactly those who join in
  between and stay (`RoomsDeletion.DeletionMissesExactly`, `RoomsDeletion.DeletionCanMissAMember`).
* Request canonicalization sorts keys with the locale's collation; it decides equality up to key order
  if and only if the collation separates distinct keys (`Canonical.DecidesAllIffSeparates`).
* Instances configured with presence TTLs more than a factor of two apart lose live connections from
  the index, and no others do (`Presence.IndexedIffCompatible`).
* Generated validators never check an enumeration on a property that is not a string, let a null
  through that a nullable enumeration does not list, fill a missing required property from its
  initializer and count initializers towards a minimum; and they refuse a body for an optional
  property's invalid initializer. In the modelled fragment there is no other difference
  (`RequestDtos.ClassAgreesUnlessLapse`).
* A reference refuses a null that its schema would decode in place exactly when the reference is
  required and the schema nullable (`ContractRoundTrip.NullableAliasRefusesNull`).
* A rate-limited request that reaches Redis at or after its counter's deadline restarts the count of
  its minute, so a minute admits more than its positive limit exactly when its counter restarted and
  there were more requests than the limit (`RateLimit.MinuteAdmitsMin`, `RateLimit.EveryLateRequestIsAdmitted`).
* A cache fill that overlaps a change can outlive the change's invalidation, exactly when it stores a
  value the database no longer has with nothing pending (`AppCache.CurrentIffUnbroken`,
  `AppCache.LateStoreOutlivesInvalidation`); staleness stays bounded all the same.

## Model

| member | source | states |
|---|---|---|
| RoomsDb.OwnerCount | server/prisma/migrations/20260811000100_tenant_integrity_owner_constraints/migration.sql:187-210 | the trigger's count of OWNER rows is one exactly when one user and no other owns the room |
| RoomsDb.TransferNeedsOnlyTheIndex | server/src/rooms/rooms.service.ts:288-308 | from any one-owner state the immediate index alone decides: a transfer commits iff caller and heir hold rows and one of them is the owner, leaves the heir sole owner, and never reaches the deferred check |
| RoomsDb.ApprovalKeepsOwners | server/src/rooms/rooms.service.ts:204-233 | a decision never changes who owns the room; an owner whose own request is approved is not demoted |
| RoomsDb.RemovalNeedsTheTrigger | server/src/rooms/rooms.service.ts:239-280 | removal and leave commit iff the row is a MEMBER row at commit, whatever the stale guard saw; the statements alone would let an owner go |
| RoomsDb.RacingTransfersAgree | server/src/rooms/rooms.service.ts:282-308 | of two transfers that saw the same owner the second commits only with the same heir |
| RoomsEffects.CreationEffect | server/src/rooms/rooms.service.ts:361-397 | creation commits iff the id is new, and the room then holds its creator as owner and nobody else |
| RoomsEffects.DecisionEffect | server/src/rooms/rooms.service.ts:204-233 | a decision commits iff the request is pending in that room and settles exactly that row; an approval seats the requester and keeps a role already held; a rejection touches no seat and no room |
| RoomsEffects.DeletionEffect | server/src/rooms/rooms.service.ts:314-329 | deletion commits iff the room exists, keeps its seats and ends every membership read |
| RoomsEffects.EffectOfMove | server/src/rooms/rooms.service.ts:113-331 | a step changes the database only when it commits or makes a successful answer; the snapshot after a removal, leave or transfer fails iff the room is deleted |
| RoomsEffects.OneEffectPerCall | server/src/rooms/rooms.service.ts:239-312 | in every run a call changes the database at most once; a failed call has changed it iff its transaction committed and its snapshot then found the room deleted |
| RoomsEffects.DeletionIsFinal | server/src/rooms/rooms.service.ts:314-331 | a deleted room stays deleted in every continuation |
| RoomsEffects.LateCallsAreTurnedAway | server/src/rooms/rooms.service.ts:333-359 | in every run a call that begins on a room after its deletion, other than the cancellation of one's own request, fails at its first read and changes nothing |
| RoomsEffects.AskersWereOutsiders | server/src/rooms/rooms.service.ts:113-137 | every ask that was answered with a row, or got as far as looking for one, read its room open at its first step and its user outside at its second |
| RoomsAudit.LogAlwaysNamesOwner | server/src/rooms/rooms.service.ts:194-397 | in every state of every run a user owns a room iff its last creation or transfer entry on the audit log names them; approvals, removals, leaves and deletions never move ownership |
| RoomsFailures.CallStepFollows | server/src/rooms/rooms.service.ts:113-359 | in every run a call's next step fails exactly when a table of causes in rows refuses it (missing or deleted room, no membership, not the owner, no pending row, seat or role gone, room deleted before the snapshot), and otherwise goes on as the table says |
| RoomsFailures.FailuresHaveCause | server/src/rooms/rooms.service.ts:113-359 | every failed call of every run was refused by that table at one of its own steps |
| RoomsFailures.LosersAreAnswered | server/src/rooms/rooms.service.ts:134-145 | an ask that lost the insert race, or looks up before it, is answered with the row that waits at its lookup |
| RoomsFailures.FailedAsksHaveCause | server/src/rooms/rooms.service.ts:113-146 | a failed ask found its room not open at its first read, or its user a member at its second, or met a row at its insert and none waiting at its later lookup |
| RoomsDeletion.ListingIsReal | server/src/rooms/rooms.service.ts:316-319 | a deletion's list is the member set in the state its listing step read |
| RoomsDeletion.DeletionReplies | server/src/rooms/rooms.service.ts:314-331 | a deletion's reply names the members of its listing step and the version its own later commit gave the room |
| RoomsDeletion.SeatHistory | server/src/rooms/rooms.service.ts:194-280 | between any two states of a run a user is seated iff they were and never left, or joined and stayed |
| RoomsDeletion.DeletionMissesExactly | server/src/rooms/rooms.service.ts:314-331 | a member at the commit is missing from the list iff they were not seated at the listing and joined in between to stay; a listed user is no member any more iff they left in between and did not rejoin |
| RoomsDeletion.DeletionCanMissAMember | server/src/rooms/rooms.service.ts:316-330 | a concrete run with such a missed member |
| RoomsDeletion.FailedLeaveTakesEffect | server/src/rooms/rooms.service.ts:265-280 | a concrete run in which a leave fails after it has taken effect and nobody evicts the leaver |
| RoomsTables.Tables.CreateRoom | server/src/rooms/rooms.service.ts:361-397 | creation statement by statement leaves the specified database, or rolls back to the old one |
| RoomsTables.Tables.InsertJoinRequest | server/src/rooms/rooms.service.ts:130-137 | the insert succeeds iff the partial index has no pending row for room and user |
| RoomsTables.Tables.CancelJoinRequest | server/src/rooms/rooms.service.ts:183-192 | the cancellation overwrites the row it found whatever its status has become |
| RoomsTables.Tables.DecideJoinRequest | server/src/rooms/rooms.service.ts:204-233 | decision, membership upsert, version bump and audit row together, or nothing |
| RoomsTables.Tables.DeleteSeat | server/src/rooms/rooms.service.ts:239-280 | the batch of removal or leave together with its commit-time owner check, or nothing |
| RoomsTables.Tables.TransferOwnership | server/src/rooms/rooms.service.ts:282-312 | demotion, promotion under the index, bump and audit row together, or nothing |
| RoomsTables.Tables.DeleteRoom | server/src/rooms/rooms.service.ts:314-331 | tombstone, bump and audit row together, and the version it reports |
| RoomsRuns.MoveKeeps | server/src/rooms/rooms.service.ts:113-331 | every single step of every call, taken with stale guards in any reachable state, keeps the table invariants, touches only its own room, and only appends to the audit log |
| RoomsRuns.NextKeepsInv | server/src/rooms/rooms.service.ts:113-331 | one interleaved step keeps the invariant; rooms and requests keep their application and subject |
| RoomsRuns.ExecInv | server/src/rooms/rooms.service.ts:113-331 | the invariant holds after every run |
| RoomsGuarantees.EveryRoomHasExactlyOneOwner | server/test/database-integrity.spec.ts:74-82 | in every state of every run each room has exactly one owner |
| RoomsGuarantees.AtMostOnePendingRequest | server/prisma/migrations/20260809000100_v1_foundation/migration.sql:65 | two pending requests of one room and user are the same row, in every run |
| RoomsGuarantees.TenantsNeverMix | server/test/database-integrity.spec.ts:60-66 | memberships and requests belong to their room's application, in every run |
| RoomsGuarantees.StepAndVersion | server/src/rooms/rooms.service.ts:194-331 | a structural commit raises its room's version by exactly one; every other step leaves row and seats alone |
| RoomsGuarantees.VersionCountsCommits | server/src/rooms/rooms.service.ts:194-331 | version minus one counts the structural commits of the run |
| RoomsGuarantees.EqualVersionsShowEqualRooms | server/src/rooms/rooms.service.ts:194-331 | two snapshots of a room with equal version have the same members, roles and deletion state |
| RoomsGuarantees.MoveAudits | server/src/rooms/rooms.service.ts:194-397 | which audit entry each step appends, and for whom |
| RoomsGuarantees.GuardedCallersWereOwners | server/src/rooms/rooms.service.ts:341-345 | a call past its owner guard belongs to someone who owned the room in an earlier state |
| RoomsGuarantees.AuditedActorsWereOwners | server/src/rooms/rooms.service.ts:204-331 | the actor of every audit entry but creation owned that room in a state before the entry was appended |
| RoomsGuarantees.EveryMemberWasAdmitted | server/src/rooms/rooms.service.ts:194-237 | every member created the room or has an approval entry |
| RoomsGuarantees.MembershipProvenance | server/src/rooms/rooms.service.ts:194-280 | names that entry; an approval's actor owned the room before it was appended |
| RoomsGuarantees.SeatStep | server/src/rooms/rooms.service.ts:194-280 | a seat appears only by a join and disappears only by an exit of that user |
| RoomsGuarantees.JoinsCoverExits | server/src/rooms/rooms.service.ts:361-397 | per room and user, joins are at least exits plus one while a member |
| JoinRequests.CreatedRepliesMatchRows | server/src/rooms/rooms.service.ts:130-146 | `created: true` replies and request rows match one to one |
| JoinRequests.JoinReplyWasPending | server/src/rooms/rooms.service.ts:113-146 | every reply names a row of that room and user, pending in the state the call answered in (or that its insert made) and left pending by the answer |
| JoinRequests.PendingLasts | server/src/rooms/rooms.service.ts:183-237 | from any state of a run a pending row is still pending iff no step since decides it or cancels it |
| JoinRequests.ConcurrentAsksConverge | server/src/rooms/rooms.service.ts:113-146 | two calls of one user about one room answer with the same id iff no step between their two answers decides or cancels the earlier one's row |
| JoinRequests.RowsKeepTheirSubject | server/src/rooms/rooms.service.ts:113-237 | rows never disappear nor change room, application or user |
| JoinRequests.SettledRowChangesOnlyByStaleCancel | server/src/rooms/rooms.service.ts:183-192 | a settled row changes at a step iff that step is the update of a cancel call that found it earlier, and then becomes cancelled |
| JoinRequests.ADecisionCanBeLost | server/src/rooms/rooms.service.ts:183-192 | a concrete run in which an approved request ends up cancelled |
| Eviction.JoinedSource | server/src/realtime/realtime.gateway.ts:110-124 | a joined room was joined before the step, or is entered by a subscription that read a membership |
| Eviction.NextKeepsInv | server/src/realtime/realtime.gateway.ts:97-203 | every service method, handler, publication and delivery keeps the world invariant |
| Eviction.EveryRunKeepsInv | server/src/realtime/realtime.gateway.ts:97-203 | in every run a joined room is a current membership, or its eviction is still to be published or undelivered to that instance; topics and live presence are among the joined rooms |
| Eviction.DeliverySilences | server/src/realtime/realtime.gateway.ts:189-203 | delivering an eviction leaves the user without joined room, topic or presence on that instance |
| Eviction.QuietMeansSilent | server/src/rooms/rooms.controller.ts:141-181 | a user who is no member, with nothing of theirs pending, gets no room event |
| Eviction.SilenceStep | server/src/realtime/realtime.gateway.ts:110-124 | one step breaks silence only by re-admission |
| Eviction.SilenceLasts | server/src/realtime/realtime.gateway.ts:97-203 | silence lasts over every continuation without re-admission |
| Eviction.JoinedExactly | server/src/realtime/realtime.gateway.ts:110-203 | a connected socket's rooms and topics change exactly by its own subscription, unsubscription and eviction, its topics also by a pending leave message for its user and room |
| WorldExactly.SeatsExactly | server/src/rooms/rooms.service.ts:239-397 | seats change exactly by admission and a member's exit, rooms exactly by deletion |
| WorldExactly.SocketsExactly | server/src/realtime/realtime.gateway.ts:84-107 | sockets come and go exactly by their own connection and disconnection |
| WorldExactly.PresenceExactly | server/src/realtime/realtime.gateway.ts:97-203 | in every run, exactly when a presence key is there after an action: renewed by its own socket only, ended only by its own socket, its own user's exit or eviction on that instance, its room's deletion or its expiry; every other key stays |
| WorldExactly.OutboxExactly | server/src/rooms/rooms.controller.ts:141-181 | exactly which actions put an eviction out or publish one |
| WorldExactly.MessagesExactly | server/src/realtime/realtime.publisher.ts:53-59 | exactly which messages a publication adds and a delivery takes |
| Eviction.PresenceShowsMembers | server/src/rooms/rooms.service.ts:239-331 | in every run, at every moment, a live presence key belongs to a current member of an undeleted room |
| Eviction.EvictionAwaitsDelivery | server/src/realtime/realtime.publisher.ts:53-59 | a published eviction waits at every instance, in every continuation, until it is delivered there |
| Eviction.LeaveEndsEventsForGood | server/src/realtime/realtime.publisher.ts:54 | a delivered topic leave keeps the room's events from each of the user's sockets in every continuation until that socket subscribes again |
| Eviction.DrainingSilences | server/src/realtime/realtime.gateway.ts:189-203 | from every state, publishing and delivering what is pending for someone who is no member silences their sockets |
| Gateway.RealtimeGateway.SubscribeRoom | server/src/realtime/realtime.gateway.ts:110-124 | enters topic, joined set and presence, or refuses a non-member and changes nothing |
| Gateway.RealtimeGateway.UnsubscribeRoom | server/src/realtime/realtime.gateway.ts:127-138 | drops exactly that room of that socket |
| Gateway.RealtimeGateway.SetAway | server/src/realtime/realtime.gateway.ts:141-165 | which of the three answers is given and that only a member's key is rewritten |
| Gateway.RealtimeGateway.HandleRoomEviction | server/src/realtime/realtime.gateway.ts:189-203 | the loop over sockets, in any order, is the world's delivery action; presence is republished iff a connection was hit |
| Gateway.RealtimeGateway.HandleDisconnect | server/src/realtime/realtime.gateway.ts:97-107 | the loop over joined rooms unregisters all of the socket's keys and nothing else |
| Gateway.HandlerActsOnItsInstance | server/src/realtime/realtime.gateway.ts:189-203 | running the handler on one instance's sockets is the delivery on the whole world |
| RoomsController.Controller.Leave | server/src/rooms/rooms.controller.ts:143-148 | announces exactly one eviction, one notice and one room state, and the eviction before the room state |
| RoomsController.Controller.RemoveMember | server/src/rooms/rooms.controller.ts:152-160 | the same for a removal |
| RoomsController.Controller.Delete | server/src/rooms/rooms.controller.ts:175-181 | the loop says farewell to each listed member in turn |
| RoomsController.FarewellsEvict | server/src/rooms/rooms.controller.ts:175-181 | the loop evicts every listed member exactly once and nobody else |
| RoomsController.DeletionPublishesPendingEvictions | server/src/rooms/rooms.controller.ts:175-181 | a deletion publishes exactly the evictions the world model holds pending for it |
| RoomsController.ExitPublishesPendingEviction | server/src/rooms/rooms.controller.ts:143-160 | every log a leave or removal may leave publishes exactly the eviction the world model holds pending for the exit, and room state only after it |
| Idempotency.CommitKeepsAudit | server/src/common/idempotency.service.ts:50-64 | a creation commits only when the scope's previous creation is more than a day old |
| Idempotency.TransactKeepsInv | server/src/common/idempotency.service.ts:50-71 | insert-and-create, unique violation and callback failure all keep the invariant |
| Idempotency.LookupKeepsInv | server/src/common/idempotency.service.ts:72-85 | the separate record lookup keeps it, whatever happened in between |
| Idempotency.NextKeepsInv | server/src/common/idempotency.service.ts:46-97 | every step of every call, of retention and of the clock keeps it |
| Idempotency.ExecInv | server/src/common/idempotency.service.ts:46-97 | it holds after every run |
| Idempotency.CreationsAreADayApart | server/src/operations/retention.service.ts:19-21 | two creations under one application, user, operation and key are more than 24 hours apart |
| Idempotency.CreatedRepliesMatchEntries | server/src/common/idempotency.service.ts:65-71 | exactly one audit entry for each `created: true` reply, and conversely |
| Idempotency.PublishedAtMostOnce | server/src/chat/chat.controller.ts:36-51 | every resource is published at most once, and only after its creating reply |
| Idempotency.RepliesNameTheirCreation | server/src/common/idempotency.service.ts:82-95 | every successful reply carries the resource of a creation with its scope and its request |
| Idempotency.RetriesAgree | server/src/common/idempotency.service.ts:46-97 | replies of one scope within a day of each other's creation carry the same resource and the same request |
| Idempotency.LookupComparesUnorderedRequests | server/src/common/idempotency.service.ts:82-85 | on canonical digests the lookup replays iff the two requests are equal up to key order, and refuses otherwise |
| IdempotentRuns.DigestsAreCanonical | server/src/common/idempotency.service.ts:46-49 | in every run a call's digest is the canonical form of the request it began with |
| IdempotentRuns.RetriesCompareRequests | server/src/common/idempotency.service.ts:82-95 | in every run a call that meets a live record is answered with its resource iff its request equals, up to key order, the one that created the record, and refused with a conflict otherwise |
| Idempotency.RecordsLiveADay | server/src/operations/retention.service.ts:19-21 | a record changes or goes away only by cleanup after 24 hours |
| IdempotentRuns.ScopesAreIndependent | server/src/common/idempotency.service.ts:46-97 | dropping every other scope's calls from a run changes no record, creation, call, resource or publication of the scope |
| IdempotentRuns.RetryReplays | server/src/common/idempotency.service.ts:72-95 | in every run a call that meets a live record is answered by it alone, with other calls' steps in between: its resource for the same request unless that is gone, a conflict for another; and the scope sees no further creation |
| IdempotentRuns.RefusalsHaveCause | server/src/common/idempotency.service.ts:81-90 | in every run a conflict has a creation under the same key by a different request behind it, and a missing result one by the same request |
| IdempotentOutcomes.StepsDecide | server/src/common/idempotency.service.ts:46-97 | each step of a call has exactly the outcome its state decides |
| IdempotentOutcomes.OutcomesHaveCause | server/src/common/idempotency.service.ts:46-97 | in every run each call stands where one of its own steps put it, by the state of that step |
| IdempotentOutcomes.AnswersAreTested | server/src/common/idempotency.service.ts:86-107 | a replayed reply was given when its resource was there, a missing result reported when it was not, a conflict on another digest, an invalid key on its characters or length |
| IdempotentOutcomes.CleanupKeepsADay | server/src/operations/retention.service.ts:19-21 | a cleanup keeps exactly the records at most 86,400,000 ms old |
| IdempotentOutcomes.ResourcesExactly | server/src/common/idempotency.service.ts:50-64 | a resource is there exactly from its creation until it is dropped |
| IdempotentOutcomes.PublishesExactly | server/src/chat/chat.controller.ts:36-51 | a creation is published exactly by its creating call after its reply |
| Idempotency.RecordsHaveValidKeys | server/src/common/idempotency.service.ts:99-107 | only keys of the pattern reach a record or a creation |
| Canonical.SortOrders | server/src/common/idempotency.service.ts:119-121 | the key sort yields an ordered sequence of the same fields |
| Canonical.CanonIdempotent | server/src/common/idempotency.service.ts:115-125 | canonicalization is idempotent on every tree |
| Canonical.CanonDecidesSame | server/src/common/idempotency.service.ts:109-125 | equal canonical forms iff equal up to key order at every depth |
| Canonical.TiedKeysAreNotSorted | server/src/common/idempotency.service.ts:120 | keys the collation ties keep their input order, so equal requests get different forms |
| Canonical.DecidesAllIffSeparates | server/src/common/idempotency.service.ts:115-125 | canonicalization decides equality for all requests iff the comparator separates distinct keys |
| Retention.Database.Transact | server/src/common/idempotency.service.ts:50-64 | record, resource and audit entry together, or nothing |
| Retention.Database.DeleteMessages | server/src/operations/retention.service.ts:33-39 | exactly the application's messages older than the cut go |
| Retention.Database.DeleteSessions | server/src/operations/retention.service.ts:40-46 | exactly the application's sessions finished before the cut go, unfinished ones stay |
| Retention.Database.Clean | server/src/operations/retention.service.ts:13-49 | under the lock exactly the records older than a day and each application's expired rows go; without it nothing does |
| Presence.WrittenKeeps | server/src/realtime/presence.service.ts:117-125 | writing a connection keeps index deadlines no earlier than key deadlines |
| Presence.RefreshedKeeps | server/src/realtime/presence.service.ts:31-40 | refreshing keeps it, and drops the entry of an expired key |
| Presence.UnregisteredKeeps | server/src/realtime/presence.service.ts:42-48 | unregistering keeps it |
| Presence.UserRemovedKeeps | server/src/realtime/presence.service.ts:50-61 | removing a user keeps it |
| Presence.CleanedKeeps | server/src/realtime/presence.service.ts:87 | the stale cleanup keeps it |
| Presence.ExecInv | server/src/realtime/presence.service.ts:23-125 | in every run with compatible TTLs every unexpired connection is in an unexpired index of its room |
| Presence.IncompatibleTtlsLoseAConnection | server/src/realtime/presence.service.ts:14-15 | two TTLs more than a factor of two apart give a run that loses a live connection |
| Presence.IndexedIffCompatible | server/src/realtime/presence.service.ts:23-125 | the index agrees with the keys in every run iff no TTL exceeds twice another |
| Presence.CleanupIsHarmless | server/src/realtime/presence.service.ts:74-87 | the cleanup drops no live connection and changes nobody's status |
| Presence.StatusExactly | server/src/realtime/presence.service.ts:104-113 | offline iff no live connection, focusing iff connected with a running session, idle iff connected with a paused one only, away iff connected without a session and every connection away, online iff some connection is not away without a session |
| Presence.IndexExactly | server/src/realtime/presence.service.ts:23-87 | after each step exactly which connections the room's index lists and until when: a write lists its own; unregistering, removal of its user, a refresh or cleanup that cannot read it, and expiry unlist one |
| Presence.LiveExactlyWhileLeased | server/src/realtime/presence.service.ts:23-61 | in every run with compatible TTLs a connection is live, with what it last said, exactly while its lease of writes, refreshes and removals runs |
| Presence.StatusFollowsLeases | server/src/realtime/presence.service.ts:23-115 | in every run with compatible TTLs a status follows from the leases of the run and the session rows in the same way |
| PresenceService.Service.WriteConnection | server/src/realtime/presence.service.ts:117-125 | the commands of `write` are the specified write |
| PresenceService.Service.RefreshConnection | server/src/realtime/presence.service.ts:31-40 | the commands of `refresh` are the specified refresh |
| PresenceService.Service.UnregisterConnection | server/src/realtime/presence.service.ts:42-48 | the commands of `unregister` are the specified removal |
| PresenceService.Service.RemoveUserOf | server/src/realtime/presence.service.ts:50-61 | the filter over the index removes exactly the user's live connections |
| PresenceService.Service.StatusesFor | server/src/realtime/presence.service.ts:67-115 | the answer through the index is, for every requested user and in any order of keys and rows, the status the keys and session rows give by those five equivalences |
| PresenceService.Service.StatusFor | server/src/realtime/presence.service.ts:63-65 | the single-user query is the same status |
| PresenceService.Service.CollectConnections | server/src/realtime/presence.service.ts:72-87 | groups exactly the parsed connections of the requested users |
| PresenceService.Service.CollectSessions | server/src/realtime/presence.service.ts:89-102 | a running session wins over a paused one in any row order |
| Sessions.NextKeepsInv | server/src/sessions/sessions.service.ts:69-101 | stale-read updates, inserts and retention keep the session invariant |
| Sessions.HistoryIsAPath | server/src/sessions/sessions.service.ts:69-101 | each committed history starts running, moves from running to paused or finished and from paused to running or finished, and ends at its first finished entry; `finishedAt` is set iff finished |
| Sessions.FinishedIsAbsorbing | server/src/sessions/sessions.service.ts:69-101 | a finished session never changes again, its finish time included |
| Sessions.AtMostOneActiveSession | server/src/sessions/sessions.service.ts:144-168 | at most one active session per room and user in every run |
| Sessions.ReplyReportsOwnSwap | server/src/sessions/sessions.service.ts:83-101 | each successful update reports the status its own compare-and-set installed over the status it had read |
| Sessions.OnlyTheCreatorControls | server/src/sessions/sessions.service.ts:76-81 | in every run a session is only controlled by the user who started it, in its application |
| Sessions.ConflictsAreReal | server/src/sessions/sessions.service.ts:74-98 | in every run an update's guarded write succeeds iff the session then has the status its read found, and every conflict names a step in between that changed it |
| Sessions.UpdatesFailForCause | server/src/sessions/sessions.service.ts:74-98 | in every run an update is refused exactly when at its own step the row is missing or another application's, another user's, without that move, or changed since its read; the creator's allowed move reaches its write |
| Sessions.SessionsExactly | server/src/sessions/sessions.service.ts:19-98 | a session appears only by its own start without an unfinished session in its way, changes only by an update that finds the status it read, and disappears only by its application's retention of finished rows |
| Sessions.StartsExactly | server/src/sessions/sessions.service.ts:19-32 | a start goes on by its own membership read and insert, and fails exactly as no member or with an unfinished session in the room |
| Sessions.StartsAreRefusedForCause | server/src/sessions/sessions.service.ts:19-32 | in every run an answered start was refused iff its membership read found none, and otherwise, at its later insert, succeeded iff its user had no active session in the room |
| Sessions.SessionTable.Insert | server/src/sessions/sessions.service.ts:144-168 | inserts unless an active session of that room and user exists |
| Sessions.SessionTable.UpdateStatus | server/src/sessions/sessions.service.ts:69-101 | the whole update: checks, compare-and-set, reply |
| Sessions.SessionTable.CompareAndSet | server/src/sessions/sessions.service.ts:83-95 | changes the row iff it still has the status read, and counts one |
| ContractCodec.SlotsDecode | server/tool/generate-contracts.mjs:311-313 | an emitted factory fills exactly the slots its properties decode to |
| ContractCodec.SlotsEncode | server/tool/generate-contracts.mjs:313-317 | an emitted `toJson` yields exactly the fields its properties encode to, absent optionals left out |
| ContractCodec.ItemsDecode | server/tool/generate-contracts.mjs:251-262 | the emitted list mapping decodes item by item |
| ContractCodec.ItemsEncode | server/tool/generate-contracts.mjs:278-287 | the emitted list mapping encodes item by item |
| ContractRoundTrip.ValueGoesAround | server/tool/generate-contracts.mjs:242-289 | for every supported schema, cyclic references included, decoding the encoding of a typed value returns it |
| ContractRoundTrip.ListGoesAround | server/tool/generate-contracts.mjs:251-287 | the same for arrays of references and scalars |
| ContractRoundTrip.InstanceGoesAround | server/tool/generate-contracts.mjs:291-326 | the same for generated classes, and which fields the encoding has |
| ContractRoundTrip.DocumentComesBack | server/tool/generate-contracts.mjs:242-326 | every schema-shaped document decodes to a typed value whose encoding is the document without explicit optional nulls |
| ContractRoundTrip.ArrayComesBack | server/tool/generate-contracts.mjs:251-287 | the same for arrays |
| ContractRoundTrip.ObjectComesBack | server/tool/generate-contracts.mjs:291-326 | the same for object references |
| ContractRoundTrip.NullableAliasRefusesNull | server/tool/generate-contracts.mjs:242-250 | a schema decodes null through a reference iff the property is optional or the schema untyped, and in place also iff it is nullable |
| ContractEnvelope.EventsAreKnown | server/tool/generate-contracts.mjs:349-371 | the seven event types are pairwise different and every payload class is one the encoder knows |
| ContractEnvelope.EnvelopeGoesAround | server/tool/generate-contracts.mjs:412-447 | every typed envelope of every variant survives the wire, its variant included |
| ContractEnvelope.EnvelopeDocumentComesBack | server/tool/generate-contracts.mjs:428-447 | a document of a known type is accepted exactly with `schemaVersion` 1 (or 1.0) and the right field types, and is sent on in normal form |
| ContractEnvelope.UnknownEventsAreRefused | server/tool/generate-contracts.mjs:428-434 | every other version and every other type is refused |
| ContractEnvelope.AcceptedDocumentsAreEvents | server/tool/generate-contracts.mjs:349-371 | an accepted document is one of the seven events and decodes to that event's payload class |
| ContractAcceptance.AcceptsExactly | server/tool/generate-contracts.mjs:242-272 | whatever the schema, nullable, unsupported by the round trips or cyclic, decoding succeeds on exactly the documents of a shape written down without the emitted expressions |
| ContractAcceptance.ArrayAcceptsExactly | server/tool/generate-contracts.mjs:251-263 | the same for arrays, whose items have no null guard |
| ContractAcceptance.ClassAcceptsExactly | server/tool/generate-contracts.mjs:311-325 | the same for generated classes: every property decodes, absent ones as null, and other keys are ignored |
| ContractAcceptance.EnvelopesAcceptExactly | server/tool/generate-contracts.mjs:412-447 | an envelope is accepted iff its version, type and plain fields are right and its type's class accepts the payload |
| RequestDtos.RequestDecorators | server/tool/generate-contracts.mjs:54-98 | the pushes build the decorator list whose meaning is proved below |
| RequestDtos.PropertyAgrees | server/tool/generate-contracts.mjs:54-98 | a property's decorators accept a value, null or absence exactly as the widened schema does |
| RequestDtos.CountsMembers | server/tool/generate-contracts.mjs:201-209 | the minimum constraint counts the members of the body with initializers filled in |
| RequestDtos.ClassChecksFilledBody | server/tool/generate-contracts.mjs:54-126 | without conditions on keywords: the class accepts a body iff the widened schema accepts it with initializers filled in |
| RequestDtos.ClassAgreesUnlessLapse | server/tool/generate-contracts.mjs:54-126 | for every schema and body: let through against the schema iff accepted with one of three lapses; refused against it iff left to an initializer the decorators refuse |
| RequestDtos.StrictClassAgrees | server/test/request-dtos.spec.ts:87-150 | for schemas with enumerations only on strings, listing null where allowed, and valid initializers only on optional properties without a minimum, class and schema accept the same bodies |
| RequestDtos.NullSlipsThrough | server/tool/generate-contracts.mjs:58-65 | a null outside a nullable enumeration is accepted by the class and refused by the schema |
| RequestDtos.InitializerMeetsMinimum | server/tool/generate-contracts.mjs:100-126 | an empty body meets a minimum of one through an initializer |
| RequestDtos.NumberEnumerationIsIgnored | server/tool/generate-contracts.mjs:17-22 | an integer outside its enumeration is accepted by the class and refused by the schema |
| RequestDtos.InitializerIsRefused | server/tool/generate-contracts.mjs:100-108 | a body without an optional property is refused for that property's own initializer |
| RateLimit.RateLimitService.RunScript | server/src/common/rate-limit.service.ts:7-15 | the script's new counter, count and remaining time |
| RateLimit.RateLimitService.Consume | server/src/common/rate-limit.service.ts:26-64 | the new counters and the reply of one request |
| RateLimit.ScriptExactly | server/src/common/rate-limit.service.ts:7-16 | the script counts on from a counter that still stands, starts one at one otherwise, and leaves none without a deadline |
| RateLimit.RequestsOfMinute | server/src/common/rate-limit.service.ts:26-34 | a request belongs to its quota's minute of 60,000 ms by its moment of issue |
| RateLimit.CountersCount | server/src/common/rate-limit.service.ts:7-33 | in every sequence of requests a counter holds the requests of its key since it was opened last, and expires as long after its minute as the request that opened it was delayed |
| RateLimit.RestartsShorten | server/src/common/rate-limit.service.ts:7-15 | that count falls short of the minute's requests iff some request found an earlier counter of its minute expired |
| RateLimit.TimelyNeverRestarts | server/src/common/rate-limit.service.ts:26-64 | requests that arrive within their minute never restart its counter |
| RateLimit.AdmittedIffUnderLimit | server/src/common/rate-limit.service.ts:58-63 | in every sequence of requests one is admitted iff the requests of its key since the last restart, itself included, are at most its limit; without a restart, iff fewer than the limit came before it in its minute |
| RateLimit.NextIsAdmittedIff | server/src/common/rate-limit.service.ts:7-64 | after every sequence a request is admitted iff its limit is positive and it arrives at or after its counter's deadline, opens one, or finds room in the count |
| RateLimit.MinuteAdmitsMin | server/src/common/rate-limit.service.ts:26-64 | in every sequence of requests an aligned minute admits exactly min(requests, limit) iff its counter never restarted, or there were no more requests than the limit, or the limit is zero; otherwise it admits more |
| RateLimit.SixtySecondsIssueTwice | server/src/common/rate-limit.service.ts:26-64 | at most twice the limit of the requests issued in any sixty seconds are admitted, late arrivals included, unless a counter of their two minutes restarted |
| RateLimit.SixtySecondsAdmitTwiceAndLate | server/src/common/rate-limit.service.ts:26-64 | counted by arrival, at most twice the limit and the late arrivals of earlier minutes |
| RateLimit.SixtySecondsAdmitTwice | server/src/common/rate-limit.service.ts:26-64 | so at most twice the limit arrive and are admitted in any sixty seconds when requests arrive within their minutes |
| RateLimit.LateArrivalsAdmitThrice | server/src/common/rate-limit.service.ts:26-64 | the late term is needed: three arrivals admitted in sixty seconds under a limit of one |
| RateLimit.RetryAfterReachesNextMinute | server/src/common/rate-limit.service.ts:51-63 | every rejection, restarts or not, asks for 1 to 60 seconds, and waiting reaches a later minute |
| RateLimit.RetryAfterIsLeast | server/src/common/rate-limit.service.ts:51-63 | the wait asked for is the least whole number of seconds, at least one, that reaches the counter's deadline |
| RateLimit.EveryLateRequestIsAdmitted | server/src/common/rate-limit.service.ts:7-15 | after a minute filled on time every later arrival of that minute is admitted beyond the limit |
| RateLimit.QuotasAreIndependent | server/src/common/rate-limit.service.ts:31-32 | dropping all requests of one quota changes no reply of another |
| Pages.Clamp | server/src/rooms/rooms.service.ts:65 | a page takes 1 to 100 rows, and the limit itself inside that range |
| Pages.List | server/src/rooms/rooms.service.ts:64-83 | fetching one row too many and popping it gives the specified page and cursor |
| Pages.History | server/src/chat/chat.service.ts:59-83 | the same page newest first, handed out oldest first |
| Pages.PageCut | server/src/applications/applications.service.ts:91-101 | a page is the slice right after its cursor, at most 100 rows, and the next cursor starts where it ends |
| Pages.PageSize | server/src/rooms/rooms.service.ts:65-82 | a page holds the smaller of the limit, held between 1 and 100, and the rows after its cursor, and names a next cursor iff rows are left |
| Pages.AfterExactly | server/src/rooms/rooms.service.ts:74-76 | the rows after a cursor are those behind the row it names |
| Pages.PageSplits | server/src/sessions/sessions.service.ts:103-122 | page and rest make up what was left; a page with a next cursor is not empty |
| Pages.WalkSplits | server/src/rooms/rooms.service.ts:64-83 | at every point of a walk the rows seen and the rows left make up the table |
| Pages.WalkYieldsTable | server/src/rooms/rooms.service.ts:64-83 | with any varying limits the walk ends after at most one page a row and yields every row once in order |
| Pages.JoinedBackwardsReverses | server/src/chat/chat.service.ts:69-82 | reversed pages joined in reverse fetch order are the reversed rows seen |
| Pages.ReversedIsBackwards | server/src/chat/chat.service.ts:73 | the page's reversal puts the row at each position at its mirror position |
| Pages.WalkIsGood | server/src/applications/applications.service.ts:91-101 | while rows are inserted anywhere between pages, the rows seen stay in order and cover the start up to the cursor |
| Pages.EveryStartingRowIsSeenOnce | server/src/chat/chat.service.ts:59-83 | every row there at the start is seen when the walk ends, and none twice |
| Pages.WalkIgnoresNewer | server/src/chat/chat.service.ts:62-68 | rows that sort before the start change nothing in the walk |
| Pages.HistoryIsChronological | server/src/chat/chat.service.ts:59-83 | while messages arrive, the joined pages are exactly the starting history, oldest first |
| AppCache.ApplicationsService.Look | server/src/applications/applications.service.ts:77-78 | serves exactly an unexpired entry |
| AppCache.ApplicationsService.Store | server/src/applications/applications.service.ts:79-82 | stores a found value for five minutes; a missing one is not found and not stored |
| AppCache.ApplicationsService.Drop | server/src/applications/applications.service.ts:31-34 | forgets exactly that application |
| AppCache.RunsKeepProvenance | server/src/applications/applications.service.ts:76-83 | every cached entry of every run was read from the database and stored by one and the same fill of its instance |
| AppCache.ServedExactly | server/src/applications/applications.service.ts:76-83 | a get hands out exactly the unexpired entry of its instance, or else what its fill read |
| AppCache.TicksMoveTheClock | server/src/applications/applications.service.ts:76-83 | in every run exactly the ticks move the clock the deadlines are read against |
| AppCache.OneReadPerFill | server/src/applications/applications.service.ts:79-81 | an open fill has exactly one read |
| AppCache.StalenessIsBounded | server/src/applications/applications.service.ts:76-83 | every value served was the database's at the read of the one fill that stored it, less than five minutes ago, or is serving it; so it is no older than five minutes plus that fill's own duration, with every invalidation lost or racing |
| AppCache.EntriesStay | server/src/applications/applications.service.ts:76-83 | an entry stays until its instance forgets or refills that application |
| AppCache.StoreBreaksIff | server/src/applications/applications.service.ts:79-82 | a store leaves its instance out of date iff the value it read differs from the database and nothing is pending for that instance |
| AppCache.LossBreaksIff | server/src/applications/applications.service.ts:31-34 | a lost publication does iff it was the last one pending for an entry that differs from the database |
| AppCache.CurrentIffUnbroken | server/src/applications/applications.service.ts:76-109 | in every run, split fills and losses included, cached values differ from the database only while an invalidation is pending, in every state, iff no step is of these two kinds |
| AppCache.UndisturbedRunsStayCurrent | server/src/applications/applications.service.ts:76-83 | so it holds with split fills unless an application changes between one fill's read and that fill's store |
| AppCache.QuietInstancesServeTheDatabase | server/src/applications/applications.service.ts:31-34 | in a run without such steps an instance with nothing pending serves the database's value |
| AppCache.LateStoreOutlivesInvalidation | server/src/applications/applications.service.ts:79-81 | a concrete run in which a split fill leaves a stale entry with nothing pending |
| ExpiryTimer.Client.ScheduleExpiry | server/src/realtime/realtime.gateway.ts:205-216 | arms the smaller of the remaining time and the runtime's maximum |
| ExpiryTimer.Client.OnTimer | server/src/realtime/realtime.gateway.ts:208-214 | re-arms while time remains, disconnects otherwise |
| ExpiryTimer.NeverBeforeExpiry | server/src/realtime/realtime.gateway.ts:205-216 | whatever the timers' jitter, no disconnect before `expiresAt` |
| ExpiryTimer.ChainIsShort | server/src/realtime/realtime.gateway.ts:205-216 | if no timer fires early the chain ends within max(1, ceil(remaining / 2147483647)) timers |
| ExpiryTimer.ShorterChainsWait | server/src/realtime/realtime.gateway.ts:205-216 | with timers exactly on time no shorter chain disconnects |
| ExpiryTimer.DisconnectsPromptly | server/src/realtime/realtime.gateway.ts:205-216 | the disconnect comes no later than the timers' lateness after the expiry |
| Keys.AsciiEncodes | server/src/realtime/presence.service.ts:146-148 | letters, digits and nine marks stand for themselves, and any other ASCII character is its code in two upper-case hexadecimal digits |
| Keys.OthersEncode | server/src/realtime/presence.service.ts:146-148 | every other character is escaped byte by byte, in the shortest UTF-8 form (RFC 3629, section 3) |
| Keys.TextsEncodePieceByPiece | server/src/realtime/presence.service.ts:146-148 | the encoding of a text is that of its pieces |
| Keys.PercentRoundTrip | server/src/realtime/presence.service.ts:146-148 | percent-decoding the UTF-8 escapes of any text returns the text |
| Keys.EscapedHasNoColon | server/src/realtime/presence.service.ts:146-148 | a segment never holds a colon |
| Keys.SplitUndoesJoin | server/src/realtime/presence.service.ts:138-144 | splitting at colons undoes joining colon-free pieces |
| Keys.ConnectionKeyReads | server/src/realtime/presence.service.ts:142-144 | splitting and decoding a connection key gives back application, room and socket |
| Keys.RoomIndexKeyReads | server/src/realtime/presence.service.ts:138-140 | the same for a room's index key, which is never a connection key |
| Keys.CharactersQuote | server/src/realtime/realtime.publisher.ts:65-75 | which characters a JSON string escapes, and how |
| Keys.QuoteRoundTrip | server/src/realtime/realtime.publisher.ts:65-75 | reading a JSON-quoted text returns it, whatever follows |
| Keys.RoomTopicsInjective | server/src/realtime/realtime.publisher.ts:65-71 | room topics and user topics name one room or one user |
| Keys.AppTopicsInjective | server/src/realtime/realtime.publisher.ts:73-75 | application topics name one application |
| Keys.TopicFamiliesDisjoint | server/src/realtime/realtime.publisher.ts:65-75 | no topic of one family is a topic of another |
| Keys.AppIdsExactly | server/src/generated/request-dtos.ts:37 | the pattern of application ids: 1 to 64 letters, digits, dots, underscores and hyphens |
| Keys.QuotaIdentityInjective | server/src/common/tenant-rate-limit.guard.ts:19-23 | for application ids of the contract's pattern the quota identity names one tenant's user |
| Keys.EveryColonCollides | server/src/common/tenant-rate-limit.guard.ts:19-23 | without it, every application id with a colon shares each user's identity with another application |

## Left out

- JWT and JWKS verification, the JWKS URI policy, CORS, telemetry, metrics, health probes, the exception filter and framework wiring: library wrappers or single-branch checks.
- Prisma, PostgreSQL, Redis and Socket.IO internals: replaced by the assumptions listed above.
- The Dart SDK's client synchronization, the Flutter examples, deployment files and scripts: separate programs; the SDK sources behind its library file are not part of this model.
- Room titles, display names and other fields that no guard or constraint reads; the mappers that only copy them.
- docs/data-backup-and-idempotency.md:63-65 says the realtime event belongs to the create transaction; the code publishes after the commit, so the model proves at-most-once publishing.
- Eviction with handlers split into their own reads and writes, or with a removal and a deletion of one room racing inside their service methods: the code gives no guarantee there (a leave whose snapshot finds the room deleted throws before it evicts).
- Sessions.StartsAreRefusedForCause: the answer of the membership read before a start is the environment's; `RoomsRuns` says who is a member when.
- Failures of a database or Redis command after a commit, such as a presence removal that fails: the rooms machine models the snapshot read, which is the one answer its operations take from later state.
- Lost publications and crashed instances in the eviction world; the expiry of presence keys is an unconstrained step there, the TTL arithmetic is in `Presence`.
- Presence commands of different operations interleaving one by one: each service method is one step.
- Redis failures, which refuse a rate-limited request, and the parsing of configured limits.
- Canonical.CanonDecidesSame: does not model JavaScript's enumeration of integer-like keys before other keys in `JSON.stringify`; the form is the sorted field sequence, which decides the same equalities.
- ContractAcceptance.AcceptsExactly: does not cover named schemas that are themselves references; a schema whose emitted class Dart would refuse to compile has the meaning of its expressions, and a named object without properties is a class without fields. No schema of the repository is of these kinds.
- ContractRoundTrip.ValueGoesAround: does not cover references to nullable or array aliases, nullable arrays of references, arrays of inline arrays, and optional properties whose encoding calls a method (enum and object references and arrays of them): the emitted `if (p != null) "p": p.toJson()` reads a public nullable field, which Dart does not promote. No schema of the repository has one; number precision is not modelled.
- The announcements of room creation, join requests and decisions: one branch each; at-most-once publishing of creations is in `Idempotency`.
- RequestDtos.ClassAgreesUnlessLapse: takes the instance to hold every member of the body; whatever the transformation library does with special names such as `constructor` or `__proto__` is not modelled.
- RequestDtos.StrictClassAgrees: does not cover array items, nested objects, untyped properties, the `uuid` and `uri` formats and the query-string number conversion; string length and pattern matching are one parameter shared by decorator and schema.
- Pages.List: takes the ordered, filtered rows as given, and a cursor whose row has been removed from the table is outside the walks.
- Keys.PercentRoundTrip: texts are sequences of Unicode scalar values; lone surrogates, which `encodeURIComponent` refuses, are not modelled.
- The advisory lock of the retention job is a parameter, and the age thresholds are taken on one clock.
