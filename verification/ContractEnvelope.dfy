/** The sealed realtime envelope the generator prints: one variant for each event definition, a
    factory that switches on `type`, and a `toJson` that switches on the class of the payload. */
module ContractEnvelope {
  import opened Wrappers
  import opened ContractCodec
  import opened ContractRoundTrip

  datatype Variant = Variant(eventType: string, payload: string)

  const SCHEMA_VERSION := 1

  const EVENTS: seq<Variant> := [
    Variant("room.state", "Room"),
    Variant("membership.updated", "MembershipUpdatedPayload"),
    Variant("join-request.created", "JoinRequest"),
    Variant("join-request.updated", "JoinRequest"),
    Variant("member.presence.updated", "Member"),
    Variant("chat.message.created", "ChatMessage"),
    Variant("session.updated", "StudySession")]

  /** The classes `toJson` knows. */
  const PAYLOADS: seq<string> :=
    ["Room", "MembershipUpdatedPayload", "JoinRequest", "Member", "ChatMessage", "StudySession"]

  datatype Envelope = Envelope(
    variant: Variant, eventId: string, roomId: Option<string>, roomVersion: Option<int>, occurredAt: string,
        payload: Wire)

  // ---------------------------------------------------------------- the emitted code

  /** The first case of the factory's switch that matches. */
  function Switch(variants: seq<Variant>, eventType: Json): Option<Variant> {
    if variants == [] then None
    else if JString(variants[0].eventType) == eventType then Some(variants[0])
    else Switch(variants[1..], eventType)
  }

  /** `json[key]`: null when the key is absent. */
  function At(j: Json, key: string): Json
    requires j.JObject?
  {
    if key in j.fields then j.fields[key] else JNull
  }

  /** Dart's numeric equality: 1.0 is equal to 1. */
  predicate IsSupportedVersion(j: Json) {
    (j.JInt? && j.n == SCHEMA_VERSION) || (j.JDouble? && j.r == SCHEMA_VERSION as real)
  }

  function FromWire(env: Env, variants: seq<Variant>, j: Json): Result<Envelope>
    requires j.JObject?
  {
    if !IsSupportedVersion(At(j, "schemaVersion")) then Fail
    else
      match Switch(variants, At(j, "type"))
      case None => Fail
      case Some(variant) =>
        if !At(j, "eventId").JString? || !(At(j, "roomId").JNull? || At(j, "roomId").JString?) then Fail
        else if !(At(j, "roomVersion").JNull? || At(j, "roomVersion").JInt?) || !At(j, "occurredAt").JString? then Fail
        else
          match RunDecode(env, FromJson(variant.payload), At(j, "payload"))
          case Fail => Fail
          case Ok(payload) =>
            Ok(Envelope(variant, At(j, "eventId").s,
                        if At(j, "roomId").JNull? then None else Some(At(j, "roomId").s),
                        if At(j, "roomVersion").JNull? then None else Some(At(j, "roomVersion").n),
                        At(j, "occurredAt").s, payload))
  }

  function ToWire(env: Env, payloads: seq<string>, e: Envelope): Result<Json> {
    if !e.payload.Instance? || e.payload.class_ !in payloads then Fail
    else
      match RunEncode(env, ToJson, e.payload)
      case Fail => Fail
      case Ok(payload) =>
        Ok(Document(JString(e.eventId), JString(e.variant.eventType),
                    if e.roomId.Some? then JString(e.roomId.value) else JNull,
                    if e.roomVersion.Some? then JInt(e.roomVersion.value) else JNull,
                    JString(e.occurredAt), payload))
  }

  function Document(eventId: Json, eventType: Json, roomId: Json, roomVersion: Json, occurredAt: Json,
      payload: Json): Json {
    JObject(map[
      "schemaVersion" := JInt(SCHEMA_VERSION),
      "eventId" := eventId,
      "type" := eventType,
      "roomId" := roomId,
      "roomVersion" := roomVersion,
      "occurredAt" := occurredAt,
      "payload" := payload])
  }

  lemma DocumentReads(eventId: Json, eventType: Json, roomId: Json, roomVersion: Json, occurredAt: Json, payload: Json)
    ensures var j := Document(eventId, eventType, roomId, roomVersion, occurredAt, payload);
      && At(j, "schemaVersion") == JInt(1) && At(j, "eventId") == eventId && At(j, "type") == eventType
      && At(j, "roomId") == roomId && At(j, "roomVersion") == roomVersion
      && At(j, "occurredAt") == occurredAt && At(j, "payload") == payload
  {
  }

  // ---------------------------------------------------------------- round trips

  /** The types tell the variants apart, and the payload switch knows every payload class. */
  ghost predicate KnownTable(variants: seq<Variant>, payloads: seq<string>) {
    && (forall v, w :: v in variants && w in variants && v.eventType == w.eventType ==> v == w)
    && (forall v :: v in variants ==> v.payload in payloads)
  }

  lemma {:induction false} SwitchFinds(variants: seq<Variant>, variant: Variant)
    requires variant in variants
    requires forall v, w :: v in variants && w in variants && v.eventType == w.eventType ==> v == w
    ensures Switch(variants, JString(variant.eventType)) == Some(variant)
  {
    if variants[0].eventType != variant.eventType {
      SwitchFinds(variants[1..], variant);
    }
  }

  lemma {:induction false} SwitchStaysInside(variants: seq<Variant>, eventType: Json)
    ensures Switch(variants, eventType).Some? ==>
              Switch(variants, eventType).value in variants
                  && eventType == JString(Switch(variants, eventType).value.eventType)
  {
    if variants != [] { SwitchStaysInside(variants[1..], eventType); }
  }

  /** The table of the seven events is such a table. */
  lemma EventsAreKnown()
    ensures KnownTable(EVENTS, PAYLOADS)
  {
    EventTypesDiffer();
    PayloadsAreKnown();
  }

  lemma PayloadsAreKnown()
    ensures forall v :: v in EVENTS ==> v.payload in PAYLOADS
  {
    var places := [0, 1, 2, 2, 3, 4, 5];
    forall i | 0 <= i < |EVENTS| ensures EVENTS[i].payload in PAYLOADS {
      assert EVENTS[i].payload == PAYLOADS[places[i]];
    }
  }

  /** The third and fourteenth characters tell the event types apart. */
  lemma EventTypesDiffer()
    ensures forall v, w :: v in EVENTS && w in EVENTS && v.eventType == w.eventType ==> v == w
  {
    var marks := ["o", "md", "ic", "iu", "mc", "ac", "se"];
    forall i | 0 <= i < |EVENTS| ensures Mark(EVENTS[i].eventType) == marks[i] { }
  }

  function Mark(s: string): string {
    (if |s| > 2 then [s[2]] else []) + (if |s| > 13 then [s[13]] else [])
  }

  /** Every payload class of the table is an object schema of the environment. */
  ghost predicate SupportsTable(env: Env, variants: seq<Variant>) {
    SupportedEnv(env) && forall v :: v in variants ==> v.payload in env && env[v.payload].ObjectOf?
  }

  /** Every typed envelope, of every variant of the table, survives the wire. The two join-request
      variants share a payload class, so the variant must come back through `type`. */
  lemma EnvelopeGoesAround(env: Env, variants: seq<Variant>, payloads: seq<string>, e: Envelope)
    requires KnownTable(variants, payloads) && SupportsTable(env, variants)
    requires e.variant in variants && RefTyped(env, e.payload, e.variant.payload)
    ensures ToWire(env, payloads, e).Ok? && ToWire(env, payloads, e).value.JObject?
    ensures FromWire(env, variants, ToWire(env, payloads, e).value) == Ok(e)
  {
    SwitchFinds(variants, e.variant);
    InstanceGoesAround(env, e.payload, e.variant.payload);
    var payload := RunEncode(env, ToJson, e.payload).value;
    DocumentReads(JString(e.eventId), JString(e.variant.eventType),
                  if e.roomId.Some? then JString(e.roomId.value) else JNull,
                  if e.roomVersion.Some? then JInt(e.roomVersion.value) else JNull,
                  JString(e.occurredAt), payload);
  }

  /** The seven fields, with an absent room id or room version read as null, the version written as
      an integer and the payload without explicit optional nulls. */
  ghost function NormalEnvelope(env: Env, variant: Variant, j: Json): Json
    requires j.JObject?
  {
    Document(At(j, "eventId"), JString(variant.eventType), At(j, "roomId"), At(j, "roomVersion"), At(j, "occurredAt"),
             PrunedRef(env, At(j, "payload"), variant.payload))
  }

  /** A document is accepted exactly when its version, type and field types are right, given a
      payload of the shape its type names; what is sent on is the same document in normal form. */
  lemma EnvelopeDocumentComesBack(env: Env, variants: seq<Variant>, payloads: seq<string>, j: Json, variant: Variant)
    requires KnownTable(variants, payloads) && SupportsTable(env, variants)
    requires j.JObject? && variant in variants && At(j, "type") == JString(variant.eventType)
    requires RefShaped(env, At(j, "payload"), variant.payload)
    ensures var r := FromWire(env, variants, j);
      && (r.Ok? <==> (&& (At(j, "schemaVersion") == JInt(1) || At(j, "schemaVersion") == JDouble(1.0))
                      && At(j, "eventId").JString? && At(j, "occurredAt").JString?
                      && (At(j, "roomId").JNull? || At(j, "roomId").JString?)
                      && (At(j, "roomVersion").JNull? || At(j, "roomVersion").JInt?)))
      && (r.Ok? ==> r.value.variant == variant && ToWire(env, payloads, r.value) == Ok(NormalEnvelope(env, variant, j)))
  {
    SwitchFinds(variants, variant);
    ObjectComesBack(env, At(j, "payload"), variant.payload);
  }

  /** Every other version and every other type is refused. */
  lemma UnknownEventsAreRefused(env: Env, variants: seq<Variant>, j: Json)
    requires j.JObject?
    requires || (At(j, "schemaVersion") != JInt(1) && At(j, "schemaVersion") != JDouble(1.0))
             || (forall v :: v in variants ==> At(j, "type") != JString(v.eventType))
    ensures FromWire(env, variants, j) == Fail
  {
    SwitchStaysInside(variants, At(j, "type"));
  }

  // ---------------------------------------------------------------- the seven events

  /** An accepted document is of the type it names, and its payload of that type's class. */
  lemma TypeNamesClass(env: Env, variants: seq<Variant>, payloads: seq<string>, j: Json, v: Variant)
    requires KnownTable(variants, payloads) && v in variants && j.JObject?
    requires FromWire(env, variants, j).Ok? && At(j, "type") == JString(v.eventType)
    ensures var e := FromWire(env, variants, j).value;
      e.variant == v && e.payload.Instance? && e.payload.class_ == v.payload
  {
    SwitchFinds(variants, v);
  }

  /** The class of the payload of each type. */
  function ClassOf(eventType: string): string {
    if eventType == "room.state" then "Room"
    else if eventType == "membership.updated" then "MembershipUpdatedPayload"
    else if eventType == "join-request.created" || eventType == "join-request.updated" then "JoinRequest"
    else if eventType == "member.presence.updated" then "Member"
    else if eventType == "chat.message.created" then "ChatMessage"
    else if eventType == "session.updated" then "StudySession"
    else ""
  }

  lemma TableIsLiteral(i: nat)
    requires i < |EVENTS|
    ensures ClassOf(EVENTS[i].eventType) == EVENTS[i].payload != ""
  {
    assert |EVENTS| == 7;
    EventTypesDiffer();
  }

  /** Every accepted document is one of the seven events, and decodes to that event's class. */
  lemma AcceptedDocumentsAreEvents(env: Env, j: Json)
    requires j.JObject? && FromWire(env, EVENTS, j).Ok?
    ensures At(j, "type").JString? && ClassOf(At(j, "type").s) != ""
    ensures var payload := FromWire(env, EVENTS, j).value.payload;
      payload.Instance? && payload.class_ == ClassOf(At(j, "type").s)
  {
    SwitchStaysInside(EVENTS, At(j, "type"));
    var v := Switch(EVENTS, At(j, "type")).value;
    var i :| 0 <= i < |EVENTS| && EVENTS[i] == v;
    EventsAreKnown();
    TableIsLiteral(i);
    TypeNamesClass(env, EVENTS, PAYLOADS, j, v);
  }
}
