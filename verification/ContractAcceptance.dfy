/** Which documents the emitted factories accept, for every schema environment: the shapes are written
    down without the emitted expressions, and decoding succeeds on exactly these. */
module ContractAcceptance {
  import opened Wrappers
  import opened ContractCodec
  import opened ContractEnvelope

  /** Dart takes an integer for a `num`, but no other value for a value of another type. */
  predicate IsOf(j: Json, scalar: Scalar) {
    || (scalar == TString && j.JString?)
    || (scalar == TInteger && j.JInt?)
    || (scalar == TNumber && (j.JInt? || j.JDouble?))
    || (scalar == TBoolean && j.JBool?)
  }

  predicate MayBeNull(s: Schema, required: bool) {
    || !required
    || (s.Typed? && s.nullable)
    || (s.ArrayOf? && s.nullable)
    || (s.ObjectOf? && s.nullable)
  }

  /** A factory accepts the document where a value of the schema belongs. */
  ghost predicate Takes(env: Env, j: Json, s: Schema, required: bool)
    decreases j, 1
  {
    || (j == JNull && MayBeNull(s, required))
    || (match s
        case Ref(name) => RefTakes(env, j, name)
        case Typed(scalar, _, _) => IsOf(j, scalar)
        case ArrayOf(items, _) => j.JArray? && forall x :: x in j.items ==> ItemTakes(env, x, items)
        case ObjectOf(_, _) => j.JObject?
        case Untyped => true)
  }

  predicate IsUntyped(env: Env, s: Schema) {
    s.Untyped? || (s.Ref? && s.name in env && env[s.name].Untyped?)
  }

  /** Items have no guard of their own, and a decoded list inside a list is only of untyped items. */
  ghost predicate ItemTakes(env: Env, j: Json, s: Schema)
    decreases j, 1
  {
    match s
    case Ref(name) => RefTakes(env, j, name)
    case Typed(scalar, _, _) => IsOf(j, scalar)
    case ArrayOf(items, _) => j.JArray? && IsUntyped(env, items)
    case ObjectOf(_, _) => j.JObject?
    case Untyped => true
  }

  /** Through a reference a string enumeration takes its members, an object each of its properties,
      whatever else the document holds, and any other alias what its type holds, without nulls. */
  ghost predicate RefTakes(env: Env, j: Json, name: string)
    decreases j, 0
  {
    if name !in env then false
    else
      match env[name]
      case Typed(TString, _, Some(members)) => j.JString? && j.s in members
      case Typed(scalar, _, _) => IsOf(j, scalar)
      case ObjectOf(props, _) =>
        && j.JObject?
        && (forall p :: p in props && p.name in j.fields ==> Takes(env, j.fields[p.name], p.schema, p.required))
        && (forall p :: p in props && p.name !in j.fields ==> MayBeAbsent(env, p))
      case ArrayOf(items, _) => j.JArray? && IsUntyped(env, items)
      case Untyped => true
      case Ref(_) => false
  }

  /** An absent property reads as null. */
  predicate MayBeAbsent(env: Env, p: Prop) {
    || MayBeNull(p.schema, p.required)
    || IsUntyped(env, p.schema)
  }

  // ---------------------------------------------------------------- lists and classes

  lemma {:induction false} SlotsAllDecode(env: Env, props: seq<Prop>, j: Json)
    requires j.JObject?
    ensures DecodeSlots(env, props, j).Ok? <==> forall p :: p in props ==> DecodeSlot(env, p, j).Ok?
  {
    if props != [] {
      SlotsAllDecode(env, props[1..], j);
      assert forall p :: p in props ==> p == props[0] || p in props[1..];
      assert DecodeSlots(env, props, j).Ok? <==>
             DecodeSlot(env, props[0], j).Ok? && DecodeSlots(env, props[1..], j).Ok?;
      assert props[0] in props && forall p :: p in props[1..] ==> p in props;
    }
  }

  lemma {:induction false} ItemsAllDecode(env: Env, item: Decoder, j: Json, n: nat)
    requires j.JArray? && n <= |j.items|
    ensures DecodeItems(env, item, j, n).Ok? <==> forall i :: 0 <= i < n ==> RunDecode(env, item, j.items[i]).Ok?
  {
    if n > 0 { ItemsAllDecode(env, item, j, n - 1); }
  }

  // ---------------------------------------------------------------- acceptance

  /** No named schema is itself a reference. */
  ghost predicate Direct(env: Env) {
    forall name :: name in env ==> !env[name].Ref?
  }

  lemma OnlyUntypedIsTop(env: Env, s: Schema)
    ensures IsTop(env, BaseType(s)) <==> IsUntyped(env, s)
  {
  }

  lemma AbsentDecodes(env: Env, p: Prop)
    ensures DecodeAbsent(env, DartDecode(env, p.schema, p.required)).Ok? <==> MayBeAbsent(env, p)
  {
  }

  /** A factory accepts a document where a value of the schema belongs exactly when it has one of the
      shapes above. The schemas may be nullable, unsupported by the round trips, or cyclic. */
  lemma {:induction false} AcceptsExactly(env: Env, j: Json, s: Schema, required: bool)
    requires Direct(env)
    ensures RunDecode(env, DartDecode(env, s, required), j).Ok? <==> Takes(env, j, s, required)
    decreases j, 2
  {
    match s
    case Ref(name) => RefAcceptsExactly(env, j, name);
    case ArrayOf(items, _) => if j.JArray? { ArrayAcceptsExactly(env, j, items); }
    case _ =>
  }

  lemma {:induction false} ArrayAcceptsExactly(env: Env, j: Json, items: Schema)
    requires Direct(env) && j.JArray?
    ensures RunDecode(env, MapList(ItemDecode(env, items)), j).Ok? <==>
              forall x :: x in j.items ==> ItemTakes(env, x, items)
    decreases j, 1
  {
    var d := ItemDecode(env, items);
    assert RunDecode(env, MapList(d), j).Ok? <==> DecodeItems(env, d, j, |j.items|).Ok?;
    ItemsAllDecode(env, d, j, |j.items|);
    forall i | 0 <= i < |j.items| ensures RunDecode(env, d, j.items[i]).Ok? <==> ItemTakes(env, j.items[i], items) {
      assert j.items[i] in j.items;
      if items.Ref? { RefAcceptsExactly(env, j.items[i], items.name); }
      if items.ArrayOf? { OnlyUntypedIsTop(env, items.items); }
    }
    assert forall i :: 0 <= i < |j.items| ==> j.items[i] in j.items;
  }

  lemma {:induction false} RefAcceptsExactly(env: Env, j: Json, name: string)
    requires Direct(env)
    ensures RunDecode(env, ItemDecode(env, Ref(name)), j).Ok? <==> RefTakes(env, j, name)
    decreases j, 1
  {
    if name in env && env[name].ObjectOf? && j.JObject? { ClassAcceptsExactly(env, j, name); }
    if name in env && env[name].ArrayOf? { OnlyUntypedIsTop(env, env[name].items); }
  }

  lemma {:induction false} ClassAcceptsExactly(env: Env, j: Json, name: string)
    requires Direct(env) && name in env && env[name].ObjectOf? && j.JObject?
    ensures RunDecode(env, FromJson(name), j).Ok? <==> RefTakes(env, j, name)
    decreases j, 0
  {
    var props := env[name].props;
    SlotsAllDecode(env, props, j);
    forall p | p in props
      ensures DecodeSlot(env, p, j).Ok? <==>
                if p.name in j.fields then Takes(env, j.fields[p.name], p.schema, p.required) else MayBeAbsent(env, p)
    {
      if p.name in j.fields {
        AcceptsExactly(env, j.fields[p.name], p.schema, p.required);
      } else {
        AbsentDecodes(env, p);
      }
    }
  }

  // ---------------------------------------------------------------- envelopes

  /** The version, the four plain fields and the payload class of the event. */
  ghost predicate EnvelopeTakes(env: Env, j: Json, v: Variant)
    requires j.JObject?
  {
    && (At(j, "schemaVersion") == JInt(1) || At(j, "schemaVersion") == JDouble(1.0))
    && At(j, "type") == JString(v.eventType)
    && At(j, "eventId").JString? && At(j, "occurredAt").JString?
    && (At(j, "roomId") == JNull || At(j, "roomId").JString?)
    && (At(j, "roomVersion") == JNull || At(j, "roomVersion").JInt?)
    && At(j, "payload").JObject? && RefTakes(env, At(j, "payload"), v.payload)
  }

  /** An envelope is accepted exactly when some event of the table takes it. */
  lemma EnvelopesAcceptExactly(env: Env, variants: seq<Variant>, payloads: seq<string>, j: Json)
    requires Direct(env) && KnownTable(variants, payloads) && j.JObject?
    requires forall v :: v in variants ==> v.payload in env && env[v.payload].ObjectOf?
    ensures FromWire(env, variants, j).Ok? <==> exists v :: v in variants && EnvelopeTakes(env, j, v)
  {
    forall v | v in variants && At(j, "type") == JString(v.eventType)
      ensures FromWire(env, variants, j).Ok? <==> EnvelopeTakes(env, j, v)
    {
      SwitchFinds(variants, v);
      if At(j, "payload").JObject? { ClassAcceptsExactly(env, At(j, "payload"), v.payload); }
    }
    SwitchStaysInside(variants, At(j, "type"));
  }
}
