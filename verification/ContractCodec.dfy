/** The Dart codec the contract generator emits.

    `DartDecode` and `DartEncode` compile a schema to the expression the generator prints, with the
    decoded sub-expression abstracted to a hole. `RunDecode` and `RunEncode` give those expressions
    their Dart meaning on JSON documents and on wire values. A document is a finite tree, so decoding
    ends however the schemas refer to one another. */
module ContractCodec {
  import opened Wrappers

  datatype Json = JNull | JBool(b: bool) | JInt(n: int) | JDouble(r: real) | JString(s: string)
                | JArray(items: seq<Json>) | JObject(fields: map<string, Json>)

  datatype Result<+T> = Ok(value: T) | Fail

  // ---------------------------------------------------------------- schemas

  datatype Scalar = TString | TInteger | TNumber | TBoolean

  datatype Schema =
    | Ref(name: string)
    | Typed(scalar: Scalar, nullable: bool, enumeration: Option<seq<string>>)
    | ArrayOf(items: Schema, nullable: bool)
    | ObjectOf(props: seq<Prop>, nullable: bool)
    | Untyped

  datatype Prop = Prop(name: string, schema: Schema, required: bool)

  type Env = map<string, Schema>

  predicate Nullable(s: Schema) { !s.Ref? && !s.Untyped? && s.nullable }

  predicate IsEnum(s: Schema) { s.Typed? && s.scalar.TString? && s.enumeration.Some? }

  function Resolved(env: Env, s: Schema): Schema {
    if s.Ref? then (if s.name in env then env[s.name] else Untyped) else s
  }

  // ---------------------------------------------------------------- emitted expressions

  /** Dart types that appear in casts. */
  datatype Type = Plain(scalar: Scalar) | Named(name: string) | ListType(item: Type) | MapType | Any

  datatype Decoder =
    | CastTo(t: Type)              // e as T
    | ByName(enum: string)         // TWire.values.byName(e as String)
    | FromJson(class_: string)     // TWire.fromJson(_wireObject(e))
    | MapList(item: Decoder)       // List<T>.unmodifiable((e as List<Object?>).map((value) => item))
    | WireObject                   // _wireObject(e)
    | Identity                     // e
    | NullGuard(d: Decoder)        // e == null ? null : d

  datatype Encoder =
    | AsIs                         // e
    | NameOf                       // e.name
    | ToJson                       // e.toJson()
    | MapNames                     // e.map((value) => value.name).toList()
    | MapToJson                    // e.map((value) => value.toJson()).toList()

  function BaseType(s: Schema): Type {
    match s
    case Ref(name) => Named(name)
    case Typed(scalar, _, _) => Plain(scalar)
    case ArrayOf(items, _) => ListType(BaseType(items))
    case ObjectOf(_, _) => MapType
    case Untyped => Any
  }

  function ItemDecode(env: Env, item: Schema): Decoder {
    if item.Ref? && IsEnum(Resolved(env, item)) then ByName(item.name)
    else if item.Ref? && Resolved(env, item).ObjectOf? then FromJson(item.name)
    else CastTo(BaseType(item))
  }

  function DartDecode(env: Env, s: Schema, required: bool): Decoder {
    var resolved := Resolved(env, s);
    var decoded :=
      if s.Ref? && IsEnum(resolved) then ByName(s.name)
      else if s.Ref? && resolved.ObjectOf? then FromJson(s.name)
      else if s.Ref? then CastTo(BaseType(s))
      else if s.ArrayOf? then MapList(ItemDecode(env, s.items))
      else if s.ObjectOf? then WireObject
      else if s.Untyped? then Identity
      else CastTo(BaseType(s));
    if !required || Nullable(s) then NullGuard(decoded) else decoded
  }

  function DartEncode(env: Env, s: Schema): Encoder {
    var resolved := Resolved(env, s);
    if s.Ref? && IsEnum(resolved) then NameOf
    else if s.Ref? && resolved.ObjectOf? then ToJson
    else if s.ArrayOf? && s.items.Ref? && IsEnum(Resolved(env, s.items)) then MapNames
    else if s.ArrayOf? && s.items.Ref? && Resolved(env, s.items).ObjectOf? then MapToJson
    else AsIs
  }

  // ---------------------------------------------------------------- their meaning

  /** Wire values: enum members, instances of generated classes, typed lists, and raw JSON data. */
  datatype Wire =
    | Raw(json: Json)
    | Member(enum: string, name: string)
    | ListOf(elements: seq<Wire>)
    | Instance(class_: string, slots: map<string, Wire>)

  const NULL := Raw(JNull)

  predicate IsScalar(j: Json, s: Scalar) {
    match s
    case TString => j.JString?
    case TInteger => j.JInt?
    case TNumber => j.JInt? || j.JDouble?
    case TBoolean => j.JBool?
  }

  /** Object?, or a typedef of it. */
  predicate IsTop(env: Env, t: Type) { t.Any? || (t.Named? && t.name in env && env[t.name].Untyped?) }

  /** A cast on a decoded JSON value. A typedef stands for the base type of its schema; a decoded
      list is a List<dynamic>, so it is a List<Object?> and no other typed list. */
  predicate CastHolds(env: Env, j: Json, t: Type) {
    match t
    case Plain(scalar) => IsScalar(j, scalar)
    case Named(name) =>
      name in env && (match env[name]
                      case Typed(scalar, _, _) => !IsEnum(env[name]) && IsScalar(j, scalar)
                      case ArrayOf(items, _) => j.JArray? && IsTop(env, BaseType(items))
                      case Untyped => true
                      case _ => false)
    case ListType(item) => j.JArray? && IsTop(env, item)
    case MapType => j.JObject?
    case Any => true
  }

  function RunDecode(env: Env, d: Decoder, j: Json): Result<Wire>
    decreases j, 1, d
  {
    match d
    case CastTo(t) => if CastHolds(env, j, t) then Ok(Raw(j)) else Fail
    case ByName(enum) =>
      if j.JString? && enum in env && IsEnum(env[enum])
          && j.s in env[enum].enumeration.value then Ok(Member(enum, j.s)) else Fail
    case FromJson(class_) =>
      if !j.JObject? || class_ !in env || !env[class_].ObjectOf? then Fail
      else
        (match DecodeSlots(env, env[class_].props, j)
         case Ok(slots) => Ok(Instance(class_, slots))
         case Fail => Fail)
    case MapList(item) =>
      if !j.JArray? then Fail
      else
        (match DecodeItems(env, item, j, |j.items|)
         case Ok(elements) => Ok(ListOf(elements))
         case Fail => Fail)
    case WireObject => if j.JObject? then Ok(Raw(j)) else Fail
    case Identity => Ok(Raw(j))
    case NullGuard(inner) => if j.JNull? then Ok(NULL) else RunDecode(env, inner, j)
  }

  /** An absent key reads as null. */
  function DecodeAbsent(env: Env, d: Decoder): Result<Wire> {
    match d
    case CastTo(t) => if CastHolds(env, JNull, t) then Ok(NULL) else Fail
    case Identity => Ok(NULL)
    case NullGuard(_) => Ok(NULL)
    case _ => Fail
  }

  function DecodeSlot(env: Env, p: Prop, j: Json): Result<Wire>
    requires j.JObject?
    decreases j, 0, 0
  {
    var d := DartDecode(env, p.schema, p.required);
    if p.name in j.fields then RunDecode(env, d, j.fields[p.name]) else DecodeAbsent(env, d)
  }

  function DecodeSlots(env: Env, props: seq<Prop>, j: Json): Result<map<string, Wire>>
    requires j.JObject?
    decreases j, 0, |props| + 1
  {
    if props == [] then Ok(map[])
    else
      match (DecodeSlot(env, props[0], j), DecodeSlots(env, props[1..], j))
      case (Ok(w), Ok(rest)) => Ok(rest[props[0].name := w])
      case _ => Fail
  }

  function DecodeItems(env: Env, item: Decoder, j: Json, n: nat): Result<seq<Wire>>
    requires j.JArray? && n <= |j.items|
    decreases j, 0, n
  {
    if n == 0 then Ok([])
    else
      match (DecodeItems(env, item, j, n - 1), RunDecode(env, item, j.items[n - 1]))
      case (Ok(before), Ok(w)) => Ok(before + [w])
      case _ => Fail
  }

  function RunEncode(env: Env, e: Encoder, w: Wire): Result<Json>
    decreases w, 1, 0
  {
    match e
    case AsIs =>
      if w.Raw? then Ok(w.json)
      else if w.ListOf? && (forall x | x in w.elements :: x.Raw?) then
        Ok(JArray(seq(|w.elements|, i requires 0 <= i < |w.elements| => if w.elements[i].Raw? then w.elements[i].json
            else JNull)))
      else Fail
    case NameOf => if w.Member? then Ok(JString(w.name)) else Fail
    case ToJson =>
      if !w.Instance? || w.class_ !in env || !env[w.class_].ObjectOf? then Fail
      else
        (match EncodeSlots(env, env[w.class_].props, w)
         case Ok(fields) => Ok(JObject(fields))
         case Fail => Fail)
    case MapNames => if w.ListOf? then AsArray(EncodeItems(env, NameOf, w, |w.elements|)) else Fail
    case MapToJson => if w.ListOf? then AsArray(EncodeItems(env, ToJson, w, |w.elements|)) else Fail
  }

  function AsArray(r: Result<seq<Json>>): Result<Json> {
    match r
    case Ok(items) => Ok(JArray(items))
    case Fail => Fail
  }

  /** `if (p != null) "p": e` for optional properties, `"p": e` for required ones. */
  function EncodeSlots(env: Env, props: seq<Prop>, w: Wire): Result<map<string, Json>>
    requires w.Instance?
    decreases w, 0, |props| + 1
  {
    if props == [] then Ok(map[])
    else
      var p := props[0];
      if p.name !in w.slots then Fail
      else
        match EncodeSlots(env, props[1..], w)
        case Fail => Fail
        case Ok(rest) =>
          if !p.required && w.slots[p.name] == NULL then Ok(rest)
          else
            match RunEncode(env, DartEncode(env, p.schema), w.slots[p.name])
            case Ok(j) => Ok(rest[p.name := j])
            case Fail => Fail
  }

  function EncodeItems(env: Env, e: Encoder, w: Wire, n: nat): Result<seq<Json>>
    requires w.ListOf? && n <= |w.elements|
    decreases w, 0, n
  {
    if n == 0 then Ok([])
    else
      match (EncodeItems(env, e, w, n - 1), RunEncode(env, e, w.elements[n - 1]))
      case (Ok(before), Ok(j)) => Ok(before + [j])
      case _ => Fail
  }

  // ---------------------------------------------------------------- the supported fragment

  predicate SupportedRef(env: Env, name: string) {
    && name in env
    && (|| IsEnum(env[name])
        || env[name].ObjectOf?
        || (env[name].Typed? && !env[name].nullable))
  }

  predicate SupportedItem(env: Env, s: Schema) {
    match s
    case Ref(name) => SupportedRef(env, name)
    case Typed(_, nullable, _) => !nullable
    case ObjectOf(_, nullable) => !nullable
    case Untyped => true
    case ArrayOf(_, _) => false
  }

  predicate Supported(env: Env, s: Schema) {
    match s
    case Ref(name) => SupportedRef(env, name)
    case ArrayOf(items, nullable) => !nullable && SupportedItem(env, items)
    case _ => true
  }

  /** An optional property is written as `if (p != null) "p": e`, and the language does not promote a
      public nullable field, so its expression must be the field itself. */
  predicate SupportedProp(env: Env, p: Prop) {
    Supported(env, p.schema) && (p.required || DartEncode(env, p.schema).AsIs?)
  }

  ghost predicate DistinctNames(props: seq<Prop>) {
    forall i, j :: 0 <= i < j < |props| ==> props[i].name != props[j].name
  }

  /** Every named object has distinct property names and only supported property schemas; the
      schemas may refer to one another in any way, cycles included. */
  ghost predicate SupportedEnv(env: Env) {
    forall name :: name in env && env[name].ObjectOf? ==>
      && DistinctNames(env[name].props)
      && forall p :: p in env[name].props ==> SupportedProp(env, p)
  }

  // ---------------------------------------------------------------- typed wire values

  /** The value belongs to the Dart type the generator prints for the schema. */
  ghost predicate HasType(env: Env, w: Wire, s: Schema, required: bool)
    decreases w, 1
  {
    || ((!required || Nullable(s)) && w == NULL)
    || (match s
        case Ref(name) => RefTyped(env, w, name)
        case Typed(scalar, _, _) => w.Raw? && IsScalar(w.json, scalar)
        case ArrayOf(items, _) => w.ListOf? && forall x :: x in w.elements ==> ItemTyped(env, x, items)
        case ObjectOf(_, _) => w.Raw? && w.json.JObject?
        case Untyped => w.Raw?)
  }

  ghost predicate ItemTyped(env: Env, w: Wire, s: Schema)
    decreases w, 1
  {
    match s
    case Ref(name) => RefTyped(env, w, name)
    case Typed(scalar, _, _) => w.Raw? && IsScalar(w.json, scalar)
    case ObjectOf(_, _) => w.Raw? && w.json.JObject?
    case Untyped => w.Raw?
    case ArrayOf(_, _) => false
  }

  ghost predicate RefTyped(env: Env, w: Wire, name: string)
    decreases w, 0
  {
    && name in env
    && (match env[name]
        case Typed(scalar, _, enumeration) =>
          if IsEnum(env[name]) then w.Member? && w.enum == name && w.name in enumeration.value
          else w.Raw? && IsScalar(w.json, scalar)
        case ObjectOf(props, _) =>
          && w.Instance? && w.class_ == name
          && (forall k :: k in w.slots <==> Declares(props, k))
          && (forall p :: p in props && p.name in w.slots ==> HasType(env, w.slots[p.name], p.schema, p.required))
        case _ => false)
  }

  // ---------------------------------------------------------------- slots, one property at a time

  ghost predicate Declares(props: seq<Prop>, k: string) {
    exists p :: p in props && p.name == k
  }

  lemma TailDeclares(props: seq<Prop>, k: string)
    requires props != [] && DistinctNames(props)
    ensures Declares(props[1..], k) <==> Declares(props, k) && k != props[0].name
    ensures DistinctNames(props[1..]) && (forall q :: q in props[1..] ==> q in props && q.name != props[0].name)
  {
    forall q | q in props[1..] ensures q in props && q.name != props[0].name {
      var i :| 0 <= i < |props[1..]| && props[1..][i] == q;
      assert props[0].name != props[i + 1].name;
    }
    if Declares(props, k) && k != props[0].name {
      var q :| q in props && q.name == k;
      assert q in props[1..];
    }
    if Declares(props[1..], k) {
      var q :| q in props[1..] && q.name == k;
    }
  }

  lemma HeadDecodes(env: Env, props: seq<Prop>, j: Json, slots: map<string, Wire>)
    requires j.JObject? && props != [] && props[0].name in slots
        && DecodeSlot(env, props[0], j) == Ok(slots[props[0].name])
    requires DecodeSlots(env, props[1..], j) == Ok(slots - {props[0].name})
    ensures DecodeSlots(env, props, j) == Ok(slots)
  {
    var name := props[0].name;
    assert (slots - {name})[name := slots[name]] == slots;
  }

  /** Decoding a class succeeds with the given slots when every property does. */
  lemma {:induction false} SlotsDecode(env: Env, props: seq<Prop>, j: Json, slots: map<string, Wire>)
    requires j.JObject? && DistinctNames(props)
    requires forall k :: k in slots <==> Declares(props, k)
    requires forall p :: p in props && p.name in slots ==> DecodeSlot(env, p, j) == Ok(slots[p.name])
    ensures DecodeSlots(env, props, j) == Ok(slots)
  {
    if props == [] {
      assert slots == map[];
    } else {
      var p := props[0];
      assert p in props && Declares(props, p.name);
      forall k { TailDeclares(props, k); }
      SlotsDecode(env, props[1..], j, slots - {p.name});
      HeadDecodes(env, props, j, slots);
    }
  }

  /** What encoding a class yields for one property: nothing, or a field. */
  predicate Encodes(env: Env, p: Prop, w: Wire, fields: map<string, Json>)
    requires w.Instance?
  {
    && p.name in w.slots
    && if !p.required && w.slots[p.name] == NULL then p.name !in fields
       else p.name in fields && RunEncode(env, DartEncode(env, p.schema), w.slots[p.name]) == Ok(fields[p.name])
  }

  lemma EncodesWithout(env: Env, q: Prop, w: Wire, fields: map<string, Json>, k: string)
    requires w.Instance? && Encodes(env, q, w, fields) && q.name != k
    ensures Encodes(env, q, w, fields - {k})
  {
  }

  lemma HeadEncodes(env: Env, props: seq<Prop>, w: Wire, fields: map<string, Json>)
    requires w.Instance? && props != [] && Encodes(env, props[0], w, fields)
    requires EncodeSlots(env, props[1..], w) == Ok(fields - {props[0].name})
    ensures EncodeSlots(env, props, w) == Ok(fields)
  {
    var name := props[0].name;
    if name in fields {
      assert (fields - {name})[name := fields[name]] == fields;
    } else {
      assert fields - {name} == fields;
    }
  }

  lemma {:induction false} SlotsEncode(env: Env, props: seq<Prop>, w: Wire, fields: map<string, Json>)
    requires w.Instance? && DistinctNames(props)
    requires forall p :: p in props ==> Encodes(env, p, w, fields)
    requires forall k :: k in fields ==> Declares(props, k)
    ensures EncodeSlots(env, props, w) == Ok(fields)
  {
    if props == [] {
      assert fields == map[];
    } else {
      var name := props[0].name;
      TailDeclares(props, name);
      forall q | q in props[1..] ensures Encodes(env, q, w, fields - {name}) {
        EncodesWithout(env, q, w, fields, name);
      }
      forall k | k in fields - {name} ensures Declares(props[1..], k) {
        TailDeclares(props, k);
      }
      SlotsEncode(env, props[1..], w, fields - {name});
      HeadEncodes(env, props, w, fields);
    }
  }

  lemma {:induction false} ItemsDecode(env: Env, item: Decoder, j: Json, elements: seq<Wire>, n: nat)
    requires j.JArray? && n <= |j.items| == |elements|
    requires forall i :: 0 <= i < n ==> RunDecode(env, item, j.items[i]) == Ok(elements[i])
    ensures DecodeItems(env, item, j, n) == Ok(elements[..n])
  {
    if n > 0 {
      ItemsDecode(env, item, j, elements, n - 1);
      assert elements[..n] == elements[..n - 1] + [elements[n - 1]];
    }
  }

  lemma {:induction false} ItemsEncode(env: Env, e: Encoder, w: Wire, items: seq<Json>, n: nat)
    requires w.ListOf? && n <= |w.elements| == |items|
    requires forall i :: 0 <= i < n ==> RunEncode(env, e, w.elements[i]) == Ok(items[i])
    ensures EncodeItems(env, e, w, n) == Ok(items[..n])
  {
    if n > 0 {
      ItemsEncode(env, e, w, items, n - 1);
      assert items[..n] == items[..n - 1] + [items[n - 1]];
    }
  }
}
