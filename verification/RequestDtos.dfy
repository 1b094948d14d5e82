/** Request validation: the decorator lists the contract generator emits for a flat request schema,
    their class-validator meaning, and JSON Schema Validation 2020-12, sections 6.1 to 6.5.

    String length and pattern matching belong to the libraries on both sides and are one parameter,
    `Strings`. A request body is the map of its parsed members. */
module RequestDtos {
  import opened Wrappers

  datatype Json = JNull | JBool(b: bool) | JNumber(n: real) | JString(s: string)
                | JArray(items: seq<Json>) | JObject(fields: map<string, Json>)

  type Body = map<string, Json>

  datatype Kind = KString | KInteger | KNumber | KBoolean

  datatype Schema = Schema(
    kind: Kind, nullable: bool, enumeration: Option<seq<Json>>,
    minLength: Option<nat>, maxLength: Option<nat>, pattern: Option<string>,
    minimum: Option<int>, maximum: Option<int>, default_: Option<Json>)

  datatype Prop = Prop(name: string, schema: Schema, required: bool)

  /** An object schema without additional properties. */
  datatype ObjectSchema = ObjectSchema(props: seq<Prop>, minProperties: nat)

  datatype Strings = Strings(length: string -> nat, matches: (string, string) -> bool)

  // ---------------------------------------------------------------- what the schema accepts

  predicate IsInteger(j: Json) { j.JNumber? && j.n.Floor as real == j.n }

  predicate OfKind(kind: Kind, j: Json) {
    match kind
    case KString => j.JString?
    case KInteger => IsInteger(j)
    case KNumber => j.JNumber?
    case KBoolean => j.JBool?
  }

  /** Each keyword constrains only the instances it applies to. */
  predicate ValueAccepted(lib: Strings, s: Schema, j: Json) {
    && (OfKind(s.kind, j) || (s.nullable && j.JNull?))
    && (s.enumeration.Some? ==> j in s.enumeration.value)
    && (j.JString? ==>
          && (s.minLength.Some? ==> lib.length(j.s) >= s.minLength.value)
          && (s.maxLength.Some? ==> lib.length(j.s) <= s.maxLength.value)
          && (s.pattern.Some? ==> lib.matches(s.pattern.value, j.s)))
    && (j.JNumber? ==>
          && (s.minimum.Some? ==> j.n >= s.minimum.value as real)
          && (s.maximum.Some? ==> j.n <= s.maximum.value as real))
  }

  predicate PropAccepted(lib: Strings, p: Prop, body: Body) {
    if p.name in body then ValueAccepted(lib, p.schema, body[p.name]) else !p.required
  }

  ghost predicate Declared(props: seq<Prop>, k: string) {
    exists i :: 0 <= i < |props| && props[i].name == k
  }

  ghost predicate OnlyDeclared(props: seq<Prop>, body: Body) { forall k :: k in body ==> Declared(props, k) }

  ghost predicate PropsAccepted(lib: Strings, props: seq<Prop>, body: Body) {
    forall i :: 0 <= i < |props| ==> PropAccepted(lib, props[i], body)
  }

  ghost predicate SchemaAccepts(lib: Strings, o: ObjectSchema, body: Body) {
    OnlyDeclared(o.props, body) && PropsAccepted(lib, o.props, body) && |body| >= o.minProperties
  }

  // ---------------------------------------------------------------- the emitted class

  datatype Decorator =
    | IsDefined | ValidateIfNotNull | ValidateIfDefined | IsOptional
    | IsString | IsIn(values: seq<Json>) | MinLength(min: nat) | MaxLength(max: nat) | Matches(pattern: string)
    | IsInt | IsNumber | Min(low: int) | Max(high: int) | IsBoolean

  datatype Field = Field(name: string, decorators: seq<Decorator>, initial: Option<Json>)

  /** `minimum` is the constraint attached to `__minimumDefinedProperties`, when there is one. */
  datatype DtoClass = DtoClass(fields: seq<Field>, minimum: Option<(nat, seq<string>)>)

  const MINIMUM_KEY := "__minimumDefinedProperties"

  predicate IsEnum(s: Schema) { s.kind.KString? && s.enumeration.Some? }

  function Presence(s: Schema, required: bool): seq<Decorator> {
    if required then (if s.nullable then [IsDefined, ValidateIfNotNull] else [IsDefined])
    else if s.nullable then [IsOptional]
    else [ValidateIfDefined]
  }

  function IsInCheck(s: Schema): seq<Decorator> { if IsEnum(s) then [IsIn(s.enumeration.value)] else [] }
  function MinLengthCheck(s: Schema): seq<Decorator> {
      if s.minLength.Some? then [MinLength(s.minLength.value)] else [] }
  function MaxLengthCheck(s: Schema): seq<Decorator> {
      if s.maxLength.Some? then [MaxLength(s.maxLength.value)] else [] }
  function PatternCheck(s: Schema): seq<Decorator> { if s.pattern.Some? then [Matches(s.pattern.value)] else [] }
  function MinCheck(s: Schema): seq<Decorator> { if s.minimum.Some? then [Min(s.minimum.value)] else [] }
  function MaxCheck(s: Schema): seq<Decorator> { if s.maximum.Some? then [Max(s.maximum.value)] else [] }

  function TypeChecks(s: Schema): seq<Decorator> {
    match s.kind
    case KString => [IsString] + IsInCheck(s) + MinLengthCheck(s) + MaxLengthCheck(s) + PatternCheck(s)
    case KInteger => [IsInt] + MinCheck(s) + MaxCheck(s)
    case KNumber => [IsNumber] + MinCheck(s) + MaxCheck(s)
    case KBoolean => [IsBoolean]
  }

  function Decorators(s: Schema, required: bool): seq<Decorator> { Presence(s, required) + TypeChecks(s) }

  function NamesOf(props: seq<Prop>): seq<string> { seq(|props|, i requires 0 <= i < |props| => props[i].name) }

  function ClassOf(o: ObjectSchema): DtoClass {
    DtoClass(seq(|o.props|, i requires 0 <= i < |o.props| =>
               Field(o.props[i].name, Decorators(o.props[i].schema, o.props[i].required), o.props[i].schema.default_)),
             if o.minProperties > 0 then Some((o.minProperties, NamesOf(o.props))) else None)
  }

  /** The generator builds each list by pushing. */
  method RequestDecorators(s: Schema, required: bool) returns (decorators: seq<Decorator>)
    ensures decorators == Decorators(s, required)
  {
    decorators := [];
    if required {
      decorators := decorators + [IsDefined];
      if s.nullable { decorators := decorators + [ValidateIfNotNull]; }
    } else if s.nullable {
      decorators := decorators + [IsOptional];
    } else {
      decorators := decorators + [ValidateIfDefined];
    }
    if s.kind == KString {
      decorators := PushStringChecks(decorators, s);
    } else if s.kind == KBoolean {
      decorators := decorators + [IsBoolean];
    } else {
      decorators := PushNumberChecks(decorators, s);
    }
  }

  method PushStringChecks(presence: seq<Decorator>, s: Schema) returns (decorators: seq<Decorator>)
    requires s.kind == KString
    ensures decorators == presence + TypeChecks(s)
  {
    var checks := [IsString];
    if IsEnum(s) { checks := checks + [IsIn(s.enumeration.value)]; }
    assert checks == [IsString] + IsInCheck(s);
    if s.minLength.Some? { checks := checks + [MinLength(s.minLength.value)]; }
    assert checks == [IsString] + IsInCheck(s) + MinLengthCheck(s);
    if s.maxLength.Some? { checks := checks + [MaxLength(s.maxLength.value)]; }
    assert checks == [IsString] + IsInCheck(s) + MinLengthCheck(s) + MaxLengthCheck(s);
    if s.pattern.Some? { checks := checks + [Matches(s.pattern.value)]; }
    decorators := presence + checks;
  }

  method PushNumberChecks(presence: seq<Decorator>, s: Schema) returns (decorators: seq<Decorator>)
    requires s.kind == KInteger || s.kind == KNumber
    ensures decorators == presence + TypeChecks(s)
  {
    var checks := [if s.kind == KInteger then IsInt else IsNumber];
    if s.minimum.Some? { checks := checks + [Min(s.minimum.value)]; }
    if s.maximum.Some? { checks := checks + [Max(s.maximum.value)]; }
    decorators := presence + checks;
  }

  // ---------------------------------------------------------------- class-validator

  /** None stands for undefined. */
  type Value = Option<Json>

  predicate IsNull(v: Value) { v == Some(JNull) }

  predicate IsConditional(d: Decorator) { d.ValidateIfNotNull? || d.ValidateIfDefined? || d.IsOptional? }

  predicate Condition(d: Decorator, v: Value)
    requires IsConditional(d)
  {
    match d
    case ValidateIfNotNull => !IsNull(v)
    case ValidateIfDefined => v.Some?
    case IsOptional => v.Some? && !IsNull(v)
  }

  predicate Check(lib: Strings, d: Decorator, v: Value)
    requires !IsConditional(d)
  {
    match d
    case IsDefined => v.Some? && !IsNull(v)
    case IsString => v.Some? && v.value.JString?
    case IsIn(values) => v.Some? && v.value in values
    case MinLength(min) => v.Some? && v.value.JString? && lib.length(v.value.s) >= min
    case MaxLength(max) => v.Some? && v.value.JString? && lib.length(v.value.s) <= max
    case Matches(pattern) => v.Some? && v.value.JString? && lib.matches(pattern, v.value.s)
    case IsInt => v.Some? && IsInteger(v.value)
    case IsNumber => v.Some? && v.value.JNumber?
    case Min(low) => v.Some? && v.value.JNumber? && v.value.n >= low as real
    case Max(high) => v.Some? && v.value.JNumber? && v.value.n <= high as real
    case IsBoolean => v.Some? && v.value.JBool?
  }

  ghost predicate Skips(decorators: seq<Decorator>, v: Value) {
    exists d :: d in decorators && IsConditional(d) && !Condition(d, v)
  }

  ghost predicate AllHold(lib: Strings, decorators: seq<Decorator>, v: Value) {
    forall d :: d in decorators && !IsConditional(d) ==> Check(lib, d, v)
  }

  /** One false condition switches off every check on the property, IsDefined included. */
  ghost predicate Passes(lib: Strings, decorators: seq<Decorator>, v: Value) {
    Skips(decorators, v) || AllHold(lib, decorators, v)
  }

  /** The property of the instance: the body's member, or the field's initializer. */
  function ValueOf(f: Field, body: Body): Value {
    if f.name in body then Some(body[f.name]) else f.initial
  }

  ghost predicate FieldPasses(lib: Strings, f: Field, body: Body) { Passes(lib, f.decorators, ValueOf(f, body)) }

  function CountDefined(c: DtoClass, body: Body, n: nat): nat
    requires n <= |c.fields|
  {
    if n == 0 then 0 else CountDefined(c, body, n - 1) + (if ValueOf(c.fields[n - 1], body).Some? then 1 else 0)
  }

  ghost predicate HasField(c: DtoClass, k: string) { exists i :: 0 <= i < |c.fields| && c.fields[i].name == k }

  ghost predicate Whitelisted(c: DtoClass, body: Body) {
    forall k :: k in body ==> HasField(c, k) || (c.minimum.Some? && k == MINIMUM_KEY)
  }

  ghost predicate FieldsPass(lib: Strings, c: DtoClass, body: Body) {
    forall i :: 0 <= i < |c.fields| ==> FieldPasses(lib, c.fields[i], body)
  }

  predicate EnoughDefined(c: DtoClass, body: Body) {
    c.minimum.Some? ==> MINIMUM_KEY !in body && CountDefined(c, body, |c.fields|) >= c.minimum.value.0
  }

  ghost predicate DtoAccepts(lib: Strings, c: DtoClass, body: Body) {
    Whitelisted(c, body) && FieldsPass(lib, c, body) && EnoughDefined(c, body)
  }

  // ---------------------------------------------------------------- one property

  /** The schema the decorators check: enumerations only on strings, and null let through whenever
      the type allows it. */
  function Widened(s: Schema): Schema {
    s.(enumeration := if !IsEnum(s) then None
                      else if s.nullable then Some(s.enumeration.value + [JNull])
                      else s.enumeration)
  }

  lemma AllHoldSplits(lib: Strings, a: seq<Decorator>, b: seq<Decorator>, v: Value)
    ensures AllHold(lib, a + b, v) <==> AllHold(lib, a, v) && AllHold(lib, b, v)
  {
    assert forall d :: d in a + b <==> d in a || d in b;
  }

  lemma PresenceDecides(s: Schema, required: bool, v: Value)
    ensures Skips(Decorators(s, required), v) <==> (IsNull(v) && s.nullable) || (v.None? && !required)
  {
    var presence := Presence(s, required);
    assert forall d :: d in TypeChecks(s) ==> !IsConditional(d);
    assert forall d :: d in Decorators(s, required) <==> d in presence || d in TypeChecks(s);
    assert presence[|presence| - 1] in presence;
  }

  lemma OptionalChecksDecide(lib: Strings, s: Schema, v: Value)
    requires v.Some?
    ensures v.value.JString? ==>
      && (AllHold(lib, MinLengthCheck(s), v) <==> (s.minLength.Some? ==> lib.length(v.value.s) >= s.minLength.value))
      && (AllHold(lib, MaxLengthCheck(s), v) <==> (s.maxLength.Some? ==> lib.length(v.value.s) <= s.maxLength.value))
      && (AllHold(lib, PatternCheck(s), v) <==> (s.pattern.Some? ==> lib.matches(s.pattern.value, v.value.s)))
    ensures v.value.JNumber? ==>
      && (AllHold(lib, MinCheck(s), v) <==> (s.minimum.Some? ==> v.value.n >= s.minimum.value as real))
      && (AllHold(lib, MaxCheck(s), v) <==> (s.maximum.Some? ==> v.value.n <= s.maximum.value as real))
    ensures AllHold(lib, IsInCheck(s), v) <==> (IsEnum(s) ==> v.value in s.enumeration.value)
  {
    if s.minLength.Some? { assert MinLengthCheck(s)[0] in MinLengthCheck(s); }
    if s.maxLength.Some? { assert MaxLengthCheck(s)[0] in MaxLengthCheck(s); }
    if s.pattern.Some? { assert PatternCheck(s)[0] in PatternCheck(s); }
    if s.minimum.Some? { assert MinCheck(s)[0] in MinCheck(s); }
    if s.maximum.Some? { assert MaxCheck(s)[0] in MaxCheck(s); }
    if IsEnum(s) { assert IsInCheck(s)[0] in IsInCheck(s); }
  }

  lemma ChecksDecide(lib: Strings, s: Schema, v: Value)
    requires v.Some?
    ensures AllHold(lib, TypeChecks(s), v) <==> ValueAccepted(lib, Widened(s).(nullable := false), v.value)
  {
    OptionalChecksDecide(lib, s, v);
    assert TypeChecks(s)[0] in TypeChecks(s);
    if s.kind.KString? {
      AllHoldSplits(lib, [IsString] + IsInCheck(s) + MinLengthCheck(s) + MaxLengthCheck(s), PatternCheck(s), v);
      AllHoldSplits(lib, [IsString] + IsInCheck(s) + MinLengthCheck(s), MaxLengthCheck(s), v);
      AllHoldSplits(lib, [IsString] + IsInCheck(s), MinLengthCheck(s), v);
      AllHoldSplits(lib, [IsString], IsInCheck(s), v);
    } else if !s.kind.KBoolean? {
      var first := [if s.kind.KInteger? then IsInt else IsNumber];
      AllHoldSplits(lib, first + MinCheck(s), MaxCheck(s), v);
      AllHoldSplits(lib, first, MinCheck(s), v);
    }
  }

  lemma WideningAddsOnlyNull(lib: Strings, s: Schema, j: Json)
    requires j != JNull
    ensures ValueAccepted(lib, Widened(s).(nullable := false), j) == ValueAccepted(lib, Widened(s), j)
  {
  }

  /** Absent, null and present values alike: the decorators say what the widened schema says. */
  lemma PropertyAgrees(lib: Strings, s: Schema, required: bool, v: Value)
    ensures Passes(lib, Decorators(s, required), v)
            <==> if v.Some? then ValueAccepted(lib, Widened(s), v.value) else !required
  {
    PresenceDecides(s, required, v);
    AllHoldSplits(lib, Presence(s, required), TypeChecks(s), v);
    PresenceHolds(lib, s, required, v);
    if v.Some? && v != Some(JNull) {
      ChecksDecide(lib, s, v);
      WideningAddsOnlyNull(lib, s, v.value);
    } else if v.Some? {
      NullFails(lib, s);
    }
  }

  lemma PresenceHolds(lib: Strings, s: Schema, required: bool, v: Value)
    ensures AllHold(lib, Presence(s, required), v) <==> !required || (v.Some? && v != Some(JNull))
  {
    if required { assert Presence(s, required)[0] in Presence(s, required); }
  }

  lemma NullFails(lib: Strings, s: Schema)
    ensures !AllHold(lib, TypeChecks(s), Some(JNull))
    ensures ValueAccepted(lib, Widened(s), JNull) <==> s.nullable
  {
    assert TypeChecks(s)[0] in TypeChecks(s);
    if IsEnum(s) && s.nullable {
      assert Widened(s).enumeration.value[|s.enumeration.value|] == JNull;
    }
  }

  // ---------------------------------------------------------------- whole bodies

  ghost predicate DistinctNames(props: seq<Prop>) {
    forall i, j :: 0 <= i < j < |props| ==> props[i].name != props[j].name
  }

  /** The body with the initializers of absent properties filled in. */
  ghost function Filled(o: ObjectSchema, body: Body): Body {
    map k | k in body.Keys + (set i | 0 <= i < |o.props| && o.props[i].schema.default_.Some? :: o.props[i].name)
      :: if k in body then body[k] else DefaultOf(o.props, k)
  }

  function DefaultOf(props: seq<Prop>, k: string): Json {
    if props == [] then JNull
    else if props[0].name == k && props[0].schema.default_.Some? then props[0].schema.default_.value
    else DefaultOf(props[1..], k)
  }

  lemma {:induction false} DefaultOfNamed(props: seq<Prop>, i: nat)
    requires DistinctNames(props) && i < |props| && props[i].schema.default_.Some?
    ensures DefaultOf(props, props[i].name) == props[i].schema.default_.value
  {
    if i > 0 {
      assert props[0].name != props[i].name;
      assert props[1..][i - 1] == props[i];
      DefaultOfNamed(props[1..], i - 1);
    }
  }

  ghost function WidenedObject(o: ObjectSchema): ObjectSchema {
    o.(props := seq(|o.props|, i requires 0 <= i < |o.props| => o.props[i].(schema := Widened(o.props[i].schema))))
  }

  /** A class whose fields check the properties of the schema `w` in order, with initializers from
      the schema `o`. */
  ghost predicate Implements(lib: Strings, c: DtoClass, o: ObjectSchema, w: ObjectSchema) {
    && |c.fields| == |o.props| == |w.props| && o.minProperties == w.minProperties
    && (c.minimum.Some? <==> o.minProperties > 0) && (c.minimum.Some? ==> c.minimum.value.0 == o.minProperties)
    && forall i :: 0 <= i < |c.fields| ==> FieldFits(lib, c.fields[i], o.props[i], w.props[i])
  }

  /** The class's fields are the schema's properties, in order, with the schema's initializers. */
  ghost predicate Mirrors(c: DtoClass, o: ObjectSchema) {
    |c.fields| == |o.props|
    && forall i :: 0 <= i < |c.fields| ==>
         c.fields[i].name == o.props[i].name && c.fields[i].initial == o.props[i].schema.default_
  }

  lemma ImplementationMirrors(lib: Strings, c: DtoClass, o: ObjectSchema, w: ObjectSchema)
    requires Implements(lib, c, o, w)
    ensures Mirrors(c, o)
  {
    assert forall i :: 0 <= i < |c.fields| ==> FieldFits(lib, c.fields[i], o.props[i], w.props[i]);
  }

  ghost predicate FieldFits(lib: Strings, f: Field, p: Prop, w: Prop) {
    && f.name == p.name == w.name && f.initial == p.schema.default_
    && forall v :: Passes(lib, f.decorators, v) <==> ValueFits(lib, w, v)
  }

  predicate ValueFits(lib: Strings, w: Prop, v: Value) {
    if v.Some? then ValueAccepted(lib, w.schema, v.value) else !w.required
  }

  lemma ClassImplementsWidened(lib: Strings, o: ObjectSchema)
    ensures Implements(lib, ClassOf(o), o, WidenedObject(o))
  {
    forall i | 0 <= i < |o.props| ensures FieldFits(lib, ClassOf(o).fields[i], o.props[i], WidenedObject(o).props[i]) {
      forall v { PropertyAgrees(lib, o.props[i].schema, o.props[i].required, v); }
    }
  }

  lemma FilledAt(c: DtoClass, o: ObjectSchema, body: Body, i: nat)
    requires Mirrors(c, o) && DistinctNames(o.props) && i < |o.props|
    ensures var v, name := ValueOf(c.fields[i], body), o.props[i].name;
      && (v.Some? <==> name in Filled(o, body))
      && (v.Some? ==> v.value == Filled(o, body)[name])
  {
    if o.props[i].schema.default_.Some? {
      DefaultOfNamed(o.props, i);
    }
  }

  ghost function NamesIn(props: seq<Prop>, body: Body, n: nat): set<string>
    requires n <= |props|
  {
    if n == 0 then {} else NamesIn(props, body, n - 1) + (if props[n - 1].name in body then {props[n - 1].name} else {})
  }

  lemma {:induction false} NamesInAre(props: seq<Prop>, body: Body, n: nat, k: string)
    requires n <= |props|
    ensures k in NamesIn(props, body, n) <==> k in body && exists i :: 0 <= i < n && props[i].name == k
  {
    if n > 0 { NamesInAre(props, body, n - 1, k); }
  }

  lemma NextNameIsNew(props: seq<Prop>, body: Body, n: nat)
    requires DistinctNames(props) && n < |props|
    ensures |NamesIn(props, body, n + 1)| == |NamesIn(props, body, n)| + (if props[n].name in body then 1 else 0)
  {
    NamesInAre(props, body, n, props[n].name);
  }

  /** The class's fields are defined on the body exactly where the schema's names are in `filled`. */
  ghost predicate DefinedWhere(c: DtoClass, o: ObjectSchema, body: Body, filled: Body) {
    |c.fields| == |o.props|
    && forall i :: 0 <= i < |c.fields| ==> (ValueOf(c.fields[i], body).Some? <==> o.props[i].name in filled)
  }

  lemma {:induction false} CountsNames(c: DtoClass, o: ObjectSchema, body: Body, filled: Body, n: nat)
    requires DefinedWhere(c, o, body, filled) && DistinctNames(o.props) && n <= |o.props|
    ensures CountDefined(c, body, n) == |NamesIn(o.props, filled, n)|
  {
    if n > 0 {
      CountsNames(c, o, body, filled, n - 1);
      NextNameIsNew(o.props, filled, n - 1);
    }
  }

  /** Counting defined fields counts the members of the filled body. */
  lemma CountsMembers(c: DtoClass, o: ObjectSchema, body: Body, n: nat)
    requires Mirrors(c, o) && DistinctNames(o.props) && n <= |o.props|
    ensures CountDefined(c, body, n) == |NamesIn(o.props, Filled(o, body), n)|
  {
    var filled := Filled(o, body);
    forall i | 0 <= i < |c.fields| ensures ValueOf(c.fields[i], body).Some? <==> o.props[i].name in filled {
      FilledAt(c, o, body, i);
    }
    CountsNames(c, o, body, filled, n);
  }

  lemma MembersAreFields(o: ObjectSchema, body: Body)
    requires forall k :: k in body ==> Declared(o.props, k)
    ensures Filled(o, body).Keys == NamesIn(o.props, Filled(o, body), |o.props|)
    ensures |Filled(o, body)| == |NamesIn(o.props, Filled(o, body), |o.props|)|
  {
    forall k ensures k in Filled(o, body) <==> k in NamesIn(o.props, Filled(o, body), |o.props|) {
      NamesInAre(o.props, Filled(o, body), |o.props|, k);
      if k in Filled(o, body) { assert Declared(o.props, k); }
    }
    assert |Filled(o, body).Keys| == |Filled(o, body)|;
  }

  lemma FieldAgrees(lib: Strings, c: DtoClass, o: ObjectSchema, w: ObjectSchema, body: Body, i: nat)
    requires Implements(lib, c, o, w) && DistinctNames(o.props) && i < |o.props|
    ensures FieldPasses(lib, c.fields[i], body) <==> PropAccepted(lib, w.props[i], Filled(o, body))
  {
    ImplementationMirrors(lib, c, o, w);
    FilledAt(c, o, body, i);
    assert FieldFits(lib, c.fields[i], o.props[i], w.props[i]);
  }

  lemma SameNames(lib: Strings, c: DtoClass, o: ObjectSchema, w: ObjectSchema, k: string)
    requires Implements(lib, c, o, w)
    ensures HasField(c, k) <==> Declared(o.props, k)
    ensures Declared(w.props, k) <==> Declared(o.props, k)
  {
    assert forall i :: 0 <= i < |o.props| ==> FieldFits(lib, c.fields[i], o.props[i], w.props[i]);
  }

  lemma FieldsAgree(lib: Strings, c: DtoClass, o: ObjectSchema, w: ObjectSchema, body: Body)
    requires Implements(lib, c, o, w) && DistinctNames(o.props)
    ensures FieldsPass(lib, c, body) <==> PropsAccepted(lib, w.props, Filled(o, body))
  {
    forall i | 0 <= i < |o.props|
      ensures FieldPasses(lib, c.fields[i], body) <==> PropAccepted(lib, w.props[i], Filled(o, body))
    {
      FieldAgrees(lib, c, o, w, body, i);
    }
  }

  lemma KeysAgree(lib: Strings, c: DtoClass, o: ObjectSchema, w: ObjectSchema, body: Body)
    requires Implements(lib, c, o, w) && !Declared(o.props, MINIMUM_KEY)
    ensures OnlyDeclared(o.props, body) ==>
              Whitelisted(c, body) && OnlyDeclared(w.props, Filled(o, body)) && MINIMUM_KEY !in body
    ensures Whitelisted(c, body) && EnoughDefined(c, body) ==> OnlyDeclared(o.props, body)
  {
    forall k { SameNames(lib, c, o, w, k); }
    forall k | k in Filled(o, body) && k !in body ensures Declared(o.props, k) { }
  }

  lemma CountsAgree(lib: Strings, c: DtoClass, o: ObjectSchema, w: ObjectSchema, body: Body)
    requires Implements(lib, c, o, w) && DistinctNames(o.props) && OnlyDeclared(o.props, body) && MINIMUM_KEY !in body
    ensures EnoughDefined(c, body) <==> |Filled(o, body)| >= w.minProperties
  {
    ImplementationMirrors(lib, c, o, w);
    CountsMembers(c, o, body, |o.props|);
    MembersAreFields(o, body);
  }

  /** Main result, without conditions on the schema's keywords: for every body the emitted class
      accepts exactly what the widened schema accepts once initializers are filled in. */
  lemma ClassChecksFilledBody(lib: Strings, o: ObjectSchema, body: Body)
    requires DistinctNames(o.props) && !Declared(o.props, MINIMUM_KEY)
    ensures DtoAccepts(lib, ClassOf(o), body)
            <==> OnlyDeclared(o.props, body) && SchemaAccepts(lib, WidenedObject(o), Filled(o, body))
  {
    var c, w := ClassOf(o), WidenedObject(o);
    ClassImplementsWidened(lib, o);
    KeysAgree(lib, c, o, w, body);
    FieldsAgree(lib, c, o, w, body);
    if OnlyDeclared(o.props, body) { CountsAgree(lib, c, o, w, body); }
  }

  // ---------------------------------------------------------------- against the schema as written

  /** A value the class does not compare with the enumeration and the schema does: any value of a
      property that is not a string, and a null the type allows. */
  predicate Unlisted(p: Prop, body: Body) {
    && p.name in body && p.schema.enumeration.Some? && body[p.name] !in p.schema.enumeration.value
    && (!p.schema.kind.KString? || (body[p.name] == JNull && p.schema.nullable))
  }

  /** A required property left to its initializer. */
  predicate LeftToInitializer(p: Prop, body: Body) {
    p.required && p.name !in body && p.schema.default_.Some?
  }

  /** An optional property left to an initializer its own decorators refuse. */
  predicate RefusedInitializer(lib: Strings, p: Prop, body: Body) {
    && !p.required && p.name !in body && p.schema.default_.Some?
    && !ValueAccepted(lib, Widened(p.schema), p.schema.default_.value)
  }

  predicate LapseAt(p: Prop, body: Body) { Unlisted(p, body) || LeftToInitializer(p, body) }

  ghost predicate HasLapse(props: seq<Prop>, body: Body) { exists i :: 0 <= i < |props| && LapseAt(props[i], body) }

  /** The three ways a body can be let through that the schema refuses. */
  ghost predicate Lapses(o: ObjectSchema, body: Body) { HasLapse(o.props, body) || |body| < o.minProperties }

  /** The one way a body can be refused that the schema accepts. */
  ghost predicate Refuses(lib: Strings, o: ObjectSchema, body: Body) {
    exists i :: 0 <= i < |o.props| && RefusedInitializer(lib, o.props[i], body)
  }

  lemma WideningIsMonotone(lib: Strings, s: Schema, j: Json)
    ensures ValueAccepted(lib, s, j) <==>
            && ValueAccepted(lib, Widened(s), j)
            && !(s.enumeration.Some? && j !in s.enumeration.value && (!s.kind.KString? || (j == JNull && s.nullable)))
  {
  }

  lemma WidenedPropAccepts(lib: Strings, o: ObjectSchema, body: Body, i: nat)
    requires DistinctNames(o.props) && i < |o.props|
    ensures PropAccepted(lib, o.props[i], body) && !RefusedInitializer(lib, o.props[i], body) <==>
            PropAccepted(lib, WidenedObject(o).props[i], Filled(o, body)) && !LapseAt(o.props[i], body)
    ensures LapseAt(o.props[i], body) ==> !PropAccepted(lib, o.props[i], body)
    ensures RefusedInitializer(lib, o.props[i], body) ==>
            !PropAccepted(lib, WidenedObject(o).props[i], Filled(o, body))
  {
    var p := o.props[i];
    ClassImplementsWidened(lib, o);
    ImplementationMirrors(lib, ClassOf(o), o, WidenedObject(o));
    FilledAt(ClassOf(o), o, body, i);
    if p.name in body { WideningIsMonotone(lib, p.schema, body[p.name]); }
  }

  lemma WidenedPropsAccept(lib: Strings, o: ObjectSchema, body: Body)
    requires DistinctNames(o.props)
    ensures PropsAccepted(lib, o.props, body) && !Refuses(lib, o, body) <==>
            PropsAccepted(lib, WidenedObject(o).props, Filled(o, body)) && !HasLapse(o.props, body)
    ensures HasLapse(o.props, body) ==> !PropsAccepted(lib, o.props, body)
    ensures Refuses(lib, o, body) ==> !PropsAccepted(lib, WidenedObject(o).props, Filled(o, body))
  {
    var w := WidenedObject(o);
    forall i | 0 <= i < |o.props|
      ensures PropAccepted(lib, o.props[i], body) && !RefusedInitializer(lib, o.props[i], body) <==>
              PropAccepted(lib, w.props[i], Filled(o, body)) && !LapseAt(o.props[i], body)
      ensures LapseAt(o.props[i], body) ==> !PropAccepted(lib, o.props[i], body)
      ensures RefusedInitializer(lib, o.props[i], body) ==> !PropAccepted(lib, w.props[i], Filled(o, body))
    {
      WidenedPropAccepts(lib, o, body, i);
    }
  }

  lemma FillingOnlyAdds(o: ObjectSchema, body: Body)
    ensures |body| <= |Filled(o, body)|
  {
    Shorter(body.Keys, Filled(o, body).Keys);
    assert |body.Keys| == |body| && |Filled(o, body).Keys| == |Filled(o, body)|;
  }

  lemma Shorter(a: set<string>, b: set<string>)
    requires a <= b
    ensures |a| <= |b|
  {
    assert b == a + (b - a);
  }

  lemma FilledKeysAgree(lib: Strings, o: ObjectSchema, body: Body)
    ensures OnlyDeclared(o.props, body) ==> OnlyDeclared(WidenedObject(o).props, Filled(o, body))
  {
    ClassImplementsWidened(lib, o);
    forall k { SameNames(lib, ClassOf(o), o, WidenedObject(o), k); }
    forall k | k in Filled(o, body) && k !in body ensures Declared(o.props, k) { }
  }

  /** For every schema and body: the bodies the class lets through and the schema refuses are exactly
      the accepted ones with a lapse, and the bodies the schema accepts and the class refuses exactly
      those left to a refused initializer. */
  lemma ClassAgreesUnlessLapse(lib: Strings, o: ObjectSchema, body: Body)
    requires DistinctNames(o.props) && !Declared(o.props, MINIMUM_KEY)
    ensures var dto, schema := DtoAccepts(lib, ClassOf(o), body), SchemaAccepts(lib, o, body);
      && (dto && !schema <==> dto && Lapses(o, body))
      && (schema && !dto <==> schema && Refuses(lib, o, body))
  {
    ClassChecksFilledBody(lib, o, body);
    WidenedPropsAccept(lib, o, body);
    FillingOnlyAdds(o, body);
    FilledKeysAgree(lib, o, body);
  }

  /** Enumerations only on strings, listing null where the type allows it; initializers the schema
      accepts, and those only without a minimum and on optional properties. */
  ghost predicate Strict(lib: Strings, o: ObjectSchema) {
    forall i :: 0 <= i < |o.props| ==>
      StrictProp(lib, o.props[i]) && (o.props[i].schema.default_.Some? ==> o.minProperties == 0)
  }

  predicate StrictProp(lib: Strings, p: Prop) {
    && (p.schema.enumeration.Some? ==>
          p.schema.kind.KString? && (p.schema.nullable ==> JNull in p.schema.enumeration.value))
    && (p.schema.default_.Some? ==> !p.required && ValueAccepted(lib, p.schema, p.schema.default_.value))
  }

  lemma NothingToFill(o: ObjectSchema, body: Body)
    requires forall i :: 0 <= i < |o.props| ==> o.props[i].schema.default_.None?
    ensures Filled(o, body) == body
  {
  }

  lemma StrictPropNeverLapses(lib: Strings, p: Prop, body: Body)
    requires StrictProp(lib, p)
    ensures !LapseAt(p, body) && !RefusedInitializer(lib, p, body)
  {
    if p.schema.default_.Some? { WideningIsMonotone(lib, p.schema, p.schema.default_.value); }
  }

  lemma StrictNeverLapses(lib: Strings, o: ObjectSchema, body: Body)
    requires Strict(lib, o)
    ensures !HasLapse(o.props, body) && !Refuses(lib, o, body)
    ensures |Filled(o, body)| >= o.minProperties ==> !Lapses(o, body)
  {
    if o.minProperties > 0 { NothingToFill(o, body); }
    forall i | 0 <= i < |o.props| ensures !LapseAt(o.props[i], body) && !RefusedInitializer(lib, o.props[i], body) {
      StrictPropNeverLapses(lib, o.props[i], body);
    }
  }

  /** For such a schema the class and the schema accept the same bodies. */
  lemma StrictClassAgrees(lib: Strings, o: ObjectSchema, body: Body)
    requires Strict(lib, o) && DistinctNames(o.props) && !Declared(o.props, MINIMUM_KEY)
    ensures SchemaAccepts(lib, o, body) <==> DtoAccepts(lib, ClassOf(o), body)
  {
    ClassAgreesUnlessLapse(lib, o, body);
    StrictNeverLapses(lib, o, body);
    if DtoAccepts(lib, ClassOf(o), body) { AcceptedIsEnough(lib, o, body); }
  }

  lemma AcceptedIsEnough(lib: Strings, o: ObjectSchema, body: Body)
    requires DtoAccepts(lib, ClassOf(o), body) && DistinctNames(o.props) && !Declared(o.props, MINIMUM_KEY)
    ensures |Filled(o, body)| >= o.minProperties
  {
    ClassChecksFilledBody(lib, o, body);
  }

  // ---------------------------------------------------------------- lapses happen

  function Plain(kind: Kind): Schema { Schema(kind, false, None, None, None, None, None, None, None) }

  function OneProp(s: Schema, minProperties: nat): ObjectSchema { ObjectSchema([Prop("p", s, false)], minProperties) }

  lemma OnePropAccepts(lib: Strings, s: Schema, minProperties: nat, body: Body)
    requires body.Keys <= {"p"} && |Filled(OneProp(s, minProperties), body)| >= minProperties
    requires var filled := Filled(OneProp(s, minProperties), body); "p" in filled ==>
        ValueAccepted(lib, Widened(s), filled["p"])
    ensures DtoAccepts(lib, ClassOf(OneProp(s, minProperties)), body)
  {
    var o := OneProp(s, minProperties);
    var w, filled := WidenedObject(o), Filled(o, body);
    assert o.props[0].name == "p" && w.props[0] == Prop("p", Widened(s), false);
    assert !Declared(o.props, MINIMUM_KEY) by { assert |MINIMUM_KEY| > 1; }
    forall k | k in filled ensures Declared(w.props, k) && Declared(o.props, k) { assert k == "p"; }
    ClassChecksFilledBody(lib, o, body);
  }

  lemma NullSlipsThrough(lib: Strings)
    ensures var o := OneProp(Plain(KString).(nullable := true, enumeration := Some([JString("a")])), 0);
      DtoAccepts(lib, ClassOf(o), map["p" := JNull]) && !SchemaAccepts(lib, o, map["p" := JNull])
  {
    var s := Plain(KString).(nullable := true, enumeration := Some([JString("a")]));
    var o := OneProp(s, 0);
    OnePropAccepts(lib, s, 0, map["p" := JNull]);
    NullFails(lib, s);
    assert !PropAccepted(lib, o.props[0], map["p" := JNull]);
  }

  lemma InitializerMeetsMinimum(lib: Strings)
    ensures var o := OneProp(Plain(KBoolean).(default_ := Some(JBool(true))), 1);
      DtoAccepts(lib, ClassOf(o), map[]) && !SchemaAccepts(lib, o, map[])
  {
    var s := Plain(KBoolean).(default_ := Some(JBool(true)));
    assert OneProp(s, 1).props[0].name == "p";
    var filled := Filled(OneProp(s, 1), map[]);
    assert filled.Keys == {"p"} && |filled.Keys| == |filled|;
    OnePropAccepts(lib, s, 1, map[]);
  }

  lemma NumberEnumerationIsIgnored(lib: Strings)
    ensures var o := OneProp(Plain(KInteger).(enumeration := Some([JNumber(1.0)])), 0);
      DtoAccepts(lib, ClassOf(o), map["p" := JNumber(2.0)]) && !SchemaAccepts(lib, o, map["p" := JNumber(2.0)])
  {
    var s := Plain(KInteger).(enumeration := Some([JNumber(1.0)]));
    var o := OneProp(s, 0);
    var body: Body := map["p" := JNumber(2.0)];
    assert o.props[0].name == "p";
    assert 2.0.Floor == 2;
    OnePropAccepts(lib, s, 0, body);
    assert !PropAccepted(lib, o.props[0], body);
  }

  lemma InitializerIsRefused(lib: Strings)
    ensures var o := OneProp(Plain(KInteger).(minimum := Some(1), default_ := Some(JNumber(0.0))), 0);
      !DtoAccepts(lib, ClassOf(o), map[]) && SchemaAccepts(lib, o, map[])
  {
    var o := OneProp(Plain(KInteger).(minimum := Some(1), default_ := Some(JNumber(0.0))), 0);
    assert !Declared(o.props, MINIMUM_KEY) by { assert |MINIMUM_KEY| > 1 && o.props[0].name == "p"; }
    assert RefusedInitializer(lib, o.props[0], map[]);
    ClassAgreesUnlessLapse(lib, o, map[]);
  }
}
