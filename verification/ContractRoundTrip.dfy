/** The emitted codec keeps meaning: decoding undoes encoding on every typed value, and encoding
    undoes decoding on every schema-shaped document up to optional properties that were explicitly
    null. Both hold for every supported schema environment, with or without cycles. */
module ContractRoundTrip {
  import opened ContractCodec

  // ---------------------------------------------------------------- decode after encode

  /** Encoding succeeds, and decoding what it produced gives the value back. */
  ghost predicate GoesAround(env: Env, e: Encoder, d: Decoder, w: Wire) {
    var r := RunEncode(env, e, w);
    r.Ok? && RunDecode(env, d, r.value) == Ok(w)
  }

  ghost function Find(props: seq<Prop>, k: string): (p: Prop)
    requires Declares(props, k)
    ensures p in props && p.name == k
  {
    var p :| p in props && p.name == k; p
  }

  ghost function FindNamed(props: seq<Prop>, k: string): (p: Prop)
    requires k in set p | p in props :: p.name
  {
    Find(props, k)
  }

  lemma FindFinds(props: seq<Prop>, p: Prop)
    requires DistinctNames(props) && p in props
    ensures Declares(props, p.name) && Find(props, p.name) == p
  {
    var i :| 0 <= i < |props| && props[i] == p;
    assert Declares(props, p.name);
    var j :| 0 <= j < |props| && props[j] == Find(props, p.name);
    if i < j {
      assert props[i].name != props[j].name;
    } else if j < i {
      assert props[j].name != props[i].name;
    }
  }

  predicate Omitted(p: Prop, w: Wire) { !p.required && w == NULL }

  /** The fields an instance encodes to. */
  ghost function FieldsOf(env: Env, props: seq<Prop>, w: Wire): map<string, Json>
    requires w.Instance? && forall k :: k in w.slots ==> Declares(props, k)
  {
    map k | k in w.slots && !Omitted(Find(props, k), w.slots[k])
      :: Value(RunEncode(env, DartEncode(env, Find(props, k).schema), w.slots[k]))
  }

  function Value(r: Result<Json>): Json { if r.Ok? then r.value else JNull }

  lemma {:induction false} ValueGoesAround(env: Env, w: Wire, s: Schema, required: bool)
    requires SupportedEnv(env) && Supported(env, s) && HasType(env, w, s, required)
    requires required || w != NULL
    ensures GoesAround(env, DartEncode(env, s), DartDecode(env, s, required), w)
    decreases w, 2
  {
    match s
    case Ref(name) => RefGoesAround(env, w, name);
    case ArrayOf(items, _) => ListGoesAround(env, w, items);
    case _ =>
  }

  lemma {:induction false} ListGoesAround(env: Env, w: Wire, items: Schema)
    requires SupportedEnv(env) && SupportedItem(env, items) && w.ListOf?
    requires forall x :: x in w.elements ==> ItemTyped(env, x, items)
    ensures GoesAround(env, DartEncode(env, ArrayOf(items, false)), MapList(ItemDecode(env, items)), w)
    decreases w, 1
  {
    var n := |w.elements|;
    if !IsRawItem(env, items) {
      var e := DartEncode(env, items);
      forall i | 0 <= i < n ensures GoesAround(env, e, ItemDecode(env, items), w.elements[i]) {
        assert w.elements[i] in w.elements;
        RefGoesAround(env, w.elements[i], items.name);
      }
      var docs := seq(n, i requires 0 <= i < n => Value(RunEncode(env, e, w.elements[i])));
      ItemsEncode(env, e, w, docs, n);
      assert docs[..n] == docs;
      ItemsDecode(env, ItemDecode(env, items), JArray(docs), w.elements, n);
      assert w.elements[..n] == w.elements;
    } else {
      RawListGoesAround(env, w, items);
    }
  }

  predicate IsRawItem(env: Env, items: Schema) {
    !(items.Ref? && (IsEnum(Resolved(env, items)) || Resolved(env, items).ObjectOf?))
  }

  lemma RawItemGoesAround(env: Env, x: Wire, items: Schema)
    requires SupportedItem(env, items) && IsRawItem(env, items) && ItemTyped(env, x, items)
    ensures x.Raw? && RunDecode(env, ItemDecode(env, items), x.json) == Ok(x)
  {
    if items.Ref? {
      assert RefTyped(env, x, items.name);
    }
  }

  lemma RawListGoesAround(env: Env, w: Wire, items: Schema)
    requires SupportedItem(env, items) && w.ListOf?
    requires IsRawItem(env, items)
    requires forall x :: x in w.elements ==> ItemTyped(env, x, items)
    ensures GoesAround(env, AsIs, MapList(ItemDecode(env, items)), w)
  {
    var n := |w.elements|;
    forall i | 0 <= i < n
      ensures w.elements[i].Raw? && RunDecode(env, ItemDecode(env, items), w.elements[i].json) == Ok(w.elements[i])
    {
      assert w.elements[i] in w.elements;
      RawItemGoesAround(env, w.elements[i], items);
    }
    var doc := RunEncode(env, AsIs, w).value;
    ItemsDecode(env, ItemDecode(env, items), doc, w.elements, n);
    assert w.elements[..n] == w.elements;
  }

  lemma {:induction false} RefGoesAround(env: Env, w: Wire, name: string)
    requires SupportedEnv(env) && SupportedRef(env, name) && RefTyped(env, w, name)
    ensures GoesAround(env, DartEncode(env, Ref(name)), ItemDecode(env, Ref(name)), w)
    ensures w != NULL && RunEncode(env, DartEncode(env, Ref(name)), w) != Ok(JNull)
    decreases w, 0
  {
    if env[name].ObjectOf? { InstanceGoesAround(env, w, name); }
  }

  lemma {:induction false} InstanceGoesAround(env: Env, w: Wire, name: string)
    requires SupportedEnv(env) && name in env && env[name].ObjectOf? && RefTyped(env, w, name)
    ensures GoesAround(env, ToJson, FromJson(name), w)
    ensures RunEncode(env, ToJson, w) == Ok(JObject(FieldsOf(env, env[name].props, w)))
    decreases w, 0, 0
  {
    var props := env[name].props;
    var fields := FieldsOf(env, props, w);
    forall p | p in props
      ensures Encodes(env, p, w, fields) && DecodeSlot(env, p, JObject(fields)) == Ok(w.slots[p.name])
    {
      FindFinds(props, p);
      var slot := w.slots[p.name];
      if !Omitted(p, slot) {
        ValueGoesAround(env, slot, p.schema, p.required);
        assert p.name in fields;
      } else {
        assert p.name !in fields;
      }
    }
    SlotsEncode(env, props, w, fields);
    SlotsDecode(env, props, JObject(fields), w.slots);
  }

  // ---------------------------------------------------------------- encode after decode

  /** The document has the shape the schema asks for; an optional property may be null or absent. */
  ghost predicate Shaped(env: Env, j: Json, s: Schema, required: bool)
    decreases j, 1
  {
    || ((!required || Nullable(s)) && j.JNull?)
    || (match s
        case Ref(name) => RefShaped(env, j, name)
        case Typed(scalar, _, _) => IsScalar(j, scalar)
        case ArrayOf(items, _) => j.JArray? && forall x :: x in j.items ==> ItemShaped(env, x, items)
        case ObjectOf(_, _) => j.JObject?
        case Untyped => true)
  }

  ghost predicate ItemShaped(env: Env, j: Json, s: Schema)
    decreases j, 1
  {
    match s
    case Ref(name) => RefShaped(env, j, name)
    case Typed(scalar, _, _) => IsScalar(j, scalar)
    case ObjectOf(_, _) => j.JObject?
    case Untyped => true
    case ArrayOf(_, _) => false
  }

  ghost predicate RefShaped(env: Env, j: Json, name: string)
    decreases j, 0
  {
    && name in env
    && (match env[name]
        case Typed(scalar, _, enumeration) =>
          if IsEnum(env[name]) then j.JString? && j.s in enumeration.value else IsScalar(j, scalar)
        case ObjectOf(props, _) =>
          && j.JObject?
          && (forall k :: k in j.fields ==> Declares(props, k))
          && (forall p :: p in props && p.required ==> p.name in j.fields)
          && (forall p :: p in props && p.name in j.fields ==> Shaped(env, j.fields[p.name], p.schema, p.required))
        case _ => false)
  }

  /** The document without optional properties that are explicitly null, at every depth the codec
      looks into. */
  ghost function Pruned(env: Env, j: Json, s: Schema): Json
    decreases j, 1
  {
    match s
    case Ref(name) => PrunedRef(env, j, name)
    case ArrayOf(items, _) =>
      if j.JArray? && items.Ref? then JArray(seq(|j.items|,
          i requires 0 <= i < |j.items| => PrunedRef(env, j.items[i], items.name)))
      else j
    case _ => j
  }

  ghost function PrunedRef(env: Env, j: Json, name: string): Json
    decreases j, 0
  {
    if name in env && env[name].ObjectOf? && j.JObject? then
      var props := env[name].props;
      JObject(map k | k in j.fields && Declares(props, k) && !(!Find(props, k).required && j.fields[k].JNull?)
                :: Pruned(env, j.fields[k], Find(props, k).schema))
    else j
  }

  /** Decoding succeeds with a typed value, and encoding that value gives `pruned`. */
  ghost predicate ComesBack(env: Env, d: Decoder, e: Encoder, j: Json, pruned: Json) {
    var r := RunDecode(env, d, j);
    r.Ok? && RunEncode(env, e, r.value) == Ok(pruned)
  }

  lemma {:induction false} DocumentComesBack(env: Env, j: Json, s: Schema, required: bool)
    requires SupportedEnv(env) && Supported(env, s) && Shaped(env, j, s, required)
    requires required || !j.JNull?
    ensures ComesBack(env, DartDecode(env, s, required), DartEncode(env, s), j, Pruned(env, j, s))
    ensures HasType(env, RunDecode(env, DartDecode(env, s, required), j).value, s, required)
    ensures RunDecode(env, DartDecode(env, s, required), j) == Ok(NULL) ==> j.JNull?
    decreases j, 2
  {
    match s
    case Ref(name) => RefComesBack(env, j, name);
    case ArrayOf(items, _) => ArrayComesBack(env, j, items);
    case _ =>
  }

  lemma {:induction false} ArrayComesBack(env: Env, j: Json, items: Schema)
    requires SupportedEnv(env) && SupportedItem(env, items) && j.JArray?
    requires forall x :: x in j.items ==> ItemShaped(env, x, items)
    ensures ComesBack(env, MapList(ItemDecode(env, items)), DartEncode(env, ArrayOf(items, false)), j,
                      Pruned(env, j, ArrayOf(items, false)))
    ensures HasType(env, RunDecode(env, MapList(ItemDecode(env, items)), j).value, ArrayOf(items, false), true)
    decreases j, 1
  {
    var n := |j.items|;
    var d := ItemDecode(env, items);
    var e := DartEncode(env, items);
    forall i | 0 <= i < n
      ensures ComesBack(env, d, e, j.items[i], Pruned(env, j.items[i], items))
      ensures ItemTyped(env, RunDecode(env, d, j.items[i]).value, items)
    {
      assert j.items[i] in j.items;
      if items.Ref? { RefComesBack(env, j.items[i], items.name); }
    }
    var elements := seq(n, i requires 0 <= i < n => Decoded(RunDecode(env, d, j.items[i])));
    ItemsDecode(env, d, j, elements, n);
    assert elements[..n] == elements;
    var w := ListOf(elements);
    var docs := seq(n, i requires 0 <= i < n => Pruned(env, j.items[i], items));
    assert JArray(docs) == Pruned(env, j, ArrayOf(items, false)) by {
      if !items.Ref? { assert docs == j.items; }
    }
    if !IsRawItem(env, items) {
      ItemsEncode(env, e, w, docs, n);
      assert docs[..n] == docs;
    } else {
      RawArrayComesBack(env, j, items, elements);
    }
  }

  lemma RawArrayComesBack(env: Env, j: Json, items: Schema, elements: seq<Wire>)
    requires SupportedItem(env, items) && j.JArray? && |elements| == |j.items|
    requires IsRawItem(env, items)
    requires forall i :: 0 <= i < |elements| ==> RunDecode(env, ItemDecode(env, items), j.items[i]) == Ok(elements[i])
    ensures RunEncode(env, AsIs, ListOf(elements)) == Ok(Pruned(env, j, ArrayOf(items, false)))
  {
    assert forall i :: 0 <= i < |elements| ==> elements[i] == Raw(j.items[i]);
    assert RunEncode(env, AsIs, ListOf(elements)).value.items == j.items;
    if items.Ref? { assert Pruned(env, j, ArrayOf(items, false)).items == j.items; }
  }

  function Decoded(r: Result<Wire>): Wire { if r.Ok? then r.value else NULL }

  lemma {:induction false} RefComesBack(env: Env, j: Json, name: string)
    requires SupportedEnv(env) && SupportedRef(env, name) && RefShaped(env, j, name)
    ensures ComesBack(env, ItemDecode(env, Ref(name)), DartEncode(env, Ref(name)), j, PrunedRef(env, j, name))
    ensures !j.JNull? && RefTyped(env, RunDecode(env, ItemDecode(env, Ref(name)), j).value, name)
    decreases j, 0
  {
    if env[name].ObjectOf? { ObjectComesBack(env, j, name); }
  }

  lemma {:induction false} PropertyComesBack(env: Env, j: Json, name: string, p: Prop)
    requires SupportedEnv(env) && name in env && env[name].ObjectOf? && RefShaped(env, j, name) && p in env[name].props
    ensures var r := DecodeSlot(env, p, j);
      r.Ok? && HasType(env, r.value, p.schema, p.required)
            && if p.name in j.fields && (p.required || !j.fields[p.name].JNull?)
               then !Omitted(p, r.value)
                    && RunEncode(env, DartEncode(env, p.schema), r.value) == Ok(Pruned(env, j.fields[p.name], p.schema))
               else Omitted(p, r.value)
    decreases j, 0, 0
  {
    assert Supported(env, p.schema);
    if p.name in j.fields && (p.required || !j.fields[p.name].JNull?) {
      assert Shaped(env, j.fields[p.name], p.schema, p.required);
      DocumentComesBack(env, j.fields[p.name], p.schema, p.required);
    } else {
      assert DartDecode(env, p.schema, p.required).NullGuard?;
    }
  }

  /** The slots the class's factory fills. */
  ghost function SlotsOf(env: Env, props: seq<Prop>, j: Json): map<string, Wire>
    requires j.JObject?
  {
    map k | k in (set p | p in props :: p.name) :: Decoded(DecodeSlot(env, FindNamed(props, k), j))
  }

  lemma SlotAt(env: Env, props: seq<Prop>, j: Json, p: Prop)
    requires j.JObject? && DistinctNames(props) && p in props
    ensures p.name in SlotsOf(env, props, j) && SlotsOf(env, props, j)[p.name] == Decoded(DecodeSlot(env, p, j))
  {
    FindFinds(props, p);
    assert p.name in set q | q in props :: q.name;
  }

  lemma FieldAt(env: Env, j: Json, name: string, p: Prop)
    requires SupportedEnv(env) && name in env && env[name].ObjectOf? && j.JObject? && p in env[name].props
    ensures var pruned := PrunedRef(env, j, name).fields;
      if p.name in j.fields && (p.required || !j.fields[p.name].JNull?)
      then p.name in pruned && pruned[p.name] == Pruned(env, j.fields[p.name], p.schema)
      else p.name !in pruned
  {
    FindFinds(env[name].props, p);
  }

  lemma {:induction false} ObjectComesBack(env: Env, j: Json, name: string)
    requires SupportedEnv(env) && name in env && env[name].ObjectOf? && RefShaped(env, j, name)
    ensures ComesBack(env, FromJson(name), ToJson, j, PrunedRef(env, j, name))
    ensures RefTyped(env, RunDecode(env, FromJson(name), j).value, name)
    decreases j, 0, 1
  {
    var props := env[name].props;
    var slots := SlotsOf(env, props, j);
    var w := Instance(name, slots);
    var pruned := PrunedRef(env, j, name).fields;
    forall k ensures k in slots <==> Declares(props, k) { }
    forall p | p in props
      ensures DecodeSlot(env, p, j) == Ok(slots[p.name]) && HasType(env, slots[p.name], p.schema, p.required)
      ensures Encodes(env, p, w, pruned)
    {
      SlotAt(env, props, j, p);
      FieldAt(env, j, name, p);
      PropertyComesBack(env, j, name, p);
    }
    SlotsDecode(env, props, j, slots);
    SlotsEncode(env, props, w, pruned);
  }

  /** Outside the fragment: reached through a reference, a schema decodes null only when the property is
      optional or the schema is untyped, since the guard looks at the reference and the typedef drops
      the null; written in place it also does when it is nullable. So a null is lost exactly when a
      required reference names a nullable schema. */
  lemma NullableAliasRefusesNull(env: Env, name: string, required: bool)
    requires name in env && !env[name].Ref?
    ensures RunDecode(env, DartDecode(env, Ref(name), required), JNull).Ok? <==> !required || env[name].Untyped?
    ensures RunDecode(env, DartDecode(env, env[name], required), JNull).Ok? <==>
            !required || env[name].Untyped? || Nullable(env[name])
  {
  }
}
