/** Canonical request trees: objects sorted by key at every depth, arrays kept in order.

    The key comparator is a parameter, since the code sorts with the locale's collation. Two
    requests get the same canonical form exactly when they are equal up to key order, provided the
    comparator separates distinct keys, and that proviso cannot be dropped. */
module Canonical {

  datatype Json = Null | Bool(b: bool) | Num(n: int) | Str(s: string) | Arr(items: seq<Json>) | Obj(fields: seq<Field>)
  datatype Field = Field(key: string, value: Json)

  type Compare = (string, string) -> int

  /** What sorting needs of a comparator: a total preorder. */
  ghost predicate Comparator(cmp: Compare) {
    && Signed(cmp)
    && (forall a, b, c :: cmp(a, b) <= 0 && cmp(b, c) <= 0 ==> cmp(a, c) <= 0)
  }

  /** Swapping the arguments swaps the sign. */
  ghost predicate Signed(cmp: Compare) {
    forall a, b :: cmp(a, b) <= 0 <==> cmp(b, a) >= 0
  }

  ghost predicate Separates(cmp: Compare) {
    forall a, b :: cmp(a, b) == 0 ==> a == b
  }

  /** The object has no duplicate key, at any depth. */
  ghost predicate WellFormed(j: Json) {
    match j
    case Arr(items) => forall x | x in items :: WellFormed(x)
    case Obj(fields) => DistinctKeys(fields) && forall f | f in fields :: WellFormed(f.value)
    case _ => true
  }

  ghost predicate DistinctKeys(fields: seq<Field>) {
    forall i, j :: 0 <= i < j < |fields| ==> fields[i].key != fields[j].key
  }

  ghost predicate HasKey(fields: seq<Field>, key: string) {
    exists i :: 0 <= i < |fields| && fields[i].key == key
  }

  /** Equal up to the order of keys, at every depth. */
  ghost predicate Same(a: Json, b: Json) {
    match a
    case Arr(xs) => b.Arr? && |xs| == |b.items| && forall i :: 0 <= i < |xs| ==> Same(xs[i], b.items[i])
    case Obj(fs) =>
      && b.Obj?
      && (forall k :: HasKey(fs, k) <==> HasKey(b.fields, k))
      && (forall i, j :: 0 <= i < |fs| && 0 <= j < |b.fields| && fs[i].key == b.fields[j].key ==>
            Same(fs[i].value, b.fields[j].value))
    case _ => a == b
  }

  // ---------------------------------------------------------------- stable sort by key

  function Insert(cmp: Compare, f: Field, sorted: seq<Field>): (r: seq<Field>)
    ensures |r| == |sorted| + 1
    ensures forall g :: g in r <==> g == f || g in sorted
  {
    if sorted == [] then [f]
    else if cmp(f.key, sorted[0].key) <= 0 then [f] + sorted
    else
      var rest := Insert(cmp, f, sorted[1..]);
      [sorted[0]] + rest
  }

  function Sort(cmp: Compare, fields: seq<Field>): (r: seq<Field>)
    ensures |r| == |fields|
    ensures forall g :: g in r <==> g in fields
  {
    if fields == [] then [] else Insert(cmp, fields[0], Sort(cmp, fields[1..]))
  }

  function Canon(cmp: Compare, j: Json): Json {
    match j
    case Arr(items) => Arr(seq(|items|, i requires 0 <= i < |items| => Canon(cmp, items[i])))
    case Obj(fields) => Obj(Sort(cmp, CanonFields(cmp, fields)))
    case _ => j
  }

  function CanonFields(cmp: Compare, fields: seq<Field>): (r: seq<Field>)
    ensures |r| == |fields|
    ensures forall i :: 0 <= i < |r| ==> r[i] == Field(fields[i].key, Canon(cmp, fields[i].value))
  {
    seq(|fields|, i requires 0 <= i < |fields| => Field(fields[i].key, Canon(cmp, fields[i].value)))
  }

  ghost predicate Ordered(cmp: Compare, fields: seq<Field>) {
    forall i, j :: 0 <= i < j < |fields| ==> cmp(fields[i].key, fields[j].key) <= 0
  }

  lemma {:induction false} InsertOrders(cmp: Compare, f: Field, sorted: seq<Field>)
    requires Comparator(cmp) && Ordered(cmp, sorted)
    ensures Ordered(cmp, Insert(cmp, f, sorted))
  {
    if sorted != [] && cmp(f.key, sorted[0].key) > 0 {
      var rest := Insert(cmp, f, sorted[1..]);
      InsertOrders(cmp, f, sorted[1..]);
      forall j | 0 <= j < |rest| ensures cmp(sorted[0].key, rest[j].key) <= 0 {
        assert rest[j] in rest;
      }
    }
  }

  lemma {:induction false} SortOrders(cmp: Compare, fields: seq<Field>)
    requires Comparator(cmp)
    ensures Ordered(cmp, Sort(cmp, fields))
  {
    if fields != [] {
      SortOrders(cmp, fields[1..]);
      InsertOrders(cmp, fields[0], Sort(cmp, fields[1..]));
    }
  }

  lemma {:induction false} InsertKeepsDistinct(cmp: Compare, f: Field, sorted: seq<Field>)
    requires DistinctKeys(sorted) && forall g :: g in sorted ==> g.key != f.key
    ensures DistinctKeys(Insert(cmp, f, sorted))
  {
    if sorted != [] && cmp(f.key, sorted[0].key) > 0 {
      var rest := Insert(cmp, f, sorted[1..]);
      InsertKeepsDistinct(cmp, f, sorted[1..]);
      forall j | 0 <= j < |rest| ensures rest[j].key != sorted[0].key {
        assert rest[j] in rest;
      }
    }
  }

  lemma {:induction false} SortKeepsDistinct(cmp: Compare, fields: seq<Field>)
    requires DistinctKeys(fields)
    ensures DistinctKeys(Sort(cmp, fields))
  {
    if fields != [] {
      SortKeepsDistinct(cmp, fields[1..]);
      InsertKeepsDistinct(cmp, fields[0], Sort(cmp, fields[1..]));
    }
  }

  /** A sequence that is already in order is left as it is: the sort is stable. */
  lemma {:induction false} SortFixesOrdered(cmp: Compare, fields: seq<Field>)
    requires Ordered(cmp, fields)
    ensures Sort(cmp, fields) == fields
  {
    if fields != [] {
      SortFixesOrdered(cmp, fields[1..]);
      assert fields == [fields[0]] + fields[1..];
    }
  }

  lemma LeastKey(cmp: Compare, xs: seq<Field>, f: Field)
    requires Ordered(cmp, xs) && f in xs && (forall k :: cmp(k, k) == 0)
    ensures cmp(xs[0].key, f.key) <= 0
  {
    var i :| 0 <= i < |xs| && xs[i] == f;
    if i == 0 { assert cmp(f.key, f.key) == 0; }
  }

  lemma SameHead(cmp: Compare, xs: seq<Field>, ys: seq<Field>)
    requires Signed(cmp) && Separates(cmp)
    requires Ordered(cmp, xs) && Ordered(cmp, ys) && DistinctKeys(xs)
    requires xs != [] && ys != [] && xs[0] in ys && ys[0] in xs
    ensures xs[0] == ys[0]
  {
    assert forall k :: cmp(k, k) == 0;
    LeastKey(cmp, xs, ys[0]);
    LeastKey(cmp, ys, xs[0]);
    assert cmp(xs[0].key, ys[0].key) == 0;
    var i :| 0 <= i < |xs| && xs[i] == ys[0];
  }

  lemma TailHas(xs: seq<Field>, f: Field)
    requires xs != [] && DistinctKeys(xs)
    ensures f in xs[1..] <==> f in xs && f != xs[0]
  {
    if f in xs && f != xs[0] {
      var i :| 0 <= i < |xs| && xs[i] == f;
      assert xs[1..][i - 1] == f;
    }
  }

  lemma Tail(cmp: Compare, xs: seq<Field>)
    requires xs != [] && Ordered(cmp, xs) && DistinctKeys(xs)
    ensures Ordered(cmp, xs[1..]) && DistinctKeys(xs[1..])
  {
  }

  /** Strictly ordered sequences with the same elements are equal. */
  lemma {:induction false} OrderedUnique(cmp: Compare, xs: seq<Field>, ys: seq<Field>)
    requires Signed(cmp) && Separates(cmp)
    requires Ordered(cmp, xs) && Ordered(cmp, ys) && DistinctKeys(xs) && DistinctKeys(ys)
    requires forall f :: f in xs <==> f in ys
    ensures xs == ys
  {
    assert xs != [] ==> xs[0] in xs;
    assert ys != [] ==> ys[0] in ys;
    if xs != [] {
      assert xs[0] in ys && ys[0] in xs;
      SameHead(cmp, xs, ys);
      forall f ensures f in xs[1..] <==> f in ys[1..] {
        TailHas(xs, f);
        TailHas(ys, f);
      }
      Tail(cmp, xs);
      Tail(cmp, ys);
      OrderedUnique(cmp, xs[1..], ys[1..]);
      assert xs == [xs[0]] + xs[1..] && ys == [ys[0]] + ys[1..];
    }
  }

  // ---------------------------------------------------------------- idempotence

  /** Canonicalizing twice is canonicalizing once. */
  lemma {:induction false} CanonIdempotent(cmp: Compare, j: Json)
    requires Comparator(cmp)
    ensures Canon(cmp, Canon(cmp, j)) == Canon(cmp, j)
  {
    match j
    case Arr(items) =>
      forall i | 0 <= i < |items| ensures Canon(cmp, Canon(cmp, items[i])) == Canon(cmp, items[i]) {
        CanonIdempotent(cmp, items[i]);
      }
    case Obj(fields) =>
      var mapped := CanonFields(cmp, fields);
      var sorted := Sort(cmp, mapped);
      forall i | 0 <= i < |sorted| ensures Canon(cmp, sorted[i].value) == sorted[i].value {
        assert sorted[i] in mapped;
        var k :| 0 <= k < |mapped| && mapped[k] == sorted[i];
        CanonIdempotent(cmp, fields[k].value);
      }
      assert CanonFields(cmp, sorted) == sorted;
      SortOrders(cmp, mapped);
      SortFixesOrdered(cmp, sorted);
    case _ =>
  }

  // ---------------------------------------------------------------- canonical forms decide sameness

  /** Equal canonical forms exactly when equal up to key order. */
  lemma {:induction false} CanonDecidesSame(cmp: Compare, a: Json, b: Json)
    requires Comparator(cmp) && Separates(cmp) && WellFormed(a) && WellFormed(b)
    ensures Canon(cmp, a) == Canon(cmp, b) <==> Same(a, b)
    decreases a
  {
    match a
    case Arr(xs) => if b.Arr? { ArraysDecided(cmp, xs, b.items, a); }
    case Obj(fs) => if b.Obj? { ObjectsDecided(cmp, fs, b.fields, a); }
    case _ =>
  }

  lemma {:induction false} ArraysDecided(cmp: Compare, xs: seq<Json>, ys: seq<Json>, a: Json)
    requires Comparator(cmp) && Separates(cmp) && a == Arr(xs) && WellFormed(a) && WellFormed(Arr(ys))
    ensures Canon(cmp, Arr(xs)) == Canon(cmp, Arr(ys)) <==> Same(Arr(xs), Arr(ys))
    decreases a, 0
  {
    if |xs| == |ys| {
      forall i | 0 <= i < |xs|
        ensures Canon(cmp, xs[i]) == Canon(cmp, ys[i]) <==> Same(xs[i], ys[i])
      {
        CanonDecidesSame(cmp, xs[i], ys[i]);
      }
      var cx, cy := Canon(cmp, Arr(xs)).items, Canon(cmp, Arr(ys)).items;
      assert forall i :: 0 <= i < |xs| ==> cx[i] == Canon(cmp, xs[i]) && cy[i] == Canon(cmp, ys[i]);
      if Same(Arr(xs), Arr(ys)) { assert cx == cy; }
    } else {
      assert |Canon(cmp, Arr(xs)).items| != |Canon(cmp, Arr(ys)).items|;
    }
  }

  lemma {:induction false} ObjectsDecided(cmp: Compare, fs: seq<Field>, gs: seq<Field>, a: Json)
    requires Comparator(cmp) && Separates(cmp) && a == Obj(fs) && WellFormed(a) && WellFormed(Obj(gs))
    ensures Canon(cmp, Obj(fs)) == Canon(cmp, Obj(gs)) <==> Same(Obj(fs), Obj(gs))
    decreases a, 0
  {
    forall i, j | 0 <= i < |fs| && 0 <= j < |gs|
      ensures Canon(cmp, fs[i].value) == Canon(cmp, gs[j].value) <==> Same(fs[i].value, gs[j].value)
    {
      assert fs[i] in fs && gs[j] in gs;
      CanonDecidesSame(cmp, fs[i].value, gs[j].value);
    }
    var cf, cg := CanonFields(cmp, fs), CanonFields(cmp, gs);
    if Canon(cmp, Obj(fs)) == Canon(cmp, Obj(gs)) {
      assert forall f :: f in cf <==> f in cg;
      SameElementsMeansSame(cmp, fs, gs);
    }
    if Same(Obj(fs), Obj(gs)) {
      SameMeansSameElements(cmp, fs, gs);
      SortOrders(cmp, cf);
      SortOrders(cmp, cg);
      SortKeepsDistinct(cmp, cf);
      SortKeepsDistinct(cmp, cg);
      OrderedUnique(cmp, Sort(cmp, cf), Sort(cmp, cg));
    }
  }

  lemma KeyCarries(cmp: Compare, fs: seq<Field>, gs: seq<Field>, i: nat) returns (j: nat)
    requires i < |fs| && CanonFields(cmp, fs)[i] in CanonFields(cmp, gs)
    ensures j < |gs| && gs[j].key == fs[i].key && Canon(cmp, gs[j].value) == Canon(cmp, fs[i].value)
  {
    var cg := CanonFields(cmp, gs);
    j :| 0 <= j < |cg| && cg[j] == CanonFields(cmp, fs)[i];
  }

  lemma KeysCarry(cmp: Compare, fs: seq<Field>, gs: seq<Field>, key: string)
    requires forall f :: f in CanonFields(cmp, fs) ==> f in CanonFields(cmp, gs)
    ensures HasKey(fs, key) ==> HasKey(gs, key)
  {
    if HasKey(fs, key) {
      var i :| 0 <= i < |fs| && fs[i].key == key;
      assert CanonFields(cmp, fs)[i] in CanonFields(cmp, fs);
      var j := KeyCarries(cmp, fs, gs, i);
    }
  }

  lemma SameElementsMeansSame(cmp: Compare, fs: seq<Field>, gs: seq<Field>)
    requires DistinctKeys(fs) && DistinctKeys(gs)
    requires forall f :: f in CanonFields(cmp, fs) <==> f in CanonFields(cmp, gs)
    requires forall i, j :: 0 <= i < |fs| && 0 <= j < |gs| ==>
      (Canon(cmp, fs[i].value) == Canon(cmp, gs[j].value) <==> Same(fs[i].value, gs[j].value))
    ensures Same(Obj(fs), Obj(gs))
  {
    forall k ensures HasKey(fs, k) <==> HasKey(gs, k) {
      KeysCarry(cmp, fs, gs, k);
      KeysCarry(cmp, gs, fs, k);
    }
    forall i, j | 0 <= i < |fs| && 0 <= j < |gs| && fs[i].key == gs[j].key
      ensures Same(fs[i].value, gs[j].value)
    {
      assert CanonFields(cmp, fs)[i] in CanonFields(cmp, fs);
      var m := KeyCarries(cmp, fs, gs, i);
      assert m == j;
    }
  }

  lemma SameMeansSameElements(cmp: Compare, fs: seq<Field>, gs: seq<Field>)
    requires Same(Obj(fs), Obj(gs))
    requires forall i, j :: 0 <= i < |fs| && 0 <= j < |gs| ==>
      (Canon(cmp, fs[i].value) == Canon(cmp, gs[j].value) <==> Same(fs[i].value, gs[j].value))
    ensures forall f :: f in CanonFields(cmp, fs) <==> f in CanonFields(cmp, gs)
  {
    var cf, cg := CanonFields(cmp, fs), CanonFields(cmp, gs);
    forall i | 0 <= i < |fs| ensures cf[i] in cg {
      assert HasKey(fs, fs[i].key);
      var j :| 0 <= j < |gs| && gs[j].key == fs[i].key;
      assert cg[j] == cf[i];
    }
    forall j | 0 <= j < |gs| ensures cg[j] in cf {
      assert HasKey(gs, gs[j].key);
      var i :| 0 <= i < |fs| && fs[i].key == gs[j].key;
      assert cf[i] == cg[j];
    }
  }

  // ---------------------------------------------------------------- the proviso is exact

  ghost predicate DecidesAll(cmp: Compare) {
    forall a, b :: WellFormed(a) && WellFormed(b) ==> (Canon(cmp, a) == Canon(cmp, b) <==> Same(a, b))
  }

  /** A comparator that ties two distinct keys leaves them in the order they arrived, so the same
      request sent with the keys swapped gets another canonical form. */
  lemma TiedKeysAreNotSorted(cmp: Compare, k: string, l: string)
    requires Comparator(cmp) && k != l && cmp(k, l) == 0
    ensures var a := Obj([Field(k, Null), Field(l, Null)]); var b := Obj([Field(l, Null), Field(k, Null)]);
      WellFormed(a) && WellFormed(b) && Same(a, b) && Canon(cmp, a) != Canon(cmp, b)
  {
    var fs, gs := [Field(k, Null), Field(l, Null)], [Field(l, Null), Field(k, Null)];
    PairStays(cmp, k, l);
    PairStays(cmp, l, k);
    forall key ensures HasKey(fs, key) <==> HasKey(gs, key) {
      assert fs[0] == gs[1] && fs[1] == gs[0];
    }
    assert Same(Obj(fs), Obj(gs));
    assert fs[0] != gs[0];
  }

  lemma PairStays(cmp: Compare, k: string, l: string)
    requires cmp(k, l) <= 0
    ensures Canon(cmp, Obj([Field(k, Null), Field(l, Null)])) == Obj([Field(k, Null), Field(l, Null)])
  {
    var fs := [Field(k, Null), Field(l, Null)];
    assert CanonFields(cmp, fs) == fs;
    SortFixesOrdered(cmp, fs);
  }

  /** Canonical forms decide sameness for all requests if and only if the comparator separates
      distinct keys. */
  lemma DecidesAllIffSeparates(cmp: Compare)
    requires Comparator(cmp)
    ensures DecidesAll(cmp) <==> Separates(cmp)
  {
    if Separates(cmp) {
      forall a, b | WellFormed(a) && WellFormed(b)
        ensures Canon(cmp, a) == Canon(cmp, b) <==> Same(a, b)
      {
        CanonDecidesSame(cmp, a, b);
      }
    } else {
      var k, l :| cmp(k, l) == 0 && k != l;
      TiedKeysAreNotSorted(cmp, k, l);
    }
  }
}
