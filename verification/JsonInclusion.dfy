/** JSON values up to the order of object keys, and the inclusion a patch must meet. */
module JsonInclusion {
  import opened Wrappers

  datatype Field = Field(key: string, value: Json)
  datatype Json =
    | Null
    | Bool(bool)
    | Number(real)
    | Str(string)
    | Arr(items: seq<Json>)
    | Obj(fields: seq<Field>)

  // ---------- Objects ----------

  function Lookup(fields: seq<Field>, key: string): Option<Json> {
    if fields == [] then None
    else if fields[0].key == key then Some(fields[0].value)
    else Lookup(fields[1..], key)
  }

  ghost predicate KeysAreUnique(fields: seq<Field>) {
    forall i, j :: 0 <= i < j < |fields| ==> fields[i].key != fields[j].key
  }

  /** A JavaScript object holds each key once. */
  ghost predicate WellFormed(j: Json)
    decreases j
  {
    match j
    case Arr(items) => forall i :: 0 <= i < |items| ==> WellFormed(items[i])
    case Obj(fields) => KeysAreUnique(fields) && forall i :: 0 <= i < |fields| ==> WellFormed(fields[i].value)
    case _ => true
  }

  lemma {:induction false} LookupFinds(fields: seq<Field>, i: nat)
    requires KeysAreUnique(fields) && i < |fields|
    ensures Lookup(fields, fields[i].key) == Some(fields[i].value)
  {
    if i > 0 {
      RestIsUnique(fields);
      LookupFinds(fields[1..], i - 1);
    }
  }

  lemma RestIsUnique(fields: seq<Field>)
    requires KeysAreUnique(fields) && fields != []
    ensures KeysAreUnique(fields[1..])
  {
    forall i, j | 0 <= i < j < |fields[1..]| ensures fields[1..][i].key != fields[1..][j].key {
      assert fields[1..][i] == fields[i + 1] && fields[1..][j] == fields[j + 1];
    }
  }

  lemma {:induction false} FoundIsField(fields: seq<Field>, key: string) returns (i: nat)
    requires Lookup(fields, key).Some?
    ensures i < |fields| && fields[i] == Field(key, Lookup(fields, key).value)
  {
    if fields[0].key == key { return 0; }
    i := FoundIsField(fields[1..], key);
    i := i + 1;
  }

  // ---------- Collation ----------

  /** `localeCompare`: which key sorts before which. Different keys may tie. */
  datatype Collation = Collation(before: (string, string) -> bool)

  ghost predicate WeakOrder(c: Collation) {
    && (forall x, y :: c.before(x, y) ==> !c.before(y, x))
    && (forall x, y, z :: c.before(x, y) ==> c.before(x, z) || c.before(z, y))
  }

  /** No two different keys tie. */
  ghost predicate SeparatesKeys(c: Collation) {
    forall x, y :: x != y ==> c.before(x, y) || c.before(y, x)
  }

  function KeyIndex(fields: seq<Field>, key: string): nat {
    if fields == [] || fields[0].key == key then 0 else 1 + KeyIndex(fields[1..], key)
  }

  /** A stable sort puts `x` before `y`: by collation, and by their places when they tie. */
  predicate SortsBefore(c: Collation, fields: seq<Field>, x: string, y: string) {
    c.before(x, y) || (!c.before(y, x) && KeyIndex(fields, x) < KeyIndex(fields, y))
  }

  lemma {:induction false} KeyIndexOf(fields: seq<Field>, i: nat)
    requires KeysAreUnique(fields) && i < |fields|
    ensures KeyIndex(fields, fields[i].key) == i
  {
    if i > 0 {
      RestIsUnique(fields);
      KeyIndexOf(fields[1..], i - 1);
    }
  }

  // ---------- Canonical form ----------

  /** One step of a stable sort: after the keys it does not sort before. */
  function InsertField(c: Collation, fields: seq<Field>, f: Field): seq<Field> {
    if fields == [] || c.before(f.key, fields[0].key) then [f] + fields
    else [fields[0]] + InsertField(c, fields[1..], f)
  }

  /** Keys in order at every level. */
  function Canonical(c: Collation, j: Json): Json
    decreases j, 0
  {
    match j
    case Arr(items) => Arr(CanonicalItems(c, j, |items|))
    case Obj(fields) => Obj(CanonicalFields(c, j, |fields|))
    case _ => j
  }

  function CanonicalItems(c: Collation, j: Json, n: nat): seq<Json>
    requires j.Arr? && n <= |j.items|
    decreases j, 0, n
  {
    if n == 0 then [] else CanonicalItems(c, j, n - 1) + [Canonical(c, j.items[n - 1])]
  }

  /** The first `n` fields, sorted by key. */
  function CanonicalFields(c: Collation, j: Json, n: nat): seq<Field>
    requires j.Obj? && n <= |j.fields|
    decreases j, 0, n
  {
    if n == 0 then []
    else InsertField(c, CanonicalFields(c, j, n - 1), Field(j.fields[n - 1].key, Canonical(c, j.fields[n - 1].value)))
  }

  /** Sorted as a stable sort of `from` sorts. */
  ghost predicate InOrder(c: Collation, from: seq<Field>, fields: seq<Field>) {
    forall i, j :: 0 <= i < j < |fields| ==> SortsBefore(c, from, fields[i].key, fields[j].key)
  }

  lemma InOrderRest(c: Collation, from: seq<Field>, fields: seq<Field>)
    requires WeakOrder(c) && InOrder(c, from, fields) && fields != []
    ensures InOrder(c, from, fields[1..]) && Lookup(fields[1..], fields[0].key).None?
  {
    var rest := fields[1..];
    forall i, j | 0 <= i < j < |rest| ensures SortsBefore(c, from, rest[i].key, rest[j].key) {
      assert rest[i] == fields[i + 1] && rest[j] == fields[j + 1];
    }
    forall i | 0 <= i < |rest| ensures rest[i].key != fields[0].key {
      assert SortsBefore(c, from, fields[0].key, fields[i + 1].key);
    }
    UnusedKey(rest, fields[0].key);
  }

  /** Every key of `fields` stands before `f` in `from`. */
  ghost predicate ComesAfter(from: seq<Field>, fields: seq<Field>, f: Field) {
    forall g :: g in fields ==> KeyIndex(from, g.key) < KeyIndex(from, f.key)
  }

  lemma InsertedFirst(c: Collation, from: seq<Field>, fields: seq<Field>, f: Field)
    requires WeakOrder(c) && InOrder(c, from, fields) && fields != [] && c.before(f.key, fields[0].key)
    ensures InOrder(c, from, [f] + fields)
  {
    forall j | 0 <= j < |fields| ensures c.before(f.key, fields[j].key) {
      if j > 0 { assert SortsBefore(c, from, fields[0].key, fields[j].key); }
    }
  }

  lemma {:induction false} InsertedField(c: Collation, from: seq<Field>, fields: seq<Field>, f: Field)
    requires WeakOrder(c) && InOrder(c, from, fields) && ComesAfter(from, fields, f) && Lookup(fields, f.key).None?
    ensures var after := InsertField(c, fields, f);
            && InOrder(c, from, after)
            && (forall g :: g in after <==> g == f || g in fields)
            && (forall key :: Lookup(after, key) == if key == f.key then Some(f.value) else Lookup(fields, key))
  {
    hide KeyIndex;
    if fields != [] {
      assert fields == [fields[0]] + fields[1..];
      InOrderRest(c, from, fields);
      if c.before(f.key, fields[0].key) {
        InsertedFirst(c, from, fields, f);
      } else {
        InsertedField(c, from, fields[1..], f);
        forall g | g in InsertField(c, fields[1..], f) ensures SortsBefore(c, from, fields[0].key, g.key) {}
      }
    }
  }

  lemma {:induction false} UnusedKey(fields: seq<Field>, key: string)
    requires forall i :: 0 <= i < |fields| ==> fields[i].key != key
    ensures Lookup(fields, key).None?
  {
    if fields != [] { UnusedKey(fields[1..], key); }
  }

  lemma {:induction false} LookupAppended(fields: seq<Field>, f: Field, key: string)
    ensures Lookup(fields + [f], key) ==
            if Lookup(fields, key).Some? then Lookup(fields, key) else if f.key == key then Some(f.value) else None
  {
    if fields != [] {
      assert (fields + [f])[1..] == fields[1..] + [f];
      LookupAppended(fields[1..], f, key);
    }
  }

  function CanonicalFound(c: Collation, found: Option<Json>): Option<Json> {
    if found.Some? then Some(Canonical(c, found.value)) else None
  }

  ghost predicate KeysAmongFirst(j: Json, n: nat, fields: seq<Field>)
    requires j.Obj? && n <= |j.fields|
  {
    forall g :: g in fields ==> exists i :: 0 <= i < n && j.fields[i].key == g.key
  }

  /** The canonical fields are sorted and hold the canonical values of the same keys. */
  lemma {:induction false} CanonicalFieldsHold(c: Collation, j: Json, n: nat)
    requires WeakOrder(c) && j.Obj? && n <= |j.fields| && KeysAreUnique(j.fields)
    ensures InOrder(c, j.fields, CanonicalFields(c, j, n)) && KeysAmongFirst(j, n, CanonicalFields(c, j, n))
    ensures forall key :: Lookup(CanonicalFields(c, j, n), key) == CanonicalFound(c, Lookup(j.fields[..n], key))
  {
    hide Canonical, KeyIndex, InOrder, WeakOrder;
    if n > 0 {
      var f := j.fields[n - 1];
      var front := CanonicalFields(c, j, n - 1);
      CanonicalFieldsHold(c, j, n - 1);
      assert j.fields[..n] == j.fields[..n - 1] + [f];
      UnusedKey(j.fields[..n - 1], f.key);
      KeyIndexOf(j.fields, n - 1);
      forall g | g in front ensures KeyIndex(j.fields, g.key) < n - 1 {
        var i :| 0 <= i < n - 1 && j.fields[i].key == g.key;
        KeyIndexOf(j.fields, i);
      }
      InsertedField(c, j.fields, front, Field(f.key, Canonical(c, f.value)));
      forall key ensures Lookup(CanonicalFields(c, j, n), key) == CanonicalFound(c, Lookup(j.fields[..n], key)) {
        LookupAppended(j.fields[..n - 1], f, key);
      }
    } else {
      NoFieldsInOrder(c, j.fields);
    }
  }

  lemma NoFieldsInOrder(c: Collation, from: seq<Field>)
    ensures InOrder(c, from, [])
  {}

  lemma CanonicalObject(c: Collation, j: Json, key: string)
    requires WeakOrder(c) && j.Obj? && KeysAreUnique(j.fields)
    ensures Canonical(c, j).Obj? && InOrder(c, j.fields, Canonical(c, j).fields)
            && Lookup(Canonical(c, j).fields, key) == CanonicalFound(c, Lookup(j.fields, key))
  {
    hide InOrder;
    CanonicalFieldsHold(c, j, |j.fields|);
    assert j.fields[..|j.fields|] == j.fields;
  }

  lemma {:induction false} CanonicalItemAt(c: Collation, j: Json, n: nat, i: nat)
    requires j.Arr? && i < n <= |j.items|
    ensures |CanonicalItems(c, j, n)| == n && CanonicalItems(c, j, n)[i] == Canonical(c, j.items[i])
  {
    hide Canonical;
    CanonicalItemsLength(c, j, n - 1);
    if i < n - 1 { CanonicalItemAt(c, j, n - 1, i); }
  }

  lemma {:induction false} CanonicalItemsLength(c: Collation, j: Json, n: nat)
    requires j.Arr? && n <= |j.items|
    ensures |CanonicalItems(c, j, n)| == n
  {
    if n > 0 { CanonicalItemsLength(c, j, n - 1); }
  }

  lemma {:induction false} InOrderIsUnique(c: Collation, from: seq<Field>, a: seq<Field>, b: seq<Field>)
    requires WeakOrder(c) && InOrder(c, from, a) && InOrder(c, from, b)
             && forall key :: Lookup(a, key) == Lookup(b, key)
    ensures a == b
  {
    hide KeyIndex;
    assert (a != [] ==> Lookup(b, a[0].key).Some?) && (b != [] ==> Lookup(a, b[0].key).Some?);
    if a != [] {
      var i := FoundIsField(b, a[0].key);
      var j := FoundIsField(a, b[0].key);
      assert i > 0 ==> SortsBefore(c, from, b[0].key, a[0].key);
      assert j > 0 ==> SortsBefore(c, from, a[0].key, b[0].key);
      assert a[0] == b[0];
      InOrderRest(c, from, a);
      InOrderRest(c, from, b);
      forall key ensures Lookup(a[1..], key) == Lookup(b[1..], key) { assert Lookup(a, key) == Lookup(b, key); }
      InOrderIsUnique(c, from, a[1..], b[1..]);
      assert a == [a[0]] + a[1..] && b == [b[0]] + b[1..];
    }
  }

  // ---------- Equality up to key order ----------

  ghost predicate SameJson(a: Json, b: Json)
    decreases a
  {
    match a
    case Arr(items) => b.Arr? && |items| == |b.items| && forall i :: 0 <= i < |items| ==> SameJson(items[i], b.items[i])
    case Obj(fields) =>
      && b.Obj?
      && (forall key :: Lookup(fields, key).Some? <==> Lookup(b.fields, key).Some?)
      && (forall i | 0 <= i < |fields| && Lookup(b.fields, fields[i].key).Some? ::
            SameJson(fields[i].value, Lookup(b.fields, fields[i].key).value))
    case _ => a == b
  }

  /** Keys that tie stand in the same order in both objects. */
  ghost predicate TiesAgree(c: Collation, a: seq<Field>, b: seq<Field>) {
    forall x, y | Lookup(a, x).Some? && Lookup(a, y).Some? && !c.before(x, y) && !c.before(y, x) ::
      KeyIndex(a, x) < KeyIndex(a, y) <==> KeyIndex(b, x) < KeyIndex(b, y)
  }

  /** The same up to the order of keys that the collation tells apart. */
  ghost predicate SameSorted(c: Collation, a: Json, b: Json)
    decreases a
  {
    match a
    case Arr(items) =>
      b.Arr? && |items| == |b.items| && forall i :: 0 <= i < |items| ==> SameSorted(c, items[i], b.items[i])
    case Obj(fields) =>
      && b.Obj? && TiesAgree(c, fields, b.fields)
      && (forall key :: Lookup(fields, key).Some? <==> Lookup(b.fields, key).Some?)
      && (forall i | 0 <= i < |fields| && Lookup(b.fields, fields[i].key).Some? ::
            SameSorted(c, fields[i].value, Lookup(b.fields, fields[i].key).value))
    case _ => a == b
  }

  /** Canonical forms are equal exactly for values that differ at most in the order of keys the
      collation tells apart. */
  lemma {:induction false} CanonicalExactly(c: Collation, a: Json, b: Json)
    requires WeakOrder(c) && WellFormed(a) && WellFormed(b)
    ensures Canonical(c, a) == Canonical(c, b) <==> SameSorted(c, a, b)
    decreases a
  {
    hide WeakOrder, TiesAgree;
    if a.Arr? && b.Arr? {
      CanonicalArrays(c, a, b);
    } else if a.Obj? && b.Obj? {
      CanonicalObjects(c, a, b);
    }
  }

  lemma {:induction false} CanonicalArrays(c: Collation, a: Json, b: Json)
    requires WeakOrder(c) && WellFormed(a) && WellFormed(b) && a.Arr? && b.Arr?
    ensures Canonical(c, a) == Canonical(c, b) <==> SameSorted(c, a, b)
    decreases a, 0
  {
    hide Canonical, WeakOrder;
    CanonicalIsArray(c, a);
    CanonicalIsArray(c, b);
    if |a.items| == |b.items| {
      forall i | 0 <= i < |a.items|
        ensures Canonical(c, a).items[i] == Canonical(c, b).items[i] <==> SameSorted(c, a.items[i], b.items[i])
      {
        CanonicalExactly(c, a.items[i], b.items[i]);
      }
    }
  }

  lemma CanonicalIsArray(c: Collation, j: Json)
    requires j.Arr?
    ensures Canonical(c, j).Arr? && |Canonical(c, j).items| == |j.items|
    ensures forall i :: 0 <= i < |j.items| ==> Canonical(c, j).items[i] == Canonical(c, j.items[i])
  {
    CanonicalItemsLength(c, j, |j.items|);
    forall i | 0 <= i < |j.items| ensures Canonical(c, j).items[i] == Canonical(c, j.items[i]) {
      CanonicalItemAt(c, j, |j.items|, i);
    }
  }

  /** Objects with the same keys: the values, one by one. */
  ghost predicate ValuesAgree(c: Collation, a: Json, b: Json)
    requires a.Obj? && b.Obj?
  {
    forall i | 0 <= i < |a.fields| && Lookup(b.fields, a.fields[i].key).Some? ::
      Canonical(c, a.fields[i].value) == Canonical(c, Lookup(b.fields, a.fields[i].key).value)
  }

  ghost predicate SameKeys(a: seq<Field>, b: seq<Field>) {
    forall key :: Lookup(a, key).Some? <==> Lookup(b, key).Some?
  }

  lemma {:induction false} CanonicalObjects(c: Collation, a: Json, b: Json)
    requires WeakOrder(c) && WellFormed(a) && WellFormed(b) && a.Obj? && b.Obj?
    ensures Canonical(c, a) == Canonical(c, b) <==> SameSorted(c, a, b)
    decreases a, 0
  {
    hide Canonical, WeakOrder, TiesAgree;
    forall i | 0 <= i < |a.fields| && Lookup(b.fields, a.fields[i].key).Some?
      ensures Canonical(c, a.fields[i].value) == Canonical(c, Lookup(b.fields, a.fields[i].key).value) <==>
              SameSorted(c, a.fields[i].value, Lookup(b.fields, a.fields[i].key).value)
    {
      var k := FoundIsField(b.fields, a.fields[i].key);
      CanonicalExactly(c, a.fields[i].value, b.fields[k].value);
    }
    assert SameSorted(c, a, b) <==>
           SameKeys(a.fields, b.fields) && ValuesAgree(c, a, b) && TiesAgree(c, a.fields, b.fields);
    if SameSorted(c, a, b) { AgreeingObjects(c, a, b); }
    if Canonical(c, a) == Canonical(c, b) { EqualObjectsAgree(c, a, b); }
  }

  lemma SortsAlike(c: Collation, a: seq<Field>, b: seq<Field>, fields: seq<Field>)
    requires WeakOrder(c) && TiesAgree(c, a, b) && InOrder(c, b, fields)
    requires forall i :: 0 <= i < |fields| ==> Lookup(a, fields[i].key).Some?
    ensures InOrder(c, a, fields)
  {
    hide KeyIndex;
    forall i, j | 0 <= i < j < |fields| ensures SortsBefore(c, a, fields[i].key, fields[j].key) {
      assert SortsBefore(c, b, fields[i].key, fields[j].key);
    }
  }

  lemma AgreeingObjects(c: Collation, a: Json, b: Json)
    requires WeakOrder(c) && a.Obj? && b.Obj? && KeysAreUnique(a.fields) && KeysAreUnique(b.fields)
    requires SameKeys(a.fields, b.fields) && ValuesAgree(c, a, b) && TiesAgree(c, a.fields, b.fields)
    ensures Canonical(c, a) == Canonical(c, b)
  {
    hide Canonical, WeakOrder, TiesAgree, InOrder, KeysAreUnique;
    CanonicalObject(c, a, "");
    CanonicalObject(c, b, "");
    var left, right := Canonical(c, a).fields, Canonical(c, b).fields;
    forall key ensures Lookup(left, key) == Lookup(right, key) {
      CanonicalObject(c, a, key);
      CanonicalObject(c, b, key);
      if Lookup(a.fields, key).Some? { var i := FoundIsField(a.fields, key); }
    }
    forall i | 0 <= i < |right| ensures Lookup(a.fields, right[i].key).Some? {
      KeyIsFound(right, i);
      CanonicalObject(c, b, right[i].key);
    }
    SortsAlike(c, a.fields, b.fields, right);
    InOrderIsUnique(c, a.fields, left, right);
  }

  lemma {:induction false} KeyIsFound(fields: seq<Field>, i: nat)
    requires i < |fields|
    ensures Lookup(fields, fields[i].key).Some?
  {
    if i > 0 { KeyIsFound(fields[1..], i - 1); }
  }

  /** In a sorted list, a key that sorts before another comes first. */
  lemma PlacesFollowOrder(c: Collation, from: seq<Field>, fields: seq<Field>, i: nat, j: nat)
    requires WeakOrder(c) && InOrder(c, from, fields) && i < |fields| && j < |fields|
    ensures SortsBefore(c, from, fields[i].key, fields[j].key) <==> i < j
  {
    hide KeyIndex;
    if j < i { assert SortsBefore(c, from, fields[j].key, fields[i].key); }
  }

  lemma EqualObjectsAgree(c: Collation, a: Json, b: Json)
    requires WeakOrder(c) && a.Obj? && b.Obj? && KeysAreUnique(a.fields) && KeysAreUnique(b.fields)
    requires Canonical(c, a) == Canonical(c, b)
    ensures SameKeys(a.fields, b.fields) && ValuesAgree(c, a, b) && TiesAgree(c, a.fields, b.fields)
  {
    hide Canonical, WeakOrder, InOrder;
    forall key
      ensures CanonicalFound(c, Lookup(a.fields, key)) == CanonicalFound(c, Lookup(b.fields, key))
      ensures Canonical(c, a).Obj? && Lookup(Canonical(c, a).fields, key) == CanonicalFound(c, Lookup(a.fields, key))
    {
      CanonicalObject(c, a, key);
      CanonicalObject(c, b, key);
    }
    forall i | 0 <= i < |a.fields| { LookupFinds(a.fields, i); }
    CanonicalObject(c, a, "");
    CanonicalObject(c, b, "");
    var sorted := Canonical(c, a).fields;
    forall x, y | Lookup(a.fields, x).Some? && Lookup(a.fields, y).Some? && !c.before(x, y) && !c.before(y, x)
      ensures KeyIndex(a.fields, x) < KeyIndex(a.fields, y) <==> KeyIndex(b.fields, x) < KeyIndex(b.fields, y)
    {
      var i := FoundIsField(sorted, x);
      var j := FoundIsField(sorted, y);
      PlacesFollowOrder(c, a.fields, sorted, i, j);
      PlacesFollowOrder(c, b.fields, sorted, i, j);
    }
  }

  // ---------- When key order is all that is ignored ----------

  /** The same values up to the order of some keys are the same up to key order. */
  lemma {:induction false} SortedIsSame(c: Collation, a: Json, b: Json)
    ensures SameSorted(c, a, b) ==> SameJson(a, b)
    decreases a
  {
    hide TiesAgree;
    if SameSorted(c, a, b) {
      if a.Arr? {
        forall i | 0 <= i < |a.items| { SortedIsSame(c, a.items[i], b.items[i]); }
      } else if a.Obj? {
        forall i | 0 <= i < |a.fields| && Lookup(b.fields, a.fields[i].key).Some? {
          SortedIsSame(c, a.fields[i].value, Lookup(b.fields, a.fields[i].key).value);
        }
      }
    }
  }

  /** The collation ties no two different keys of one object of `j`. */
  ghost predicate Separated(c: Collation, j: Json)
    decreases j
  {
    match j
    case Arr(items) => forall i :: 0 <= i < |items| ==> Separated(c, items[i])
    case Obj(fields) =>
      && (forall x, y | Lookup(fields, x).Some? && Lookup(fields, y).Some? && x != y ::
            c.before(x, y) || c.before(y, x))
      && (forall i :: 0 <= i < |fields| ==> Separated(c, fields[i].value))
    case _ => true
  }

  lemma {:induction false} AllSeparated(c: Collation, j: Json)
    requires SeparatesKeys(c)
    ensures Separated(c, j)
    decreases j
  {
    if j.Arr? {
      forall i | 0 <= i < |j.items| { AllSeparated(c, j.items[i]); }
    } else if j.Obj? {
      forall i | 0 <= i < |j.fields| { AllSeparated(c, j.fields[i].value); }
    }
  }

  lemma {:induction false} SameIsSorted(c: Collation, a: Json, b: Json)
    requires Separated(c, a)
    ensures SameJson(a, b) ==> SameSorted(c, a, b)
    decreases a
  {
    hide KeyIndex;
    if SameJson(a, b) {
      if a.Arr? {
        forall i | 0 <= i < |a.items| { SameIsSorted(c, a.items[i], b.items[i]); }
      } else if a.Obj? {
        forall i | 0 <= i < |a.fields| && Lookup(b.fields, a.fields[i].key).Some? {
          SameIsSorted(c, a.fields[i].value, Lookup(b.fields, a.fields[i].key).value);
        }
      }
    }
  }

  /** For a value whose keys do not tie, canonical form and inclusion both ways ignore key order and nothing else. */
  lemma SeparatedValuesIgnoreKeyOrder(c: Collation, a: Json, b: Json)
    requires WeakOrder(c) && WellFormed(a) && WellFormed(b) && Separated(c, a)
    ensures Canonical(c, a) == Canonical(c, b) <==> SameJson(a, b)
    ensures JsonIncludes(c, a, b) && JsonIncludes(c, b, a) <==> SameJson(a, b)
  {
    hide Canonical, WeakOrder, WellFormed, JsonIncludes, SameSorted, Separated;
    CanonicalExactly(c, a, b);
    SortedIsSame(c, a, b);
    SameIsSorted(c, a, b);
    IncludesBothWaysIsSame(c, a, b);
    if SameSorted(c, a, b) { SortedIncludesBothWays(c, a, b); }
  }

  function Pair(x: string, y: string): Json {
    Obj([Field(x, Null), Field(y, Null)])
  }

  /** Two keys that tie keep the order they came in. */
  lemma TiedPairsDiffer(c: Collation, x: string, y: string)
    requires WeakOrder(c) && x != y && !c.before(x, y) && !c.before(y, x)
    ensures WellFormed(Pair(x, y)) && WellFormed(Pair(y, x)) && SameJson(Pair(x, y), Pair(y, x))
    ensures Canonical(c, Pair(x, y)) != Canonical(c, Pair(y, x))
  {
    hide Canonical;
    var a, b := Pair(x, y), Pair(y, x);
    PairLooksUp(x, y);
    PairLooksUp(y, x);
    CanonicalExactly(c, a, b);
    assert !TiesAgree(c, a.fields, b.fields) by {
      KeyIndexOf(a.fields, 0);
      KeyIndexOf(a.fields, 1);
      KeyIndexOf(b.fields, 0);
      KeyIndexOf(b.fields, 1);
    }
  }

  lemma PairLooksUp(x: string, y: string)
    requires x != y
    ensures forall key :: Lookup(Pair(x, y).fields, key) == if key == x || key == y then Some(Null) else None
  {
    var fields := Pair(x, y).fields;
    assert fields[1..] == [Field(y, Null)] && fields[1..][1..] == [];
    forall key ensures Lookup(fields, key) == if key == x || key == y then Some(Null) else None {
      assert Lookup(fields[1..][1..], key) == None;
      assert Lookup(fields[1..], key) == if key == y then Some(Null) else None;
    }
  }

  /** Canonical form ignores key order, and nothing else, exactly when the collation tells different keys apart. */
  lemma CanonicalIgnoresKeyOrderExactly(c: Collation)
    requires WeakOrder(c)
    ensures SeparatesKeys(c) <==>
            forall a, b | WellFormed(a) && WellFormed(b) :: Canonical(c, a) == Canonical(c, b) <==> SameJson(a, b)
  {
    hide Canonical, WeakOrder, WellFormed;
    if SeparatesKeys(c) {
      forall a, b | WellFormed(a) && WellFormed(b) ensures Canonical(c, a) == Canonical(c, b) <==> SameJson(a, b) {
        AllSeparated(c, a);
        SeparatedValuesIgnoreKeyOrder(c, a, b);
      }
    } else {
      var x, y :| x != y && !c.before(x, y) && !c.before(y, x);
      TiedPairsDiffer(c, x, y);
      assert WellFormed(Pair(x, y)) && WellFormed(Pair(y, x));
    }
  }

  // ---------- Inclusion ----------

  /** Every required field must be there, recursively; anything but an object must be the same value. */
  predicate JsonIncludes(c: Collation, actual: Json, required: Json)
    decreases required
  {
    match required
    case Obj(fields) =>
      actual.Obj? && forall i | 0 <= i < |fields| ::
        Lookup(actual.fields, fields[i].key).Some?
        && JsonIncludes(c, Lookup(actual.fields, fields[i].key).value, fields[i].value)
    case _ => Canonical(c, actual) == Canonical(c, required)
  }

  lemma {:induction false} IncludesIsReflexive(c: Collation, j: Json)
    requires WellFormed(j)
    ensures JsonIncludes(c, j, j)
  {
    hide Canonical;
    if j.Obj? {
      forall i | 0 <= i < |j.fields|
        ensures Lookup(j.fields, j.fields[i].key).Some?
                && JsonIncludes(c, Lookup(j.fields, j.fields[i].key).value, j.fields[i].value)
      {
        LookupFinds(j.fields, i);
        IncludesIsReflexive(c, j.fields[i].value);
      }
    }
  }

  lemma CanonicalKeepsObjects(c: Collation, a: Json)
    ensures Canonical(c, a).Obj? <==> a.Obj?
  {}

  lemma {:induction false} IncludesIsTransitive(c: Collation, x: Json, y: Json, z: Json)
    requires JsonIncludes(c, x, y) && JsonIncludes(c, y, z)
    ensures JsonIncludes(c, x, z)
    decreases z
  {
    hide Canonical;
    CanonicalKeepsObjects(c, y);
    CanonicalKeepsObjects(c, z);
    if z.Obj? {
      forall i | 0 <= i < |z.fields|
        ensures Lookup(x.fields, z.fields[i].key).Some?
                && JsonIncludes(c, Lookup(x.fields, z.fields[i].key).value, z.fields[i].value)
      {
        var key := z.fields[i].key;
        var k := FoundIsField(y.fields, key);
        IncludesIsTransitive(c, Lookup(x.fields, key).value, y.fields[k].value, z.fields[i].value);
      }
    }
  }

  /** Two values that include each other differ at most in key order. */
  lemma {:induction false} IncludesBothWaysIsSame(c: Collation, a: Json, b: Json)
    requires WeakOrder(c) && WellFormed(a) && WellFormed(b)
    ensures JsonIncludes(c, a, b) && JsonIncludes(c, b, a) ==> SameJson(a, b)
    decreases a
  {
    hide Canonical, WeakOrder;
    CanonicalKeepsObjects(c, a);
    CanonicalKeepsObjects(c, b);
    if JsonIncludes(c, a, b) && JsonIncludes(c, b, a) {
      if a.Obj? {
        forall key ensures Lookup(a.fields, key).Some? <==> Lookup(b.fields, key).Some? {
          if Lookup(a.fields, key).Some? { var i := FoundIsField(a.fields, key); }
          if Lookup(b.fields, key).Some? { var i := FoundIsField(b.fields, key); }
        }
        forall i | 0 <= i < |a.fields| && Lookup(b.fields, a.fields[i].key).Some?
          ensures SameJson(a.fields[i].value, Lookup(b.fields, a.fields[i].key).value)
        {
          LookupFinds(a.fields, i);
          var k := FoundIsField(b.fields, a.fields[i].key);
          IncludesBothWaysIsSame(c, a.fields[i].value, b.fields[k].value);
        }
      } else {
        CanonicalExactly(c, a, b);
        SortedIsSame(c, a, b);
      }
    }
  }

  /** Values that differ only in the order of keys the collation tells apart include each other. */
  lemma {:induction false} SortedIncludesBothWays(c: Collation, a: Json, b: Json)
    requires WeakOrder(c) && WellFormed(a) && WellFormed(b) && SameSorted(c, a, b)
    ensures JsonIncludes(c, a, b) && JsonIncludes(c, b, a)
    decreases a
  {
    hide Canonical, WeakOrder, TiesAgree;
    CanonicalExactly(c, a, b);
    if a.Obj? {
      forall i | 0 <= i < |b.fields|
        ensures Lookup(a.fields, b.fields[i].key).Some?
                && JsonIncludes(c, Lookup(a.fields, b.fields[i].key).value, b.fields[i].value)
      {
        LookupFinds(b.fields, i);
        var k := FoundIsField(a.fields, b.fields[i].key);
        SortedIncludesBothWays(c, a.fields[k].value, b.fields[i].value);
      }
      forall i | 0 <= i < |a.fields|
        ensures Lookup(b.fields, a.fields[i].key).Some?
                && JsonIncludes(c, Lookup(b.fields, a.fields[i].key).value, a.fields[i].value)
      {
        LookupFinds(a.fields, i);
        var k := FoundIsField(b.fields, a.fields[i].key);
        SortedIncludesBothWays(c, a.fields[i].value, b.fields[k].value);
      }
    }
  }

  /** Including each other means differing in key order only, exactly when the collation tells different keys apart. */
  lemma IncludesBothWaysExactly(c: Collation)
    requires WeakOrder(c)
    ensures SeparatesKeys(c) <==>
            forall a, b | WellFormed(a) && WellFormed(b) ::
              JsonIncludes(c, a, b) && JsonIncludes(c, b, a) <==> SameJson(a, b)
  {
    hide Canonical, WeakOrder, WellFormed, JsonIncludes, SameSorted;
    if SeparatesKeys(c) {
      forall a, b | WellFormed(a) && WellFormed(b)
        ensures JsonIncludes(c, a, b) && JsonIncludes(c, b, a) <==> SameJson(a, b)
      {
        AllSeparated(c, a);
        SeparatedValuesIgnoreKeyOrder(c, a, b);
      }
    } else {
      var x, y :| x != y && !c.before(x, y) && !c.before(y, x);
      TiedPairsDiffer(c, x, y);
      ListedPairsDiffer(c, Pair(x, y), Pair(y, x));
      assert WellFormed(Arr([Pair(x, y)])) && WellFormed(Arr([Pair(y, x)]));
    }
  }

  /** In a list, values must have the same canonical form to include each other. */
  lemma ListedPairsDiffer(c: Collation, a: Json, b: Json)
    requires WellFormed(a) && WellFormed(b) && SameJson(a, b) && Canonical(c, a) != Canonical(c, b)
    ensures WellFormed(Arr([a])) && WellFormed(Arr([b])) && SameJson(Arr([a]), Arr([b]))
    ensures !JsonIncludes(c, Arr([a]), Arr([b]))
  {
    hide Canonical;
    CanonicalIsArray(c, Arr([a]));
    CanonicalIsArray(c, Arr([b]));
    assert Arr([a]).items[0] == a && Arr([b]).items[0] == b;
  }

  // ---------- Proposed operations ----------

  datatype Operation =
    | UpdateBottle(bottleId: nat, patch: Json)
    | UpdateEntity(entityId: nat, patch: Json)
    | MergeBottles(input: Json)
    | MergeEntities(input: Json)

  predicate ProposedOperationIncludes(c: Collation, actual: Operation, required: Operation) {
    match (actual, required)
    case (UpdateBottle(a, p), UpdateBottle(b, q)) => a == b && JsonIncludes(c, p, q)
    case (UpdateEntity(a, p), UpdateEntity(b, q)) => a == b && JsonIncludes(c, p, q)
    case (MergeBottles(p), MergeBottles(q)) => Canonical(c, p) == Canonical(c, q)
    case (MergeEntities(p), MergeEntities(q)) => Canonical(c, p) == Canonical(c, q)
    case _ => false
  }

  function JsonOf(o: Operation): Json {
    match o
    case UpdateBottle(_, p) => p
    case UpdateEntity(_, p) => p
    case MergeBottles(p) => p
    case MergeEntities(p) => p
  }

  /** Inclusion of proposals is reflexive and transitive. */
  lemma OperationInclusionIsAPreorder(c: Collation, x: Operation, y: Operation, z: Operation)
    requires WellFormed(JsonOf(x))
    ensures ProposedOperationIncludes(c, x, x)
    ensures ProposedOperationIncludes(c, x, y) && ProposedOperationIncludes(c, y, z) ==>
              ProposedOperationIncludes(c, x, z)
  {
    hide Canonical;
    IncludesIsReflexive(c, JsonOf(x));
    if ProposedOperationIncludes(c, x, y) && ProposedOperationIncludes(c, y, z)
       && (x.UpdateBottle? || x.UpdateEntity?) {
      IncludesIsTransitive(c, JsonOf(x), JsonOf(y), JsonOf(z));
    }
  }
}
