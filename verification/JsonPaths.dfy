/** Inclusion of JSON values told path by path, and what one field more does to it. */
module JsonPaths {
  import opened Wrappers
  import opened JsonInclusion

  /** The value reached from `j` through the keys of nested objects. */
  function ValueAt(j: Json, path: seq<string>): Option<Json>
    decreases path
  {
    if path == [] then Some(j)
    else if !j.Obj? || Lookup(j.fields, path[0]).None? then None
    else ValueAt(Lookup(j.fields, path[0]).value, path[1..])
  }

  /** What is required under `path` is there: an object for an object, else the same value. */
  ghost predicate MeetsAt(c: Collation, actual: Json, required: Json, path: seq<string>) {
    var want, have := ValueAt(required, path), ValueAt(actual, path);
    want.Some? ==>
      have.Some? && (if want.value.Obj? then have.value.Obj?
                     else Canonical(c, have.value) == Canonical(c, want.value))
  }

  lemma {:induction false} IncludedMeets(c: Collation, actual: Json, required: Json, path: seq<string>)
    requires JsonIncludes(c, actual, required)
    ensures MeetsAt(c, actual, required, path)
    decreases path
  {
    hide Canonical;
    if path != [] && required.Obj? && Lookup(required.fields, path[0]).Some? {
      var i := FoundIsField(required.fields, path[0]);
      IncludedMeets(c, Lookup(actual.fields, path[0]).value, required.fields[i].value, path[1..]);
    }
  }

  lemma {:induction false} RefusingPath(c: Collation, actual: Json, required: Json) returns (path: seq<string>)
    requires WellFormed(required) && !JsonIncludes(c, actual, required)
    ensures !MeetsAt(c, actual, required, path)
    decreases required
  {
    hide Canonical;
    path := [];
    if required.Obj? && actual.Obj? {
      var i :| 0 <= i < |required.fields|
               && !(Lookup(actual.fields, required.fields[i].key).Some?
                    && JsonIncludes(c, Lookup(actual.fields, required.fields[i].key).value, required.fields[i].value));
      var key := required.fields[i].key;
      LookupFinds(required.fields, i);
      if Lookup(actual.fields, key).Some? {
        var rest := RefusingPath(c, Lookup(actual.fields, key).value, required.fields[i].value);
        path := [key] + rest;
        assert path[1..] == rest;
        assert ValueAt(required, path) == ValueAt(required.fields[i].value, rest);
        assert ValueAt(actual, path) == ValueAt(Lookup(actual.fields, key).value, rest);
      } else {
        path := [key];
        assert path[1..] == [] && ValueAt(required, path) == Some(required.fields[i].value);
      }
    }
  }

  /** A value includes another exactly when it meets it under every path of keys. */
  lemma IncludesExactly(c: Collation, actual: Json, required: Json)
    requires WellFormed(required)
    ensures JsonIncludes(c, actual, required) <==> forall path :: MeetsAt(c, actual, required, path)
  {
    hide MeetsAt, JsonIncludes;
    if JsonIncludes(c, actual, required) {
      forall path ensures MeetsAt(c, actual, required, path) { IncludedMeets(c, actual, required, path); }
    } else {
      var path := RefusingPath(c, actual, required);
    }
  }

  predicate IsScalar(j: Json) {
    !j.Arr? && !j.Obj?
  }

  /** A required key that is not there refuses the value, at any depth, and so does a required scalar that differs. */
  lemma RefusedWithout(c: Collation, actual: Json, required: Json, path: seq<string>)
    requires ValueAt(required, path).Some?
    requires ValueAt(actual, path).None?
             || (IsScalar(ValueAt(required, path).value) && ValueAt(actual, path) != ValueAt(required, path))
    ensures !JsonIncludes(c, actual, required)
  {
    if JsonIncludes(c, actual, required) { IncludedMeets(c, actual, required, path); }
  }

  function Replace(fields: seq<Field>, key: string, value: Json): seq<Field> {
    if fields == [] then []
    else if fields[0].key == key then [Field(key, value)] + fields[1..]
    else [fields[0]] + Replace(fields[1..], key, value)
  }

  /** `j` with one more field in the object reached through `path`, when that object lacks the key. */
  function WithField(j: Json, path: seq<string>, field: Field): Json
    decreases path
  {
    if !j.Obj? then j
    else if path == [] then (if Lookup(j.fields, field.key).None? then Obj(j.fields + [field]) else j)
    else if Lookup(j.fields, path[0]).None? then j
    else Obj(Replace(j.fields, path[0], WithField(Lookup(j.fields, path[0]).value, path[1..], field)))
  }

  lemma {:induction false} LookupReplaced(fields: seq<Field>, key: string, value: Json, other: string)
    ensures Lookup(Replace(fields, key, value), other) ==
            if other == key && Lookup(fields, key).Some? then Some(value) else Lookup(fields, other)
  {
    if fields != [] {
      var replaced := Replace(fields, key, value);
      assert fields[0].key == key ==> replaced[1..] == fields[1..];
      assert fields[0].key != key ==> replaced[1..] == Replace(fields[1..], key, value);
      LookupReplaced(fields[1..], key, value, other);
    }
  }

  /** A field more in the actual value, at any depth, keeps the inclusion. */
  lemma {:induction false} AddedFieldKeepsInclusion(c: Collation, actual: Json, path: seq<string>, field: Field,
      required: Json)
    requires JsonIncludes(c, actual, required)
    ensures JsonIncludes(c, WithField(actual, path, field), required)
    decreases path
  {
    hide Canonical;
    CanonicalKeepsObjects(c, actual);
    CanonicalKeepsObjects(c, required);
    if required.Obj? {
      var more := WithField(actual, path, field);
      forall i | 0 <= i < |required.fields|
        ensures Lookup(more.fields, required.fields[i].key).Some?
                && JsonIncludes(c, Lookup(more.fields, required.fields[i].key).value, required.fields[i].value)
      {
        var key := required.fields[i].key;
        LookupAppended(actual.fields, field, key);
        if path != [] && Lookup(actual.fields, path[0]).Some? {
          var inner := WithField(Lookup(actual.fields, path[0]).value, path[1..], field);
          LookupReplaced(actual.fields, path[0], inner, key);
          if key == path[0] {
            AddedFieldKeepsInclusion(c, Lookup(actual.fields, key).value, path[1..], field, required.fields[i].value);
          }
        }
      }
    }
  }

  /** The object under `path` exists and lacks `key`. */
  predicate Lacks(j: Json, path: seq<string>, key: string) {
    var inner := ValueAt(j, path);
    inner.Some? && inner.value.Obj? && Lookup(inner.value.fields, key).None?
  }

  /** The field is there once it is added. */
  lemma {:induction false} AddedFieldIsThere(j: Json, path: seq<string>, field: Field)
    requires Lacks(j, path, field.key)
    ensures ValueAt(WithField(j, path, field), path + [field.key]) == Some(field.value)
    decreases path
  {
    var longer := path + [field.key];
    if path == [] {
      LookupAppended(j.fields, field, field.key);
      assert longer[1..] == [];
    } else {
      var inner := Lookup(j.fields, path[0]).value;
      AddedFieldIsThere(inner, path[1..], field);
      LookupReplaced(j.fields, path[0], WithField(inner, path[1..], field), path[0]);
      assert longer[1..] == path[1..] + [field.key];
    }
  }

  /** So a value never includes what it became by getting a field more. */
  lemma AddedFieldIsNotIncludedBack(c: Collation, j: Json, path: seq<string>, field: Field)
    requires Lacks(j, path, field.key)
    ensures !JsonIncludes(c, j, WithField(j, path, field))
  {
    AddedFieldIsThere(j, path, field);
    LackedIsNotThere(j, path, field.key);
    RefusedWithout(c, j, WithField(j, path, field), path + [field.key]);
  }

  lemma {:induction false} LackedIsNotThere(j: Json, path: seq<string>, key: string)
    requires Lacks(j, path, key)
    ensures ValueAt(j, path + [key]).None?
    decreases path
  {
    var longer := path + [key];
    if path != [] {
      assert longer[1..] == path[1..] + [key];
      LackedIsNotThere(Lookup(j.fields, path[0]).value, path[1..], key);
    }
  }

  // ---------- One more required field ----------

  lemma {:induction false} ReplacedKeys(fields: seq<Field>, key: string, value: Json)
    ensures var replaced := Replace(fields, key, value);
            && |replaced| == |fields|
            && (forall i :: 0 <= i < |fields| ==>
                  replaced[i].key == fields[i].key && (replaced[i] == fields[i] || replaced[i].value == value))
  {
    if fields != [] { ReplacedKeys(fields[1..], key, value); }
  }

  lemma {:induction false} WithFieldIsWellFormed(j: Json, path: seq<string>, field: Field)
    requires WellFormed(j) && WellFormed(field.value)
    ensures WellFormed(WithField(j, path, field))
    decreases path
  {
    if j.Obj? && path == [] && Lookup(j.fields, field.key).None? {
      forall i | 0 <= i < |j.fields| ensures j.fields[i].key != field.key { LookupFinds(j.fields, i); }
    }
    if j.Obj? && path != [] && Lookup(j.fields, path[0]).Some? {
      var k := FoundIsField(j.fields, path[0]);
      var inner := WithField(j.fields[k].value, path[1..], field);
      WithFieldIsWellFormed(j.fields[k].value, path[1..], field);
      ReplacedKeys(j.fields, path[0], inner);
    }
  }

  /** `key` of the required object is there and included. */
  ghost predicate HasKey(c: Collation, actual: Json, required: Json, key: string)
    requires actual.Obj? && required.Obj?
  {
    var want, have := Lookup(required.fields, key), Lookup(actual.fields, key);
    want.Some? ==> have.Some? && JsonIncludes(c, have.value, want.value)
  }

  lemma IncludesByKey(c: Collation, actual: Json, required: Json)
    requires WellFormed(required) && required.Obj?
    ensures JsonIncludes(c, actual, required) <==> actual.Obj? && forall key :: HasKey(c, actual, required, key)
  {
    hide Canonical;
    if JsonIncludes(c, actual, required) {
      forall key ensures HasKey(c, actual, required, key) {
        if Lookup(required.fields, key).Some? { var i := FoundIsField(required.fields, key); }
      }
    }
    if actual.Obj? && forall key :: HasKey(c, actual, required, key) {
      forall i | 0 <= i < |required.fields|
        ensures Lookup(actual.fields, required.fields[i].key).Some?
                && JsonIncludes(c, Lookup(actual.fields, required.fields[i].key).value, required.fields[i].value)
      {
        LookupFinds(required.fields, i);
        assert HasKey(c, actual, required, required.fields[i].key);
      }
    }
  }

  /** Requiring one more field, at any depth, asks exactly for that field: whatever was included without it still is. */
  lemma {:induction false} OneMoreRequirementExactly(c: Collation, actual: Json, required: Json, path: seq<string>,
      field: Field)
    requires WellFormed(required) && WellFormed(field.value) && Lacks(required, path, field.key)
    ensures var have := ValueAt(actual, path + [field.key]);
            JsonIncludes(c, actual, WithField(required, path, field)) <==>
            JsonIncludes(c, actual, required) && have.Some? && JsonIncludes(c, have.value, field.value)
    decreases path
  {
    hide Canonical, JsonIncludes;
    var longer := path + [field.key];
    var more := WithField(required, path, field);
    WithFieldIsWellFormed(required, path, field);
    IncludesByKey(c, actual, required);
    IncludesByKey(c, actual, more);
    if actual.Obj? {
      if path == [] {
        assert longer[1..] == [];
        forall key
          ensures HasKey(c, actual, more, key) <==>
                  HasKey(c, actual, required, key)
                  && (key == field.key ==> Lookup(actual.fields, key).Some?
                                           && JsonIncludes(c, Lookup(actual.fields, key).value, field.value))
        {
          LookupAppended(required.fields, field, key);
        }
      } else {
        DeeperRequirement(c, actual, required, path, field, more);
      }
    }
  }

  lemma {:induction false} DeeperRequirement(c: Collation, actual: Json, required: Json, path: seq<string>,
      field: Field, more: Json)
    requires WellFormed(required) && WellFormed(field.value) && Lacks(required, path, field.key)
    requires actual.Obj? && path != [] && more == WithField(required, path, field)
    ensures var have := ValueAt(actual, path + [field.key]);
            (forall key :: HasKey(c, actual, more, key)) <==>
            (forall key :: HasKey(c, actual, required, key)) && have.Some? && JsonIncludes(c, have.value, field.value)
    decreases path, 0
  {
    hide Canonical, JsonIncludes, WellFormed;
    var head := path[0];
    var want, have := Lookup(required.fields, head).value, Lookup(actual.fields, head);
    var inner := WithField(want, path[1..], field);
    var longer := path + [field.key];
    assert longer[0] == head && longer[1..] == path[1..] + [field.key];
    assert ValueAt(actual, longer) == if have.Some? then ValueAt(have.value, longer[1..]) else None;
    var k := FoundIsField(required.fields, head);
    assert WellFormed(want) by { IsWellFormedWithin(required, k); }
    if have.Some? { OneMoreRequirementExactly(c, have.value, want, path[1..], field); }
    forall key
      ensures HasKey(c, actual, more, key) <==>
              if key == head then have.Some? && JsonIncludes(c, have.value, inner) else HasKey(c, actual, required, key)
    {
      LookupReplaced(required.fields, head, inner, key);
    }
    var found := ValueAt(actual, longer);
    var met := found.Some? && JsonIncludes(c, found.value, field.value);
    assert HasKey(c, actual, more, head) <==> HasKey(c, actual, required, head) && met;
    forall key | key != head ensures HasKey(c, actual, more, key) <==> HasKey(c, actual, required, key) {}
  }

  lemma IsWellFormedWithin(j: Json, i: nat)
    requires WellFormed(j) && j.Obj? && i < |j.fields|
    ensures WellFormed(j.fields[i].value)
  {}

  // ---------- Proposed operations ----------

  /** Both update the same Bottle, or both the same Entity. */
  predicate SameTarget(x: Operation, y: Operation) {
    || (x.UpdateBottle? && y.UpdateBottle? && x.bottleId == y.bottleId)
    || (x.UpdateEntity? && y.UpdateEntity? && x.entityId == y.entityId)
  }

  predicate IsUpdate(o: Operation) {
    o.UpdateBottle? || o.UpdateEntity?
  }

  predicate SameMerge(x: Operation, y: Operation) {
    (x.MergeBottles? && y.MergeBottles?) || (x.MergeEntities? && y.MergeEntities?)
  }

  /** A proposed update includes a required one exactly when it is of the same Bottle or Entity and its patch meets the
      required patch under every path; a proposed merge must be the same merge of the same input. */
  lemma OperationIncludesExactly(c: Collation, actual: Operation, required: Operation)
    requires WellFormed(JsonOf(required))
    ensures ProposedOperationIncludes(c, actual, required) <==>
            if IsUpdate(required) then
              SameTarget(actual, required)
              && forall path :: MeetsAt(c, JsonOf(actual), JsonOf(required), path)
            else SameMerge(actual, required) && Canonical(c, JsonOf(actual)) == Canonical(c, JsonOf(required))
  {
    hide MeetsAt, JsonIncludes, Canonical;
    IncludesExactly(c, JsonOf(actual), JsonOf(required));
  }

  function WithPatch(o: Operation, patch: Json): Operation {
    match o
    case UpdateBottle(id, _) => UpdateBottle(id, patch)
    case UpdateEntity(id, _) => UpdateEntity(id, patch)
    case MergeBottles(_) => MergeBottles(patch)
    case MergeEntities(_) => MergeEntities(patch)
  }

  /** A proposed update may say more than is required, at any depth of its patch, but nothing that is required may be
      left out. */
  lemma ProposalsMaySayMore(c: Collation, actual: Operation, required: Operation, path: seq<string>, field: Field)
    requires IsUpdate(actual)
    ensures var more := WithPatch(actual, WithField(JsonOf(actual), path, field));
            && (ProposedOperationIncludes(c, actual, required) ==> ProposedOperationIncludes(c, more, required))
            && (Lacks(JsonOf(actual), path, field.key) ==> !ProposedOperationIncludes(c, actual, more))
  {
    hide Canonical, JsonIncludes;
    if ProposedOperationIncludes(c, actual, required) {
      AddedFieldKeepsInclusion(c, JsonOf(actual), path, field, JsonOf(required));
    }
    if Lacks(JsonOf(actual), path, field.key) {
      AddedFieldIsNotIncludedBack(c, JsonOf(actual), path, field);
    }
  }

  /** A patch that also states the strength includes the patch that states the age alone, not the other way round. */
  lemma StatedAgeExample(c: Collation)
    ensures var age := Field("statedAge", Number(12.0));
            var more := UpdateBottle(1, Obj([age, Field("abv", Number(46.0))]));
            var less := UpdateBottle(1, Obj([age]));
            ProposedOperationIncludes(c, more, less) && !ProposedOperationIncludes(c, less, more)
  {
    var age, abv := Field("statedAge", Number(12.0)), Field("abv", Number(46.0));
    var less := UpdateBottle(1, Obj([age]));
    assert [age][0] == age && [age][1..] == [] && "statedAge"[0] != "abv"[0];
    assert Lookup([age], "statedAge") == Some(Number(12.0));
    assert Lookup([age], "abv") == Lookup([], "abv") == None;
    assert [age] + [abv] == [age, abv];
    assert WithField(Obj([age]), [], abv) == Obj([age, abv]);
    assert ProposedOperationIncludes(c, less, less);
    ProposalsMaySayMore(c, less, less, [], abv);
  }
}
