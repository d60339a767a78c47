/** JSON objects, laying declared fields over live ones, and when that changes nothing. */
module Merge {
  import opened Wrappers

  datatype Json =
    | Null
    | Bool(b: bool)
    | Number(n: int)
    | Text(s: string)
    | List(items: seq<Json>)
    | Object(fields: map<string, Json>)

  /** The live object with the declared fields laid over it, nested objects field by field. */
  function Merged(live: Json, desired: Json): (r: Json)
    requires live.Object? && desired.Object?
    ensures r.Object?
    decreases desired
  {
    Object(map key | key in live.fields.Keys + desired.fields.Keys ::
      if key !in desired.fields then live.fields[key]
      else if desired.fields[key].Object? && key in live.fields && live.fields[key].Object?
        then Merged(live.fields[key], desired.fields[key])
      else desired.fields[key])
  }

  /** Every declared field is in the live object, nested objects again field by field. */
  predicate Within(desired: Json, live: Json)
    requires desired.Object? && live.Object?
    decreases desired
  {
    forall key :: key in desired.fields ==>
      && key in live.fields
      && if desired.fields[key].Object? && live.fields[key].Object?
         then Within(desired.fields[key], live.fields[key])
         else desired.fields[key] == live.fields[key]
  }

  /** The value at the end of a path of keys. */
  function At(j: Json, path: seq<string>): Option<Json> {
    if path == [] then Some(j)
    else if j.Object? && path[0] in j.fields then At(j.fields[path[0]], path[1..])
    else None
  }

  /** The declaration says nothing about the end of the path. */
  predicate LeavesAlone(desired: Json, path: seq<string>)
    requires desired.Object?
    decreases path
  {
    && path != []
    && (path[0] in desired.fields ==>
          desired.fields[path[0]].Object? && LeavesAlone(desired.fields[path[0]], path[1..]))
  }

  lemma {:induction false} WithinReflexive(j: Json)
    requires j.Object?
    ensures Within(j, j)
    decreases j
  {
    forall key | key in j.fields && j.fields[key].Object?
      ensures Within(j.fields[key], j.fields[key])
    {
      WithinReflexive(j.fields[key]);
    }
  }

  lemma {:induction false} WithinTransitive(a: Json, b: Json, c: Json)
    requires a.Object? && b.Object? && c.Object? && Within(a, b) && Within(b, c)
    ensures Within(a, c)
    decreases a
  {
    forall key | key in a.fields && a.fields[key].Object? && c.fields[key].Object?
      ensures Within(a.fields[key], c.fields[key])
    {
      WithinTransitive(a.fields[key], b.fields[key], c.fields[key]);
    }
  }

  /** Drift is found exactly when a declared field is missing or differs. */
  lemma {:induction false} MergeChangesNothingIff(live: Json, desired: Json)
    requires live.Object? && desired.Object?
    ensures Merged(live, desired) == live <==> Within(desired, live)
    decreases desired
  {
    var merged := Merged(live, desired);
    forall key | key in desired.fields && desired.fields[key].Object? && key in live.fields && live.fields[key].Object?
      ensures Merged(live.fields[key], desired.fields[key]) == live.fields[key] <==>
                Within(desired.fields[key], live.fields[key])
    {
      MergeChangesNothingIff(live.fields[key], desired.fields[key]);
    }
    if Within(desired, live) {
      assert merged.fields == live.fields;
    }
    if merged == live {
      forall key | key in desired.fields
        ensures key in live.fields
      {
        assert key in merged.fields;
      }
    }
  }

  /** The result has every declared field. */
  lemma {:induction false} MergeContainsDesired(live: Json, desired: Json)
    requires live.Object? && desired.Object?
    ensures Within(desired, Merged(live, desired))
    decreases desired
  {
    forall key | key in desired.fields && desired.fields[key].Object?
      ensures Within(desired.fields[key], Merged(live, desired).fields[key])
    {
      if key in live.fields && live.fields[key].Object? {
        MergeContainsDesired(live.fields[key], desired.fields[key]);
      } else {
        WithinReflexive(desired.fields[key]);
      }
    }
  }

  /** Merging again finds nothing to change. */
  lemma MergeIdempotent(live: Json, desired: Json)
    requires live.Object? && desired.Object?
    ensures Merged(Merged(live, desired), desired) == Merged(live, desired)
  {
    MergeContainsDesired(live, desired);
    MergeChangesNothingIff(Merged(live, desired), desired);
  }

  /** Whatever the declaration leaves alone stays as it was, present or absent. */
  lemma {:induction false} MergeKeepsTheRest(live: Json, desired: Json, path: seq<string>)
    requires live.Object? && desired.Object? && LeavesAlone(desired, path)
    ensures At(Merged(live, desired), path) == At(live, path)
    decreases path
  {
    var key, rest := path[0], path[1..];
    if key in desired.fields {
      if key in live.fields && live.fields[key].Object? {
        MergeKeepsTheRest(live.fields[key], desired.fields[key], rest);
      } else {
        LeftAloneIsAbsent(desired.fields[key], rest);
        assert rest != [];
      }
    }
  }

  lemma {:induction false} LeftAloneIsAbsent(desired: Json, path: seq<string>)
    requires desired.Object? && LeavesAlone(desired, path)
    ensures At(desired, path) == None
    decreases path
  {
    if path[0] in desired.fields {
      LeftAloneIsAbsent(desired.fields[path[0]], path[1..]);
    }
  }

  /** A declared value that is not an object is found in the result at the same path. */
  lemma {:induction false} MergeSetsValues(live: Json, desired: Json, path: seq<string>)
    requires live.Object? && desired.Object?
    requires At(desired, path).Some? && !At(desired, path).value.Object?
    ensures At(Merged(live, desired), path) == At(desired, path)
    decreases path
  {
    if path != [] {
      var key := path[0];
      if desired.fields[key].Object? && key in live.fields && live.fields[key].Object? {
        MergeSetsValues(live.fields[key], desired.fields[key], path[1..]);
      }
    }
  }

  /** A server that keeps what it was sent, and may add fields of its own, keeps what was declared. */
  lemma KeptMergeIsSettled(live: Json, desired: Json, kept: Json)
    requires live.Object? && desired.Object? && kept.Object? && Within(Merged(live, desired), kept)
    ensures Within(desired, kept) && Merged(kept, desired) == kept
  {
    MergeContainsDesired(live, desired);
    WithinTransitive(desired, Merged(live, desired), kept);
    MergeChangesNothingIff(kept, desired);
  }

  /** The text under a key, empty when there is none. */
  function StringValue(j: Json, key: string): string {
    if j.Object? && key in j.fields && j.fields[key].Text? then j.fields[key].s else ""
  }

  /** The field is still there; where it is an object, fields may have been added to it. */
  ghost predicate FieldKept(before: Json, after: Json, key: string)
    requires before.Object? && after.Object? && key in before.fields
  {
    && key in after.fields
    && if before.fields[key].Object? && after.fields[key].Object? then Within(before.fields[key], after.fields[key])
       else after.fields[key] == before.fields[key]
  }

  lemma FieldsStay(j: Json)
    requires j.Object?
    ensures forall key :: key in j.fields ==> FieldKept(j, j, key)
  {
    forall key | key in j.fields
      ensures FieldKept(j, j, key)
    {
      if j.fields[key].Object? { WithinReflexive(j.fields[key]); }
    }
  }

  /** A server that keeps a merged object keeps every live field that is not declared, one level down too. */
  lemma MergedFieldsKept(before: Json, desired: Json, after: Json)
    requires before.Object? && desired.Object? && after.Object? && Within(Merged(before, desired), after)
    ensures forall key :: key in before.fields && key !in desired.fields ==> FieldKept(before, after, key)
    ensures forall key :: key in before.fields && before.fields[key].Object?
                          && key in desired.fields && desired.fields[key].Object? ==>
              && key in after.fields && after.fields[key].Object?
              && forall inner :: inner in before.fields[key].fields && inner !in desired.fields[key].fields ==>
                   FieldKept(before.fields[key], after.fields[key], inner)
  {
    var merged := Merged(before, desired);
    forall key | key in before.fields
      ensures key in merged.fields
    {
    }
    forall key | key in before.fields && before.fields[key].Object? && key in desired.fields
                 && desired.fields[key].Object?
      ensures after.fields[key].Object?
              && forall inner :: inner in before.fields[key].fields && inner !in desired.fields[key].fields ==>
                   FieldKept(before.fields[key], after.fields[key], inner)
    {
      assert merged.fields[key] == Merged(before.fields[key], desired.fields[key]);
      MergedFieldsKept(before.fields[key], desired.fields[key], after.fields[key]);
    }
  }

  // ----- objects put together field by field -----

  /** A text that is set unless it is empty. */
  function IfSet(value: string): Option<Json> { if value != "" then Some(Text(value)) else None }

  /** The object fields set one after the other, where there is a value to set. */
  function FieldsOf(fields: seq<(string, Option<Json>)>): map<string, Json> {
    if fields == [] then map[]
    else
      var last, rest := fields[|fields| - 1], FieldsOf(fields[..|fields| - 1]);
      if last.1.Some? then rest[last.0 := last.1.value] else rest
  }

  ghost predicate KeysDiffer(fields: seq<(string, Option<Json>)>) {
    forall i, j :: 0 <= i < j < |fields| ==> fields[i].0 != fields[j].0
  }

  lemma {:induction false} FieldsAre(fields: seq<(string, Option<Json>)>)
    requires KeysDiffer(fields)
    ensures forall key :: key in FieldsOf(fields) <==>
              exists i :: 0 <= i < |fields| && fields[i].0 == key && fields[i].1.Some?
    ensures forall i :: 0 <= i < |fields| && fields[i].1.Some? ==>
              fields[i].0 in FieldsOf(fields) && FieldsOf(fields)[fields[i].0] == fields[i].1.value
  {
    if fields != [] {
      var rest := fields[..|fields| - 1];
      FieldsAre(rest);
      assert forall i :: 0 <= i < |rest| ==> rest[i] == fields[i];
    }
  }

  /** The live object has the value under the key, or more where both are objects. */
  ghost predicate Shows(live: Json, key: string, value: Json)
    requires live.Object?
  {
    && key in live.fields
    && if value.Object? && live.fields[key].Object? then Within(value, live.fields[key]) else value == live.fields[key]
  }

  ghost predicate FieldShown(live: Json, field: (string, Option<Json>))
    requires live.Object?
  {
    field.1.Some? ==> Shows(live, field.0, field.1.value)
  }

  /** An object put together from fields is within another exactly when each of its fields is. */
  lemma WithinFields(fields: seq<(string, Option<Json>)>, live: Json)
    requires KeysDiffer(fields) && live.Object?
    ensures Within(Object(FieldsOf(fields)), live) <==>
              forall i :: 0 <= i < |fields| ==> FieldShown(live, fields[i])
  {
    FieldsAre(fields);
    var desired := Object(FieldsOf(fields));
    if Within(desired, live) {
      forall i | 0 <= i < |fields| && fields[i].1.Some?
        ensures FieldShown(live, fields[i])
      {
        assert fields[i].0 in desired.fields;
      }
    }
  }
}
