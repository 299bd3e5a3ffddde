/** JSON values. Numbers keep their text; objects keep their fields in the map's own order. */
module Json {
  import opened Wrappers

  datatype Json =
    | Null
    | Bool(b: bool)
    | Number(text: string)
    | Str(s: string)
    | Array(items: seq<Json>)
    | Object(fields: seq<Field>)

  datatype Field = Field(key: string, value: Json)

  function Find(fields: seq<Field>, key: string): (r: Option<Json>)
  {
    if fields == [] then None
    else if fields[0].key == key then Some(fields[0].value)
    else Find(fields[1..], key)
  }

  /** `Value::get` with a string key: nothing unless the value is an object. */
  function Get(j: Json, key: string): (r: Option<Json>)
  {
    if j.Object? then Find(j.fields, key) else None
  }

  /** `.and_then(Value::as_str)`. */
  function AsStr(j: Option<Json>): (r: Option<string>)
  {
    if j.Some? && j.value.Str? then Some(j.value.s) else None
  }

  // ----- objects as maps

  /** Object keys are distinct, as a map guarantees. */
  ghost predicate DistinctFields(fields: seq<Field>) {
    forall i, j :: 0 <= i < j < |fields| ==> fields[i].key != fields[j].key
  }

  ghost predicate Lacks(fields: seq<Field>, key: string) {
    forall i :: 0 <= i < |fields| ==> fields[i].key != key
  }

  /** The field an object holds under a key is the one `get` finds. */
  lemma {:induction false} FindHeld(fields: seq<Field>, key: string)
    requires DistinctFields(fields)
    ensures forall value :: Field(key, value) in fields <==> Find(fields, key) == Some(value)
    ensures Lacks(fields, key) <==> Find(fields, key) == None
  {
    if fields != [] {
      var rest := fields[1..];
      FindHeld(rest, key);
      assert fields == [fields[0]] + rest;
      assert Lacks(fields, key) <==> fields[0].key != key && Lacks(rest, key);
      assert fields[0].key == key ==> Lacks(rest, key);
    }
  }
}
