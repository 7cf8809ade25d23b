/**
 * The part of `serde_json::Value` the program reads: objects are maps from
 * key to value. Parsing text into a value is the foreign `serde_json::from_str`,
 * which the model receives as a parameter wherever it is called.
 */
module Json {
  import opened Wrappers

  datatype Json =
    | Null
    | Bool(b: bool)
    | Number(literal: string)
    | Str(s: string)
    | Array(items: seq<Json>)
    | Object(fields: map<string, Json>)

  /** `value.get(key)`: present only on an object that has the key. */
  function Get(j: Json, key: string): (r: Option<Json>)
    ensures r.Some? <==> j.Object? && key in j.fields
    ensures r.Some? ==> j.Object? && key in j.fields && r.value == j.fields[key]
  {
    if j.Object? && key in j.fields then Some(j.fields[key]) else None
  }

  /** `value.get(key).is_some()` */
  predicate HasKey(j: Json, key: string) {
    Get(j, key).Some?
  }

  /**
   * `value[key].as_str().unwrap_or_default()`: indexing a missing key or a
   * non-object gives `Null`, and a non-string gives the empty string.
   */
  function StrOrEmpty(j: Json, key: string): (r: string)
    ensures r != "" ==> Get(j, key) == Some(Str(r))
    ensures Get(j, key).Some? && Get(j, key).value.Str? ==> r == Get(j, key).value.s
  {
    match Get(j, key)
    case Some(Str(s)) => s
    case _ => ""
  }
}
