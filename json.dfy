/**
  The values `JSON.parse` can produce, and the two JavaScript operations the
  page applies to them: reading a property (`data.pins`) and the `!` of
  `!current`, which converts its operand with ToBoolean first.
*/
module Json {
  import opened Base

  /** A decoded JSON value. Object members keep their textual order, and a key
      may occur more than once, as it may in the text. */
  datatype JsonValue =
    | JNull
    | JBool(b: bool)
    | JNumber(n: real)
    | JString(s: string)
    | JArray(items: seq<JsonValue>)
    | JObject(members: seq<(string, JsonValue)>)

  /** Reading a property of `null` throws. */
  datatype TypeError = TypeError

  /** The value `JSON.parse` keeps for `key`: when the key is repeated, the
      last occurrence overwrites the earlier ones. */
  function Lookup(members: seq<(string, JsonValue)>, key: string): (r: Option<JsonValue>)
    ensures r.None? <==> forall i :: 0 <= i < |members| ==> members[i].0 != key
    ensures r.Some? ==> exists i :: 0 <= i < |members| && members[i] == (key, r.value)
                                    && forall j :: i < j < |members| ==> members[j].0 != key
    decreases |members|
  {
    if members == [] then None
    else
      var last := members[|members| - 1];
      if last.0 == key then
        assert members[|members| - 1] == (key, last.1);
        Some(last.1)
      else
        var front := members[..|members| - 1];
        var r := Lookup(front, key);
        if r.Some? then
          var i :| 0 <= i < |front| && front[i] == (key, r.value)
                   && forall j :: i < j < |front| ==> front[j].0 != key;
          assert members[i] == (key, r.value);
          r
        else
          r
  }

  /** `data[name]` for a parsed value: `null` throws a TypeError, an object
      yields its member (or `undefined`, here `None`), and every other value
      (array, string, number, boolean) has no such own property. */
  function PropertyGet(data: JsonValue, name: string): (r: Result<Option<JsonValue>, TypeError>)
    ensures r.Err? <==> data.JNull?
    ensures r.Ok? && r.value.Some? ==> data.JObject? && Lookup(data.members, name) == r.value
    ensures data.JObject? ==> r == Ok(Lookup(data.members, name))
    ensures !data.JObject? && !data.JNull? ==> r == Ok(None)
  {
    match data
    case JNull => Err(TypeError)
    case JObject(members) => Ok(Lookup(members, name))
    case _ => Ok(None)
  }

  /** ToBoolean of a JSON value: `null`, `false`, zero and the empty string
      are falsy; everything else, including an empty array or object, is
      truthy. */
  predicate Truthy(v: JsonValue)
    ensures !Truthy(v) <==> v in {JNull, JBool(false), JNumber(0.0), JString("")}
  {
    match v
    case JNull => false
    case JBool(b) => b
    case JNumber(n) => n != 0.0
    case JString(s) => s != ""
    case JArray(_) => true
    case JObject(_) => true
  }
}
