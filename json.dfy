/** Values produced by `json.loads`: the menu snapshot the voice assistant
    receives and the rows the menu extractor cleans. An object is the list of
    its (key, value) members in insertion order; decoded objects have
    distinct keys, so looking up the first member with a key is `dict.get`. */
module JsonValues {
  import opened Wrappers

  datatype Json =
    | JNull
    | JBool(b: bool)
    | JNum(n: real)
    | JStr(s: string)
    | JArr(elems: seq<Json>)
    | JObj(members: seq<(string, Json)>)

  /** Python's truth value of a decoded JSON value. */
  predicate Truthy(j: Json)
  {
    match j
    case JNull => false
    case JBool(b) => b
    case JNum(n) => n != 0.0
    case JStr(s) => s != []
    case JArr(a) => a != []
    case JObj(m) => m != []
  }

  /** The value stored under `key`, if the object has that key. */
  function Lookup(members: seq<(string, Json)>, key: string): (r: Option<Json>)
    ensures r.Some? <==> exists i :: 0 <= i < |members| && members[i].0 == key
    ensures r.Some? ==> (key, r.value) in members
  {
    if members == [] then None
    else if members[0].0 == key then Some(members[0].1)
    else
      var r := Lookup(members[1..], key);
      assert forall i :: 0 < i < |members| ==> members[i] == members[1..][i - 1];
      r
  }

  /** `d.get(key)`: Python's `None` when the key is absent. */
  function Get(members: seq<(string, Json)>, key: string): Json
  {
    Lookup(members, key).GetOr(JNull)
  }
}
