/**
 Decoded JSON. An object is a list of its fields in order.
 */
module JsonValues {

  datatype Json =
    | Null
    | Bool(flag: bool)
    | Number(value: int)
    | Str(text: string)
    | List(items: seq<Json>)
    | Object(fields: seq<(string, Json)>)

  type Fields = seq<(string, Json)>

  /** dict.get: a missing key reads as None. */
  function Get(fields: Fields, key: string): Json {
    if fields == [] then Null
    else if fields[0].0 == key then fields[0].1
    else Get(fields[1..], key)
  }

  predicate Truthy(v: Json) {
    match v
    case Null => false
    case Bool(flag) => flag
    case Number(value) => value != 0
    case Str(text) => text != ""
    case List(items) => items != []
    case Object(fields) => fields != []
  }

  lemma GetHere(fields: Fields, i: nat)
    requires i < |fields|
    requires forall k :: 0 <= k < i ==> fields[k].0 != fields[i].0
    ensures Get(fields, fields[i].0) == fields[i].1
  {
    if i > 0 {
      GetHere(fields[1..], i - 1);
    }
  }

  lemma {:induction false} GetMissing(fields: Fields, key: string)
    requires forall k :: 0 <= k < |fields| ==> fields[k].0 != key
    ensures Get(fields, key) == Null
  {
    if fields != [] {
      GetMissing(fields[1..], key);
    }
  }
}
