/** The part of an nlohmann::json value the core reads and writes: a tree of
    nulls, booleans, numbers, strings, arrays and objects. Objects are maps
    from key to value; nlohmann keeps them in a `std::map`, so iterating an
    object visits its values in ascending key order. Parsing and printing are
    not modelled. */
module Json {
  import opened Wrappers
  import opened StringOrder

  datatype Json =
    | JNull
    | JBool(b: bool)
    | JNumber(n: real)
    | JString(s: string)
    | JArray(items: seq<Json>)
    | JObject(fields: map<string, Json>)

  /** The elements a range-for over a json value visits: an array's items in
      order, an object's values in key order, nothing for null, and the value
      itself once for a string, number or boolean. */
  function Elements(j: Json): (r: seq<Json>)
    ensures j.JArray? ==> r == j.items
    ensures j.JNull? ==> r == []
    ensures j.JObject? ==> |r| == |j.fields|
    ensures j.JObject? ==> forall i :: 0 <= i < |r| ==> r[i] == j.fields[SortedKeys(j.fields.Keys)[i]]
    ensures !j.JArray? && !j.JNull? && !j.JObject? ==> r == [j]
  {
    match j
    case JNull => []
    case JArray(items) => items
    case JObject(fields) =>
      var keys := SortedKeys(fields.Keys);
      seq(|keys|, i requires 0 <= i < |keys| => fields[keys[i]])
    case _ => [j]
  }

  /** Iterating an object visits the value of every member, and nothing
      else. */
  lemma ElementsOfObject(j: Json)
    requires j.JObject?
    ensures forall v :: v in Elements(j) ==> v in j.fields.Values
    ensures forall k :: k in j.fields ==> j.fields[k] in Elements(j)
  {
    var r := Elements(j);
    var keys := SortedKeys(j.fields.Keys);
    forall v | v in r ensures v in j.fields.Values {
      var i :| 0 <= i < |r| && r[i] == v;
      assert keys[i] in j.fields;
    }
    forall k | k in j.fields ensures j.fields[k] in r {
      var i :| 0 <= i < |keys| && keys[i] == k;
      assert r[i] == j.fields[k];
    }
  }

  /** `j.contains(key)`: only an object can contain a key. */
  predicate Contains(j: Json, key: string) {
    j.JObject? && key in j.fields
  }

  /** `j[key] = value` on a non-const value: a null becomes an object first;
      anything else but an object makes nlohmann throw `type_error`. */
  function SetField(j: Json, key: string, value: Json): (r: Result<Json, string>)
    ensures (j.JNull? || j.JObject?) <==> r.Success?
    ensures r.Success? ==> r.value.JObject? && key in r.value.fields && r.value.fields[key] == value
    ensures r.Success? ==> forall k :: k != key ==> (k in r.value.fields <==> Contains(j, k))
    ensures r.Success? && j.JObject? ==> forall k :: k in j.fields && k != key ==> k in r.value.fields && r.value.fields[k] == j.fields[k]
  {
    match j
    case JNull => Success(JObject(map[key := value]))
    case JObject(fields) => Success(JObject(fields[key := value]))
    case _ => Failure("type_error: cannot use operator[] with a string argument")
  }

  /** `j[key]` on a non-const value, read for its result: a missing key is
      inserted as null (a null `j` becomes an object first), and the value
      comes back together with the updated `j`. */
  function Subscript(j: Json, key: string): (r: Result<(Json, Json), string>)
    ensures (j.JNull? || j.JObject?) <==> r.Success?
    ensures r.Success? ==> r.value.0 == (if Contains(j, key) then j.fields[key] else JNull)
    ensures r.Success? && Contains(j, key) ==> r.value.1 == j
    ensures r.Success? ==> Contains(r.value.1, key)
  {
    if Contains(j, key) then Success((j.fields[key], j))
    else match j
      case JNull => Success((JNull, JObject(map[key := JNull])))
      case JObject(fields) => Success((JNull, JObject(fields[key := JNull])))
      case _ => Failure("type_error: cannot use operator[] with a string argument")
  }
}
