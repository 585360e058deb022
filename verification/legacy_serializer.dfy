/** The older, entt-era `ComponentManager` serializer: it writes the name and
    the transform explicitly, never writes the mesh, and loads nothing. */
module LegacyComponentManager {
  import opened Wrappers
  import opened Json
  import opened Components
  import opened EntityStore

  /** `j[outer][inner] = v`: both subscripts turn a null into an object and
      throw on anything else but an object. */
  function SetNested(j: Json, outer: string, inner: string, v: Json): (r: Result<Json, string>)
    ensures r.Success? <==> (j.JNull? || j.JObject?) && (!Contains(j, outer) || j.fields[outer].JNull? || j.fields[outer].JObject?)
    ensures r.Success? ==> Contains(r.value, outer) && Contains(r.value.fields[outer], inner) && r.value.fields[outer].fields[inner] == v
    ensures r.Success? ==> forall key :: key != outer ==> (Contains(r.value, key) <==> Contains(j, key))
    ensures r.Success? ==> forall key :: key != outer && Contains(j, key) ==> Contains(r.value, key) && r.value.fields[key] == j.fields[key]
  {
    match Subscript(j, outer)
    case Failure(err) => Failure(err)
    case Success((slot, j1)) =>
      match SetField(slot, inner, v)
      case Failure(err) => Failure(err)
      case Success(slot1) => SetField(j1, outer, slot1)
  }

  /** A `vec3` written as an array built by three `push_back`s. */
  function Vec3Json(v: Vec3): (r: Json)
    ensures r.JArray? && |r.items| == 3
    ensures r.items[0] == JNumber(v.x) && r.items[1] == JNumber(v.y) && r.items[2] == JNumber(v.z)
  {
    JArray([JNumber(v.x), JNumber(v.y), JNumber(v.z)])
  }

  /** `jGameObject[...]` may hold these keys before the save; the nested
      writes need them to be objects or null. */
  predicate Writable(j: Json) {
    (j.JNull? || j.JObject?)
    && (Contains(j, "NameData") ==> j.fields["NameData"].JNull? || j.fields["NameData"].JObject?)
    && (Contains(j, "TransformData") ==> j.fields["TransformData"].JNull? || j.fields["TransformData"].JObject?)
  }

  /** `SaveGameObjectComponentsToJSON` of the older revision: `"NameData"`
      holds `{"Name": name}` exactly when the entity has a name, and
      `"TransformData"` holds three three-element arrays exactly when it has a
      transform; no `"MeshData"` key is ever written. Any other key of the
      incoming value is left alone. */
  function SaveComponents(cs: Components, j: Json): (r: Json)
    requires Writable(j)
    ensures Contains(r, "NameData") <==> cs.name.Some? || Contains(j, "NameData")
    ensures cs.name.Some? ==> Contains(r.fields["NameData"], "Name") && r.fields["NameData"].fields["Name"] == JString(NameOf(cs.name.value))
    ensures Contains(r, "TransformData") <==> cs.transform.Some? || Contains(j, "TransformData")
    ensures cs.transform.Some? ==>
      var t := r.fields["TransformData"];
      && Contains(t, "Position") && t.fields["Position"] == Vec3Json(cs.transform.value.position)
      && Contains(t, "Rotation") && t.fields["Rotation"] == Vec3Json(cs.transform.value.rotation)
      && Contains(t, "Scale") && t.fields["Scale"] == Vec3Json(cs.transform.value.scale)
    ensures Contains(r, "MeshData") <==> Contains(j, "MeshData")
    ensures forall key :: key != "NameData" && key != "TransformData" && Contains(j, key) ==> Contains(r, key) && r.fields[key] == j.fields[key]
  {
    SaveTransform(cs, SaveName(cs, j))
  }

  /** The name part of the save: `"NameData"` holds `{"Name": name}` when the
      entity has a name; every other key is untouched. */
  function SaveName(cs: Components, j: Json): (r: Json)
    requires Writable(j)
    ensures Writable(r)
    ensures Contains(r, "NameData") <==> cs.name.Some? || Contains(j, "NameData")
    ensures cs.name.Some? ==> Contains(r.fields["NameData"], "Name") && r.fields["NameData"].fields["Name"] == JString(NameOf(cs.name.value))
    ensures cs.name.None? ==> r == j
    ensures forall key :: key != "NameData" ==> (Contains(r, key) <==> Contains(j, key))
    ensures forall key :: key != "NameData" && Contains(j, key) ==> Contains(r, key) && r.fields[key] == j.fields[key]
  {
    if cs.name.Some? then SetNested(j, "NameData", "Name", JString(NameOf(cs.name.value))).value else j
  }

  /** The transform part of the save: `"TransformData"` holds the position,
      rotation and scale arrays when the entity has a transform; every other
      key is untouched. */
  function SaveTransform(cs: Components, j: Json): (r: Json)
    requires Writable(j)
    ensures Contains(r, "TransformData") <==> cs.transform.Some? || Contains(j, "TransformData")
    ensures cs.transform.Some? ==>
      var t := r.fields["TransformData"];
      && Contains(t, "Position") && t.fields["Position"] == Vec3Json(cs.transform.value.position)
      && Contains(t, "Rotation") && t.fields["Rotation"] == Vec3Json(cs.transform.value.rotation)
      && Contains(t, "Scale") && t.fields["Scale"] == Vec3Json(cs.transform.value.scale)
    ensures forall key :: key != "TransformData" ==> (Contains(r, key) <==> Contains(j, key))
    ensures forall key :: key != "TransformData" && Contains(j, key) ==> Contains(r, key) && r.fields[key] == j.fields[key]
  {
    if cs.transform.Some? then
      var t := cs.transform.value;
      var j2 := SetNested(j, "TransformData", "Position", Vec3Json(t.position)).value;
      var j3 := SetNested(j2, "TransformData", "Rotation", Vec3Json(t.rotation)).value;
      assert j3.fields["TransformData"].fields["Position"] == Vec3Json(t.position);
      var j4 := SetNested(j3, "TransformData", "Scale", Vec3Json(t.scale)).value;
      assert j4.fields["TransformData"].fields["Position"] == Vec3Json(t.position);
      j4
    else j
  }

  /** `LoadGameObjectComponentsFromJSON` of the older revision does nothing:
      the store is returned as it came, whatever the JSON holds. */
  function LoadComponents(s: Store, e: Entity, j: Json): (r: Store)
    requires e in s.live
    ensures r == s
  {
    s
  }

  /** Saving with the older revision and loading back into a fresh entity
      loses every component, although the name and transform were written. */
  lemma RoundTripLosesComponents(s: Store, e: Entity, cs: Components)
    requires e in s.live && s.live[e] == NoComponents
    requires cs.name.Some? || cs.transform.Some?
    ensures SaveComponents(cs, JNull) != JNull
    ensures LoadComponents(s, e, SaveComponents(cs, JNull)).live[e] != cs
  {
  }
}
