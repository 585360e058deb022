/** `GameObject` of the current revision: a handle to one entity of its
    scene's store. Constructors create the entity and attach components; the
    destructor destroys it; save and load go through the component manager. */
module GameObjects {
  import opened Wrappers
  import opened Json
  import opened Components
  import opened EntityStore
  import ResourceManager
  import CM = ComponentManager

  datatype GameObject = GameObject(entity: Entity)

  /** `GameObject(pScene)`: a fresh entity with no components. */
  function NewBare(s: Store): (r: (Store, GameObject))
    requires Valid(s)
    ensures Valid(r.0)
    ensures r.1.entity !in s.live
    ensures r.0.live == s.live[r.1.entity := NoComponents]
    ensures r.1.entity == s.next && r.0.next == s.next + 1
  {
    var (s1, e) := Create(s);
    (s1, GameObject(e))
  }

  /** The components the convenience constructor attaches. */
  function InitialComponents(name: string, pos: Vec3, mesh: Option<ResourceManager.Resource>, material: Option<ResourceManager.Resource>): Components
    requires |CStr(name)| < MaxNameLength
  {
    Components(
      Some(NewNameData(name)),
      Some(TransformData(pos, Origin, UnitScale)),
      None,
      if mesh.Some? then Some(MeshData(mesh, material)) else None)
  }

  /** `GameObject(pScene, name, pos, pMesh, pMaterial)`: a fresh entity with a
      transform at `pos` (rotation 0, scale 1) and the name; a mesh component
      only when `pMesh` is non-null, with the material as given, null or not.
      The name must fit the 32-byte name buffer. */
  function New(s: Store, name: string, pos: Vec3, mesh: Option<ResourceManager.Resource>, material: Option<ResourceManager.Resource>): (r: (Store, GameObject))
    requires Valid(s) && |CStr(name)| < MaxNameLength
    ensures Valid(r.0)
    ensures r.1.entity !in s.live
    ensures r.0.live.Keys == s.live.Keys + {r.1.entity}
    ensures forall o :: o in s.live ==> r.0.live[o] == s.live[o]
    ensures r.0.live[r.1.entity].transform == Some(TransformData(pos, Origin, UnitScale))
    ensures r.0.live[r.1.entity].name.Some? && NameOf(r.0.live[r.1.entity].name.value) == CStr(name)
    ensures r.0.live[r.1.entity].matrix.None?
    ensures r.0.live[r.1.entity].mesh.Some? <==> mesh.Some?
    ensures mesh.Some? ==> r.0.live[r.1.entity].mesh.value == MeshData(mesh, material)
  {
    var (s1, e) := Create(s);
    var s2 := Emplace(s1, e, TransformC(TransformData(pos, Origin, UnitScale)));
    var s3 := Emplace(s2, e, NameC(NewNameData(name)));
    var s4 := if mesh.Some? then Emplace(s3, e, MeshC(MeshData(mesh, material))) else s3;
    assert s4.live[e] == InitialComponents(name, pos, mesh, material);
    (s4, GameObject(e))
  }

  /** `~GameObject`: destroys this object's entity and every component of it;
      no other entity is touched. */
  function Delete(s: Store, o: GameObject): (r: Store)
    requires o.entity in s.live
    ensures o.entity !in r.live
    ensures r.live.Keys == s.live.Keys - {o.entity}
    ensures forall e :: e in r.live ==> r.live[e] == s.live[e]
  {
    Destroy(s, o.entity)
  }

  /** The base `Update`: changes nothing. */
  function DefaultUpdate(s: Store, o: GameObject, deltaTime: real): (r: Store)
    ensures r == s
  {
    s
  }

  /** `SaveToJSON`: the component manager's save of this object's entity. */
  function SaveToJson(codec: CM.Codec, s: Store, o: GameObject, j: Json): (r: Json)
    requires o.entity in s.live
    requires j.JNull? || j.JObject?
    requires forall k :: Has(s.live[o.entity], k) ==> k in CM.Definitions
    ensures forall k :: Has(s.live[o.entity], k) ==> Contains(r, CM.Definitions[k]) && r.fields[CM.Definitions[k]] == CM.Encode(codec, Lookup(s.live[o.entity], k).value)
    ensures forall key :: Contains(r, key) <==> Contains(j, key) || exists k :: Has(s.live[o.entity], k) && CM.Definitions[k] == key
    ensures forall key :: (forall k :: Has(s.live[o.entity], k) ==> CM.Definitions[k] != key) && Contains(j, key) ==> Contains(r, key) && r.fields[key] == j.fields[key]
  {
    CM.SaveComponents(codec, s.live[o.entity], j)
  }

  /** `LoadFromJSON`: the component manager's load into this object's entity. */
  function LoadFromJson(codec: CM.Codec, order: seq<Kind>, s: Store, o: GameObject, j: Json): (r: Store)
    requires o.entity in s.live
    requires CM.IsRegistryOrder(order)
    ensures r.live.Keys == s.live.Keys && r.next == s.next
    ensures forall e :: e in s.live && e != o.entity ==> r.live[e] == s.live[e]
    ensures forall k :: CM.InJson(j, k) ==> Lookup(r.live[o.entity], k) == Some(CM.Decode(codec, k, j.fields[CM.Definitions[k]]))
    ensures forall k :: !CM.InJson(j, k) ==> Lookup(r.live[o.entity], k) == Lookup(s.live[o.entity], k)
  {
    CM.LoadComponents(codec, order, s, o.entity, j)
  }

  /** An object saved and then loaded into a new bare object gives the new
      object the same components, when every definition reads back what it
      writes; the saved object and every other entity are untouched. */
  lemma CopyThroughJson(codec: CM.Codec, order: seq<Kind>, s: Store, o: GameObject)
    requires Valid(s) && o.entity in s.live
    requires CM.CodecInverts(codec) && CM.IsRegistryOrder(order)
    requires forall k :: Has(s.live[o.entity], k) ==> k in CM.Definitions
    ensures
      var (s1, copy) := NewBare(s);
      var s2 := LoadFromJson(codec, order, s1, copy, SaveToJson(codec, s, o, JNull));
      && s2.live[copy.entity] == s.live[o.entity]
      && forall e :: e in s.live ==> s2.live[e] == s.live[e]
  {
    var (s1, copy) := NewBare(s);
    CM.SaveLoadRoundTrip(codec, order, s1, copy.entity, s.live[o.entity]);
  }
}
