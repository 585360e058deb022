/** `GameObject` of the older, framework revision: owned by the game core
    rather than a scene, but with the same constructor and destructor. */
module FrameworkGameObjects {
  import opened Wrappers
  import opened Components
  import opened EntityStore
  import ResourceManager
  import GameObjects

  /** `GameObject(pGameCore, name, pos, pMesh, pMaterial)`: one new entity
      with a transform at `pos` (rotation 0, scale 1) and the name, plus a
      mesh component exactly when `pMesh` is non-null. */
  function New(s: Store, name: string, pos: Vec3, mesh: Option<ResourceManager.Resource>, material: Option<ResourceManager.Resource>): (r: (Store, GameObjects.GameObject))
    requires Valid(s) && |CStr(name)| < MaxNameLength
    ensures Valid(r.0)
    ensures r.1.entity !in s.live
    ensures r.0.live == s.live[r.1.entity := GameObjects.InitialComponents(name, pos, mesh, material)]
  {
    var (s1, e) := Create(s);
    var s2 := Emplace(s1, e, TransformC(TransformData(pos, Origin, UnitScale)));
    var s3 := Emplace(s2, e, NameC(NewNameData(name)));
    var s4 := if mesh.Some? then Emplace(s3, e, MeshC(MeshData(mesh, material))) else s3;
    assert s4.live[e] == GameObjects.InitialComponents(name, pos, mesh, material);
    (s4, GameObjects.GameObject(e))
  }

  /** `~GameObject`: destroys exactly this object's entity. */
  function Delete(s: Store, o: GameObjects.GameObject): (r: Store)
    requires o.entity in s.live
    ensures r.live == s.live - {o.entity} && r.next == s.next
  {
    Destroy(s, o.entity)
  }

  /** Both revisions' constructors build the same entity. */
  lemma RevisionsAgree(s: Store, name: string, pos: Vec3, mesh: Option<ResourceManager.Resource>, material: Option<ResourceManager.Resource>)
    requires Valid(s) && |CStr(name)| < MaxNameLength
    ensures New(s, name, pos, mesh, material) == GameObjects.New(s, name, pos, mesh, material)
  {
  }
}
