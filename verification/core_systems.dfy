/** The two systems of the flecs revision: one refreshes each entity's cached
    world matrix from its transform, the other draws every mesh with the
    cached matrix. A draw is recorded as a `DrawCall` instead of being sent to
    the GPU. */
module CoreSystems {
  import opened Wrappers
  import opened Components
  import opened EntityStore
  import opened ResourceManager

  /** One `Mesh::Draw`: the entity, its mesh and material, and the world
      matrix used. */
  datatype DrawCall = DrawCall(entity: Entity, mesh: Resource, material: Resource, world: Mat4)

  /** The order in which `world.each` visits a store: every live entity once.
      flecs' table order is not part of this model, so it is a parameter. */
  predicate IsEnumeration(order: seq<Entity>, s: Store) {
    (forall i, j :: 0 <= i < j < |order| ==> order[i] != order[j])
    && (forall e :: e in order ==> e in s.live)
    && (forall e :: e in s.live ==> e in order)
  }

  /** `CreateSRT` of a transform. */
  function WorldMatrix(t: TransformData): Mat4 {
    Srt(t.scale, t.rotation, t.position)
  }

  /** One entity as the transform system leaves it. */
  function RefreshMatrix(cs: Components): (r: Components)
    ensures r.name == cs.name && r.transform == cs.transform && r.mesh == cs.mesh
    ensures r.matrix.Some? <==> cs.matrix.Some?
    ensures cs.transform.Some? && cs.matrix.Some? ==> r.matrix == Some(WorldMatrix(cs.transform.value))
    ensures !(cs.transform.Some? && cs.matrix.Some?) ==> r == cs
  {
    if cs.transform.Some? && cs.matrix.Some? then cs.(matrix := Some(WorldMatrix(cs.transform.value))) else cs
  }

  /** Every entity with both a transform and a matrix caches its transform's
      SRT matrix. */
  predicate MatricesCurrent(s: Store) {
    forall e :: e in s.live && s.live[e].transform.Some? && s.live[e].matrix.Some?
      ==> s.live[e].matrix == Some(WorldMatrix(s.live[e].transform.value))
  }

  /** `System_UpdateAllTransforms`: for every entity with a transform and a
      matrix, the matrix becomes SRT(scale, rotation, position); every other
      entity, and every transform, is left as it was. */
  function UpdateAllTransforms(s: Store): (r: Store)
    ensures r.next == s.next && r.live.Keys == s.live.Keys
    ensures MatricesCurrent(r)
    ensures forall e :: e in s.live ==> r.live[e].transform == s.live[e].transform
    ensures forall e :: e in s.live ==> r.live[e].name == s.live[e].name && r.live[e].mesh == s.live[e].mesh
    ensures forall e :: e in s.live ==> (r.live[e].matrix.Some? <==> s.live[e].matrix.Some?)
    ensures forall e :: e in s.live && !(s.live[e].transform.Some? && s.live[e].matrix.Some?) ==> r.live[e] == s.live[e]
  {
    Store(s.next, map e | e in s.live :: RefreshMatrix(s.live[e]))
  }

  /** A store whose matrices are current is a fixed point of the system. */
  lemma CurrentIsFixedPoint(s: Store)
    requires MatricesCurrent(s)
    ensures UpdateAllTransforms(s) == s
  {
    var r := UpdateAllTransforms(s);
    forall e | e in s.live
      ensures r.live[e] == s.live[e]
    {
      if s.live[e].transform.Some? && s.live[e].matrix.Some? {
        assert r.live[e] == s.live[e].(matrix := Some(WorldMatrix(s.live[e].transform.value)));
      }
    }
    assert r.live == s.live;
  }

  /** Running the transform system twice is the same as running it once. */
  lemma UpdateIdempotent(s: Store)
    ensures UpdateAllTransforms(UpdateAllTransforms(s)) == UpdateAllTransforms(s)
  {
    CurrentIsFixedPoint(UpdateAllTransforms(s));
  }

  /** The mesh system draws an entity with a matrix and a mesh component whose
      mesh pointer is non-null. */
  predicate MeshSystemDraws(cs: Components) {
    cs.matrix.Some? && cs.mesh.Some? && cs.mesh.value.mesh.Some?
  }

  /** `Mesh::Draw` dereferences the material, so every entity the mesh system
      draws needs one. */
  predicate MeshSystemMaterialsPresent(s: Store) {
    forall e :: e in s.live && MeshSystemDraws(s.live[e]) ==> s.live[e].mesh.value.material.Some?
  }

  /** The mesh system's draws for the entities of `order`, in that order. */
  function MeshDraws(s: Store, order: seq<Entity>): (r: seq<DrawCall>)
    requires forall e :: e in order ==> e in s.live
    requires MeshSystemMaterialsPresent(s)
    ensures |r| <= |order|
    ensures forall d :: d in r ==> d.entity in order && MeshSystemDraws(s.live[d.entity])
    ensures forall d :: d in r ==>
      && d.world == s.live[d.entity].matrix.value
      && d.mesh == s.live[d.entity].mesh.value.mesh.value
      && d.material == s.live[d.entity].mesh.value.material.value
    ensures forall e :: e in order && MeshSystemDraws(s.live[e]) ==> exists d :: d in r && d.entity == e
    decreases |order|
  {
    if order == [] then []
    else
      var e := order[0];
      var cs := s.live[e];
      assert forall x :: x in order[1..] ==> x in order;
      var rest := MeshDraws(s, order[1..]);
      if MeshSystemDraws(cs) then
        var d := DrawCall(e, cs.mesh.value.mesh.value, cs.mesh.value.material.value, cs.matrix.value);
        [d] + rest
      else rest
  }

  /** No entity appears in two draws. */
  predicate DrawsDistinct(r: seq<DrawCall>) {
    forall i, j :: 0 <= i < j < |r| ==> r[i].entity != r[j].entity
  }

  /** A draw for an entity not yet drawn keeps the draws distinct. */
  lemma PrependDistinct(d: DrawCall, rest: seq<DrawCall>)
    requires DrawsDistinct(rest)
    requires forall x :: x in rest ==> x.entity != d.entity
    ensures DrawsDistinct([d] + rest)
  {
    var r := [d] + rest;
    forall i, j | 0 <= i < j < |r|
      ensures r[i].entity != r[j].entity
    {
      assert r[j] == rest[j - 1] && rest[j - 1] in rest;
      if i > 0 {
        assert r[i] == rest[i - 1];
      }
    }
  }

  /** The tail of a sequence without repeats has none, and misses the head. */
  lemma TailDistinct(order: seq<Entity>)
    requires order != []
    requires forall i, j :: 0 <= i < j < |order| ==> order[i] != order[j]
    ensures forall i, j :: 0 <= i < j < |order[1..]| ==> order[1..][i] != order[1..][j]
    ensures order[0] !in order[1..]
  {
    forall i, j | 0 <= i < j < |order[1..]| ensures order[1..][i] != order[1..][j] {
      assert order[1..][i] == order[i + 1] && order[1..][j] == order[j + 1];
    }
    forall k | 0 <= k < |order[1..]| ensures order[1..][k] != order[0] {
      assert order[1..][k] == order[k + 1];
    }
  }

  /** Over an enumeration without repeats, no entity is drawn twice. */
  lemma {:induction false} MeshDrawsDistinct(s: Store, order: seq<Entity>)
    requires forall e :: e in order ==> e in s.live
    requires MeshSystemMaterialsPresent(s)
    requires forall i, j :: 0 <= i < j < |order| ==> order[i] != order[j]
    ensures DrawsDistinct(MeshDraws(s, order))
    decreases |order|
  {
    if order != [] {
      assert forall x :: x in order[1..] ==> x in order;
      TailDistinct(order);
      MeshDrawsDistinct(s, order[1..]);
      var rest := MeshDraws(s, order[1..]);
      var cs := s.live[order[0]];
      if MeshSystemDraws(cs) {
        var d := DrawCall(order[0], cs.mesh.value.mesh.value, cs.mesh.value.material.value, cs.matrix.value);
        assert MeshDraws(s, order) == [d] + rest;
        PrependDistinct(d, rest);
      } else {
        assert MeshDraws(s, order) == rest;
      }
    }
  }

  /** `System_DrawAllMeshes`: exactly one draw per entity with a matrix and a
      mesh whose mesh pointer is non-null, using the entity's own mesh and
      material and its cached matrix. The store is only read. */
  function DrawAllMeshes(s: Store, order: seq<Entity>): (r: seq<DrawCall>)
    requires IsEnumeration(order, s)
    requires MeshSystemMaterialsPresent(s)
    ensures forall d :: d in r ==> d.entity in s.live && MeshSystemDraws(s.live[d.entity])
    ensures forall d :: d in r ==> d.world == s.live[d.entity].matrix.value
    ensures forall d :: d in r ==>
      && d.mesh == s.live[d.entity].mesh.value.mesh.value
      && d.material == s.live[d.entity].mesh.value.material.value
    ensures forall e :: e in s.live && MeshSystemDraws(s.live[e]) ==> exists d :: d in r && d.entity == e
    ensures DrawsDistinct(r)
  {
    MeshDrawsDistinct(s, order);
    MeshDraws(s, order)
  }

  /** The draw uses the cached matrix: when the transform system has not run,
      a stale matrix is drawn although the entity has a transform. */
  lemma StaleMatrixDrawn()
    ensures
      var t := TransformData(Origin, Origin, UnitScale);
      var res := Resource(0, "mesh");
      var cs := Components(None, Some(t), Some(Other(0)), Some(MeshData(Some(res), Some(res))));
      var s := Store(1, map[0 := cs]);
      IsEnumeration([0], s) && MeshSystemMaterialsPresent(s)
      && DrawAllMeshes(s, [0]) == [DrawCall(0, res, res, Other(0))]
      && DrawAllMeshes(s, [0])[0].world != WorldMatrix(t)
  {
  }
}
