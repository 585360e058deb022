/** `Scene`: an ordered list of game objects over one entity store. Objects
    are updated and saved in list order, loading appends, and removal happens
    only when a queued `RemoveFromGameEvent` is dispatched to the scene. The
    editor's object list adds objects, names them, and queues deletions. */
module Scenes {
  import opened Wrappers
  import opened Json
  import opened Components
  import opened EntityStore
  import opened GameObjects
  import CM = ComponentManager
  import CoreSystems
  import EventManager

  datatype Scene = Scene(objects: seq<GameObject>, store: Store)

  /** Each object appears once and owns a live entity of its own. */
  predicate Valid(sc: Scene) {
    EntityStore.Valid(sc.store)
    && (forall i, j :: 0 <= i < j < |sc.objects| ==> sc.objects[i] != sc.objects[j])
    && (forall o :: o in sc.objects ==> o.entity in sc.store.live)
  }

  /** The position of the first occurrence of `o`, as `std::find` reports it. */
  function FindFirst(objects: seq<GameObject>, o: GameObject): (i: nat)
    requires o in objects
    ensures i < |objects| && objects[i] == o && o !in objects[..i]
  {
    if objects[0] == o then 0
    else
      var i := FindFirst(objects[1..], o);
      assert objects[1..][..i] == objects[1..i + 1];
      i + 1
  }

  /** Erasing one object from the list and destroying its entity keeps the
      scene valid, and the erased object is gone from the list. */
  lemma EraseKeepsValid(sc: Scene, i: nat)
    requires Valid(sc) && i < |sc.objects|
    ensures
      var objects := sc.objects[..i] + sc.objects[i + 1..];
      && sc.objects[i] !in objects
      && Valid(Scene(objects, GameObjects.Delete(sc.store, sc.objects[i])))
  {
    var o := sc.objects[i];
    var objects := sc.objects[..i] + sc.objects[i + 1..];
    assert forall k :: 0 <= k < |objects| ==> objects[k] == sc.objects[if k < i then k else k + 1];
    forall a, b | 0 <= a < b < |objects|
      ensures objects[a] != objects[b]
    {
      assert objects[a] == sc.objects[if a < i then a else a + 1];
      assert objects[b] == sc.objects[if b < i then b else b + 1];
    }
    forall x | x in objects
      ensures x in sc.objects && x != o
    {
      var k :| 0 <= k < |objects| && objects[k] == x;
      assert x == sc.objects[if k < i then k else k + 1];
    }
  }

  /** `OnEvent`: a `RemoveFromGameEvent` for `O` erases the first occurrence of
      `O` from the list and deletes `O`, which destroys its entity. Erasing at
      `end()` is undefined, so `O` must be in the list. Other events are
      ignored. */
  function OnEvent(sc: Scene, ev: EventManager.Event): (r: Scene)
    requires Valid(sc)
    requires ev.kind.RemoveFromGameEvent? ==> ev.kind.target in sc.objects
    ensures Valid(r)
    ensures !ev.kind.RemoveFromGameEvent? ==> r == sc
    ensures ev.kind.RemoveFromGameEvent? ==>
      var o := ev.kind.target;
      var i := FindFirst(sc.objects, o);
      && |r.objects| == |sc.objects| - 1
      && r.objects == sc.objects[..i] + sc.objects[i + 1..]
      && o !in r.objects
      && r.store.live.Keys == sc.store.live.Keys - {o.entity}
      && forall e :: e in r.store.live ==> r.store.live[e] == sc.store.live[e]
  {
    match ev.kind
    case RemoveFromGameEvent(o) =>
      var i := FindFirst(sc.objects, o);
      EraseKeepsValid(sc, i);
      Scene(sc.objects[..i] + sc.objects[i + 1..], GameObjects.Delete(sc.store, o))
    case _ => sc
  }

  /** The result of `Scene::Update`: the store after every object's `Update`,
      and the objects whose `Update` ran, in the order they ran. */
  datatype UpdateResult = UpdateResult(store: Store, updated: seq<GameObject>)

  /** Each object's `Update` in list order; `update` is the objects' virtual
      `Update`, which may change the store. */
  function UpdateEach(objects: seq<GameObject>, s: Store, deltaTime: real, update: (Store, GameObject, real) -> Store): (r: UpdateResult)
    ensures r.updated == objects
    decreases |objects|
  {
    if objects == [] then UpdateResult(s, [])
    else
      var rest := UpdateEach(objects[1..], update(s, objects[0], deltaTime), deltaTime, update);
      UpdateResult(rest.store, [objects[0]] + rest.updated)
  }

  /** `Update`: calls every object's `Update` exactly once, in list order. */
  function Update(sc: Scene, deltaTime: real, update: (Store, GameObject, real) -> Store): (r: (Scene, seq<GameObject>))
    ensures r.0.objects == sc.objects
    ensures r.1 == sc.objects
  {
    var u := UpdateEach(sc.objects, sc.store, deltaTime, update);
    (Scene(sc.objects, u.store), u.updated)
  }

  /** Updating a one-object list is that object's `Update` on the store. */
  lemma UpdateEachSingle(o: GameObject, s: Store, deltaTime: real, update: (Store, GameObject, real) -> Store)
    ensures UpdateEach([o], s, deltaTime, update).store == update(s, o, deltaTime)
  {
    assert [o][1..] == [];
  }

  /** Updating `a + b` updates all of `a` first and then all of `b`, starting
      from the store `a` left behind. */
  lemma {:induction false} UpdateEachAppend(a: seq<GameObject>, b: seq<GameObject>, s: Store, deltaTime: real, update: (Store, GameObject, real) -> Store)
    ensures UpdateEach(a + b, s, deltaTime, update).store
      == UpdateEach(b, UpdateEach(a, s, deltaTime, update).store, deltaTime, update).store
    decreases |a|
  {
    if a == [] {
      assert a + b == b;
    } else {
      assert (a + b)[0] == a[0] && (a + b)[1..] == a[1..] + b;
      UpdateEachAppend(a[1..], b, update(s, a[0], deltaTime), deltaTime, update);
    }
  }

  /** The last object of the list is updated last: the scene's store is its
      `Update` applied to the store the other objects left behind. */
  lemma UpdateLastRunsLast(sc: Scene, deltaTime: real, update: (Store, GameObject, real) -> Store)
    requires sc.objects != []
    ensures
      var n := |sc.objects| - 1;
      var before := UpdateEach(sc.objects[..n], sc.store, deltaTime, update).store;
      Update(sc, deltaTime, update).0.store == update(before, sc.objects[n], deltaTime)
  {
    var n := |sc.objects| - 1;
    assert sc.objects == sc.objects[..n] + [sc.objects[n]];
    UpdateEachAppend(sc.objects[..n], [sc.objects[n]], sc.store, deltaTime, update);
    UpdateEachSingle(sc.objects[n], UpdateEach(sc.objects[..n], sc.store, deltaTime, update).store, deltaTime, update);
  }

  /** With the base `Update` of every object a scene update changes nothing. */
  lemma {:induction false} DefaultUpdateChangesNothing(objects: seq<GameObject>, s: Store, deltaTime: real)
    ensures UpdateEach(objects, s, deltaTime, GameObjects.DefaultUpdate).store == s
    decreases |objects|
  {
    if objects != [] {
      DefaultUpdateChangesNothing(objects[1..], s, deltaTime);
    }
  }

  /** The older draw path draws an entity with a transform and a mesh
      component whose mesh pointer is non-null. */
  predicate ViewDraws(cs: Components) {
    cs.transform.Some? && cs.mesh.Some? && cs.mesh.value.mesh.Some?
  }

  predicate ViewMaterialsPresent(s: Store) {
    forall e :: e in s.live && ViewDraws(s.live[e]) ==> s.live[e].mesh.value.material.Some?
  }

  /** The older draw path's draws for the entities of `order`, in order. */
  function ViewDrawsOf(s: Store, order: seq<Entity>): (r: seq<CoreSystems.DrawCall>)
    requires forall e :: e in order ==> e in s.live
    requires ViewMaterialsPresent(s)
    ensures forall d :: d in r ==> d.entity in order && ViewDraws(s.live[d.entity])
    ensures forall d :: d in r ==>
      && d.world == CoreSystems.WorldMatrix(s.live[d.entity].transform.value)
      && d.mesh == s.live[d.entity].mesh.value.mesh.value
      && d.material == s.live[d.entity].mesh.value.material.value
    ensures forall e :: e in order && ViewDraws(s.live[e]) ==> exists d :: d in r && d.entity == e
    decreases |order|
  {
    if order == [] then []
    else
      var e := order[0];
      var cs := s.live[e];
      assert forall x :: x in order[1..] ==> x in order;
      var rest := ViewDrawsOf(s, order[1..]);
      if ViewDraws(cs) then
        var d := CoreSystems.DrawCall(e, cs.mesh.value.mesh.value, cs.mesh.value.material.value, CoreSystems.WorldMatrix(cs.transform.value));
        [d] + rest
      else rest
  }

  /** Over an enumeration without repeats, no entity is drawn twice. */
  lemma {:induction false} ViewDrawsDistinct(s: Store, order: seq<Entity>)
    requires forall e :: e in order ==> e in s.live
    requires ViewMaterialsPresent(s)
    requires forall i, j :: 0 <= i < j < |order| ==> order[i] != order[j]
    ensures CoreSystems.DrawsDistinct(ViewDrawsOf(s, order))
    decreases |order|
  {
    if order != [] {
      assert forall x :: x in order[1..] ==> x in order;
      CoreSystems.TailDistinct(order);
      ViewDrawsDistinct(s, order[1..]);
      var rest := ViewDrawsOf(s, order[1..]);
      var cs := s.live[order[0]];
      if ViewDraws(cs) {
        var d := CoreSystems.DrawCall(order[0], cs.mesh.value.mesh.value, cs.mesh.value.material.value, CoreSystems.WorldMatrix(cs.transform.value));
        assert ViewDrawsOf(s, order) == [d] + rest;
        CoreSystems.PrependDistinct(d, rest);
      } else {
        assert ViewDrawsOf(s, order) == rest;
      }
    }
  }

  /** `DrawIntoView`: one draw per entity with a transform and a mesh whose
      mesh pointer is non-null, with the SRT matrix computed from the
      transform on the spot; every other entity is skipped. */
  function DrawIntoView(sc: Scene, order: seq<Entity>): (r: seq<CoreSystems.DrawCall>)
    requires CoreSystems.IsEnumeration(order, sc.store)
    requires ViewMaterialsPresent(sc.store)
    ensures forall d :: d in r ==> d.entity in sc.store.live && ViewDraws(sc.store.live[d.entity])
    ensures forall d :: d in r ==> d.world == CoreSystems.WorldMatrix(sc.store.live[d.entity].transform.value)
    ensures forall d :: d in r ==>
      && d.mesh == sc.store.live[d.entity].mesh.value.mesh.value
      && d.material == sc.store.live[d.entity].mesh.value.material.value
    ensures forall e :: e in sc.store.live && ViewDraws(sc.store.live[e]) ==> exists d :: d in r && d.entity == e
    ensures CoreSystems.DrawsDistinct(r)
  {
    ViewDrawsDistinct(sc.store, order);
    ViewDrawsOf(sc.store, order)
  }

  /** Every entity with a mesh has a transform exactly when it has a cached
      matrix. */
  predicate MatrixWithTransform(s: Store) {
    forall e :: e in s.live && s.live[e].mesh.Some? ==> (s.live[e].transform.Some? <==> s.live[e].matrix.Some?)
  }

  lemma {:induction false} DrawPathsAgreeFrom(s: Store, order: seq<Entity>)
    requires forall e :: e in order ==> e in s.live
    requires MatrixWithTransform(s) && ViewMaterialsPresent(s)
    ensures CoreSystems.MeshSystemMaterialsPresent(CoreSystems.UpdateAllTransforms(s))
    ensures CoreSystems.MeshDraws(CoreSystems.UpdateAllTransforms(s), order) == ViewDrawsOf(s, order)
    decreases |order|
  {
    var u := CoreSystems.UpdateAllTransforms(s);
    forall e | e in u.live && CoreSystems.MeshSystemDraws(u.live[e])
      ensures u.live[e].mesh.value.material.Some?
    {
      assert ViewDraws(s.live[e]);
    }
    if order != [] {
      assert forall x :: x in order[1..] ==> x in order;
      DrawPathsAgreeFrom(s, order[1..]);
      var e := order[0];
      assert CoreSystems.MeshSystemDraws(u.live[e]) <==> ViewDraws(s.live[e]);
    }
  }

  /** Once the transform system has run, the mesh system draws exactly what the
      older path draws, provided every entity with a mesh has a transform
      exactly when it has a matrix. */
  lemma DrawPathsAgree(sc: Scene, order: seq<Entity>)
    requires CoreSystems.IsEnumeration(order, sc.store)
    requires MatrixWithTransform(sc.store) && ViewMaterialsPresent(sc.store)
    ensures CoreSystems.IsEnumeration(order, CoreSystems.UpdateAllTransforms(sc.store))
    ensures CoreSystems.MeshSystemMaterialsPresent(CoreSystems.UpdateAllTransforms(sc.store))
    ensures CoreSystems.DrawAllMeshes(CoreSystems.UpdateAllTransforms(sc.store), order) == DrawIntoView(sc, order)
  {
    DrawPathsAgreeFrom(sc.store, order);
  }

  /** Every object's components can be saved: none is unregistered. */
  predicate Saveable(sc: Scene) {
    forall o :: o in sc.objects ==> o.entity in sc.store.live && forall k :: Has(sc.store.live[o.entity], k) ==> k in CM.Definitions
  }

  /** `SaveToJSON`: `"Objects"` becomes an array with one entry per object, in
      list order, each entry the object saved into a fresh JSON value. A
      `jScene` that is neither null nor an object makes nlohmann throw. */
  function SaveToJson(codec: CM.Codec, sc: Scene, jScene: Json): (r: Result<Json, string>)
    requires Saveable(sc)
    ensures r.Success? <==> jScene.JNull? || jScene.JObject?
    ensures r.Success? ==> Contains(r.value, "Objects") && r.value.fields["Objects"].JArray?
    ensures r.Success? ==>
      var items := r.value.fields["Objects"].items;
      && |items| == |sc.objects|
      && forall i :: 0 <= i < |items| ==> items[i] == CM.SaveComponents(codec, sc.store.live[sc.objects[i].entity], JNull)
    ensures r.Success? ==> forall key :: key != "Objects" && Contains(jScene, key) ==> Contains(r.value, key) && r.value.fields[key] == jScene.fields[key]
  {
    var items := seq(|sc.objects|, i requires 0 <= i < |sc.objects| =>
      assert sc.objects[i] in sc.objects;
      CM.SaveComponents(codec, sc.store.live[sc.objects[i].entity], JNull));
    SetField(jScene, "Objects", JArray(items))
  }

  /** The result of loading a list of object entries: the store and the new
      objects, one per entry. */
  datatype Loaded = Loaded(store: Store, objects: seq<GameObject>)

  /** One pass of the loading loop: `new GameObject(this)` followed by its
      `LoadFromJSON`. The new object takes the counter's id and holds what
      the entry loads to; no other entity changes. */
  function LoadObject(codec: CM.Codec, order: seq<Kind>, s: Store, j: Json): (r: (Store, GameObject))
    requires EntityStore.Valid(s) && CM.IsRegistryOrder(order)
    ensures EntityStore.Valid(r.0)
    ensures r.1.entity == s.next && r.0.next == s.next + 1
    ensures r.0.live == s.live[s.next := CM.LoadRecord(codec, order, NoComponents, j)]
  {
    var (s1, o) := NewBare(s);
    var s2 := GameObjects.LoadFromJson(codec, order, s1, o, j);
    assert s2.live == s.live[s.next := CM.LoadRecord(codec, order, NoComponents, j)];
    (s2, o)
  }

  /** One new bare object per entry, in order, each loaded from its entry:
      the store's counter hands out consecutive ids. */
  function LoadEach(codec: CM.Codec, order: seq<Kind>, entries: seq<Json>, s: Store): (r: Loaded)
    requires EntityStore.Valid(s) && CM.IsRegistryOrder(order)
    ensures EntityStore.Valid(r.store) && r.store.next == s.next + |entries|
    ensures |r.objects| == |entries|
    decreases |entries|
  {
    if entries == [] then Loaded(s, [])
    else
      var (s1, o) := LoadObject(codec, order, s, entries[0]);
      var rest := LoadEach(codec, order, entries[1..], s1);
      Loaded(rest.store, [o] + rest.objects)
  }

  /** A load keeps every entity that was already live, with its components. */
  lemma {:induction false} LoadEachKeepsLive(codec: CM.Codec, order: seq<Kind>, entries: seq<Json>, s: Store)
    requires EntityStore.Valid(s) && CM.IsRegistryOrder(order)
    ensures
      var r := LoadEach(codec, order, entries, s);
      forall e :: e in s.live ==> e in r.store.live && r.store.live[e] == s.live[e]
    decreases |entries|
  {
    if entries != [] {
      var (s2, o) := LoadObject(codec, order, s, entries[0]);
      LoadEachKeepsLive(codec, order, entries[1..], s2);
    }
  }

  /** The objects of a load are the live entities from the counter on, one
      per entry, in order. */
  lemma {:induction false} LoadEachIds(codec: CM.Codec, order: seq<Kind>, entries: seq<Json>, s: Store)
    requires EntityStore.Valid(s) && CM.IsRegistryOrder(order)
    ensures
      var r := LoadEach(codec, order, entries, s);
      forall i :: 0 <= i < |r.objects| ==> r.objects[i].entity == s.next + i && r.objects[i].entity in r.store.live
    decreases |entries|
  {
    if entries != [] {
      var (s2, o) := LoadObject(codec, order, s, entries[0]);
      LoadEachIds(codec, order, entries[1..], s2);
      LoadEachKeepsLive(codec, order, entries[1..], s2);
      var rest := LoadEach(codec, order, entries[1..], s2);
      var r := LoadEach(codec, order, entries, s);
      assert r.objects == [o] + rest.objects;
      assert forall i :: 1 <= i < |r.objects| ==> r.objects[i] == rest.objects[i - 1];
    }
  }

  /** Each object of a load holds what its entry loads to. */
  lemma {:induction false} LoadEachContents(codec: CM.Codec, order: seq<Kind>, entries: seq<Json>, s: Store)
    requires EntityStore.Valid(s) && CM.IsRegistryOrder(order)
    ensures
      var r := LoadEach(codec, order, entries, s);
      forall i :: 0 <= i < |r.objects| ==>
        r.objects[i].entity in r.store.live && r.store.live[r.objects[i].entity] == CM.LoadRecord(codec, order, NoComponents, entries[i])
    decreases |entries|
  {
    LoadEachIds(codec, order, entries, s);
    if entries != [] {
      var (s2, o) := LoadObject(codec, order, s, entries[0]);
      LoadEachContents(codec, order, entries[1..], s2);
      LoadEachKeepsLive(codec, order, entries[1..], s2);
      LoadEachIds(codec, order, entries[1..], s2);
      var rest := LoadEach(codec, order, entries[1..], s2);
      var r := LoadEach(codec, order, entries, s);
      assert r.objects == [o] + rest.objects && r.store == rest.store;
      assert r.store.live[o.entity] == CM.LoadRecord(codec, order, NoComponents, entries[0]);
      forall i | 1 <= i < |r.objects|
        ensures r.store.live[r.objects[i].entity] == CM.LoadRecord(codec, order, NoComponents, entries[i])
      {
        assert r.objects[i] == rest.objects[i - 1] && entries[i] == entries[1..][i - 1];
      }
    }
  }

  /** The scene with one new object per entry appended, each a fresh entity
      loaded from its entry. */
  function AppendLoaded(codec: CM.Codec, order: seq<Kind>, sc: Scene, entries: seq<Json>): (r: Scene)
    requires Valid(sc) && CM.IsRegistryOrder(order)
    ensures Valid(r)
    ensures |r.objects| == |sc.objects| + |entries|
    ensures r.objects[..|sc.objects|] == sc.objects
    ensures forall o :: o in r.objects[|sc.objects|..] ==> o.entity !in sc.store.live
    ensures forall i :: 0 <= i < |entries| ==> r.store.live[r.objects[|sc.objects|..][i].entity] == CM.LoadRecord(codec, order, NoComponents, entries[i])
    ensures forall e :: e in sc.store.live ==> e in r.store.live && r.store.live[e] == sc.store.live[e]
  {
    var loaded := LoadEach(codec, order, entries, sc.store);
    LoadEachIds(codec, order, entries, sc.store);
    LoadEachKeepsLive(codec, order, entries, sc.store);
    LoadEachContents(codec, order, entries, sc.store);
    var r := Scene(sc.objects + loaded.objects, loaded.store);
    assert r.objects[..|sc.objects|] == sc.objects;
    assert r.objects[|sc.objects|..] == loaded.objects;
    AppendedFresh(sc, loaded);
    r
  }

  /** `LoadFromJSON`: reads `jScene["Objects"]` (inserting null when the key is
      missing) and appends one new bare object per element it iterates, after
      the existing objects, each a fresh entity loaded from its element. The
      list is not cleared. */
  function LoadFromJson(codec: CM.Codec, order: seq<Kind>, sc: Scene, jScene: Json): (r: Result<(Scene, Json), string>)
    requires Valid(sc) && CM.IsRegistryOrder(order)
    ensures r.Success? <==> jScene.JNull? || jScene.JObject?
    ensures r.Success? ==>
      r.value.0 == AppendLoaded(codec, order, sc, Elements(if Contains(jScene, "Objects") then jScene.fields["Objects"] else JNull))
    ensures r.Success? ==> Contains(r.value.1, "Objects")
  {
    match Subscript(jScene, "Objects")
    case Failure(err) => Failure(err)
    case Success((listJson, jScene')) =>
      Success((AppendLoaded(codec, order, sc, Elements(listJson)), jScene'))
  }

  /** Appending the objects of a load keeps the scene valid. */
  lemma AppendedFresh(sc: Scene, loaded: Loaded)
    requires Valid(sc)
    requires EntityStore.Valid(loaded.store)
    requires forall i :: 0 <= i < |loaded.objects| ==> loaded.objects[i].entity == sc.store.next + i
    requires forall i :: 0 <= i < |loaded.objects| ==> loaded.objects[i].entity in loaded.store.live
    requires forall e :: e in sc.store.live ==> e in loaded.store.live
    ensures Valid(Scene(sc.objects + loaded.objects, loaded.store))
    ensures forall o :: o in loaded.objects ==> o.entity !in sc.store.live
  {
    var objects := sc.objects + loaded.objects;
    forall i, j | 0 <= i < j < |objects|
      ensures objects[i] != objects[j]
    {
      if i >= |sc.objects| {
        assert objects[i] == loaded.objects[i - |sc.objects|];
        assert objects[j] == loaded.objects[j - |sc.objects|];
      } else if j >= |sc.objects| {
        assert objects[i] in sc.objects;
        assert objects[j] == loaded.objects[j - |sc.objects|];
      }
    }
    forall o | o in objects
      ensures o.entity in loaded.store.live
    {
      if o !in sc.objects {
        assert o in loaded.objects;
      }
    }
  }

  /** Saving a scene and loading the result into an empty scene gives one
      object per saved object, in order, with the same components, when every
      component definition reads back what it writes. */
  lemma SaveLoadRoundTrip(codec: CM.Codec, order: seq<Kind>, sc: Scene, empty: Store)
    requires Valid(sc) && Saveable(sc)
    requires CM.CodecInverts(codec) && CM.IsRegistryOrder(order)
    requires EntityStore.Valid(empty) && empty.live == map[]
    ensures SaveToJson(codec, sc, JNull).Success?
    ensures
      var loaded := LoadFromJson(codec, order, Scene([], empty), SaveToJson(codec, sc, JNull).value);
      && loaded.Success?
      && |loaded.value.0.objects| == |sc.objects|
      && forall i :: 0 <= i < |sc.objects| ==>
           loaded.value.0.store.live[loaded.value.0.objects[i].entity] == sc.store.live[sc.objects[i].entity]
  {
    var j := SaveToJson(codec, sc, JNull).value;
    var entries := j.fields["Objects"].items;
    assert Elements(j.fields["Objects"]) == entries;
    var loaded := LoadFromJson(codec, order, Scene([], empty), j);
    forall i | 0 <= i < |sc.objects|
      ensures loaded.value.0.store.live[loaded.value.0.objects[i].entity] == sc.store.live[sc.objects[i].entity]
    {
      var cs := sc.store.live[sc.objects[i].entity];
      assert sc.objects[i] in sc.objects;
      var probe := Store(1, map[0 := NoComponents]);
      CM.SaveLoadRoundTrip(codec, order, probe, 0, cs);
    }
  }

  /** The state of the editor the object list reads and writes: the selected
      object and the event queue. */
  datatype Editor = Editor(selected: Option<GameObject>, queue: seq<EventManager.Pending>)

  const NewObjectName := "New Object"

  /** "Add GameObject": appends exactly one new object named "New Object" at
      the origin, without a mesh. */
  function AddGameObject(sc: Scene): (r: Scene)
    requires Valid(sc)
    ensures Valid(r)
    ensures |r.objects| == |sc.objects| + 1 && r.objects[..|sc.objects|] == sc.objects
    ensures
      var o := r.objects[|sc.objects|];
      && o.entity !in sc.store.live
      && r.store.live[o.entity].name.Some? && NameOf(r.store.live[o.entity].name.value) == NewObjectName
      && r.store.live[o.entity].transform == Some(TransformData(Origin, Origin, UnitScale))
      && r.store.live[o.entity].mesh.None?
    ensures forall e :: e in sc.store.live ==> e in r.store.live && r.store.live[e] == sc.store.live[e]
  {
    CStrOfPlain(NewObjectName);
    var (s1, o) := GameObjects.New(sc.store, NewObjectName, Origin, None, None);
    AppendOneKeepsValid(sc, o, s1);
    Scene(sc.objects + [o], s1)
  }

  /** Appending an object whose entity is new to the scene's store keeps the
      scene valid, when the new store keeps every entity of the old one. */
  lemma AppendOneKeepsValid(sc: Scene, o: GameObject, s1: Store)
    requires Valid(sc) && EntityStore.Valid(s1)
    requires o.entity !in sc.store.live && o.entity in s1.live
    requires forall e :: e in sc.store.live ==> e in s1.live
    ensures Valid(Scene(sc.objects + [o], s1))
    ensures (sc.objects + [o])[..|sc.objects|] == sc.objects
  {
    var objects := sc.objects + [o];
    assert o !in sc.objects;
    forall i, j | 0 <= i < j < |objects|
      ensures objects[i] != objects[j]
    {
      if j == |sc.objects| {
        assert objects[i] in sc.objects;
      }
    }
    assert forall x :: x in objects ==> x in sc.objects || x == o;
    assert objects[..|sc.objects|] == sc.objects;
  }

  const NoName := "No Name"

  /** The label of an object in the list: its name when it has a `NameData`
      whose first character is not the terminator, "No Name" otherwise. */
  function DisplayName(s: Store, o: GameObject): (r: string)
    requires o.entity in s.live
    ensures s.live[o.entity].name.Some? && NameOf(s.live[o.entity].name.value) != [] ==> r == NameOf(s.live[o.entity].name.value)
    ensures s.live[o.entity].name.None? || NameOf(s.live[o.entity].name.value) == [] ==> r == NoName
  {
    match s.live[o.entity].name
    case Some(n) =>
      if |n.buffer| > 0 && n.buffer[0] != NUL then NameOf(n) else NoName
    case None => NoName
  }

  /** A click on an object's entry selects it. */
  function ClickObject(ed: Editor, o: GameObject): (r: Editor)
    ensures r.selected == Some(o) && r.queue == ed.queue
  {
    ed.(selected := Some(o))
  }

  /** "Delete": the object stays in the list for now; the selection is cleared
      if it was this object, and a `RemoveFromGameEvent` for it is queued. `id`
      is the address of the new event and `delay` the default delay of
      `AddEvent`. */
  function DeleteFromMenu(ed: Editor, o: GameObject, id: nat, delay: real): (r: Editor)
    ensures ed.selected == Some(o) ==> r.selected.None?
    ensures ed.selected != Some(o) ==> r.selected == ed.selected
    ensures |r.queue| == |ed.queue| + 1 && r.queue[..|ed.queue|] == ed.queue
    ensures r.queue[|ed.queue|] == EventManager.Pending(EventManager.Event(id, EventManager.RemoveFromGameEvent(o)), delay)
  {
    var selected := if ed.selected == Some(o) then None else ed.selected;
    Editor(selected, EventManager.AddEvent(ed.queue, EventManager.Event(id, EventManager.RemoveFromGameEvent(o)), delay))
  }
}
