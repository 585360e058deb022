/** `ResourceManager`: five name-keyed tables, one per resource type, with
    insert-if-absent registration and lookup that answers null on a miss. The
    destructor deletes every stored resource. */
module ResourceManager {
  import opened Wrappers
  import opened StringOrder

  /** A resource object (mesh, material, shader, sprite sheet or texture):
      its identity and the name `GetName()` reports. */
  datatype Resource = Resource(id: nat, name: string)

  datatype ResourceType = MaterialType | MeshType | ShaderType | SpriteSheetType | TextureType

  type Table = map<string, Resource>

  datatype ResourceManager = ResourceManager(
    meshes: Table,
    shaders: Table,
    textures: Table,
    materials: Table,
    spriteSheets: Table)

  const EmptyManager := ResourceManager(map[], map[], map[], map[], map[])

  function TableOf(rm: ResourceManager, t: ResourceType): Table {
    match t
    case MeshType => rm.meshes
    case ShaderType => rm.shaders
    case TextureType => rm.textures
    case MaterialType => rm.materials
    case SpriteSheetType => rm.spriteSheets
  }

  function WithTable(rm: ResourceManager, t: ResourceType, m: Table): (r: ResourceManager)
    ensures TableOf(r, t) == m
    ensures forall u :: u != t ==> TableOf(r, u) == TableOf(rm, u)
  {
    match t
    case MeshType => rm.(meshes := m)
    case ShaderType => rm.(shaders := m)
    case TextureType => rm.(textures := m)
    case MaterialType => rm.(materials := m)
    case SpriteSheetType => rm.(spriteSheets := m)
  }

  /** Every resource is stored under its own name. */
  predicate Valid(rm: ResourceManager) {
    forall t, k :: k in TableOf(rm, t) ==> TableOf(rm, t)[k].name == k
  }

  /** `AddMesh`, `AddShader`, `AddTexture`, `AddMaterial`, `AddSpriteSheet`:
      store the resource under its name unless that name is taken, in which
      case the first registration stays. */
  function Add(rm: ResourceManager, t: ResourceType, res: Resource): (r: ResourceManager)
    ensures res.name !in TableOf(rm, t) ==> TableOf(r, t) == TableOf(rm, t)[res.name := res]
    ensures res.name in TableOf(rm, t) ==> r == rm
    ensures forall u :: u != t ==> TableOf(r, u) == TableOf(rm, u)
    ensures Valid(rm) ==> Valid(r)
  {
    if res.name in TableOf(rm, t) then rm
    else WithTable(rm, t, TableOf(rm, t)[res.name := res])
  }

  /** `GetMesh`, `GetShader`, ...: the resource registered under `name`, or
      null. Lookup is read-only: it takes the manager by value. */
  function Get(rm: ResourceManager, t: ResourceType, name: string): (r: Option<Resource>)
    ensures r.Some? <==> name in TableOf(rm, t)
    ensures r.Some? ==> r.value == TableOf(rm, t)[name]
  {
    if name in TableOf(rm, t) then Some(TableOf(rm, t)[name]) else None
  }

  /** Registering under a fresh name makes the resource retrievable. */
  lemma AddThenGet(rm: ResourceManager, t: ResourceType, res: Resource)
    requires res.name !in TableOf(rm, t)
    ensures Get(Add(rm, t, res), t, res.name) == Some(res)
  {
  }

  /** First registration wins: adding under a taken name changes nothing and a
      later lookup still returns the earlier resource. */
  lemma FirstRegistrationWins(rm: ResourceManager, t: ResourceType, first: Resource, second: Resource)
    requires first.name == second.name
    ensures Get(Add(Add(rm, t, first), t, second), t, first.name) == Get(Add(rm, t, first), t, first.name)
    ensures first.name !in TableOf(rm, t) ==> Get(Add(Add(rm, t, first), t, second), t, first.name) == Some(first)
  {
  }

  /** Adding to one table leaves every lookup in the other tables as it was. */
  lemma TablesIndependent(rm: ResourceManager, t: ResourceType, res: Resource, u: ResourceType, name: string)
    requires u != t
    ensures Get(Add(rm, t, res), u, name) == Get(rm, u, name)
  {
  }

  /** One `delete`: which table the pointer came from, and the resource. */
  datatype Deletion = Deletion(table: ResourceType, resource: Resource)

  /** The destructor visits the tables in this order. */
  const DestructionOrder := [MeshType, MaterialType, TextureType, ShaderType, SpriteSheetType]

  /** The `delete` calls of one destructor loop, in `std::map` key order. */
  method DeleteTable(t: ResourceType, m: Table) returns (deleted: seq<Deletion>)
    ensures |deleted| == |m|
    ensures forall i :: 0 <= i < |deleted| ==> deleted[i].table == t && deleted[i].resource in m.Values
    ensures forall k :: k in m ==> Deletion(t, m[k]) in deleted
    ensures (forall k :: k in m ==> m[k].name == k) ==> forall i, j :: 0 <= i < j < |deleted| ==> deleted[i] != deleted[j]
  {
    var keys := SortedKeys(m.Keys);
    deleted := [];
    var i := 0;
    while i < |keys|
      invariant 0 <= i <= |keys|
      invariant |deleted| == i
      invariant forall j :: 0 <= j < i ==> deleted[j] == Deletion(t, m[keys[j]])
    {
      deleted := deleted + [Deletion(t, m[keys[i]])];
      i := i + 1;
    }
    DeletionsCoverTable(t, m, keys, deleted);
    if forall k :: k in m ==> m[k].name == k {
      DeletionsDistinct(t, m, keys, deleted);
    }
  }

  /** The deletions of one table, one per key in key order, cover the table. */
  lemma DeletionsCoverTable(t: ResourceType, m: Table, keys: seq<string>, deleted: seq<Deletion>)
    requires keys == SortedKeys(m.Keys)
    requires |deleted| == |keys|
    requires forall j :: 0 <= j < |keys| ==> deleted[j] == Deletion(t, m[keys[j]])
    ensures forall i :: 0 <= i < |deleted| ==> deleted[i].table == t && deleted[i].resource in m.Values
    ensures forall k :: k in m ==> Deletion(t, m[k]) in deleted
  {
    forall k | k in m
      ensures Deletion(t, m[k]) in deleted
    {
      var j :| 0 <= j < |keys| && keys[j] == k;
      assert deleted[j] == Deletion(t, m[k]);
    }
  }

  /** When each resource sits under its own name, the deletions of one table
      are all different. */
  lemma DeletionsDistinct(t: ResourceType, m: Table, keys: seq<string>, deleted: seq<Deletion>)
    requires keys == SortedKeys(m.Keys)
    requires |deleted| == |keys|
    requires forall j :: 0 <= j < |keys| ==> deleted[j] == Deletion(t, m[keys[j]])
    requires forall k :: k in m ==> m[k].name == k
    ensures forall i, j :: 0 <= i < j < |deleted| ==> deleted[i] != deleted[j]
  {
    forall a, b | 0 <= a < b < |deleted|
      ensures deleted[a] != deleted[b]
    {
      assert deleted[a].resource.name == keys[a] && deleted[b].resource.name == keys[b];
    }
  }

  /** A sequence without repeats holds each of its elements exactly once. */
  lemma {:induction false} DistinctCountsOnce<T>(s: seq<T>, x: T)
    requires forall i, j :: 0 <= i < j < |s| ==> s[i] != s[j]
    ensures multiset(s)[x] == if x in s then 1 else 0
  {
    if |s| > 0 {
      assert s == [s[0]] + s[1..];
      DistinctCountsOnce(s[1..], x);
      if x == s[0] {
        assert x !in s[1..];
      }
    }
  }

  /** Every resource of table `t` occurs exactly once among `deleted`. */
  predicate DeletedOnce(deleted: seq<Deletion>, rm: ResourceManager, t: ResourceType) {
    forall k :: k in TableOf(rm, t) ==> multiset(deleted)[Deletion(t, TableOf(rm, t)[k])] == 1
  }

  /** Every deletion is of a resource stored in one of the tables `ts`. */
  predicate DeletesFrom(deleted: seq<Deletion>, rm: ResourceManager, ts: seq<ResourceType>) {
    forall d :: d in deleted ==> d.table in ts && d.resource in TableOf(rm, d.table).Values
  }

  /** Appending the deletions of table `t` keeps the tables already done at
      one deletion each and brings table `t` to one deletion each. */
  lemma AppendTable(deleted: seq<Deletion>, part: seq<Deletion>, rm: ResourceManager, done: seq<ResourceType>, t: ResourceType)
    requires t !in done
    requires DeletesFrom(deleted, rm, done)
    requires forall u :: u in done ==> DeletedOnce(deleted, rm, u)
    requires forall i :: 0 <= i < |part| ==> part[i].table == t && part[i].resource in TableOf(rm, t).Values
    requires forall k :: k in TableOf(rm, t) ==> Deletion(t, TableOf(rm, t)[k]) in part
    requires forall i, j :: 0 <= i < j < |part| ==> part[i] != part[j]
    ensures DeletesFrom(deleted + part, rm, done + [t])
    ensures forall u :: u in done + [t] ==> DeletedOnce(deleted + part, rm, u)
  {
    forall u | u in done + [t]
      ensures DeletedOnce(deleted + part, rm, u)
    {
      forall k | k in TableOf(rm, u)
        ensures multiset(deleted + part)[Deletion(u, TableOf(rm, u)[k])] == 1
      {
        var d := Deletion(u, TableOf(rm, u)[k]);
        assert multiset(deleted + part) == multiset(deleted) + multiset(part);
        DistinctCountsOnce(part, d);
        if u == t {
          assert d !in deleted;
        } else {
          assert d !in part;
          assert DeletedOnce(deleted, rm, u);
        }
      }
    }
  }

  lemma EveryTypeDestroyed(t: ResourceType)
    ensures t in DestructionOrder
  {
    match t
    case MeshType => assert DestructionOrder[0] == t;
    case MaterialType => assert DestructionOrder[1] == t;
    case TextureType => assert DestructionOrder[2] == t;
    case ShaderType => assert DestructionOrder[3] == t;
    case SpriteSheetType => assert DestructionOrder[4] == t;
  }

  /** `~ResourceManager`: deletes every resource of every table. On a valid
      manager each stored resource is deleted exactly once, and nothing else is
      deleted, so a duplicate that `Add` rejected is never deleted. */
  method Destroy(rm: ResourceManager) returns (deleted: seq<Deletion>)
    requires Valid(rm)
    ensures forall t, k :: k in TableOf(rm, t) ==> multiset(deleted)[Deletion(t, TableOf(rm, t)[k])] == 1
    ensures forall d :: d in deleted ==> d.resource in TableOf(rm, d.table).Values
  {
    deleted := [];
    var n := 0;
    while n < |DestructionOrder|
      invariant 0 <= n <= |DestructionOrder|
      invariant DeletesFrom(deleted, rm, DestructionOrder[..n])
      invariant forall u :: u in DestructionOrder[..n] ==> DeletedOnce(deleted, rm, u)
    {
      var t := DestructionOrder[n];
      var part := DeleteTable(t, TableOf(rm, t));
      AppendTable(deleted, part, rm, DestructionOrder[..n], t);
      assert DestructionOrder[..n + 1] == DestructionOrder[..n] + [t];
      deleted := deleted + part;
      n := n + 1;
    }
    assert DestructionOrder[..n] == DestructionOrder;
    forall t, k | k in TableOf(rm, t)
      ensures multiset(deleted)[Deletion(t, TableOf(rm, t)[k])] == 1
    {
      EveryTypeDestroyed(t);
      assert DeletedOnce(deleted, rm, t);
    }
  }
}
