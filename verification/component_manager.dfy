/** `ComponentManager`: the registry of component definitions, and the
    per-object JSON save and load that go through it, plus the state effects of
    its two editor panels. The definition classes themselves are not part of
    this model: each definition is its persisted name plus an encoder and a
    decoder, and the decoders receive the resource manager through `Codec`. */
module ComponentManager {
  import opened Wrappers
  import opened Json
  import opened Components
  import opened EntityStore

  /** The definition name registered for each component kind. */
  type Registry = map<Kind, string>

  /** The constructor registers one definition each for `NameData`,
      `TransformData` and `MeshData`; `TransformMatrixData` has none. */
  const Definitions: Registry := map[NameKind := "NameData", TransformKind := "TransformData", MeshKind := "MeshData"]

  predicate NamesDistinct(reg: Registry) {
    forall a, b :: a in reg && b in reg && a != b ==> reg[a] != reg[b]
  }

  /** Exactly three definitions, under three different names. */
  lemma RegistryHoldsThree()
    ensures Definitions.Keys == {NameKind, TransformKind, MeshKind}
    ensures |Definitions| == 3
    ensures TransformMatrixKind !in Definitions
    ensures NamesDistinct(Definitions)
  {
    assert Definitions.Keys == {NameKind, TransformKind, MeshKind};
  }

  /** The encoders and decoders of the three definitions. A definition's save
      is taken to replace the node it is given, and its load to set only its
      own component, from its node alone. */
  datatype Codec = Codec(
    saveName: NameData -> Json,
    saveTransform: TransformData -> Json,
    saveMesh: MeshData -> Json,
    loadName: Json -> NameData,
    loadTransform: Json -> TransformData,
    loadMesh: Json -> MeshData)

  /** A component kind with a registered definition. */
  predicate Registered(k: Kind) {
    k in Definitions
  }

  /** The object's JSON holds an entry for the definition of kind `k`. */
  predicate InJson(j: Json, k: Kind) {
    Registered(k) && Contains(j, Definitions[k])
  }

  /** The JSON a definition writes for one component. */
  function Encode(codec: Codec, c: Component): Json
    requires Registered(c.KindOf())
  {
    match c
    case NameC(n) => codec.saveName(n)
    case TransformC(t) => codec.saveTransform(t)
    case MeshC(m) => codec.saveMesh(m)
  }

  /** The component a definition reads back from its JSON entry. */
  function Decode(codec: Codec, k: Kind, j: Json): (c: Component)
    requires Registered(k)
    ensures c.KindOf() == k
  {
    match k
    case NameKind => NameC(codec.loadName(j))
    case TransformKind => TransformC(codec.loadTransform(j))
    case MeshKind => MeshC(codec.loadMesh(j))
  }

  /** `jGameObject[name]` written with the encoded component of kind `k`,
      when the entity has one. The definition receives the node at that key;
      the encoding is taken to replace it, whatever it held. */
  function SaveKind(codec: Codec, cs: Components, k: Kind, j: Json): (r: Json)
    requires Registered(k)
    requires j.JNull? || j.JObject?
    ensures r.JNull? || r.JObject?
    ensures !Has(cs, k) ==> r == j
    ensures Has(cs, k) ==> r.JObject? && Contains(r, Definitions[k]) && r.fields[Definitions[k]] == Encode(codec, Lookup(cs, k).value)
    ensures forall key :: key != Definitions[k] ==> (Contains(r, key) <==> Contains(j, key))
    ensures forall key :: key != Definitions[k] && Contains(j, key) ==> Contains(r, key) && r.fields[key] == j.fields[key]
  {
    match Lookup(cs, k)
    case None => j
    case Some(c) => SetField(j, Definitions[k], Encode(codec, c)).value
  }

  /** `key` is the definition name of a kind in `kinds` that `cs` has. */
  predicate WrittenBy(cs: Components, kinds: seq<Kind>, key: string) {
    exists k :: k in kinds && Registered(k) && Has(cs, k) && Definitions[k] == key
  }

  /** The writes of the definitions of `kinds`, each applied only when the
      entity has that kind. What it writes and keeps is stated by the
      `SaveKinds...` lemmas below. */
  function SaveKinds(codec: Codec, cs: Components, kinds: seq<Kind>, j: Json): (r: Json)
    requires j.JNull? || j.JObject?
    requires forall k :: k in kinds ==> k in Definitions
    ensures r.JNull? || r.JObject?
    ensures (forall k :: k in kinds ==> !Has(cs, k)) ==> r == j
    decreases |kinds|
  {
    if kinds == [] then j
    else
      assert forall k :: k in kinds[1..] ==> k in kinds;
      SaveKinds(codec, cs, kinds[1..], SaveKind(codec, cs, kinds[0], j))
  }

  /** The keys after the writes: those already present and the definition
      names of the kinds the entity has. */
  lemma {:induction false} SaveKindsKeys(codec: Codec, cs: Components, kinds: seq<Kind>, j: Json)
    requires j.JNull? || j.JObject?
    requires forall k :: k in kinds ==> k in Definitions
    ensures var r := SaveKinds(codec, cs, kinds, j); forall key :: Contains(r, key) <==> Contains(j, key) || WrittenBy(cs, kinds, key)
    decreases |kinds|
  {
    if kinds != [] {
      assert forall k :: k in kinds[1..] ==> k in kinds;
      var j1 := SaveKind(codec, cs, kinds[0], j);
      SaveKindsKeys(codec, cs, kinds[1..], j1);
      assert forall k' :: k' in kinds <==> k' == kinds[0] || k' in kinds[1..];
    }
  }

  /** A key no kind of `kinds` writes keeps its value. */
  lemma {:induction false} SaveKindsKeeps(codec: Codec, cs: Components, kinds: seq<Kind>, j: Json)
    requires j.JNull? || j.JObject?
    requires forall k :: k in kinds ==> k in Definitions
    ensures var r := SaveKinds(codec, cs, kinds, j); forall key :: !WrittenBy(cs, kinds, key) && Contains(j, key) ==> Contains(r, key) && r.fields[key] == j.fields[key]
    decreases |kinds|
  {
    if kinds != [] {
      assert forall k :: k in kinds[1..] ==> k in kinds;
      var j1 := SaveKind(codec, cs, kinds[0], j);
      SaveKindsKeeps(codec, cs, kinds[1..], j1);
      assert forall k' :: k' in kinds <==> k' == kinds[0] || k' in kinds[1..];
    }
  }

  /** Each kind of `kinds` the entity has is written under its definition
      name with its encoding, when no kind appears twice. */
  lemma {:induction false} SaveKindsValues(codec: Codec, cs: Components, kinds: seq<Kind>, j: Json)
    requires j.JNull? || j.JObject?
    requires forall k :: k in kinds ==> k in Definitions
    requires forall a, b :: 0 <= a < b < |kinds| ==> kinds[a] != kinds[b]
    ensures var r := SaveKinds(codec, cs, kinds, j); forall k :: k in kinds && Has(cs, k) ==> Contains(r, Definitions[k]) && r.fields[Definitions[k]] == Encode(codec, Lookup(cs, k).value)
    decreases |kinds|
  {
    if kinds != [] {
      var k := kinds[0];
      assert forall k' :: k' in kinds[1..] ==> k' in kinds;
      assert forall a, b :: 0 <= a < b < |kinds[1..]| ==> kinds[1..][a] != kinds[1..][b];
      var j1 := SaveKind(codec, cs, k, j);
      SaveKindsValues(codec, cs, kinds[1..], j1);
      if Has(cs, k) {
        SaveKindsKeeps(codec, cs, kinds[1..], j1);
        RegistryHoldsThree();
        assert k !in kinds[1..];
        assert !WrittenBy(cs, kinds[1..], Definitions[k]);
      }
      assert forall k' :: k' in kinds <==> k' == k || k' in kinds[1..];
    }
  }

  /** The kinds `entity.each` visits, in component-id order. Each kind writes
      its own key, so the order does not affect the result. */
  const SaveOrder := [NameKind, TransformKind, MeshKind]

  /** `SaveGameObjectComponentsToJSON`: one key per attached component, named
      by its definition and holding what the definition writes. Looking up the
      definition of an unregistered component yields null and dereferences
      it, so every attached component must be registered. An object without
      components leaves `j` as it was. */
  function SaveComponents(codec: Codec, cs: Components, j: Json): (r: Json)
    requires j.JNull? || j.JObject?
    requires forall k :: Has(cs, k) ==> k in Definitions
    ensures Attached(cs) == {} ==> r == j
    ensures Attached(cs) != {} ==> r.JObject?
    ensures forall key :: Contains(r, key) <==> Contains(j, key) || exists k :: Has(cs, k) && Definitions[k] == key
    ensures forall k :: Has(cs, k) ==> Contains(r, Definitions[k]) && r.fields[Definitions[k]] == Encode(codec, Lookup(cs, k).value)
    ensures forall key :: (forall k :: Has(cs, k) ==> Definitions[k] != key) && Contains(j, key) ==> Contains(r, key) && r.fields[key] == j.fields[key]
  {
    assert forall k :: k in SaveOrder <==> Registered(k);
    SaveKindsKeys(codec, cs, SaveOrder, j);
    SaveKindsKeeps(codec, cs, SaveOrder, j);
    SaveKindsValues(codec, cs, SaveOrder, j);
    SaveKinds(codec, cs, SaveOrder, j)
  }

  /** The order in which a load visits the registry: every definition exactly
      once. `std::map` visits ids in ascending order; the ids flecs assigns are
      not part of this model, so the order is a parameter. */
  predicate IsRegistryOrder(order: seq<Kind>) {
    (forall i, j :: 0 <= i < j < |order| ==> order[i] != order[j])
    && (forall k :: k in order <==> Registered(k))
  }

  /** The loads of the definitions in `order` applied to one component
      record, each only when the object's JSON contains that definition's
      name. A load replaces a component of its kind. */
  function LoadKinds(codec: Codec, order: seq<Kind>, cs: Components, j: Json): (r: Components)
    requires forall k :: k in order ==> Registered(k)
    requires forall a, b :: 0 <= a < b < |order| ==> order[a] != order[b]
    ensures forall k :: k in order && InJson(j, k) ==> Lookup(r, k) == Some(Decode(codec, k, j.fields[Definitions[k]]))
    ensures forall k :: !(k in order && InJson(j, k)) ==> Lookup(r, k) == Lookup(cs, k)
    decreases |order|
  {
    if order == [] then cs
    else
      var k := order[0];
      var cs1 := if InJson(j, k) then Attach(cs, Decode(codec, k, j.fields[Definitions[k]])) else cs;
      assert forall a, b :: 0 <= a < b < |order[1..]| ==> order[1..][a] != order[1..][b];
      var r := LoadKinds(codec, order[1..], cs1, j);
      assert forall k' :: k' in order <==> k' == k || k' in order[1..];
      r
  }

  /** The components an entity holding `cs` ends up with after a load. */
  function LoadRecord(codec: Codec, order: seq<Kind>, cs: Components, j: Json): (r: Components)
    requires IsRegistryOrder(order)
    ensures forall k :: InJson(j, k) ==> Lookup(r, k) == Some(Decode(codec, k, j.fields[Definitions[k]]))
    ensures forall k :: !InJson(j, k) ==> Lookup(r, k) == Lookup(cs, k)
  {
    LoadKinds(codec, order, cs, j)
  }

  /** `LoadGameObjectComponentsFromJSON`: a definition's loader runs if and only
      if the object's JSON contains the definition's name; every other key is
      ignored, and components with no key in the JSON stay as they were. */
  function LoadComponents(codec: Codec, order: seq<Kind>, s: Store, e: Entity, j: Json): (r: Store)
    requires e in s.live
    requires IsRegistryOrder(order)
    ensures r.live.Keys == s.live.Keys && r.next == s.next
    ensures forall o :: o in s.live && o != e ==> r.live[o] == s.live[o]
    ensures forall k :: InJson(j, k) ==> Lookup(r.live[e], k) == Some(Decode(codec, k, j.fields[Definitions[k]]))
    ensures forall k :: !InJson(j, k) ==> Lookup(r.live[e], k) == Lookup(s.live[e], k)
    ensures r.live[e] == LoadRecord(codec, order, s.live[e], j)
  {
    Update(s, e, LoadRecord(codec, order, s.live[e], j))
  }

  /** With distinct definition names the load does not depend on the order in
      which the registry is visited. */
  lemma LoadOrderIrrelevant(codec: Codec, order1: seq<Kind>, order2: seq<Kind>, s: Store, e: Entity, j: Json)
    requires e in s.live
    requires IsRegistryOrder(order1) && IsRegistryOrder(order2)
    ensures LoadComponents(codec, order1, s, e, j) == LoadComponents(codec, order2, s, e, j)
  {
    var r1 := LoadComponents(codec, order1, s, e, j);
    var r2 := LoadComponents(codec, order2, s, e, j);
    forall k
      ensures Lookup(r1.live[e], k) == Lookup(r2.live[e], k)
    {
    }
    LookupDetermines(r1.live[e], r2.live[e]);
    assert r1.live == r2.live;
  }

  /** Each definition reads back what it writes. */
  ghost predicate CodecInverts(codec: Codec) {
    (forall n :: codec.loadName(codec.saveName(n)) == n)
    && (forall t :: codec.loadTransform(codec.saveTransform(t)) == t)
    && (forall m :: codec.loadMesh(codec.saveMesh(m)) == m)
  }

  lemma DecodeEncode(codec: Codec, c: Component)
    requires CodecInverts(codec)
    requires Registered(c.KindOf())
    ensures Decode(codec, c.KindOf(), Encode(codec, c)) == c
  {
  }

  /** A saved object has an entry for kind `k` exactly when it has a `k`. */
  lemma SavedEntryIff(codec: Codec, cs: Components, k: Kind)
    requires forall k' :: Has(cs, k') ==> k' in Definitions
    ensures InJson(SaveComponents(codec, cs, JNull), k) <==> Has(cs, k)
  {
    RegistryHoldsThree();
  }

  /** When every definition reads back what it writes, saving an object into a
      fresh JSON value and loading that into a fresh entity reproduces the
      object's components. */
  lemma SaveLoadRoundTrip(codec: Codec, order: seq<Kind>, s: Store, e: Entity, cs: Components)
    requires CodecInverts(codec)
    requires IsRegistryOrder(order)
    requires e in s.live && s.live[e] == NoComponents
    requires forall k :: Has(cs, k) ==> k in Definitions
    ensures LoadComponents(codec, order, s, e, SaveComponents(codec, cs, JNull)).live[e] == cs
  {
    var j := SaveComponents(codec, cs, JNull);
    var r := LoadComponents(codec, order, s, e, j);
    forall k
      ensures Lookup(r.live[e], k) == Lookup(cs, k)
    {
      SavedEntryIff(codec, cs, k);
      if Has(cs, k) {
        DecodeEncode(codec, Lookup(cs, k).value);
      }
    }
    LookupDetermines(r.live[e], cs);
  }

  /** The three entries of the add-component menu. */
  datatype MenuItem = NameItem | TransformItem | MeshItem

  function MenuKind(item: MenuItem): Kind {
    match item
    case NameItem => NameKind
    case TransformItem => TransformKind
    case MeshItem => MeshKind
  }

  /** A menu entry is enabled only while the object lacks that kind. */
  predicate MenuEnabled(s: Store, e: Entity, item: MenuItem)
    requires e in s.live
  {
    !HasComponent(s, e, MenuKind(item))
  }

  /** `Editor_AddComponentToGameObject`: a click on an enabled entry adds that
      kind, default-constructed as `initial`; a disabled entry ignores clicks. */
  function AddComponentFromMenu(s: Store, e: Entity, clicked: Option<MenuItem>, initial: Component): (r: Store)
    requires e in s.live
    requires clicked.Some? ==> initial.KindOf() == MenuKind(clicked.value)
    ensures r.live.Keys == s.live.Keys && r.next == s.next
    ensures forall o :: o in s.live && o != e ==> r.live[o] == s.live[o]
    ensures clicked.Some? && MenuEnabled(s, e, clicked.value)
      ==> Attached(r.live[e]) == Attached(s.live[e]) + {MenuKind(clicked.value)} && Lookup(r.live[e], initial.KindOf()) == Some(initial)
    ensures forall k :: (clicked.None? || k != MenuKind(clicked.value)) ==> Lookup(r.live[e], k) == Lookup(s.live[e], k)
    ensures clicked.None? || !MenuEnabled(s, e, clicked.value) ==> r == s
  {
    if clicked.Some? && MenuEnabled(s, e, clicked.value) then Ensure(s, e, initial).0 else s
  }

  /** The text a non-owning resource pointer shows: its name, or "None". */
  function ResourceLabel(p: Option<ResourceManager.Resource>): (r: string)
    ensures p.None? ==> r == "None"
    ensures p.Some? ==> r == p.value.name
  {
    match p
    case None => "None"
    case Some(res) => res.name
  }

  /** `Editor_DisplayComponentsForGameObject`, with every header open: the
      text lines it shows, and its effect on the store. `ensure` attaches
      `initial` when the object has no transform; `edited` is the transform as
      the drag widgets leave it, or `None` when nothing was dragged. */
  function DisplayComponents(s: Store, e: Entity, initial: TransformData, edited: Option<TransformData>): (r: (Store, seq<string>))
    requires e in s.live
    ensures r.0.live.Keys == s.live.Keys && r.0.next == s.next
    ensures forall o :: o in s.live && o != e ==> r.0.live[o] == s.live[o]
    ensures r.0.live[e].transform.Some?
    ensures edited.Some? ==> r.0.live[e].transform == edited
    ensures edited.None? ==> r.0.live[e].transform == if s.live[e].transform.Some? then s.live[e].transform else Some(initial)
    ensures forall k :: k != TransformKind ==> Lookup(r.0.live[e], k) == Lookup(s.live[e], k)
    ensures |r.1| == (if s.live[e].name.Some? then 1 else 0) + (if s.live[e].mesh.Some? then 2 else 0)
    ensures s.live[e].name.Some? ==> r.1[0] == NameOf(s.live[e].name.value)
    ensures s.live[e].mesh.Some? ==> r.1[|r.1| - 2] == "Mesh: " + ResourceLabel(s.live[e].mesh.value.mesh)
    ensures s.live[e].mesh.Some? ==> r.1[|r.1| - 1] == "Material: " + ResourceLabel(s.live[e].mesh.value.material)
  {
    var cs := s.live[e];
    var nameLines := if cs.name.Some? then [NameOf(cs.name.value)] else [];
    var s1 := Ensure(s, e, TransformC(initial)).0;
    var s2 := if edited.Some? then Set(s1, e, TransformC(edited.value)) else s1;
    var meshLines :=
      if cs.mesh.Some? then ["Mesh: " + ResourceLabel(cs.mesh.value.mesh), "Material: " + ResourceLabel(cs.mesh.value.material)]
      else [];
    (s2, nameLines + meshLines)
  }
}
