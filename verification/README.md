# bgfxFramework object model in Dafny

This project models the entity–component object model of the bgfxFramework
C++ engine, and the small pure tables and helpers around it, as immutable
Dafny datatypes and pure functions. It proves what the engine's code promises
about them.

- **Component store.** The ECS world (flecs in the current revision, entt in
  the older one) is a `Store`: a fresh-id counter plus a map from live
  entities to a `Components` record. The record holds at most one `NameData`,
  `TransformData`, `TransformMatrixData` and `MeshData`.
- **Component manager.** The definition registry, per-component JSON
  save/load through the definitions, the add-component menu and the
  inspector's state effects. Also the older explicit serialiser, whose load is
  a no-op.
- **Game objects.** Both revisions' constructors and destructors, and the
  current revision's default `Update` and JSON delegation. The older
  revision has no JSON delegation; its `Update` is empty too, so
  `GameObjects.DefaultUpdate` describes it as well.
- **Scene.** The ordered object list, removal on a `RemoveFromGameEvent`,
  in-order update, the `DrawIntoView` draw path, the `"Objects"` JSON array on
  save and append-on-load, and the editor's add / name / select / delete logic.
- **Event manager.** `AddEvent`, and `DispatchAllEvents` as a loop method
  checked against a functional reference. The reference visits every event
  queued at call start exactly once.
- **Systems.** `System_UpdateAllTransforms` and `System_DrawAllMeshes`, and
  their agreement with the scene's own draw path.
- **Resource manager.** The five insert-if-absent name tables, lookup, and
  the destructor's deletions.
- **Sprite sheets.** Both revisions' name tables with the half-pixel UV
  formula, and lookup with the whole-texture default.
- **Material.** Enums, defaults, setters, the alpha blend state, and the
  64-bit bgfx render state. A state word is the set of its bit positions.
- **Math.** `MyClamp` and friends, `IsPowerOfTwo` on `uint64` as a
  bit-vector, and the `int32` vector types `ivec2`/`ivec3`/`ivec4` with
  explicit overflow bounds and C++ truncating division.

## Conventions

- JSON is a `Json` datatype whose objects are `map<string, Json>`. The
  non-const `operator[]` of nlohmann::json is modelled as `Json.Subscript`:
  it turns null into an object and inserts null on a miss. Iteration
  (`Json.Elements`) follows nlohmann: an array's elements, nothing for null,
  an object's values in key order, and a primitive once.
- Pointers are `Option`s. Game objects are their entity ids. Events carry a
  unique id in place of their address.
- `mat4::CreateSRT` is the uninterpreted constructor `Mat4.Srt`. A draw is
  an emitted `DrawCall`. The order in which flecs visits entities and
  registry entries is a parameter: any enumeration of the store or the
  registry.
- Floats are `real`: rounding is not modelled.
- The per-component JSON encoders of the definition classes are not in the
  modelled sources, so they are a `Codec` parameter. Round trips assume it
  inverts (`ComponentManager.CodecInverts`).
- The bgfx constants and `BGFX_STATE_*` macros are fields of a `Bgfx` value.
  They are constrained only as far as the packing relies on them: the write
  and cull masks are distinct single bits.

## Model

| member | source | states |
|---|---|---|
| `MathHelpers.Swap` | Source/Math/MathHelpers.h:38-43 | the two values come back exchanged |
| `MathHelpers.ClampReturn` | Source/Math/MathHelpers.h:54-65 | with min ≤ max the result lies in [min, max] and is the value itself when already inside; with min > max it is always max; it is always one of value, min, max |
| `MathHelpers.Clamp` | Source/Math/MathHelpers.h:45-52 | the in-place clamp stores exactly what `MyClamp_Return` returns, so the range and crossed-bounds facts carry over |
| `MathHelpers.IncreaseIfBigger` | Source/Math/MathHelpers.h:67-71 | the result is the larger of the two values |
| `MathHelpers.DecreaseIfLower` | Source/Math/MathHelpers.h:73-80 | the result is the smaller of the two, except that a zero value treated as infinite yields the new value |
| `MathHelpers.IsPowerOfTwo` | Source/Math/MathHelpers.h:82-86 | a power of two is non-zero and is 1 or even; `MathHelpers.IsPowerOfTwoIff` gives the full characterisation |
| `MathHelpers.SingleBitPosition` | Source/Math/MathHelpers.h:82-86 | the bit position found for a word is below 64, and a power of two is exactly the single bit at that position; this is the witness the power-of-two characterisation needs |
| `MathHelpers.IsPowerOfTwoIff` | Source/Math/MathHelpers.h:82-86 | `x > 0 && (x & (x-1)) == 0` holds exactly when x is 2^k for some k < 64 |
| `IntVectors.TruncDiv` | Source/Math/Vector.h:285 | C++ integer division: the quotient's magnitude is the magnitudes' floor quotient and its sign is the product of the operands' signs (truncation toward zero) (the vector divisions at lines 293 and 363 use it too) |
| `IntVectors.TruncDivFits` | Source/Math/Vector.h:285 | a 32-bit quotient fits in 32 bits unless it is INT32_MIN / -1, which is the one division the model excludes (the vector divisions at lines 293 and 363 use it too) |
| `IntVectors.Add` | Source/Math/Vector.h:294 | component-wise sum, required not to overflow int32 (the other vector sizes at lines 364 and 426) |
| `IntVectors.Sub` | Source/Math/Vector.h:295 | component-wise difference, required not to overflow int32 (the other vector sizes at lines 365 and 427) |
| `IntVectors.Mul` | Source/Math/Vector.h:292 | component-wise product of two ivec2 or ivec3, required not to overflow (the other vector sizes at line 362) |
| `IntVectors.Div` | Source/Math/Vector.h:293 | component-wise truncating quotient; requires non-zero divisor components and no INT32_MIN / -1 (the other vector sizes at line 363) |
| `IntVectors.Neg` | Source/Math/Vector.h:279 | every component negated; requires no INT32_MIN component (the other vector sizes at lines 349 and 425) |
| `IntVectors.AddScalar` | Source/Math/Vector.h:286 | the scalar is added to each component (the other vector sizes at line 356) |
| `IntVectors.SubScalar` | Source/Math/Vector.h:287 | the scalar is subtracted from each component (the other vector sizes at line 357) |
| `IntVectors.MulScalar` | Source/Math/Vector.h:284 | each component is multiplied by the scalar (the other vector sizes at line 354) |
| `IntVectors.DivScalar` | Source/Math/Vector.h:285 | each component is truncation-divided by a non-zero scalar (the other vector sizes at line 355) |
| `IntVectors.ScalarSub` | Source/Math/Vector.h:316 | `s - v` gives the vector whose sum with v is s in every component (the other vector sizes at lines 391 and 441) |
| `IntVectors.ScalarAdd` | Source/Math/Vector.h:315 | `s + v` gives the vector that exceeds v by s in every component (the other vector sizes at lines 390 and 440) |
| `IntVectors.ScalarMul` | Source/Math/Vector.h:313 | `s * v` multiplies every component by s (the other vector sizes at lines 388 and 438) |
| `IntVectors.ScalarOnEitherSide` | Source/Math/Vector.h:313-315 | for ivec2 and ivec3, `s + v` equals `v + s` and `s * v` equals `v * s` |
| `IntVectors.ScalarDiv` | Source/Math/Vector.h:314 | `s / v` truncation-divides the scalar by each component (the other vector sizes at lines 389 and 439) |
| `IntVectors.Index` | Source/Math/Vector.h:306 | `operator[]` requires 0 ≤ i < n and returns a component of the vector, x for index 0 (the other vector sizes at lines 376 and 429) |
| `IntVectors.IndexNamesComponents` | Source/Math/Vector.h:306 | in every size, index 0 is x, 1 is y, 2 is z and 3 is w (the other vector sizes at lines 376 and 429) |
| `IntVectors.Eq` | Source/Math/Vector.h:276 | component-wise `==` holds exactly when the two vectors are equal (the other vector sizes at lines 346 and 422) |
| `IntVectors.Neq` | Source/Math/Vector.h:277 | component-wise `!=` holds exactly when the two vectors differ (the other vector sizes at lines 347 and 423) |
| `IntVectors.With` | Source/Math/Vector.h:273-274 | exactly component i is replaced and every other component is kept (the other vector sizes at lines 342-344 and 417-420) |
| `IntVectors.WithX` | Source/Math/Vector.h:273 | `WithX` replaces component 0 only (the other vector sizes at lines 342 and 417) |
| `IntVectors.WithY` | Source/Math/Vector.h:274 | `WithY` replaces component 1 only (the other vector sizes at lines 343 and 418) |
| `IntVectors.WithZ` | Source/Math/Vector.h:344 | `WithZ` replaces component 2 only (the other vector sizes at line 419) |
| `IntVectors.WithW` | Source/Math/Vector.h:420 | `WithW` replaces component 3 of an ivec4 only |
| `IntVectors.EqualityIsValueEquality` | Source/Math/Vector.h:276-277 | component-wise `==` holds exactly when the vectors are equal, and `!=` is its exact negation (the other vector sizes at lines 346-347 and 422-423) |
| `IntVectors.ClampComponent` | Source/Math/Vector.h:269-271 | the per-component clamp of `ivec2`, the conditional `v<min ? min : v>max ? max : v`, lies in [min, max] when min ≤ max and keeps values already inside |
| `IntVectors.ClampX` | Source/Math/Vector.h:269 | only x is clamped; y is unchanged |
| `IntVectors.ClampY` | Source/Math/Vector.h:270 | only y is clamped; x is unchanged |
| `IntVectors.ClampXY` | Source/Math/Vector.h:271 | both components are clamped, each into [min, max] when min ≤ max |
| `IntVectors.ClampAgreesWithMyClamp` | Source/Math/Vector.h:269-271 | with min ≤ max the vector clamp is `MyClamp_Return` |
| `IntVectors.CrossedBoundsDisagree` | Source/Math/MathHelpers.h:54-65 | with crossed bounds the two clamps differ: the vector clamp tests min first and turns 0 into 5 for [5, 1], while `MyClamp_Return` raises to min and then lowers to max, giving 1 |
| `IntVectors.LengthSquared` | Source/Math/Vector.h:332 | x² + y² + z² is never negative, and is zero only for the zero vector |
| `IntVectors.NegInvolution` | Source/Math/Vector.h:279 | negating twice gives the vector back (the other vector sizes at lines 349 and 425) |
| `IntVectors.SubThenAdd` | Source/Math/Vector.h:294-295 | (a − b) + b = a when a − b does not overflow (the other vector sizes at lines 364-365 and 426-427) |
| `StringOrder.KeyLessTransitive` | Source/Components/ComponentManager.cpp:69 | byte-wise string order (std::map key order) is transitive |
| `StringOrder.KeyLessTotal` | Source/Components/ComponentManager.cpp:69 | any two distinct keys are ordered one way |
| `StringOrder.KeyLessIrreflexive` | Source/Components/ComponentManager.cpp:69 | no key precedes itself |
| `StringOrder.KeyLessAsymmetric` | Source/Components/ComponentManager.cpp:69 | no two keys precede each other |
| `StringOrder.LeastKey` | Source/Resources/ResourceManager.cpp:25-51 | every non-empty key set has a member that precedes all others |
| `StringOrder.SortedKeys` | Source/Resources/ResourceManager.cpp:25-51 | the keys of a map in iteration order: each key exactly once, strictly increasing |
| `Json.Elements` | Source/Scenes/Scene.cpp:123 | range-for over a json value visits an array's items, nothing for null, and a primitive itself once; over an object it visits one value per key, the i-th being the value of the i-th key in sorted order |
| `Json.ElementsOfObject` | Source/Scenes/Scene.cpp:123 | range-for over an object visits the value of every member and nothing else |
| `Json.Subscript` | Source/Scenes/Scene.cpp:121 | non-const `operator[]` works on null or objects only: it yields the stored value or null, and leaves the key present |
| `Json.SetField` | Source/Scenes/Scene.cpp:116 | assigning through `operator[]` makes a null into an object, stores the value under the key and keeps every other key |
| `Components.CStr` | Source/Components/CoreComponents.h:10-18 | reading a char buffer as a C string stops at the first NUL: the result is the longest NUL-free prefix |
| `Components.CStrOfPlain` | Source/Components/CoreComponents.h:15-18 | a NUL-free string reads as itself |
| `Components.CStrStopsAtNul` | Source/Components/CoreComponents.h:15-18 | whatever follows the first NUL is ignored |
| `Components.NewNameData` | Source/Components/CoreComponents.h:12-18 | `NameData(name)` needs the name (to its first NUL) to be at most 31 characters, the `strncpy_s` constraint with count equal to the 32-byte buffer; the buffer then holds the name followed by a NUL |
| `Components.StoredExactly` | Source/Components/CoreComponents.h:15-18 | a NUL-free name shorter than 32 is read back exactly |
| `Components.Attached` | Source/Components/CoreComponents.h:10-50 | the kinds an entity carries are exactly the filled slots |
| `Components.Lookup` | Source/Components/CoreComponents.h:10-50 | a kind is found exactly when attached, and what is found has that kind |
| `Components.Attach` | Source/Components/CoreComponents.h:10-50 | attaching a component sets its kind's slot, adds the kind, and leaves every other kind as it was |
| `Components.LookupDetermines` | Source/Components/CoreComponents.h:10-50 | an entity is determined by its lookups: at most one component per kind and nothing else |
| `EntityStore.Create` | Source/Objects/GameObject.cpp:21-25 | `create()` hands out an id that is not live and was never handed out, adds it with no components, and keeps the store valid |
| `EntityStore.Destroy` | Source/Objects/GameObject.cpp:39-42 | `destroy()` removes the entity and all its components and touches no other entity |
| `EntityStore.Update` | Source/Components/ComponentManager.cpp:96-101 | writing a live entity's components replaces that entity's record only |
| `EntityStore.Emplace` | Source/Objects/GameObject.cpp:31-35 | `emplace<T>` needs T absent, then sets T alone on that entity and changes no other entity |
| `EntityStore.Set` | Source/Components/ComponentManager.cpp:93-101 | flecs `set<T>`: attaches or overwrites T on that entity and changes no other kind or entity |
| `EntityStore.Ensure` | Source/Components/ComponentManager.cpp:93 | `ensure<T>` returns the existing T untouched, or attaches and returns the initial value when T is missing; nothing else changes |
| `EntityStore.DestroyedIdNotReused` | Source/Objects/GameObject.cpp:21-42 | an entity created after a destroy never gets the destroyed id |
| `EntityStore.CreatesAreDistinct` | Source/Objects/GameObject.cpp:21-25 | two consecutive creates give distinct ids |
| `ComponentManager.RegistryHoldsThree` | Source/Components/ComponentManager.cpp:14-23 | the registry holds exactly the Name, Transform and Mesh definitions, with distinct names, and no TransformMatrixData definition |
| `ComponentManager.Decode` | Source/Components/ComponentManager.cpp:73 | a definition's loader produces a component of its own kind |
| `ComponentManager.SaveKind` | Source/Components/ComponentManager.cpp:56-58 | one definition's save writes its key exactly when the component is attached, and leaves every other key as it was |
| `ComponentManager.SaveKinds` | Source/Components/ComponentManager.cpp:53-60 | the writes over a list of kinds leave the json null or an object, and a list with no attached kind leaves it untouched |
| `ComponentManager.SaveKindsKeys` | Source/Components/ComponentManager.cpp:53-60 | after the writes a key is present exactly when it was already present or is the definition name of an attached kind of the list |
| `ComponentManager.SaveKindsKeeps` | Source/Components/ComponentManager.cpp:53-60 | a key that no attached kind of the list writes keeps its value |
| `ComponentManager.SaveKindsValues` | Source/Components/ComponentManager.cpp:53-60 | over a list without repeats, each attached kind's key holds that component's encoding, since later writes use other names |
| `ComponentManager.SaveComponents` | Source/Components/ComponentManager.cpp:48-61 | save writes exactly one key per attached component, named by its definition, and none for absent ones; it requires every attached kind to be registered |
| `ComponentManager.SavedEntryIff` | Source/Components/ComponentManager.cpp:53-60 | a saved object contains a definition's key if and only if that component is attached |
| `ComponentManager.LoadKinds` | Source/Components/ComponentManager.cpp:69-75 | walking the registry, a kind is loaded from its key exactly when the key is present; other kinds are untouched |
| `ComponentManager.LoadRecord` | Source/Components/ComponentManager.cpp:69-75 | load decodes every registered kind whose key is present and leaves every other kind, including unknown keys, alone |
| `ComponentManager.LoadComponents` | Source/Components/ComponentManager.cpp:63-76 | load changes only the loaded entity, as `LoadRecord` says |
| `ComponentManager.LoadOrderIrrelevant` | Source/Components/ComponentManager.cpp:69 | any registry iteration order gives the same loaded entity |
| `ComponentManager.DecodeEncode` | Source/Components/ComponentManager.cpp:56-73 | with an inverting codec a definition's load undoes its save |
| `ComponentManager.SaveLoadRoundTrip` | Source/Components/ComponentManager.cpp:48-76 | saving an entity with registered components and loading the result into a bare entity reproduces its components |
| `ComponentManager.AddComponentFromMenu` | Source/Components/ComponentManager.cpp:38-45 | an enabled (not yet attached) item adds that kind alone; a greyed-out item or no click changes nothing; no other entity or kind changes |
| `ComponentManager.ResourceLabel` | Source/Components/ComponentManager.cpp:114-131 | a null mesh or material shows "None" without being read; otherwise its name |
| `ComponentManager.DisplayComponents` | Source/Components/ComponentManager.cpp:78-134 | the inspector ensures a TransformData (existing, initial or edited), changes no other kind or entity, and shows the name line and the "Mesh: " / "Material: " lines exactly when those components are present |
| `LegacyComponentManager.SetNested` | Source/Components/CoreComponents.cpp:24 | `j[outer][inner] = v` succeeds on null/object levels only, stores v there and keeps every other outer key |
| `LegacyComponentManager.Vec3Json` | Source/Components/CoreComponents.cpp:30-43 | a vector is written as a 3-element array in x, y, z order |
| `LegacyComponentManager.SaveName` | Source/Components/CoreComponents.cpp:21-25 | "NameData" holds {"Name": name} when NameData is attached, the value is left alone when it is not, and no other key changes |
| `LegacyComponentManager.SaveTransform` | Source/Components/CoreComponents.cpp:27-44 | "TransformData" holds the Position, Rotation and Scale arrays when TransformData is attached, and no other key changes |
| `LegacyComponentManager.SaveComponents` | Source/Components/CoreComponents.cpp:16-52 | "NameData" is present exactly when NameData is (or was already), holding {"Name": name}; "TransformData" likewise with Position, Rotation and Scale arrays; "MeshData" is never written; other keys are kept |
| `LegacyComponentManager.LoadComponents` | Source/Components/CoreComponents.cpp:54-56 | the old load is a no-op: the store is unchanged for any input |
| `LegacyComponentManager.RoundTripLosesComponents` | Source/Components/CoreComponents.cpp:16-56 | an entity with a name or transform saves to a non-null object, and loading it back into a bare entity does not restore it |
| `GameObjects.NewBare` | Source/Objects/GameObject.cpp:21-25 | the bare constructor creates one fresh entity with no components |
| `GameObjects.New` | Source/Objects/GameObject.cpp:27-37 | the convenience constructor creates a fresh entity with TransformData(pos, 0, 1) and the name; MeshData(pMesh, pMaterial) is attached if and only if pMesh is non-null, even with a null material; other entities are untouched |
| `GameObjects.Delete` | Source/Objects/GameObject.cpp:39-42 | the destructor removes exactly this object's entity |
| `GameObjects.DefaultUpdate` | Source/Objects/GameObject.cpp:44-46 | the default update changes nothing |
| `GameObjects.SaveToJson` | Source/Objects/GameObject.cpp:48-51 | saving writes one entry per attached component under its definition's name, encoded, and keeps every other key of the JSON |
| `GameObjects.LoadFromJson` | Source/Objects/GameObject.cpp:53-56 | loading sets every kind whose definition name is a key to its decoded value, keeps the other kinds, and touches no other entity |
| `GameObjects.CopyThroughJson` | Source/Objects/GameObject.cpp:48-56 | saving an object through the component manager and loading into a new bare object copies its components and leaves the others alone |
| `FrameworkGameObjects.New` | Framework/Source/Objects/GameObject.cpp:19-29 | the older constructor adds exactly one fresh entity, carrying the same initial components as the current revision |
| `FrameworkGameObjects.Delete` | Framework/Source/Objects/GameObject.cpp:31-34 | the older destructor removes exactly this object's entity |
| `FrameworkGameObjects.RevisionsAgree` | Framework/Source/Objects/GameObject.cpp:19-29 | both revisions' constructors build the same store and object |
| `EventManager.AddEvent` | Source/EventSystem/EventManager.cpp:31-35 | the event goes to the back with the given delay; the rest of the queue is unchanged |
| `EventManager.DispatchAllEvents` | Source/EventSystem/EventManager.cpp:37-70 | the pop/re-push loop that stops after the last event present at the start computes exactly the functional dispatch: same queue, game state and deliveries |
| `EventManager.Step` | Source/EventSystem/EventManager.cpp:51-64 | one popped event is delivered exactly when its reduced delay is not positive, and then the queue gains what the handler queued; otherwise it is re-pushed with the reduced delay and nothing else changes |
| `EventManager.Visit` | Source/EventSystem/EventManager.cpp:43-68 | visiting events never drops a delivery already made and adds at most one per visited entry; `EventManager.VisitShift` states that earlier results stay as a prefix |
| `EventManager.Dispatch` | Source/EventSystem/EventManager.cpp:37-70 | a dispatch delivers at most as many events as were queued, and an empty queue changes nothing |
| `EventManager.DispatchEmpty` | Source/EventSystem/EventManager.cpp:39-40 | dispatching an empty queue changes nothing |
| `EventManager.DispatchStep` | Source/EventSystem/EventManager.cpp:45-69 | dispatch handles the front event, then the rest, with the handler's output after the front's |
| `EventManager.Due` | Source/EventSystem/EventManager.cpp:51-52 | the events whose delay runs out are drawn from the queue |
| `EventManager.Waiting` | Source/EventSystem/EventManager.cpp:51-64 | each waiting event keeps a positive delay reduced by exactly deltaTime |
| `EventManager.VisitedOnce` | Source/EventSystem/EventManager.cpp:43-68 | every event present at the start is either delivered or re-queued, never both: with distinct ids, it is delivered exactly when its reduced delay is not positive and re-queued exactly when it is positive |
| `EventManager.DueMembers` | Source/EventSystem/EventManager.cpp:51-52 | an event is due exactly when some queued entry holds it with a reduced delay that is not positive |
| `EventManager.DueAt` | Source/EventSystem/EventManager.cpp:51-59 | with distinct ids, the entry at a position is delivered exactly when its reduced delay is not positive |
| `EventManager.WaitingAt` | Source/EventSystem/EventManager.cpp:60-64 | with distinct ids, the entry at a position is re-queued exactly when its reduced delay is positive |
| `EventManager.WaitingIdsWithin` | Source/EventSystem/EventManager.cpp:60-64 | only events already queued are re-pushed |
| `EventManager.IdsAppend` | Source/EventSystem/EventManager.cpp:63 | the ids of a queue with events pushed at the back are the old ids followed by the new ones |
| `EventManager.DeliveredInQueueOrder` | Source/EventSystem/EventManager.cpp:52-59 | the delivered events are exactly the due ones, in queue order |
| `EventManager.QueueHoldsWaitingAndAdded` | Source/EventSystem/EventManager.cpp:45-69 | as a multiset, the final queue is exactly the waiting events plus the events handlers added, and nothing else |
| `EventManager.QueueLengthBalance` | Source/EventSystem/EventManager.cpp:45-69 | final length = initial length − delivered + added |
| `EventManager.WaitingKeepOrder` | Source/EventSystem/EventManager.cpp:60-64 | restricted to the events present at the start, the final queue is the waiting events in their original order |
| `EventManager.KeepIdsAppend` | Source/EventSystem/EventManager.cpp:63 | filtering by id distributes over re-pushing at the back |
| `EventManager.VisitShift` | Source/EventSystem/EventManager.cpp:45-69 | dispatching from an intermediate state equals dispatching the remaining events and appending the results |
| `CoreSystems.RefreshMatrix` | Source/Components/CoreSystems.cpp:22-27 | with both Transform and TransformMatrix the matrix becomes SRT(scale, rotation, position); otherwise nothing changes; the transform is never written |
| `CoreSystems.UpdateAllTransforms` | Source/Components/CoreSystems.cpp:18-28 | afterwards every matrix matches its transform; entities lacking either component are untouched; no TransformData, name or mesh changes |
| `CoreSystems.CurrentIsFixedPoint` | Source/Components/CoreSystems.cpp:25 | a store whose matrices are current is left as it is |
| `CoreSystems.UpdateIdempotent` | Source/Components/CoreSystems.cpp:25 | running the update twice is running it once |
| `CoreSystems.MeshDraws` | Source/Components/CoreSystems.cpp:34-42 | over an enumeration, one draw per entity with a matrix and a non-null mesh, using the cached matrix and the mesh's material |
| `CoreSystems.MeshDrawsDistinct` | Source/Components/CoreSystems.cpp:34-42 | over an enumeration without repeats, no entity is drawn twice |
| `CoreSystems.DrawAllMeshes` | Source/Components/CoreSystems.cpp:30-43 | exactly one draw per entity with TransformMatrixData and MeshData whose pMesh is non-null, drawn with that entity's own mesh and material and its cached matrix; no component changes |
| `CoreSystems.StaleMatrixDrawn` | Source/Components/CoreSystems.cpp:39 | without the update system, a stale matrix is drawn rather than the transform's SRT |
| `Scenes.FindFirst` | Source/Scenes/Scene.cpp:67 | `std::find` yields the first position holding the object |
| `Scenes.EraseKeepsValid` | Source/Scenes/Scene.cpp:67-70 | erasing the object at a position removes its only occurrence, and with its entity destroyed the scene stays valid |
| `Scenes.OnEvent` | Source/Scenes/Scene.cpp:60-72 | a removal event for an object in the list erases that occurrence only, keeps the order of the rest, shrinks the list by one and destroys its entity alone; any other event changes nothing |
| `Scenes.UpdateEach` | Source/Scenes/Scene.cpp:76-79 | each object's update is called exactly once, in list order |
| `Scenes.UpdateEachSingle` | Source/Scenes/Scene.cpp:76-79 | over a one-object list, the loop is that object's update |
| `Scenes.UpdateEachAppend` | Source/Scenes/Scene.cpp:76-79 | updating a list a + b is updating a, then updating b from the resulting store |
| `Scenes.UpdateLastRunsLast` | Source/Scenes/Scene.cpp:74-80 | the last object's update runs last, on the store every earlier update has produced |
| `Scenes.Update` | Source/Scenes/Scene.cpp:74-80 | updating a scene keeps its list and visits it in order |
| `Scenes.DefaultUpdateChangesNothing` | Source/Scenes/Scene.cpp:74-80 | with the default object update, the scene's update leaves the store as it was |
| `Scenes.ViewDrawsOf` | Source/Scenes/Scene.cpp:93-103 | over an enumeration, one draw per entity with Transform and a non-null mesh, using SRT of its transform |
| `Scenes.ViewDrawsDistinct` | Source/Scenes/Scene.cpp:93-103 | over an enumeration without repeats, no entity is drawn twice |
| `Scenes.DrawIntoView` | Source/Scenes/Scene.cpp:87-104 | exactly one draw per entity with TransformData and MeshData whose pMesh is non-null, drawn with that entity's own mesh and material and SRT(scale, rotation, position) of its transform |
| `Scenes.DrawPathsAgree` | Source/Scenes/Scene.cpp:87-104 | when entities with a mesh carry a matrix exactly when they carry a transform, the update system followed by the mesh system draws what `DrawIntoView` draws |
| `Scenes.SaveToJson` | Source/Scenes/Scene.cpp:106-117 | "Objects" becomes an array with one entry per object, in list order, each the object's component save into a null json; other keys are kept |
| `Scenes.LoadObject` | Source/Scenes/Scene.cpp:125-126 | one entry gives a new entity at the counter, which advances by one; that entity holds what the entry loads to and no other entity changes |
| `Scenes.LoadEach` | Source/Scenes/Scene.cpp:123-128 | one object per entry, the counter advanced by the number of entries, and the store kept valid |
| `Scenes.LoadEachIds` | Source/Scenes/Scene.cpp:123-128 | the i-th loaded object is the entity at counter + i, and it is live |
| `Scenes.LoadEachKeepsLive` | Source/Scenes/Scene.cpp:123-128 | every entity live before the load is still live with the same components |
| `Scenes.LoadEachContents` | Source/Scenes/Scene.cpp:123-128 | the i-th loaded object holds exactly what the i-th entry loads to on a bare entity |
| `Scenes.AppendLoaded` | Source/Scenes/Scene.cpp:123-128 | the loaded objects come after the existing ones, which stay; all new objects are fresh and hold what their entries load to |
| `Scenes.LoadFromJson` | Source/Scenes/Scene.cpp:119-129 | loading works on a null or object scene json, iterates whatever `jScene["Objects"]` yields (null when missing) and appends, leaving the key present |
| `Scenes.AppendedFresh` | Source/Scenes/Scene.cpp:123-128 | appending objects with ids at or past the counter keeps the scene valid |
| `Scenes.SaveLoadRoundTrip` | Source/Scenes/Scene.cpp:106-129 | saving a scene and loading it into an empty scene gives as many objects, in order, with the same components |
| `Scenes.AddGameObject` | Source/Scenes/Scene.cpp:157-160 | "Add GameObject" appends exactly one fresh object named "New Object" at the origin with unit scale and no MeshData; nothing else changes |
| `Scenes.AppendOneKeepsValid` | Source/Scenes/Scene.cpp:159 | pushing back an object whose entity is new to the store keeps the scene valid and the earlier objects in place |
| `Scenes.DisplayName` | Source/Scenes/Scene.cpp:166-176 | the displayed name is "No Name" unless NameData is present with a non-empty name |
| `Scenes.ClickObject` | Source/Scenes/Scene.cpp:187-190 | clicking an object selects it |
| `Scenes.DeleteFromMenu` | Source/Scenes/Scene.cpp:195-202 | "Delete" clears the selection only if that object was selected and queues a removal event for it; the list is untouched |
| `ResourceManager.WithTable` | Source/Resources/ResourceManager.cpp:53-96 | the per-type tables are separate: replacing one leaves the others |
| `ResourceManager.Add` | Source/Resources/ResourceManager.cpp:53-96 | a new name is stored in its type's table; a registered name leaves everything unchanged; other tables never change |
| `ResourceManager.Get` | Source/Resources/ResourceManager.cpp:98-146 | lookup finds exactly the registered names and returns the stored resource, null otherwise, without inserting |
| `ResourceManager.AddThenGet` | Source/Resources/ResourceManager.cpp:53-60 | after adding under a new name, lookup of that name returns the resource (lookup at lines 98-106) |
| `ResourceManager.FirstRegistrationWins` | Source/Resources/ResourceManager.cpp:55-59 | adding a second resource under a registered name leaves the first in place |
| `ResourceManager.TablesIndependent` | Source/Resources/ResourceManager.cpp:53-96 | adding to one type never changes lookups of another |
| `ResourceManager.DeleteTable` | Source/Resources/ResourceManager.cpp:27-30 | deleting a table visits each stored resource once |
| `ResourceManager.DeletionsCoverTable` | Source/Resources/ResourceManager.cpp:27-30 | the deletions of one table are all of that table's type and stored resources, and every stored resource is among them |
| `ResourceManager.DeletionsDistinct` | Source/Resources/ResourceManager.cpp:27-30 | when each resource is stored under its own name, the deletions of one table are pairwise distinct |
| `ResourceManager.Destroy` | Source/Resources/ResourceManager.cpp:25-51 | the destructor deletes every stored resource exactly once and nothing that was not stored, so rejected duplicates are never deleted |
| `ResourceManager.EveryTypeDestroyed` | Source/Resources/ResourceManager.cpp:25-51 | the destructor covers every resource type |
| `SpriteSheets.InfoFor` | Source/Resources/SpriteSheet.cpp:36-43 | the offset is the half-pixel inset corner and the scale the size minus one pixel, both over the sheet size |
| `SpriteSheets.InfoDeterminesRect` | Source/Resources/SpriteSheet.cpp:36-43 | the UV info determines the sprite's pixel rectangle again |
| `SpriteSheets.BuildTable` | Source/Resources/SpriteSheet.cpp:32-44 | the table holds exactly one entry per distinct sprite name (read as a C string) |
| `SpriteSheets.LastWins` | Source/Resources/SpriteSheet.cpp:32-44 | a name's entry is the info of its last sprite in the file |
| `SpriteSheets.Construct` | Source/Objects/SpriteSheet.cpp:21-33 | the constructor's loop over the sprites builds that table |
| `SpriteSheets.GetSpriteByName` | Source/Resources/SpriteSheet.cpp:51-59 | a registered name returns its info, an unknown one scale (1,1) and offset (0,0); the table is not changed |
| `SpriteSheets.LookupAfterConstruct` | Source/Objects/SpriteSheet.cpp:40-48 | after construction, lookup gives the last sprite's info for a name in the file and the whole texture otherwise |
| `Materials.EquationAt` | Source/Resources/Material.h:24-33 | the blend equations number 0 to 6 one to one |
| `Materials.FuncAt` | Source/Resources/Material.h:35-49 | the blend functions number 0 to 11 one to one |
| `Materials.SameAsColorIsLast` | Source/Resources/Material.h:32-48 | `SameAsColor` is last, 6 and 11, so every other enumerator indexes its conversion table |
| `Materials.DepthAt` | Source/Resources/Material.h:64-74 | the depth tests number 0 to 7 one to one |
| `Materials.DepthOrdinalsRoundTrip` | Source/Resources/Material.h:64-74 | depth tests run from Less = 0 to Always = 7 |
| `Materials.DepthBits` | Source/Resources/Material.cpp:100 | the depth part is a `uint64`: no bit above 63; `Materials.DepthIsIntegerSum` gives its value |
| `Materials.FlagsAreDistinctBits` | Source/Resources/Material.h:53-61 | the flags are distinct powers of two, so WriteRGB and WriteRGBA, written as sums, equal the ORs of their parts |
| `Materials.ValidMasksDisjoint` | Source/Resources/Material.cpp:93-98 | distinct bit positions give disjoint bgfx masks |
| `Materials.SomeValidBgfx` | Source/Resources/Material.cpp:93-100 | the assumptions about the bgfx constants can be met |
| `Materials.EquationTable` | Source/Resources/Material.cpp:64-72 | the equation table is 0 for None followed by ADD … MAX |
| `Materials.FuncTable` | Source/Resources/Material.cpp:74-87 | the function table has 11 entries |
| `Materials.NewMaterialWithUV` | Source/Resources/Material.cpp:20-31 | the constructor sets the given fields and the member defaults (Add, SameAsColor, SrcAlpha/InvSrcAlpha, SameAsColor, WriteRGBA\|CullCCW, Less), except that without alpha the colour equation is None |
| `Materials.NewMaterial` | Source/Resources/Material.cpp:33-36 | the five-argument constructor is the full one with UV scale (1,1) and offset (0,0) |
| `Materials.SetColorBlend` | Source/Resources/Material.h:100 | sets the three colour-blend fields and nothing else |
| `Materials.SetAlphaBlend` | Source/Resources/Material.h:101 | sets the three alpha-blend fields and nothing else; called with no arguments it resets all three to `SameAsColor` |
| `Materials.AlphaState` | Source/Resources/Material.cpp:107-141 | no colour equation gives 0; alpha `SameAsColor` combines the colour equation and functions only; otherwise the separate macros over all six converted settings |
| `Materials.AlphaStateIgnoresUnusedFields` | Source/Resources/Material.cpp:109-123 | with the alpha equation `SameAsColor`, materials that agree on the colour equation and functions (or both lack a colour equation) have the same alpha state |
| `Materials.ConstructedBlending` | Source/Resources/Material.cpp:27-30 | a material built without alpha never blends, whatever alpha settings follow; one built with alpha blends by ADD with SRC_ALPHA / INV_SRC_ALPHA (the alpha state at lines 109-123) |
| `Materials.AlphaEquationAloneUndefined` | Source/Resources/Material.cpp:124-137 | setting only the alpha equation leaves the alpha functions at `SameAsColor`, index 11, past the end of the 11-entry table: the separate path is then undefined |
| `Materials.ResetAlphaBlendFollowsColor` | Source/Resources/Material.h:101 | after `SetAlphaBlend()` the alpha state depends on the colour settings only |
| `Materials.MaskUnion` | Source/Resources/Material.cpp:93-98 | the union of a flag table's masks contains each mask |
| `Materials.TranslateFlags` | Source/Resources/Material.cpp:93-98 | the six conditional ORs hold the mask of every set flag and no bit outside the masks |
| `Materials.TranslateFlagsIff` | Source/Resources/Material.cpp:93-98 | with disjoint masks, a flag's bgfx bit is in the translation if and only if the flag is set |
| `Materials.TranslateBySelection` | Source/Resources/Material.cpp:93-98 | flag words that agree on the six flags the translation checks translate alike |
| `Materials.WordValueRoundTrip` | Source/Resources/Material.cpp:100 | a 64-bit word read as a number and written back is the word |
| `Materials.ValueWordRoundTrip` | Source/Resources/Material.cpp:100 | a number below 2^64 written as a word and read back is the number |
| `Materials.LessDepthIsLess` | Source/Resources/Material.cpp:100 | the `Less` depth test contributes exactly `BGFX_STATE_DEPTH_TEST_LESS` |
| `Materials.DepthIsIntegerSum` | Source/Resources/Material.cpp:100 | the depth part is the word of the integer sum LESS + ordinal, whenever the sum fits in 64 bits |
| `Materials.RenderState` | Source/Resources/Material.cpp:89-105 | the state holds the masks of the set flags, the depth part and the alpha state, and no other bit |
| `Materials.FlagBitIff` | Source/Resources/Material.cpp:93-98 | with distinct single-bit masks, each write or cull bit not carried by the depth or alpha part is set if and only if its flag is |
| `Materials.WriteZIgnored` | Source/Resources/Material.cpp:93-98 | WriteZ contributes nothing to the state |
| `Materials.DefaultRenderState` | Source/Resources/Material.h:123-124 | a constructed material writes R, G, B, A, culls counter-clockwise and tests depth with LESS; it does not cull clockwise unless the depth or alpha part carries that bit |

## Left out

- Window, input, ImGui widgets, GPU calls, file reading and timers. The ImGui
  menus are modelled only by their state effects: which item was clicked, and
  what the inspector edited, are parameters.
- Floating-point rounding. Floats are `real`, so the sprite UV formula and
  event delays are exact.
- The flecs/entt and nlohmann::json internals. The order in which flecs visits
  entities and registry entries is a parameter. JSON parsing and printing are
  not modelled.
- The component definition classes (`NameComponentDefinition` and the others)
  are not part of this model. Their encoders are the `Codec` parameter.
- `SpriteSheets.InfoFor`: requires a non-zero sheet size. With a zero size,
  the float division gives infinities, which reals cannot express. The
  sprite-name padding of the file format is not modelled; names are read up
  to their first NUL.
- `EventManager.DispatchAllEvents`: the handler is a parameter that returns
  the new game state and the events it queued. What the game does with an
  event beyond that is not modelled, apart from the scene's removal
  (`Scenes.OnEvent`). The event ids must be distinct, standing in for
  distinct addresses.
- `Scenes.DeleteFromMenu`: the delay of the queued event is a parameter. The
  source passes the default argument of `AddEvent`, which is not part of the
  modelled files.
- The Scene destructor and `Scene::Draw` are not modelled: the destructor
  deletes the objects, and `Draw` only forwards to `DrawIntoView`.
- `Scenes.OnEvent`: requires the target to be in the list, because erasing
  `end()` is undefined. That case arises when the same object is deleted
  twice before a dispatch: the second removal event finds nothing.
- `ComponentManager.SaveComponents`: the definition classes are not part of
  this model. The source hands each definition the existing node at its key,
  by reference. The model assumes the definition replaces that node with its
  encoding, which drops any fields the node already held. Only a JSON that
  already has a definition's key shows the difference; the scene saves into
  a fresh null value. The requirement that every attached kind be registered
  excludes the null definition that the source would dereference.
- `ComponentManager.LoadKinds`: the source hands each definition's
  `LoadFromJSON` the whole entity along with its JSON node. The model assumes
  the definition sets only its own component, computed from that node alone,
  and replaces any component of that kind the entity already had. The
  results that rest on this assumption are `ComponentManager.LoadOrderIrrelevant`,
  `ComponentManager.LoadRecord`, `ComponentManager.LoadComponents`, both
  `SaveLoadRoundTrip` lemmas and `GameObjects.CopyThroughJson`.
- `ComponentManager.SaveKind`: makes the same replace-the-node assumption
  for the one key it writes.
- `ComponentManager.SaveKinds`: makes the same assumption for every key it
  writes, so its result is stated only under it.
- `ComponentManager.SaveKindsValues`: states that each written key holds the
  encoding, whatever the key held before; that is the replace-the-node
  assumption.
- `GameObjects.SaveToJson` inherits that assumption from the component
  manager's save.
- `Components.NewNameData`: a name is a sequence of characters, one per
  byte of the C string. A multi-byte UTF-8 name whose byte length passes 31
  is not covered, and `strncpy_s` would reject it.
- `ComponentManager.DisplayComponents`: the name and the resource names are
  shown verbatim. `ImGui::Text` reads its first argument as a printf format,
  so a name holding `%` would be formatted, not printed; this is not modelled.
- `ComponentManager.AddComponentFromMenu`: the added component is a
  parameter. For "Name", flecs `add<NameData>()` needs a default
  constructor, which `NameData` lacks; what that does is not modelled.
- `EntityStore.DestroyedIdNotReused`: ids here are never reused. flecs and
  EnTT recycle an id with a new generation, so this holds for the generation
  as a whole, not for the index bits alone.
- `Scenes.DrawIntoView` and `CoreSystems.DrawAllMeshes`: require every drawn
  mesh to have a material, because `Mesh::Draw` dereferences it.
- `Materials.RenderState`: the real bgfx constant values are not modelled.
  With them, `LESS + ordinal` for any test other than `Less` would carry into
  the write bits, since the enumerators are not shifted. The model states the
  sum exactly (`Materials.DepthIsIntegerSum`) but does not claim bgfx's
  encoding.
- `Materials.AlphaState`: the `BGFX_STATE_BLEND_*` macros are uninterpreted
  functions. The separate-function argument order is kept as written (source
  colour, source alpha, destination colour, destination alpha), but nothing is
  claimed about what bgfx makes of it. bgfx documents the macro as (source
  RGB, destination RGB, source alpha, destination alpha), so the middle two
  may be swapped; with the macros uninterpreted, the model cannot show it.
- Material setters other than the blend setters (`SetShader`,
  `SetRenderStateFlags`, `SetDepthTest` and the rest) are plain field
  assignments, written as Dafny record updates. `m_ControlPerc` and the
  editor property panel are not modelled.
- `Materials.FlagBitIff`: the iff is stated for bits that the depth and alpha
  parts do not carry, because the source ORs those parts into the same word
  without masking.
- `IntVectors.Add` and the other vector arithmetic: they require that no
  component overflows int32, instead of modelling wrap-around.
  `IntVectors.LengthSquared` requires the same of its sum. Component-wise
  multiply and divide exist for `ivec2` and `ivec3` only, as in the header.
- The float vectors, matrices, random numbers and `fequal` are not modelled.
