/** The ECS registry (flecs world / entt registry) reduced to what the core
    uses: opaque entity ids handed out by a counter that never reuses an id,
    and, per live entity, at most one component of each kind. */
module EntityStore {
  import opened Wrappers
  import opened Components

  type Entity = nat

  datatype Store = Store(next: nat, live: map<Entity, Components>)

  const EmptyStore := Store(0, map[])

  /** Every live id was issued by the counter. */
  predicate Valid(s: Store) {
    forall e :: e in s.live ==> e < s.next
  }

  /** `create()`: a fresh entity with no components. */
  function Create(s: Store): (r: (Store, Entity))
    requires Valid(s)
    ensures r.1 !in s.live
    ensures r.0.live == s.live[r.1 := NoComponents]
    ensures Valid(r.0)
    ensures r.1 >= s.next && r.0.next > r.1
  {
    (Store(s.next + 1, s.live[s.next := NoComponents]), s.next)
  }

  /** `destroy(e)`: removes the entity and all its components. */
  function Destroy(s: Store, e: Entity): (r: Store)
    requires e in s.live
    ensures r.live.Keys == s.live.Keys - {e}
    ensures forall o :: o in r.live ==> r.live[o] == s.live[o]
    ensures r.next == s.next
    ensures Valid(s) ==> Valid(r)
  {
    Store(s.next, s.live - {e})
  }

  predicate HasComponent(s: Store, e: Entity, k: Kind)
    requires e in s.live
  {
    Has(s.live[e], k)
  }

  /** Replaces the component record of `e`. */
  function Update(s: Store, e: Entity, cs: Components): (r: Store)
    requires e in s.live
    ensures r.live == s.live[e := cs] && r.next == s.next
    ensures Valid(s) ==> Valid(r)
  {
    s.(live := s.live[e := cs])
  }

  /** entt `emplace<T>`: attaching a kind the entity already has is an
      assertion failure in entt, hence the precondition. */
  function Emplace(s: Store, e: Entity, c: Component): (r: Store)
    requires e in s.live && !HasComponent(s, e, c.KindOf())
    ensures r.live.Keys == s.live.Keys && r.next == s.next
    ensures Lookup(r.live[e], c.KindOf()) == Some(c)
    ensures forall k :: k != c.KindOf() ==> Lookup(r.live[e], k) == Lookup(s.live[e], k)
    ensures forall o :: o in s.live && o != e ==> r.live[o] == s.live[o]
  {
    Update(s, e, Attach(s.live[e], c))
  }

  /** flecs `set<T>`: attaches or overwrites. */
  function Set(s: Store, e: Entity, c: Component): (r: Store)
    requires e in s.live
    ensures r.live.Keys == s.live.Keys && r.next == s.next
    ensures Lookup(r.live[e], c.KindOf()) == Some(c)
    ensures forall k :: k != c.KindOf() ==> Lookup(r.live[e], k) == Lookup(s.live[e], k)
    ensures forall o :: o in s.live && o != e ==> r.live[o] == s.live[o]
  {
    Update(s, e, Attach(s.live[e], c))
  }

  /** flecs `add<T>` / `ensure<T>`: attaches `initial` (the default-constructed
      value) only when the kind is missing; an existing component is kept. The
      component the entity ends up with is returned. */
  function Ensure(s: Store, e: Entity, initial: Component): (r: (Store, Component))
    requires e in s.live
    ensures r.0.live.Keys == s.live.Keys && r.0.next == s.next
    ensures Lookup(r.0.live[e], initial.KindOf()) == Some(r.1)
    ensures HasComponent(s, e, initial.KindOf()) ==> r.0 == s && Lookup(s.live[e], initial.KindOf()) == Some(r.1)
    ensures !HasComponent(s, e, initial.KindOf()) ==> r.1 == initial
    ensures forall k :: k != initial.KindOf() ==> Lookup(r.0.live[e], k) == Lookup(s.live[e], k)
    ensures forall o :: o in s.live && o != e ==> r.0.live[o] == s.live[o]
  {
    match Lookup(s.live[e], initial.KindOf())
    case Some(c) => (s, c)
    case None => (Set(s, e, initial), initial)
  }

  /** An id once destroyed is never handed out again. */
  lemma {:induction false} DestroyedIdNotReused(s: Store, e: Entity)
    requires Valid(s) && e in s.live
    ensures Create(Destroy(s, e)).1 != e
  {
  }

  /** Ids handed out by successive creates are all distinct. */
  lemma CreatesAreDistinct(s: Store)
    requires Valid(s)
    ensures Create(Create(s).0).1 != Create(s).1
  {
  }
}
