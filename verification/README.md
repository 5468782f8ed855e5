# A verified model of the Matlyce ECS kernel

This project models the bookkeeping core of a small Entity-Component-System
library, written as C++ headers. It covers the five managers, modelled as
sequential Dafny classes:

- **The entity manager** (`Entities.EntityManager`) hands out 32-bit entity
  ids from a FIFO free queue. The queue is seeded with 0 … 4999. The manager
  also keeps one 64-bit signature per id and a count of living entities.
- **The component store** (`Storage.ComponentStorage`) maps an entity to its
  component value. Insertion uses `emplace` semantics, so it never
  overwrites an existing value.
- **The component registry** (`Components.ComponentManager`) gives each
  component type a sequential 8-bit id and one store. Every id lookup goes
  through the default-inserting `operator[]`.
- **The system registry** (`Systems.SystemManager`) keeps a required
  signature and a member set per system. Membership is kept up to date with
  the superset test `(entitySig & systemSig) == systemSig`.
- **The façade** (`Coordination.Coordinator`) keeps the three other managers
  in step. Adding or removing a component updates the store, flips the
  entity's signature bit and recomputes the entity's system memberships.
  Destroying an entity clears it everywhere.

A signature is modelled as the set of its set bit positions, all below 64.
Thrown exceptions become `Err`/`Fail` results:

- `TooManyEntities` for a creation at capacity;
- `NoEntitiesToDestroy` for a destruction while the living count is zero;
- `OutOfRange` for `at` on a missing key and for `bitset::set`/`test` at a
  position ≥ 64.

Two invariants tie the managers together:

- **`Coordination.Coordinator.Coherent`** (defined as
  `Coherence.CoherentState`): registered types have distinct ids below 64.
  An entity's bit for a registered type is set exactly when that type's
  store holds the entity. Every add, remove, destroy, lookup and eligible
  registration preserves it. Under it, `hasComponent`, `tryGetComponent`,
  `hasComponentPair` and `getAllEntitiesWith` become questions about the
  stores alone.
- **`Coordination.Coordinator.MembersSound`** (defined as
  `Systems.MembersMatch`): every member of a system has every bit the system
  asks for.

The model follows the code's actual behaviour, including where a reader
might expect something else:

- `emplace` and `unordered_map::insert` never overwrite. This applies to
  component values, re-registered types, re-registered systems and system
  signatures, so a system's signature can only be set once.
- Re-registering a component type keeps its id but still consumes a counter
  value. The counter is 8 bits wide and wraps from 255 to 0.
- `operator[]` on an unregistered type records and returns id 0. So
  `hasComponent` on such a type tests the first registered type's bit. If
  the type is registered later, it keeps id 0 and shares that bit
  (`Scenarios.LookupBeforeRegisterAliases`).
- `entitySignatureChanged` reads a missing system signature as the empty
  one and records it. An entity whose signature changes therefore joins
  every system that has no signature.
- `destroyEntity` on an entity with an empty signature does nothing in the
  entity manager. A created entity that never received a component is
  therefore never recycled and stays counted as living
  (`Scenarios.DestroyBeforeAnyComponent`). The façade still clears that
  entity from every store and system.
- Neither `addComponent` nor `destroyEntity` checks that the entity was
  handed out. An id that is still in the free queue can therefore get a
  component and then be destroyed; the destroy appends it to the queue a
  second time and decrements the living count for an entity never counted.
  Entity ids are then no longer unique: the queue holds that id twice, so
  it will be handed out twice (`Scenarios.DestroyNeverCreatedRequeues`).
- When the entity manager's destroy throws, the façade's `destroyEntity`
  stops, and the stores and systems are left untouched.
- In `hasComponentPair` and `getAllEntitiesWith`, the `&&` and `||`
  short-circuit. A later test runs, and can throw, only when the earlier
  ones leave the result open.

## Model

| member | source | states |
|---|---|---|
| Types.Successor | includes/ComponentManager.hpp:30 | the 8-bit counter increment: one more below 255, and 255 wraps to 0 |
| Types.CheckedTest | includes/Coordinator.hpp:132-134 | `bitset::test` fails with OutOfRange exactly for a position ≥ 64, and otherwise reports whether the bit is set |
| Types.SetBit | includes/Coordinator.hpp:88-89 | `bitset::set(pos, value)`: that bit takes the value and every other bit below 64 keeps its own |
| Types.MatchesIffSuperset | includes/SystemManager.hpp:81 | the and-then-compare test holds iff the entity has every bit the system requires, whatever else it has |
| Types.MatchesEmpty | includes/SystemManager.hpp:79-81 | every signature matches the empty system signature; the empty entity signature matches only the empty one |
| Entities.LiveUpTo | includes/EntityManager.hpp:72-83 | the ids below n with a non-empty signature, strictly ascending |
| Entities.Iota | includes/EntityManager.hpp:18-24 | the sequence 0, 1, …, n - 1 |
| Entities.EntityManager.constructor | includes/EntityManager.hpp:18-24 | the free queue is 0 … 4999 in order, the living count is 0, every signature is empty, and the queue-plus-count invariant holds |
| Entities.EntityManager.CreateEntity | includes/EntityManager.hpp:30-39 | fails with TooManyEntities exactly at capacity, changing nothing; otherwise pops the queue front, returns it (an id below 5000) and increments the count; the queue-plus-count invariant is kept |
| Entities.EntityManager.DestroyEntity | includes/EntityManager.hpp:45-56 | an empty signature: no-op; a non-empty one with count 0: NoEntitiesToDestroy and nothing changes; otherwise the signature is emptied, the id is appended to the queue and the count drops by one |
| Entities.EntityManager.EntityExists | includes/EntityManager.hpp:63-66 | an id exists iff the scan of all ids lists it |
| Entities.EntityManager.GetEntities | includes/EntityManager.hpp:72-83 | exactly the ids with a non-empty signature, strictly ascending |
| Entities.EntityManager.SetSignature | includes/EntityManager.hpp:90-93 | the slot reads back as the written signature, and no other slot changes |
| Entities.EntityManager.GetSignature | includes/EntityManager.hpp:100-103 | the slot is non-empty iff the id exists |
| Storage.ComponentStorage.InsertData | includes/ComponentStorage.hpp:20-22 | afterwards the entity has data; reading it yields the old value if there was one, else the inserted one; other entries are untouched |
| Storage.ComponentStorage.RemoveData | includes/ComponentStorage.hpp:28-30 | afterwards the entity has no data and reading it fails with OutOfRange; other entries are untouched |
| Storage.ComponentStorage.GetData | includes/ComponentStorage.hpp:38-40 | succeeds iff the entity has an entry, with that entry; otherwise OutOfRange |
| Storage.ComponentStorage.HasData | includes/ComponentStorage.hpp:47-49 | holds iff reading the entity succeeds |
| Storage.ComponentStorage.EntityDestroyed | includes/ComponentStorage.hpp:55-57 | the same erase as RemoveData |
| Components.RegisterKeepsDistinct | includes/ComponentManager.hpp:27-30 | registering a type that is registered already or was never looked up, while the counter is below 255, keeps registered ids pairwise distinct and below the counter |
| Components.DefaultInsertsKeepIds | includes/ComponentManager.hpp:42 | default inserts by `operator[]` change no id any lookup reports |
| Components.Recorded | includes/ComponentManager.hpp:42 | `componentTypes[t]` writes back the id it returns: the key is recorded from then on with the registered id, or 0 for an unknown type, and no other entry changes |
| Components.ComponentManager.constructor | includes/ComponentManager.hpp:94-96 | no type, no store, counter 0 |
| Components.ComponentManager.RegisterComponent | includes/ComponentManager.hpp:23-31 | a new type gets the counter's value and a fresh empty store; an existing entry is kept; the counter advances in every case; the store contents change only by the new empty store; distinct ids are kept under RegisterKeepsDistinct's condition |
| Components.ComponentManager.AssignTypeId | includes/ComponentManager.hpp:27-30 | the id table gains the counter's value for a new type and keeps an existing entry; the counter advances modulo 256 in every case |
| Components.ComponentManager.AddStorage | includes/ComponentManager.hpp:28 | a new type gets a fresh empty store that no other type shares; an existing store is kept; the contents of the other stores are unchanged |
| Components.ComponentManager.GetComponentTypeID | includes/ComponentManager.hpp:39-43 | the registered id, or 0 for an unregistered type; the table becomes Recorded of the old one, so an unknown type is recorded with id 0 and nothing else changes |
| Components.ComponentManager.GetComponentStorage | includes/ComponentManager.hpp:104-108 | the registered type's store, owned by that type alone |
| Components.ComponentManager.AddComponent | includes/ComponentManager.hpp:52-55 | emplaces into that type's store; every other store's contents are unchanged |
| Components.ComponentManager.RemoveComponent | includes/ComponentManager.hpp:63-66 | erases from that type's store only; the entity no longer has data there |
| Components.ComponentManager.GetComponent | includes/ComponentManager.hpp:75-78 | succeeds iff that type's store holds the entity, with the stored value |
| Components.ComponentManager.EntityDestroyed | includes/ComponentManager.hpp:84-91 | every store loses the entity and keeps all other entries |
| Systems.WithDefaultsKeepsSignatures | includes/SystemManager.hpp:79 | recording the empty signature for systems without one changes no signature a system reads |
| Systems.Recompute | includes/SystemManager.hpp:73-90 | after a signature change every system is kept, the entity is a member of exactly the systems its new signature matches, and every other entity's memberships are unchanged |
| Systems.Without | includes/SystemManager.hpp:59-66 | after a destruction every system is kept, the entity is in no system, and every other membership is unchanged |
| Systems.RecomputeKeepsMembersMatch | includes/SystemManager.hpp:73-90 | a signature change together with the membership recomputation keeps "every member matches its system" |
| Systems.WithoutKeepsMembersMatch | includes/SystemManager.hpp:59-66 | erasing a destroyed entity, whose signature is emptied, keeps the membership invariant |
| Systems.SetSignatureKeepsMembersMatch | includes/SystemManager.hpp:49-53 | setting a signature keeps the membership invariant when it is a no-op, or when the system's current members all match it |
| Systems.SystemManager.RegisterSystem | includes/SystemManager.hpp:22-29 | a new system starts with no members; an already registered one is kept, members and all |
| Systems.SystemManager.GetSystem | includes/SystemManager.hpp:37-41 | the registered system's members, or OutOfRange iff the key was never registered |
| Systems.SystemManager.SetSignature | includes/SystemManager.hpp:49-53 | the first signature for a key is stored and later ones are ignored; memberships are not touched |
| Systems.SystemManager.EntityDestroyed | includes/SystemManager.hpp:59-66 | every system loses the entity (Without); signatures are unchanged |
| Systems.SystemManager.EntitySignatureChanged | includes/SystemManager.hpp:73-90 | memberships become Recompute of the old ones: the entity is added where it matches and erased elsewhere; every registered system without a signature gets the empty one |
| Systems.SystemManager.RecomputeMembership | includes/SystemManager.hpp:77-88 | one loop step: only that system's signature (default-inserted) and member set change |
| Coherence.InitialCoherent | includes/Coordinator.hpp:39-43 | three fresh managers satisfy the coherence invariant |
| Coherence.LookupKeepsCoherent | includes/ComponentManager.hpp:39-43 | default inserts from id lookups keep the invariant |
| Coherence.BitUpdateKeepsCoherent | includes/Coordinator.hpp:84-102 | storing or erasing an entity in one type's store, and setting or clearing that type's bit, keeps the invariant; the id is below 64 |
| Coherence.DestroyKeepsCoherent | includes/Coordinator.hpp:55-60 | emptying the signature and erasing the entity from every store keeps the invariant |
| Coherence.RegisterKeepsCoherent | includes/ComponentManager.hpp:23-31 | registering, while fewer than 64 ids are in use, a type that is registered already or was never looked up keeps the invariant |
| Coordination.TestBoth | includes/Coordinator.hpp:165 | the short-circuit `&&` of two bit tests: fails only for an id ≥ 64 it reaches, and is the conjunction of the bits when both ids fit |
| Coordination.SelectWithBoth | includes/Coordinator.hpp:163-169 | the scan in list order with the short-circuit test per entity and the first OutOfRange aborting; every id it keeps is one of the listed ids (exactness in SelectWithBothExact) |
| Coordination.SelectWithBothExact | includes/Coordinator.hpp:160-170 | with both ids below 64 the scan cannot fail; it keeps exactly the ids with both bits, ascending when the input is |
| Coordination.SelectWithBothAborts | includes/Coordinator.hpp:164-167 | an OutOfRange part-way through aborts the whole scan with that error |
| Coordination.PairTest | includes/Coordinator.hpp:146-147 | `(a has T1 && b has T2) \|\| (a has T2 && b has T1)` with short-circuiting; it can only fail with OutOfRange, and only when one of the ids is ≥ 64 |
| Coordination.PairTestMeaning | includes/Coordinator.hpp:143-148 | the pair test fails exactly when an id is ≥ 64 (either id, since the short circuit always reaches a test of each); with both ids in range it is "a has T1 and b has T2, or a has T2 and b has T1", symmetric in the types and in the entities |
| Coordination.SelectionUnderCoherence | includes/Coordinator.hpp:160-170 | under the invariant, with both types registered, the scan yields exactly the entities both stores hold, ascending |
| Coordination.PairUnderCoherence | includes/Coordinator.hpp:143-148 | under the invariant the pair test asks whether the two stores hold the two entities between them, in either order |
| Coordination.Coordinator.Init | includes/Coordinator.hpp:39-43 | three fresh managers: queue 0 … 4999, no living entity, every signature empty, empty id and store tables, counter 0, no system; both invariants hold |
| Coordination.Coordinator.CreateEntity | includes/Coordinator.hpp:45-48 | the entity manager's creation; both invariants are kept |
| Coordination.Coordinator.EntityExists | includes/Coordinator.hpp:50-53 | the id is listed by GetEntities |
| Coordination.Coordinator.DestroyEntity | includes/Coordinator.hpp:55-60 | fails exactly when the entity manager throws, and then changes nothing; otherwise the signature is emptied and every store and system loses the entity; system signatures are never changed; both invariants are kept |
| Coordination.Coordinator.DestroyEntitySync | includes/Coordinator.hpp:62-67 | the same whole contract as DestroyEntity: NoEntitiesToDestroy with nothing changed exactly when the entity manager throws; otherwise the signature is emptied, the queue and count change as in the entity manager, and every store and system loses the entity; both invariants are kept |
| Coordination.Coordinator.RegisterComponent | includes/Coordinator.hpp:69-72 | the registry's registration: a new type gets the counter's value and a fresh empty store, and every existing store keeps its identity and contents; an existing entry is kept; the counter advances; coherence is kept under RegisterKeepsCoherent's condition |
| Coordination.Coordinator.RegisterSystem | includes/Coordinator.hpp:74-77 | a new system with no members, an existing one kept; both invariants are kept |
| Coordination.Coordinator.GetSystem | includes/Coordinator.hpp:79-82 | the members, or OutOfRange iff never registered |
| Coordination.Coordinator.AddComponent | includes/Coordinator.hpp:84-92 | emplaces into the store; fails with OutOfRange iff the type's id is ≥ 64, leaving signature and systems unchanged; otherwise sets that bit alone and recomputes the entity's memberships; under the invariant it cannot fail and keeps both invariants |
| Coordination.Coordinator.RemoveComponent | includes/Coordinator.hpp:94-102 | erases from the store; fails iff the id is ≥ 64; otherwise clears that bit alone and recomputes memberships; under the invariant it cannot fail and keeps both invariants |
| Coordination.Coordinator.StoreAndSetBit | includes/Coordinator.hpp:87-90 | emplaces into the store, then sets the type's bit in the entity's signature, failing with OutOfRange for an id ≥ 64 after the store was updated; under the invariant it cannot fail and keeps coherence |
| Coordination.Coordinator.EraseAndClearBit | includes/Coordinator.hpp:97-100 | erases from the store, then clears the type's bit, failing with OutOfRange for an id ≥ 64 after the store was updated; under the invariant it cannot fail and keeps coherence |
| Coordination.Coordinator.UpdateTypeBit | includes/Coordinator.hpp:88-90 | reads the signature and the id, fails for an id ≥ 64, and otherwise writes back the signature with that bit set or cleared |
| Coordination.Coordinator.NotifySystems | includes/Coordinator.hpp:91 | the system step of add and remove: memberships are recomputed and "every member matches" carries over |
| Coordination.Coordinator.GetComponent | includes/Coordinator.hpp:104-112 | the stored value, or OutOfRange when the store lacks it; under the invariant it succeeds iff the entity's bit is set |
| Coordination.Coordinator.TryGetComponent | includes/Coordinator.hpp:114-121 | nothing iff the id fits and the bit is clear; with the bit set, succeeds iff the store holds the entity, with its value; the lookup records the type (Recorded); under the invariant it is the store's entry if any |
| Coordination.Coordinator.GetComponentTypeID | includes/Coordinator.hpp:123-127 | the lookup's id, and the id table becomes Recorded of the old one, so an unknown type is recorded with id 0; coherence is kept and a registered type's id fits the bitset |
| Coordination.Coordinator.HasComponent | includes/Coordinator.hpp:129-141 | tests the looked-up id's bit (OutOfRange for an id ≥ 64); the lookup records the type (Recorded); under the invariant, for a registered type, it says whether the store holds the entity |
| Coordination.Coordinator.HasComponentPair | includes/Coordinator.hpp:143-148 | the short-circuit pair test on the two signatures; the first lookup always records T1, and T2 is recorded exactly when T1's id fits the bitset; under the invariant a question about the stores |
| Coordination.Coordinator.TestPair | includes/Coordinator.hpp:146-147 | the four `hasComponent` calls in short-circuit order equal PairTest on the two signatures, with the same recording of T1 and T2 as HasComponentPair |
| Coordination.Coordinator.LookupBit | includes/Coordinator.hpp:132-134 | one forced `hasComponent`: the bit test with the id read before the lookup, which records the type (Recorded) |
| Coordination.Coordinator.GetEntitySignature | includes/Coordinator.hpp:150-153 | non-empty iff the entity exists; under the invariant its bits are the registered stores holding the entity |
| Coordination.Coordinator.GetEntities | includes/Coordinator.hpp:155-158 | exactly the existing ids, ascending |
| Coordination.Coordinator.GetAllEntitiesWith | includes/Coordinator.hpp:160-170 | the short-circuit scan over the existing ids; under the invariant, with both types registered, it cannot fail and yields exactly the entities both stores hold, ascending |
| Coordination.Coordinator.ScanEntities | includes/Coordinator.hpp:163-169 | the scan loop equals the scan function over the ids GetEntities lists |
| Coordination.Coordinator.ScanStep | includes/Coordinator.hpp:164-167 | one loop iteration: testing the next listed entity and extending the selection gives the scan of one more id; the id table records T1, and T2 only when the entity's T1 bit is set |
| Coordination.Coordinator.TestEntity | includes/Coordinator.hpp:165 | one entity of the scan equals TestBoth on its signature; the first lookup always records T1, and T2 is recorded exactly when T1's bit is set |
| Coordination.Coordinator.SetSystemSignature | includes/Coordinator.hpp:172-176 | the registry's insert-only signature; coherence is kept, and the membership invariant under SetSignatureKeepsMembersMatch's condition |
| Scenarios.FirstIds | includes/EntityManager.hpp:18-39 | a fresh coordinator's first two creations return 0 and then 1 |
| Scenarios.AddThenRead | includes/Coordinator.hpp:84-141 | on a coherent coordinator, adding then reading yields the stored value (the added one unless one was there), and `hasComponent` answers yes |
| Scenarios.RemoveThenRead | includes/Coordinator.hpp:94-141 | on a coherent coordinator, removing then reading fails with OutOfRange, and `hasComponent` answers no |
| Scenarios.DestroyBeforeAnyComponent | includes/EntityManager.hpp:45-49 | an entity destroyed before it got a component is not recycled: the next creation returns 1 and two entities count as living |
| Scenarios.LookupBeforeRegisterAliases | includes/ComponentManager.hpp:23-43 | a type looked up before its registration keeps id 0, shared with the first registered type |
| Scenarios.RegisterPositionVelocity | includes/Coordinator.hpp:39-72 | after `init` and two registrations the types have the ids 0 and 1 and fresh empty stores, and both invariants hold |
| Scenarios.StartMovement | includes/Coordinator.hpp:172-176 | a system registered with the signature {Position, Velocity} and a first entity 0 without components |
| Scenarios.AddAndObserve | includes/Coordinator.hpp:84-92 | in the movement session, adding a component sets its bit, and the entity is then a member exactly when it has both bits |
| Scenarios.RemoveAndObserve | includes/Coordinator.hpp:94-102 | in the movement session, removing a component clears its bit, and the entity is then a member exactly when it has both bits |
| Scenarios.PairObserve | includes/Coordinator.hpp:143-148 | in the movement session, the pair test of an entity with itself says whether it has both components |
| Scenarios.GainPosition | includes/Coordinator.hpp:84-92 | an entity without components that gains Position is not yet a member of the movement system |
| Scenarios.GainVelocity | includes/Coordinator.hpp:84-92 | an entity with Position that gains Velocity becomes a member |
| Scenarios.LosePosition | includes/Coordinator.hpp:94-148 | an entity with both components that loses Position leaves the system, and the pair test reads false |
| Scenarios.MovementSystemTracksComponents | includes/Coordinator.hpp:84-148 | the whole movement session: not a member after Position, a member after Velocity, not a member after losing Position, pair test false |
| Scenarios.RegisterOne | includes/Coordinator.hpp:39-72 | after `init` and one registration the type has id 0 and a fresh empty store, and coherence holds |
| Scenarios.RequeuedFive | includes/EntityManager.hpp:35-54 | the seeded queue with its front popped and id 5 appended holds 5 twice and no 0 |
| Scenarios.DestroyNeverCreatedRequeues | includes/EntityManager.hpp:45-56 | adding a component to the never-created id 5 and destroying it passes and requeues 5 while it is still queued, with the living count back at 0 though entity 0 is out |

## Left out

- Locking: the shared mutex, the lock guards, `getEcsMutex` and the `force` flag of `getComponent` and `hasComponent` exist only for concurrency. The model is single-threaded, and both `force` branches compute the same result.
- `getEnqueuedCommandsCount` only takes the lock and returns the constant 0. No deferred command queue exists.
- Console output: the `printf` in `registerComponent` and the exception message texts. Exceptions become error results.
- C++ type machinery: `typeid`/`type_index` keys become a type parameter `K`, and `shared_ptr`/`static_pointer_cast` are dropped.
- Component payload types: every component type of one coordinator shares the value type `V`. The abstract base of the stores (includes/AComponentStorage.hpp) folds into the single store class.
- System objects: a system is represented by its member set, held by key in the system registry. The update, render and throttling members of includes/System.hpp are application behaviour.
- Systems.SystemManager.RegisterSystem and Coordination.Coordinator.RegisterSystem: do not return the system handle. On re-registration the source returns a fresh, unstored system object, and the model does not capture that. Sharing of a system object through its handle is not modelled either.
- Entities.EntityManager.DestroyEntity and every method that indexes the signature array (in the entity manager and in the façade): require `entity < 5000`. Indexing the signature array beyond its end is undefined behaviour in the source. The stores, `EntityExists` and `GetComponent` take any id.
- Coordination.Coordinator.HasComponentPair: requires the second entity below 5000 (so does `TestPair`), although the source reads its slot only once the first entity has T1 or T2; for a first entity holding neither, a second id of 5000 or more is defined behaviour in the source and yields false.
- Components.ComponentManager.AddComponent, RemoveComponent and GetComponent: require the type to be registered. For an unregistered type, `operator[]` yields a null store that the source then dereferences.
- Coordination.Coordinator.TryGetComponent: requires the type to be registered whenever its looked-up id's bit is set. Otherwise the source dereferences a null store. The null store that `GetComponentStorage` default-inserts on such a lookup is not modelled.
- Coordination.Coordinator.Init: a coordinator used before `init` holds null managers. The model makes `init` its constructor.
- The living-entity counter is modelled as an unbounded `nat`. The queue-plus-count invariant keeps it at or below 5000, so its 32-bit width never matters.
- References into stores: `getData`, `getComponent` and `tryGetComponent` return a `T&` or `T*`, through which a caller can overwrite a stored component in place. The model returns copies, so a stored value only changes by being erased and re-added; in-place updates and aliasing through the returned reference are not captured.
- Coordination.Coordinator.GetAllEntitiesWith and Coordination.Coordinator.ScanEntities: state the id lookups' effect over the whole scan only as default inserts for T1 and T2 (`OnlyDefaultInserts`), not which of the two the scan recorded; that depends on how far the scan got. Each single iteration (`ScanStep`) states its exact records.
