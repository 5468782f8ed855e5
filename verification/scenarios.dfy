/**
 * Short client sessions, each stating what a client observes at the end:
 * the order in which ids are handed out, reading back after adding and
 * after removing, what destroying an entity that never had a component
 * does, and what looking a type up before registering it does.
 */
module Scenarios {
  import opened Types
  import opened Components
  import opened Entities
  import opened Systems
  import opened Coordination

  /** A fresh coordinator hands out the ids 0, 1, ... in ascending order. */
  method FirstIds<K(==), V>() returns (first: Result<Entity>, second: Result<Entity>)
    ensures first == Ok(0) && second == Ok(1)
  {
    var c := new Coordinator<K, V>.Init();
    first := c.CreateEntity();
    second := c.CreateEntity();
  }

  /**
   * On a coherent coordinator, after adding a component to an entity,
   * reading it back yields the stored value (the added one, unless the
   * store held one already, which `emplace` keeps) and `hasComponent`
   * answers yes.
   */
  method AddThenRead<K(==), V>(c: Coordinator<K, V>, t: K, entity: Entity, v: V) returns (got: Result<V>, has: Result<bool>)
    requires c.Valid() && c.Coherent()
    requires t in c.componentManager.storages && entity < MAX_ENTITIES
    modifies c.componentManager`componentTypes, c.componentManager.storages[t], c.entityManager.signatures, c.systemManager
    ensures got == Ok(if entity in old(c.componentManager.storages[t].componentMap)
                      then old(c.componentManager.storages[t].componentMap)[entity] else v)
    ensures has == Ok(true)
  {
    var out := c.AddComponent(t, entity, v);
    got := c.GetComponent(t, entity);
    has := c.HasComponent(t, entity);
  }

  /**
   * On a coherent coordinator, after removing a component from an entity,
   * reading it fails with OutOfRange and `hasComponent` answers no.
   */
  method RemoveThenRead<K(==), V>(c: Coordinator<K, V>, t: K, entity: Entity) returns (got: Result<V>, has: Result<bool>)
    requires c.Valid() && c.Coherent()
    requires t in c.componentManager.storages && entity < MAX_ENTITIES
    modifies c.componentManager`componentTypes, c.componentManager.storages[t], c.entityManager.signatures, c.systemManager
    ensures got == Err(OutOfRange) && has == Ok(false)
  {
    var out := c.RemoveComponent(t, entity);
    got := c.GetComponent(t, entity);
    has := c.HasComponent(t, entity);
  }

  /**
   * Destroying an entity that never received a component does nothing in
   * the entity manager: its id does not go back to the pool and it still
   * counts as living, so the next creation takes a new id.
   */
  method DestroyBeforeAnyComponent<K(==), V>() returns (first: Result<Entity>, destroyed: Outcome,
                                                         next: Result<Entity>, living: nat)
    ensures first == Ok(0) && destroyed == Pass && next == Ok(1) && living == 2
  {
    var c := new Coordinator<K, V>.Init();
    first := c.CreateEntity();
    destroyed := c.DestroyEntity(0);
    next := c.CreateEntity();
    living := c.entityManager.livingEntityCount;
  }

  /**
   * Looking a type up before registering it records the default id 0 for
   * it, and registration's `insert` then keeps that entry: the type ends up
   * sharing id 0, and so its signature bit, with the first registered type.
   */
  method LookupBeforeRegisterAliases<K(==), V>(first: K, second: K) returns (firstId: ComponentTypeID, secondId: ComponentTypeID)
    requires first != second
    ensures firstId == 0 && secondId == 0
  {
    var components := new ComponentManager<K, V>();
    components.RegisterComponent(first);
    var looked := components.GetComponentTypeID(second);
    components.RegisterComponent(second);
    firstId := components.GetComponentTypeID(first);
    secondId := components.GetComponentTypeID(second);
  }


  /** The movement system's signature: the bits of Position (id 0) and Velocity (id 1). */
  const MOVEMENT: Signature := {0, 1}

  /**
   * The state the movement session runs in: a coherent coordinator where
   * Position and Velocity are registered with the ids 0 and 1 and the
   * movement system is registered and asks for both.
   */
  ghost predicate MovementReady<K, V>(c: Coordinator<K, V>, position: K, velocity: K, movement: K)
    reads c, c.entityManager, c.entityManager.signatures, c.componentManager, c.componentManager.Stores(), c.systemManager
  {
    && c.Valid() && c.Coherent() && c.MembersSound()
    && position in c.componentManager.storages && velocity in c.componentManager.storages
    && c.componentManager.componentTypes[position] == 0 && c.componentManager.componentTypes[velocity] == 1
    && movement in c.systemManager.systems
    && SignatureOf(c.systemManager.signatures, movement) == MOVEMENT
  }

  /** `init` and the registration of Position and Velocity, which take the ids 0 and 1. */
  method RegisterPositionVelocity<K(==), V>(position: K, velocity: K) returns (c: Coordinator<K, V>)
    requires position != velocity
    ensures c.Valid() && c.Coherent() && c.MembersSound()
    ensures c.componentManager.storages.Keys == {position, velocity}
    ensures c.componentManager.componentTypes == map[position := 0, velocity := 1]
    ensures c.systemManager.systems == map[] && c.systemManager.signatures == map[]
    ensures fresh(c) && fresh(c.entityManager) && fresh(c.entityManager.signatures)
    ensures fresh(c.componentManager) && fresh(c.systemManager)
    ensures fresh(c.componentManager.storages[position]) && fresh(c.componentManager.storages[velocity])
    ensures c.entityManager.availableEntities == Iota(MAX_ENTITIES) && c.entityManager.livingEntityCount == 0
    ensures forall e :: 0 <= e < MAX_ENTITIES ==> c.entityManager.signatures[e] == EMPTY
  {
    c := new Coordinator<K, V>.Init();
    c.RegisterComponent(position);
    c.RegisterComponent(velocity);
  }

  /**
   * The movement session's start: Position and Velocity registered, the
   * movement system registered with both as its signature, and a first
   * entity created, which has the id 0 and no component yet.
   */
  method StartMovement<K(==), V>(position: K, velocity: K, movement: K) returns (c: Coordinator<K, V>, entity: Entity)
    requires position != velocity
    ensures MovementReady(c, position, velocity, movement)
    ensures entity == 0 && c.entityManager.signatures[entity] == EMPTY
    ensures fresh(c.entityManager.signatures) && fresh(c.componentManager) && fresh(c.systemManager)
    ensures fresh(c.componentManager.storages[position]) && fresh(c.componentManager.storages[velocity])
  {
    c := RegisterPositionVelocity(position, velocity);
    c.RegisterSystem(movement);
    c.SetSystemSignature(movement, MOVEMENT);
    var created := c.CreateEntity();
    entity := created.value;
  }

  /**
   * Adding Position or Velocity to an entity in the movement session sets
   * that type's bit, and afterwards the entity is a member of the movement
   * system exactly when its signature has both bits.
   */
  method AddAndObserve<K(==), V>(c: Coordinator<K, V>, position: K, velocity: K, movement: K,
                                 t: K, entity: Entity, value: V) returns (member: bool)
    requires MovementReady(c, position, velocity, movement)
    requires t == position || t == velocity
    requires entity < MAX_ENTITIES
    modifies c.componentManager`componentTypes, c.componentManager.storages[t], c.entityManager.signatures, c.systemManager
    ensures MovementReady(c, position, velocity, movement)
    ensures c.entityManager.signatures[entity] == old(c.entityManager.signatures[entity]) + {if t == position then 0 else 1}
    ensures member <==> Matches(c.entityManager.signatures[entity], MOVEMENT)
  {
    ghost var signatures := c.systemManager.signatures;
    var out := c.AddComponent(t, entity, value);
    WithDefaultsKeepsSignatures(signatures, old(c.systemManager.systems).Keys);
    var members := c.GetSystem(movement);
    member := entity in members.value;
  }

  /**
   * Removing Position or Velocity from an entity in the movement session
   * clears that type's bit, and afterwards the entity is a member of the
   * movement system exactly when its signature has both bits.
   */
  method RemoveAndObserve<K(==), V>(c: Coordinator<K, V>, position: K, velocity: K, movement: K,
                                    t: K, entity: Entity) returns (member: bool)
    requires MovementReady(c, position, velocity, movement)
    requires t == position || t == velocity
    requires entity < MAX_ENTITIES
    modifies c.componentManager`componentTypes, c.componentManager.storages[t], c.entityManager.signatures, c.systemManager
    ensures MovementReady(c, position, velocity, movement)
    ensures c.entityManager.signatures[entity] == old(c.entityManager.signatures[entity]) - {if t == position then 0 else 1}
    ensures member <==> Matches(c.entityManager.signatures[entity], MOVEMENT)
  {
    ghost var signatures := c.systemManager.signatures;
    var out := c.RemoveComponent(t, entity);
    WithDefaultsKeepsSignatures(signatures, old(c.systemManager.systems).Keys);
    var members := c.GetSystem(movement);
    member := entity in members.value;
  }

  /** In the movement session the pair test of an entity with itself asks whether it has both components. */
  method PairObserve<K(==), V>(c: Coordinator<K, V>, position: K, velocity: K, movement: K,
                               entity: Entity) returns (pair: Result<bool>)
    requires MovementReady(c, position, velocity, movement)
    requires entity < MAX_ENTITIES
    modifies c.componentManager`componentTypes
    ensures pair == Ok(0 in c.entityManager.signatures[entity] && 1 in c.entityManager.signatures[entity])
  {
    pair := c.HasComponentPair(position, velocity, entity, entity);
    PairTestMeaning(c.entityManager.signatures[entity], c.entityManager.signatures[entity], 0, 1);
  }

  /** An entity without components gains Position: it is not a member of the movement system yet. */
  method GainPosition<K(==), V>(c: Coordinator<K, V>, position: K, velocity: K, movement: K,
                                entity: Entity, p: V) returns (member: bool)
    requires MovementReady(c, position, velocity, movement)
    requires entity < MAX_ENTITIES && c.entityManager.signatures[entity] == EMPTY
    modifies c.componentManager`componentTypes, c.componentManager.storages[position]
    modifies c.entityManager.signatures, c.systemManager
    ensures MovementReady(c, position, velocity, movement)
    ensures c.entityManager.signatures[entity] == {0}
    ensures !member
    ensures c.componentManager.storages == old(c.componentManager.storages)
  {
    member := AddAndObserve(c, position, velocity, movement, position, entity, p);
    assert 1 in MOVEMENT;
  }

  /** An entity with Position only gains Velocity: it becomes a member of the movement system. */
  method GainVelocity<K(==), V>(c: Coordinator<K, V>, position: K, velocity: K, movement: K,
                                entity: Entity, v: V) returns (member: bool)
    requires MovementReady(c, position, velocity, movement)
    requires entity < MAX_ENTITIES && c.entityManager.signatures[entity] == {0}
    modifies c.componentManager`componentTypes, c.componentManager.storages[velocity]
    modifies c.entityManager.signatures, c.systemManager
    ensures MovementReady(c, position, velocity, movement)
    ensures c.entityManager.signatures[entity] == MOVEMENT
    ensures member
    ensures c.componentManager.storages == old(c.componentManager.storages)
  {
    member := AddAndObserve(c, position, velocity, movement, velocity, entity, v);
    assert c.entityManager.signatures[entity] == MOVEMENT;
  }

  /**
   * An entity with both components loses Position: it leaves the movement
   * system, and the pair test of the entity with itself reads false.
   */
  method LosePosition<K(==), V>(c: Coordinator<K, V>, position: K, velocity: K, movement: K,
                                entity: Entity) returns (afterRemoval: bool, pair: Result<bool>)
    requires MovementReady(c, position, velocity, movement)
    requires entity < MAX_ENTITIES && c.entityManager.signatures[entity] == MOVEMENT
    modifies c.componentManager`componentTypes, c.componentManager.storages[position]
    modifies c.entityManager.signatures, c.systemManager
    ensures !afterRemoval && pair == Ok(false)
    ensures c.componentManager.storages == old(c.componentManager.storages)
  {
    afterRemoval := RemoveAndObserve(c, position, velocity, movement, position, entity);
    assert c.entityManager.signatures[entity] == {1};
    assert !afterRemoval by { assert 0 in MOVEMENT; }
    pair := PairObserve(c, position, velocity, movement, entity);
  }

  /**
   * A movement system asking for Position and Velocity: the first entity
   * joins it once it has gained both components and leaves it when it loses
   * Position, and the pair test then finds the entity without the pair.
   */
  method MovementSystemTracksComponents<K(==), V>(position: K, velocity: K, movement: K, p: V, v: V)
    returns (afterPosition: bool, afterVelocity: bool, afterRemoval: bool, pair: Result<bool>)
    requires position != velocity
    ensures !afterPosition && afterVelocity && !afterRemoval
    ensures pair == Ok(false)
  {
    var c, entity := StartMovement<K, V>(position, velocity, movement);
    afterPosition := GainPosition(c, position, velocity, movement, entity, p);
    afterVelocity := GainVelocity(c, position, velocity, movement, entity, v);
    afterRemoval, pair := LosePosition(c, position, velocity, movement, entity);
  }

  /** `init` and the registration of one component type, which takes the id 0. */
  method RegisterOne<K(==), V>(t: K) returns (c: Coordinator<K, V>)
    ensures c.Valid() && c.Coherent()
    ensures c.componentManager.storages.Keys == {t} && c.componentManager.componentTypes == map[t := 0]
    ensures fresh(c) && fresh(c.entityManager) && fresh(c.entityManager.signatures)
    ensures fresh(c.componentManager) && fresh(c.systemManager)
    ensures fresh(c.componentManager.storages[t]) && fresh(c.componentManager.Stores())
    ensures c.entityManager.availableEntities == Iota(MAX_ENTITIES) && c.entityManager.livingEntityCount == 0
    ensures forall e :: 0 <= e < MAX_ENTITIES ==> c.entityManager.signatures[e] == EMPTY
  {
    c := new Coordinator<K, V>.Init();
    c.RegisterComponent(t);
    assert c.componentManager.Stores() == {c.componentManager.storages[t]};
  }

  /** The queue after popping id 0 from the seeded queue and appending id 5: 5 twice, 0 never. */
  lemma RequeuedFive(queue: seq<Entity>)
    requires queue == Iota(MAX_ENTITIES)[1..] + [5]
    ensures |queue| == MAX_ENTITIES && queue[4] == 5 && queue[MAX_ENTITIES - 1] == 5 && 0 !in queue
  {
    forall i | 0 <= i < MAX_ENTITIES - 1
      ensures queue[i] == i + 1
    {
      assert queue[i] == Iota(MAX_ENTITIES)[i + 1];
    }
  }

  /**
   * `addComponent` does not check that the entity exists, so an id that was
   * never handed out can get a non-empty signature; destroying it then puts
   * it at the back of the free queue although it is still queued, and the
   * live count drops to 0 while entity 0 is out of the queue. The queue then
   * holds id 5 twice and lacks id 0, so id 5 would be handed out twice.
   */
  method DestroyNeverCreatedRequeues<K(==), V>(t: K, v: V)
    returns (created: Result<Entity>, destroyed: Outcome, queue: seq<Entity>, living: nat)
    ensures created == Ok(0) && destroyed == Pass && living == 0
    ensures |queue| == MAX_ENTITIES && queue[4] == 5 && queue[MAX_ENTITIES - 1] == 5 && 0 !in queue
  {
    var c := RegisterOne<K, V>(t);
    created := c.CreateEntity();
    var added := c.AddComponent(t, 5, v);
    destroyed := c.DestroyEntity(5);
    queue := c.entityManager.availableEntities;
    living := c.entityManager.livingEntityCount;
    RequeuedFive(queue);
  }
}
