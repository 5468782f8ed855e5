/**
 * The façade: owns one entity manager, one component registry and one system
 * registry, and keeps the three in step. Adding or removing a component
 * updates the store, flips the entity's signature bit and recomputes the
 * entity's system memberships; destroying an entity clears it everywhere.
 */
module Coordination {
  import opened Types
  import opened Entities
  import opened Storage
  import opened Components
  import opened Systems
  import opened Coherence

  /**
   * `hasComponent<T1>(x) && hasComponent<T2>(y)` on the two signatures,
   * evaluated left to right: a test beyond the bitset throws OutOfRange, and
   * the second test only runs when the first one holds.
   */
  function TestBoth(sigX: Signature, idX: nat, sigY: Signature, idY: nat): (r: Result<bool>)
    ensures r.Err? ==> r.error == OutOfRange && (idX >= MAX_COMPONENTS || idY >= MAX_COMPONENTS)
    ensures idX < MAX_COMPONENTS && idY < MAX_COMPONENTS ==> r == Ok(TestBit(sigX, idX) && TestBit(sigY, idY))
  {
    match CheckedTest(sigX, idX)
    case Err(error) => Err(error)
    case Ok(hasX) => if hasX then CheckedTest(sigY, idY) else Ok(false)
  }

  /**
   * The entities of `ids` whose signature has both bits, in the order of
   * `ids`; the first OutOfRange aborts the whole scan.
   */
  function SelectWithBoth(sigs: seq<Signature>, ids: seq<Entity>, id1: nat, id2: nat): (r: Result<seq<Entity>>)
    requires forall k :: 0 <= k < |ids| ==> ids[k] < |sigs|
    ensures r.Ok? ==> forall e: Entity :: e in r.value ==> e in ids
  {
    if ids == [] then Ok([])
    else
      var last := ids[|ids| - 1];
      match SelectWithBoth(sigs, ids[..|ids| - 1], id1, id2)
      case Err(error) => Err(error)
      case Ok(selected) =>
        match TestBoth(sigs[last], id1, sigs[last], id2)
        case Err(error) => Err(error)
        case Ok(both) => Ok(if both then selected + [last] else selected)
  }

  /**
   * With both ids inside the bitset the scan cannot fail, and it keeps
   * exactly the entities having both bits, in their original order.
   */
  lemma {:induction false} SelectWithBothExact(sigs: seq<Signature>, ids: seq<Entity>, id1: nat, id2: nat)
    requires forall k :: 0 <= k < |ids| ==> ids[k] < |sigs|
    requires id1 < MAX_COMPONENTS && id2 < MAX_COMPONENTS
    ensures SelectWithBoth(sigs, ids, id1, id2).Ok?
    ensures forall e: Entity :: e in SelectWithBoth(sigs, ids, id1, id2).value <==>
              e in ids && TestBit(sigs[e], id1) && TestBit(sigs[e], id2)
    ensures (forall i, j :: 0 <= i < j < |ids| ==> ids[i] < ids[j]) ==>
              var selected := SelectWithBoth(sigs, ids, id1, id2).value;
              forall i, j :: 0 <= i < j < |selected| ==> selected[i] < selected[j]
  {
    if ids != [] {
      var init, last := ids[..|ids| - 1], ids[|ids| - 1];
      SelectWithBothExact(sigs, init, id1, id2);
      if forall i, j :: 0 <= i < j < |ids| ==> ids[i] < ids[j] {
        var selected := SelectWithBoth(sigs, init, id1, id2).value;
        forall i | 0 <= i < |selected|
          ensures selected[i] < last
        {
          assert selected[i] in init;
          var k :| 0 <= k < |init| && init[k] == selected[i];
          assert ids[k] == selected[i];
        }
      }
    }
  }

  /** An OutOfRange in a prefix of the scan aborts the scan of every longer prefix. */
  lemma {:induction false} SelectWithBothAborts(sigs: seq<Signature>, ids: seq<Entity>, i: nat, id1: nat, id2: nat)
    requires forall k :: 0 <= k < |ids| ==> ids[k] < |sigs|
    requires i <= |ids|
    requires SelectWithBoth(sigs, ids[..i], id1, id2).Err?
    ensures SelectWithBoth(sigs, ids, id1, id2) == SelectWithBoth(sigs, ids[..i], id1, id2)
    decreases |ids| - i
  {
    if i < |ids| {
      assert ids[..i + 1][..i] == ids[..i];
      SelectWithBothAborts(sigs, ids, i + 1, id1, id2);
    } else {
      assert ids[..i] == ids;
    }
  }

  /**
   * `(hasComponent<T1>(a) && hasComponent<T2>(b)) || (hasComponent<T2>(a) &&
   * hasComponent<T1>(b))` with C++ short-circuit evaluation: the second
   * conjunction only runs when the first one is false, and any OutOfRange
   * aborts the whole expression.
   */
  function PairTest(sigA: Signature, sigB: Signature, id1: nat, id2: nat): (r: Result<bool>)
    ensures r.Err? ==> r.error == OutOfRange && (id1 >= MAX_COMPONENTS || id2 >= MAX_COMPONENTS)
  {
    match TestBoth(sigA, id1, sigB, id2)
    case Err(error) => Err(error)
    case Ok(first) => if first then Ok(true) else TestBoth(sigA, id2, sigB, id1)
  }

  /** Whether the two entities carry the two component types between them, in either order. */
  predicate PairHolds(sigA: Signature, sigB: Signature, id1: nat, id2: nat)
    requires id1 < MAX_COMPONENTS && id2 < MAX_COMPONENTS
  {
    (TestBit(sigA, id1) && TestBit(sigB, id2)) || (TestBit(sigA, id2) && TestBit(sigB, id1))
  }

  /**
   * The pair test always fails when either id is beyond the bitset (the
   * short circuit always reaches a test of each id); with both ids inside it
   * is the symmetric "in either order" relation.
   */
  lemma PairTestMeaning(sigA: Signature, sigB: Signature, id1: nat, id2: nat)
    ensures id1 >= MAX_COMPONENTS || id2 >= MAX_COMPONENTS ==> PairTest(sigA, sigB, id1, id2) == Err(OutOfRange)
    ensures id1 < MAX_COMPONENTS && id2 < MAX_COMPONENTS ==>
              && PairTest(sigA, sigB, id1, id2) == Ok(PairHolds(sigA, sigB, id1, id2))
              && PairHolds(sigA, sigB, id1, id2) == PairHolds(sigA, sigB, id2, id1)
              && PairHolds(sigA, sigB, id1, id2) == PairHolds(sigB, sigA, id1, id2)
  {
  }

  /** One more entity scanned: the scan of `ids[..i + 1]` from the scan of `ids[..i]`. */
  lemma SelectWithBothStep(sigs: seq<Signature>, ids: seq<Entity>, i: nat, id1: nat, id2: nat)
    requires forall k :: 0 <= k < |ids| ==> ids[k] < |sigs|
    requires i < |ids|
    requires SelectWithBoth(sigs, ids[..i], id1, id2).Ok?
    ensures SelectWithBoth(sigs, ids[..i + 1], id1, id2) ==
              match TestBoth(sigs[ids[i]], id1, sigs[ids[i]], id2)
              case Err(error) => Err(error)
              case Ok(both) =>
                var selected := SelectWithBoth(sigs, ids[..i], id1, id2).value;
                Ok(if both then selected + [ids[i]] else selected)
  {
    assert ids[..i + 1][..i] == ids[..i];
  }

  /**
   * Under the invariant, with both types registered, the scan of the
   * existing entities cannot fail and keeps, in ascending order, exactly the
   * entities that both stores hold.
   */
  lemma SelectionUnderCoherence<K, V>(types: map<K, ComponentTypeID>, contents: map<K, map<Entity, V>>,
                                      next: ComponentTypeID, sigs: seq<Signature>, t1: K, t2: K)
    requires CoherentState(types, contents, next, sigs)
    requires t1 in contents && t2 in contents
    ensures var r := SelectWithBoth(sigs, LiveUpTo(sigs, MAX_ENTITIES), types[t1], types[t2]);
            && r.Ok?
            && (forall e: Entity :: e in r.value <==> e in contents[t1] && e in contents[t2])
            && (forall i, j :: 0 <= i < j < |r.value| ==> r.value[i] < r.value[j])
  {
    var ids := LiveUpTo(sigs, MAX_ENTITIES);
    var id1, id2 := types[t1], types[t2];
    assert id1 < MAX_COMPONENTS && id2 < MAX_COMPONENTS;
    SelectWithBothExact(sigs, ids, id1, id2);
    var selected := SelectWithBoth(sigs, ids, id1, id2).value;
    forall e: Entity
      ensures e in selected <==> e in contents[t1] && e in contents[t2]
    {
      if e in contents[t1] {
        assert e < MAX_ENTITIES;
        assert id1 in sigs[e];
      }
    }
  }

  /**
   * Under the invariant, with both types registered, the pair test cannot
   * fail and asks whether the two stores hold the two entities between them,
   * in either order.
   */
  lemma PairUnderCoherence<K, V>(types: map<K, ComponentTypeID>, contents: map<K, map<Entity, V>>,
                                 next: ComponentTypeID, sigs: seq<Signature>, t1: K, t2: K,
                                 entityA: Entity, entityB: Entity)
    requires CoherentState(types, contents, next, sigs)
    requires t1 in contents && t2 in contents
    requires entityA < MAX_ENTITIES && entityB < MAX_ENTITIES
    ensures PairTest(sigs[entityA], sigs[entityB], types[t1], types[t2]) ==
              Ok((entityA in contents[t1] && entityB in contents[t2]) || (entityA in contents[t2] && entityB in contents[t1]))
  {
  }

  class Coordinator<K(==), V> {
    const entityManager: EntityManager
    const componentManager: ComponentManager<K, V>
    const systemManager: SystemManager<K>

    ghost predicate Valid()
      reads this, entityManager, componentManager
    {
      entityManager.Valid() && componentManager.Valid()
    }

    /** The cross-structure invariant of CoherentState, on the managers' current state. */
    ghost predicate Coherent()
      reads this, entityManager, entityManager.signatures, componentManager, componentManager.Stores()
    {
      CoherentState(componentManager.componentTypes, componentManager.Contents(),
                    componentManager.nextComponentType, entityManager.signatures[..])
    }

    /** The membership invariant of MembersMatch, on the system registry and the entity signatures. */
    ghost predicate MembersSound()
      reads systemManager, entityManager.signatures
    {
      MembersMatch(systemManager.systems, systemManager.signatures, entityManager.signatures[..])
    }

    /** `init`: three fresh managers. */
    constructor Init()
      ensures Valid() && Coherent() && MembersSound()
      ensures fresh(entityManager) && fresh(entityManager.signatures)
      ensures fresh(componentManager) && fresh(systemManager)
      ensures entityManager.availableEntities == Iota(MAX_ENTITIES) && entityManager.livingEntityCount == 0
      ensures forall e :: 0 <= e < MAX_ENTITIES ==> entityManager.signatures[e] == EMPTY
      ensures componentManager.componentTypes == map[] && componentManager.storages == map[]
      ensures componentManager.nextComponentType == 0
      ensures systemManager.systems == map[] && systemManager.signatures == map[]
    {
      componentManager := new ComponentManager<K, V>();
      entityManager := new EntityManager();
      systemManager := new SystemManager<K>();
      new;
      InitialCoherent<K, V>(entityManager.signatures[..]);
      assert componentManager.Contents() == map[];
    }

    /** Forwards to the entity manager; no signature changes, so the invariant survives. */
    method CreateEntity() returns (r: Result<Entity>)
      requires Valid()
      modifies entityManager
      ensures Valid()
      ensures r.Err? <==> old(entityManager.livingEntityCount) >= MAX_ENTITIES
      ensures r.Err? ==> && r.error == TooManyEntities
                         && entityManager.availableEntities == old(entityManager.availableEntities)
                         && entityManager.livingEntityCount == old(entityManager.livingEntityCount)
      ensures r.Ok? ==> && r.value == old(entityManager.availableEntities)[0]
                        && entityManager.availableEntities == old(entityManager.availableEntities)[1..]
                        && entityManager.livingEntityCount == old(entityManager.livingEntityCount) + 1
      ensures old(Coherent()) ==> Coherent()
      ensures old(MembersSound()) ==> MembersSound()
    {
      r := entityManager.CreateEntity();
    }

    /** Whether the id is in range and has a non-empty signature, i.e. whether `getEntities` lists it. */
    predicate EntityExists(entity: Entity)
      requires Valid()
      reads this, entityManager, entityManager.signatures, componentManager
      ensures EntityExists(entity) <==> entity in LiveUpTo(entityManager.signatures[..], MAX_ENTITIES)
    {
      entityManager.EntityExists(entity)
    }

    /**
     * Destroys in the entity manager, then, unless that threw, removes the
     * entity from every store and every system, even when the entity
     * manager's destroy was a no-op.
     */
    method DestroyEntity(entity: Entity) returns (out: Outcome)
      requires Valid()
      requires entity < MAX_ENTITIES
      modifies entityManager, entityManager.signatures, componentManager.Stores(), systemManager
      ensures Valid()
      ensures out.Fail? <==> old(entityManager.signatures[entity]) != EMPTY && old(entityManager.livingEntityCount) == 0
      ensures out.Fail? ==>
                && out.error == NoEntitiesToDestroy
                && entityManager.signatures[..] == old(entityManager.signatures[..])
                && entityManager.availableEntities == old(entityManager.availableEntities)
                && entityManager.livingEntityCount == old(entityManager.livingEntityCount)
                && componentManager.Contents() == old(componentManager.Contents())
                && systemManager.systems == old(systemManager.systems)
      ensures out.Pass? ==>
                && entityManager.signatures[..] == old(entityManager.signatures[..])[entity := EMPTY]
                && componentManager.Contents() == WithoutEntity(old(componentManager.Contents()), entity)
                && systemManager.systems == Without(old(systemManager.systems), entity)
      ensures systemManager.signatures == old(systemManager.signatures)
      ensures out.Pass? && old(entityManager.signatures[entity]) == EMPTY ==>
                && entityManager.availableEntities == old(entityManager.availableEntities)
                && entityManager.livingEntityCount == old(entityManager.livingEntityCount)
      ensures out.Pass? && old(entityManager.signatures[entity]) != EMPTY ==>
                && entityManager.availableEntities == old(entityManager.availableEntities) + [entity]
                && entityManager.livingEntityCount == old(entityManager.livingEntityCount) - 1
      ensures old(Coherent()) ==> Coherent()
      ensures old(MembersSound()) ==> MembersSound()
    {
      ghost var contents := componentManager.Contents();
      out := entityManager.DestroyEntity(entity);
      assert componentManager.Contents() == contents;
      if out.Fail? {
        return;
      }
      assert entityManager.signatures[..] == old(entityManager.signatures[..])[entity := EMPTY];
      componentManager.EntityDestroyed(entity);
      contents := componentManager.Contents();
      systemManager.EntityDestroyed(entity);
      assert componentManager.Contents() == contents;
      if old(Coherent()) {
        DestroyKeepsCoherent(old(componentManager.componentTypes), old(componentManager.Contents()),
                             old(componentManager.nextComponentType), old(entityManager.signatures[..]), entity);
      }
      if old(MembersSound()) {
        WithoutKeepsMembersMatch(old(systemManager.systems), systemManager.signatures, old(entityManager.signatures[..]), entity);
      }
    }

    /** `destroyEntitySync` runs the same three steps as `destroyEntity`. */
    method DestroyEntitySync(entity: Entity) returns (out: Outcome)
      requires Valid()
      requires entity < MAX_ENTITIES
      modifies entityManager, entityManager.signatures, componentManager.Stores(), systemManager
      ensures Valid()
      ensures out.Fail? <==> old(entityManager.signatures[entity]) != EMPTY && old(entityManager.livingEntityCount) == 0
      ensures out.Fail? ==>
                && out.error == NoEntitiesToDestroy
                && entityManager.signatures[..] == old(entityManager.signatures[..])
                && entityManager.availableEntities == old(entityManager.availableEntities)
                && entityManager.livingEntityCount == old(entityManager.livingEntityCount)
                && componentManager.Contents() == old(componentManager.Contents())
                && systemManager.systems == old(systemManager.systems)
      ensures out.Pass? ==>
                && entityManager.signatures[..] == old(entityManager.signatures[..])[entity := EMPTY]
                && componentManager.Contents() == WithoutEntity(old(componentManager.Contents()), entity)
                && systemManager.systems == Without(old(systemManager.systems), entity)
      ensures systemManager.signatures == old(systemManager.signatures)
      ensures out.Pass? && old(entityManager.signatures[entity]) == EMPTY ==>
                && entityManager.availableEntities == old(entityManager.availableEntities)
                && entityManager.livingEntityCount == old(entityManager.livingEntityCount)
      ensures out.Pass? && old(entityManager.signatures[entity]) != EMPTY ==>
                && entityManager.availableEntities == old(entityManager.availableEntities) + [entity]
                && entityManager.livingEntityCount == old(entityManager.livingEntityCount) - 1
      ensures old(Coherent()) ==> Coherent()
      ensures old(MembersSound()) ==> MembersSound()
    {
      out := DestroyEntity(entity);
    }

    /**
     * Registers in the component manager. While the counter is below the
     * bitset width and the type is either registered already or was never
     * looked up, the invariant survives: a new type gets the counter's value,
     * which no signature has set, and an empty store.
     */
    method RegisterComponent(t: K)
      requires Valid()
      modifies componentManager
      ensures Valid()
      ensures componentManager.nextComponentType == Successor(old(componentManager.nextComponentType))
      ensures componentManager.componentTypes ==
                if t in old(componentManager.componentTypes) then old(componentManager.componentTypes)
                else old(componentManager.componentTypes)[t := old(componentManager.nextComponentType)]
      ensures t in old(componentManager.storages) ==> componentManager.storages == old(componentManager.storages)
      ensures t !in old(componentManager.storages) ==>
                && componentManager.storages.Keys == old(componentManager.storages).Keys + {t}
                && fresh(componentManager.storages[t])
                && forall u :: u in old(componentManager.storages) ==> componentManager.storages[u] == old(componentManager.storages[u])
      ensures t in componentManager.storages
      ensures componentManager.Contents() ==
                if t in old(componentManager.storages) then old(componentManager.Contents())
                else old(componentManager.Contents())[t := map[]]
      ensures (&& old(Coherent()) && old(componentManager.nextComponentType) < MAX_COMPONENTS
               && (t in old(componentManager.storages) || t !in old(componentManager.componentTypes))) ==> Coherent()
    {
      componentManager.RegisterComponent(t);
      if && old(Coherent()) && old(componentManager.nextComponentType) < MAX_COMPONENTS
         && (t in old(componentManager.storages) || t !in old(componentManager.componentTypes)) {
        RegisterKeepsCoherent(old(componentManager.componentTypes), old(componentManager.Contents()),
                              old(componentManager.nextComponentType), entityManager.signatures[..], t);
      }
    }

    /** Forwards to the system manager: a new key gets a system with no members. */
    method RegisterSystem(t: K)
      requires Valid()
      modifies systemManager
      ensures Valid()
      ensures systemManager.signatures == old(systemManager.signatures)
      ensures systemManager.systems ==
                if t in old(systemManager.systems) then old(systemManager.systems)
                else old(systemManager.systems)[t := {}]
      ensures old(Coherent()) ==> Coherent()
      ensures old(MembersSound()) ==> MembersSound()
    {
      systemManager.RegisterSystem(t);
    }

    /** Forwards to the system manager: the members, or OutOfRange for a type never registered. */
    function GetSystem(t: K): (r: Result<set<Entity>>)
      reads this, systemManager
      ensures r.Ok? <==> t in systemManager.systems
      ensures r.Ok? ==> r.value == systemManager.systems[t]
    {
      systemManager.GetSystem(t)
    }

    /**
     * Emplaces into the type's store, sets the type's bit in the entity's
     * signature and recomputes the entity's memberships. `bitset::set` throws
     * for an id beyond the bitset; the store has been updated by then, and
     * the signature and memberships are left as they were. Under the
     * invariant it cannot throw.
     */
    method AddComponent(t: K, entity: Entity, component: V) returns (out: Outcome)
      requires Valid()
      requires t in componentManager.storages
      requires entity < MAX_ENTITIES
      modifies componentManager`componentTypes, componentManager.storages[t], entityManager.signatures, systemManager
      ensures Valid()
      ensures componentManager.componentTypes == old(componentManager.componentTypes)
      ensures componentManager.storages[t].componentMap ==
                if entity in old(componentManager.storages[t].componentMap) then old(componentManager.storages[t].componentMap)
                else old(componentManager.storages[t].componentMap)[entity := component]
      ensures componentManager.Contents() == old(componentManager.Contents())[t := componentManager.storages[t].componentMap]
      ensures out.Fail? <==> componentManager.componentTypes[t] >= MAX_COMPONENTS
      ensures out.Fail? ==>
                && out.error == OutOfRange
                && entityManager.signatures[..] == old(entityManager.signatures[..])
                && systemManager.signatures == old(systemManager.signatures)
                && systemManager.systems == old(systemManager.systems)
      ensures out.Pass? ==>
                && entityManager.signatures[..] ==
                     old(entityManager.signatures[..])[entity := SetBit(old(entityManager.signatures[entity]), componentManager.componentTypes[t], true)]
                && systemManager.signatures == WithDefaults(old(systemManager.signatures), old(systemManager.systems).Keys)
                && systemManager.systems ==
                     Recompute(old(systemManager.systems), old(systemManager.signatures), entity, entityManager.signatures[entity])
      ensures old(Coherent()) ==> out.Pass? && Coherent()
      ensures old(MembersSound()) ==> MembersSound()
    {
      var signature;
      out, signature := StoreAndSetBit(t, entity, component);
      if out.Pass? {
        ghost var contents := componentManager.Contents();
        NotifySystems(entity, signature, old(entityManager.signatures[..]));
        assert componentManager.Contents() == contents;
      }
    }

    /**
     * The system step of AddComponent and RemoveComponent, once the entity's
     * signature has changed from `before` to `signature`: the memberships are
     * recomputed, and the membership invariant carries over.
     */
    method NotifySystems(entity: Entity, signature: Signature, ghost before: seq<Signature>)
      requires entity < |before|
      requires entityManager.signatures[..] == before[entity := signature]
      modifies systemManager
      ensures systemManager.signatures == WithDefaults(old(systemManager.signatures), old(systemManager.systems).Keys)
      ensures systemManager.systems == Recompute(old(systemManager.systems), old(systemManager.signatures), entity, signature)
      ensures MembersMatch(old(systemManager.systems), old(systemManager.signatures), before) ==> MembersSound()
    {
      systemManager.EntitySignatureChanged(entity, signature);
      if MembersMatch(old(systemManager.systems), old(systemManager.signatures), before) {
        RecomputeKeepsMembersMatch(old(systemManager.systems), old(systemManager.signatures), before, entity, signature);
      }
    }

    /** The store and signature steps of AddComponent. */
    method StoreAndSetBit(t: K, entity: Entity, component: V) returns (out: Outcome, signature: Signature)
      requires Valid()
      requires t in componentManager.storages
      requires entity < MAX_ENTITIES
      modifies componentManager`componentTypes, componentManager.storages[t], entityManager.signatures
      ensures Valid()
      ensures componentManager.componentTypes == old(componentManager.componentTypes)
      ensures componentManager.storages[t].componentMap ==
                if entity in old(componentManager.storages[t].componentMap) then old(componentManager.storages[t].componentMap)
                else old(componentManager.storages[t].componentMap)[entity := component]
      ensures componentManager.Contents() == old(componentManager.Contents())[t := componentManager.storages[t].componentMap]
      ensures out.Fail? <==> componentManager.componentTypes[t] >= MAX_COMPONENTS
      ensures out.Fail? ==> out.error == OutOfRange && entityManager.signatures[..] == old(entityManager.signatures[..])
      ensures out.Pass? ==>
                && signature == SetBit(old(entityManager.signatures[entity]), componentManager.componentTypes[t], true)
                && entityManager.signatures[..] == old(entityManager.signatures[..])[entity := signature]
      ensures old(Coherent()) ==> out.Pass? && Coherent()
    {
      componentManager.AddComponent(t, entity, component);
      ghost var contents := componentManager.Contents();
      out, signature := UpdateTypeBit(t, entity, true);
      assert componentManager.Contents() == contents;
      if old(Coherent()) {
        BitUpdateKeepsCoherent(old(componentManager.componentTypes), old(componentManager.Contents()),
                               old(componentManager.nextComponentType), old(entityManager.signatures[..]),
                               t, entity, componentManager.storages[t].componentMap, true);
      }
    }

    /**
     * Erases from the type's store, clears the type's bit in the entity's
     * signature and recomputes the entity's memberships. `bitset::set` throws
     * for an id beyond the bitset; the store has been updated by then, and
     * the signature and memberships are left as they were. Under the
     * invariant it cannot throw.
     */
    method RemoveComponent(t: K, entity: Entity) returns (out: Outcome)
      requires Valid()
      requires t in componentManager.storages
      requires entity < MAX_ENTITIES
      modifies componentManager`componentTypes, componentManager.storages[t], entityManager.signatures, systemManager
      ensures Valid()
      ensures componentManager.componentTypes == old(componentManager.componentTypes)
      ensures componentManager.storages[t].componentMap == old(componentManager.storages[t].componentMap) - {entity}
      ensures componentManager.Contents() == old(componentManager.Contents())[t := componentManager.storages[t].componentMap]
      ensures out.Fail? <==> componentManager.componentTypes[t] >= MAX_COMPONENTS
      ensures out.Fail? ==>
                && out.error == OutOfRange
                && entityManager.signatures[..] == old(entityManager.signatures[..])
                && systemManager.signatures == old(systemManager.signatures)
                && systemManager.systems == old(systemManager.systems)
      ensures out.Pass? ==>
                && entityManager.signatures[..] ==
                     old(entityManager.signatures[..])[entity := SetBit(old(entityManager.signatures[entity]), componentManager.componentTypes[t], false)]
                && systemManager.signatures == WithDefaults(old(systemManager.signatures), old(systemManager.systems).Keys)
                && systemManager.systems ==
                     Recompute(old(systemManager.systems), old(systemManager.signatures), entity, entityManager.signatures[entity])
      ensures old(Coherent()) ==> out.Pass? && Coherent()
      ensures old(MembersSound()) ==> MembersSound()
    {
      var signature;
      out, signature := EraseAndClearBit(t, entity);
      if out.Pass? {
        ghost var contents := componentManager.Contents();
        NotifySystems(entity, signature, old(entityManager.signatures[..]));
        assert componentManager.Contents() == contents;
      }
    }

    /** The store and signature steps of RemoveComponent. */
    method EraseAndClearBit(t: K, entity: Entity) returns (out: Outcome, signature: Signature)
      requires Valid()
      requires t in componentManager.storages
      requires entity < MAX_ENTITIES
      modifies componentManager`componentTypes, componentManager.storages[t], entityManager.signatures
      ensures Valid()
      ensures componentManager.componentTypes == old(componentManager.componentTypes)
      ensures componentManager.storages[t].componentMap == old(componentManager.storages[t].componentMap) - {entity}
      ensures componentManager.Contents() == old(componentManager.Contents())[t := componentManager.storages[t].componentMap]
      ensures out.Fail? <==> componentManager.componentTypes[t] >= MAX_COMPONENTS
      ensures out.Fail? ==> out.error == OutOfRange && entityManager.signatures[..] == old(entityManager.signatures[..])
      ensures out.Pass? ==>
                && signature == SetBit(old(entityManager.signatures[entity]), componentManager.componentTypes[t], false)
                && entityManager.signatures[..] == old(entityManager.signatures[..])[entity := signature]
      ensures old(Coherent()) ==> out.Pass? && Coherent()
    {
      componentManager.RemoveComponent(t, entity);
      ghost var contents := componentManager.Contents();
      out, signature := UpdateTypeBit(t, entity, false);
      assert componentManager.Contents() == contents;
      if old(Coherent()) {
        BitUpdateKeepsCoherent(old(componentManager.componentTypes), old(componentManager.Contents()),
                               old(componentManager.nextComponentType), old(entityManager.signatures[..]),
                               t, entity, componentManager.storages[t].componentMap, false);
      }
    }

    /**
     * The signature half of adding and removing: reads the entity's signature
     * and the type's id, sets or clears that bit (OutOfRange beyond the
     * bitset) and writes the signature back.
     */
    method UpdateTypeBit(t: K, entity: Entity, value: bool) returns (out: Outcome, signature: Signature)
      requires Valid()
      requires t in componentManager.storages
      requires entity < MAX_ENTITIES
      modifies componentManager`componentTypes, entityManager.signatures
      ensures componentManager.componentTypes == old(componentManager.componentTypes)
      ensures out.Fail? <==> componentManager.componentTypes[t] >= MAX_COMPONENTS
      ensures out.Fail? ==> out.error == OutOfRange && entityManager.signatures[..] == old(entityManager.signatures[..])
      ensures out.Pass? ==>
                && signature == SetBit(old(entityManager.signatures[entity]), componentManager.componentTypes[t], value)
                && entityManager.signatures[..] == old(entityManager.signatures[..])[entity := signature]
    {
      signature := entityManager.GetSignature(entity);
      var id := componentManager.GetComponentTypeID(t);
      if id >= MAX_COMPONENTS {
        return Fail(OutOfRange), signature;
      }
      signature := SetBit(signature, id, value);
      entityManager.SetSignature(entity, signature);
      out := Pass;
    }

    /**
     * Reads the type's store: the value, or OutOfRange when the store lacks
     * the entity. Under the invariant that is exactly when the entity's bit
     * for the type is clear.
     */
    function GetComponent(t: K, entity: Entity): (r: Result<V>)
      requires Valid()
      requires t in componentManager.storages
      reads this, entityManager, entityManager.signatures, componentManager, componentManager.Stores()
      ensures r.Ok? <==> entity in componentManager.storages[t].componentMap
      ensures r.Ok? ==> r.value == componentManager.storages[t].componentMap[entity]
      ensures r.Err? ==> r.error == OutOfRange
      ensures Coherent() && entity < MAX_ENTITIES ==>
                (r.Ok? <==> componentManager.componentTypes[t] in entityManager.signatures[entity])
    {
      componentManager.GetComponent(t, entity)
    }

    /**
     * `hasComponent`: reads the entity's signature and the type's id through
     * `operator[]` (an unknown type is recorded with id 0) and tests that bit,
     * OutOfRange beyond the bitset. Under the invariant, for a registered type
     * the answer is whether the type's store holds the entity.
     */
    method HasComponent(t: K, entity: Entity) returns (r: Result<bool>)
      requires Valid()
      requires entity < MAX_ENTITIES
      modifies componentManager`componentTypes
      ensures Valid()
      ensures r == CheckedTest(entityManager.signatures[entity], TypeIdOf(old(componentManager.componentTypes), t))
      ensures componentManager.componentTypes == Recorded(old(componentManager.componentTypes), t)
      ensures OnlyDefaultInserts(old(componentManager.componentTypes), componentManager.componentTypes, {t})
      ensures old(Coherent()) ==> Coherent()
      ensures old(Coherent()) && t in componentManager.storages ==>
                r == Ok(entity in componentManager.storages[t].componentMap)
    {
      ghost var contents := componentManager.Contents();
      var signature := entityManager.GetSignature(entity);
      var id := componentManager.GetComponentTypeID(t);
      assert componentManager.Contents() == contents;
      r := CheckedTest(signature, id);
      if old(Coherent()) {
        LookupKeepsCoherent(old(componentManager.componentTypes), componentManager.componentTypes,
                            contents, componentManager.nextComponentType,
                            entityManager.signatures[..], {t});
      }
    }

    /** `getComponentTypeID`: the type's id through `operator[]`; the invariant survives. */
    method GetComponentTypeID(t: K) returns (id: ComponentTypeID)
      requires Valid()
      modifies componentManager`componentTypes
      ensures Valid()
      ensures id == TypeIdOf(old(componentManager.componentTypes), t)
      ensures componentManager.componentTypes == Recorded(old(componentManager.componentTypes), t)
      ensures OnlyDefaultInserts(old(componentManager.componentTypes), componentManager.componentTypes, {t})
      ensures old(Coherent()) ==> Coherent()
      ensures old(Coherent()) && t in componentManager.storages ==> id < MAX_COMPONENTS
    {
      ghost var contents := componentManager.Contents();
      id := componentManager.GetComponentTypeID(t);
      assert componentManager.Contents() == contents;
      if old(Coherent()) {
        LookupKeepsCoherent(old(componentManager.componentTypes), componentManager.componentTypes,
                            contents, componentManager.nextComponentType,
                            entityManager.signatures[..], {t});
      }
    }

    /**
     * `tryGetComponent`: the stored value when the entity's bit for the type
     * is set, nothing when it is clear. For an unregistered type whose
     * default id 0 is set in the signature the source dereferences a null
     * store, so that case is excluded. Under the invariant the result is the
     * store's entry, if any.
     */
    method TryGetComponent(t: K, entity: Entity) returns (r: Result<Option<V>>)
      requires Valid()
      requires entity < MAX_ENTITIES
      requires t in componentManager.storages ||
               TypeIdOf(componentManager.componentTypes, t) !in entityManager.signatures[entity]
      modifies componentManager`componentTypes
      ensures Valid()
      ensures componentManager.componentTypes == Recorded(old(componentManager.componentTypes), t)
      ensures OnlyDefaultInserts(old(componentManager.componentTypes), componentManager.componentTypes, {t})
      ensures TypeIdOf(old(componentManager.componentTypes), t) >= MAX_COMPONENTS ==> r == Err(OutOfRange)
      ensures r == Ok(None) <==>
                TypeIdOf(old(componentManager.componentTypes), t) < MAX_COMPONENTS &&
                TypeIdOf(old(componentManager.componentTypes), t) !in entityManager.signatures[entity]
      ensures TypeIdOf(old(componentManager.componentTypes), t) in entityManager.signatures[entity] ==>
                (r.Ok? <==> entity in componentManager.storages[t].componentMap)
      ensures r.Ok? && r.value.Some? ==>
                && t in componentManager.storages
                && entity in componentManager.storages[t].componentMap
                && r.value.value == componentManager.storages[t].componentMap[entity]
      ensures old(Coherent()) ==> Coherent()
      ensures old(Coherent()) && t in componentManager.storages ==>
                r == if entity in componentManager.storages[t].componentMap
                     then Ok(Some(componentManager.storages[t].componentMap[entity]))
                     else Ok(None)
    {
      var has := HasComponent(t, entity);
      if has.Err? {
        return Err(has.error);
      }
      if !has.value {
        return Ok(None);
      }
      var component := GetComponent(t, entity);
      if component.Err? {
        return Err(component.error);
      }
      return Ok(Some(component.value));
    }

    /**
     * `hasComponentPair`: whether the two entities carry the two types
     * between them, in either order, evaluated with C++ short-circuiting.
     * Under the invariant and with both types registered it is a question
     * about the two stores alone.
     */
    method HasComponentPair(t1: K, t2: K, entityA: Entity, entityB: Entity) returns (r: Result<bool>)
      requires Valid()
      requires entityA < MAX_ENTITIES && entityB < MAX_ENTITIES
      modifies componentManager`componentTypes
      ensures Valid()
      ensures r == PairTest(entityManager.signatures[entityA], entityManager.signatures[entityB],
                            TypeIdOf(old(componentManager.componentTypes), t1),
                            TypeIdOf(old(componentManager.componentTypes), t2))
      ensures componentManager.componentTypes ==
                var afterFirst := Recorded(old(componentManager.componentTypes), t1);
                if TypeIdOf(old(componentManager.componentTypes), t1) < MAX_COMPONENTS then Recorded(afterFirst, t2) else afterFirst
      ensures OnlyDefaultInserts(old(componentManager.componentTypes), componentManager.componentTypes, {t1, t2})
      ensures old(Coherent()) ==> Coherent()
      ensures old(Coherent()) && t1 in componentManager.storages && t2 in componentManager.storages ==>
                var store1 := componentManager.storages[t1].componentMap;
                var store2 := componentManager.storages[t2].componentMap;
                r == Ok((entityA in store1 && entityB in store2) || (entityA in store2 && entityB in store1))
    {
      ghost var contents := componentManager.Contents();
      r := TestPair(t1, t2, entityA, entityB);
      assert componentManager.Contents() == contents;
      if old(Coherent()) {
        LookupKeepsCoherent(old(componentManager.componentTypes), componentManager.componentTypes,
                            contents, componentManager.nextComponentType,
                            entityManager.signatures[..], {t1, t2});
        if t1 in componentManager.storages && t2 in componentManager.storages {
          PairUnderCoherence(old(componentManager.componentTypes), contents,
                             componentManager.nextComponentType, entityManager.signatures[..],
                             t1, t2, entityA, entityB);
        }
      }
    }

    /** The four `hasComponent` calls of HasComponentPair, with short-circuiting. */
    method TestPair(t1: K, t2: K, entityA: Entity, entityB: Entity) returns (r: Result<bool>)
      requires Valid()
      requires entityA < MAX_ENTITIES && entityB < MAX_ENTITIES
      modifies componentManager`componentTypes
      ensures Valid()
      ensures r == PairTest(entityManager.signatures[entityA], entityManager.signatures[entityB],
                            TypeIdOf(old(componentManager.componentTypes), t1),
                            TypeIdOf(old(componentManager.componentTypes), t2))
      ensures componentManager.componentTypes ==
                var afterFirst := Recorded(old(componentManager.componentTypes), t1);
                if TypeIdOf(old(componentManager.componentTypes), t1) < MAX_COMPONENTS then Recorded(afterFirst, t2) else afterFirst
      ensures OnlyDefaultInserts(old(componentManager.componentTypes), componentManager.componentTypes, {t1, t2})
    {
      var first := LookupBit(t1, entityA);
      if first.Err? {
        return first;
      }
      if first.value {
        var second := LookupBit(t2, entityB);
        if second.Err? || second.value {
          return second;
        }
      }
      var third := LookupBit(t2, entityA);
      if third.Err? || !third.value {
        return third;
      }
      r := LookupBit(t1, entityB);
    }

    /** HasComponent without the invariant: the tested bit and the id lookup's effect. */
    method LookupBit(t: K, entity: Entity) returns (r: Result<bool>)
      requires Valid()
      requires entity < MAX_ENTITIES
      modifies componentManager`componentTypes
      ensures Valid()
      ensures r == CheckedTest(entityManager.signatures[entity], TypeIdOf(old(componentManager.componentTypes), t))
      ensures componentManager.componentTypes == Recorded(old(componentManager.componentTypes), t)
      ensures OnlyDefaultInserts(old(componentManager.componentTypes), componentManager.componentTypes, {t})
    {
      var signature := entityManager.GetSignature(entity);
      var id := componentManager.GetComponentTypeID(t);
      r := CheckedTest(signature, id);
    }

    /**
     * `getEntitySignature`: the entity's signature, empty exactly when the
     * entity does not exist; under the invariant its bit for each registered
     * type says whether that type's store holds the entity.
     */
    function GetEntitySignature(entity: Entity): (signature: Signature)
      requires Valid()
      requires entity < MAX_ENTITIES
      reads this, entityManager, entityManager.signatures, componentManager, componentManager.Stores()
      ensures signature != EMPTY <==> EntityExists(entity)
      ensures Coherent() ==>
                forall t :: t in componentManager.storages ==>
                  (componentManager.componentTypes[t] in signature <==> entity in componentManager.storages[t].componentMap)
    {
      entityManager.GetSignature(entity)
    }

    /** `getEntities`: every existing entity, ascending. */
    method GetEntities() returns (entities: seq<Entity>)
      requires Valid()
      ensures entities == LiveUpTo(entityManager.signatures[..], MAX_ENTITIES)
      ensures forall e: Entity :: e in entities <==> EntityExists(e)
    {
      entities := entityManager.GetEntities();
    }

    /**
     * `getAllEntitiesWith`: scans the existing entities in ascending order
     * and keeps those whose signature has both types' bits; the second test
     * only runs when the first holds, and an OutOfRange aborts the scan.
     * Under the invariant and with both types registered it cannot fail and
     * yields, ascending, exactly the entities held by both stores.
     */
    method GetAllEntitiesWith(t1: K, t2: K) returns (r: Result<seq<Entity>>)
      requires Valid()
      modifies componentManager`componentTypes
      ensures Valid()
      ensures r == SelectWithBoth(entityManager.signatures[..], LiveUpTo(entityManager.signatures[..], MAX_ENTITIES),
                                  TypeIdOf(old(componentManager.componentTypes), t1),
                                  TypeIdOf(old(componentManager.componentTypes), t2))
      ensures OnlyDefaultInserts(old(componentManager.componentTypes), componentManager.componentTypes, {t1, t2})
      ensures old(Coherent()) ==> Coherent()
      ensures old(Coherent()) && t1 in componentManager.storages && t2 in componentManager.storages ==>
                && r.Ok?
                && (forall e: Entity :: e in r.value <==>
                      e in componentManager.storages[t1].componentMap && e in componentManager.storages[t2].componentMap)
                && (forall i, j :: 0 <= i < j < |r.value| ==> r.value[i] < r.value[j])
    {
      ghost var contents := componentManager.Contents();
      r := ScanEntities(t1, t2);
      assert componentManager.Contents() == contents;
      if old(Coherent()) {
        LookupKeepsCoherent(old(componentManager.componentTypes), componentManager.componentTypes,
                            contents, componentManager.nextComponentType,
                            entityManager.signatures[..], {t1, t2});
        if t1 in componentManager.storages && t2 in componentManager.storages {
          SelectionUnderCoherence(old(componentManager.componentTypes), contents,
                                  componentManager.nextComponentType, entityManager.signatures[..], t1, t2);
        }
      }
    }

    /** The loop of GetAllEntitiesWith. */
    method ScanEntities(t1: K, t2: K) returns (r: Result<seq<Entity>>)
      requires Valid()
      modifies componentManager`componentTypes
      ensures Valid()
      ensures r == SelectWithBoth(entityManager.signatures[..], LiveUpTo(entityManager.signatures[..], MAX_ENTITIES),
                                  TypeIdOf(old(componentManager.componentTypes), t1),
                                  TypeIdOf(old(componentManager.componentTypes), t2))
      ensures OnlyDefaultInserts(old(componentManager.componentTypes), componentManager.componentTypes, {t1, t2})
    {
      var entities := entityManager.GetEntities();
      ghost var sigs := entityManager.signatures[..];
      ghost var types := componentManager.componentTypes;
      ghost var id1, id2 := TypeIdOf(types, t1), TypeIdOf(types, t2);
      var selected: seq<Entity> := [];
      var i := 0;
      while i < |entities|
        invariant i <= |entities|
        invariant Valid()
        invariant entityManager.signatures[..] == sigs
        invariant OnlyDefaultInserts(types, componentManager.componentTypes, {t1, t2})
        invariant SelectWithBoth(sigs, entities[..i], id1, id2) == Ok(selected)
      {
        var scanned := ScanStep(t1, t2, entities, i, selected, sigs, types);
        if scanned.Err? {
          SelectWithBothAborts(sigs, entities, i + 1, id1, id2);
          return scanned;
        }
        selected := scanned.value;
        i := i + 1;
      }
      assert entities[..i] == entities;
      r := Ok(selected);
    }

    /**
     * One iteration of ScanEntities: tests the next listed entity and
     * extends the selection so far, which gives the scan of one more id.
     */
    method ScanStep(t1: K, t2: K, entities: seq<Entity>, i: nat, selected: seq<Entity>,
                    ghost sigs: seq<Signature>, ghost types: map<K, ComponentTypeID>) returns (scanned: Result<seq<Entity>>)
      requires Valid()
      requires entityManager.signatures[..] == sigs
      requires forall k :: 0 <= k < |entities| ==> entities[k] < MAX_ENTITIES
      requires i < |entities|
      requires OnlyDefaultInserts(types, componentManager.componentTypes, {t1, t2})
      requires SelectWithBoth(sigs, entities[..i], TypeIdOf(types, t1), TypeIdOf(types, t2)) == Ok(selected)
      modifies componentManager`componentTypes
      ensures Valid()
      ensures OnlyDefaultInserts(types, componentManager.componentTypes, {t1, t2})
      ensures scanned == SelectWithBoth(sigs, entities[..i + 1], TypeIdOf(types, t1), TypeIdOf(types, t2))
      ensures componentManager.componentTypes ==
                var afterFirst := Recorded(old(componentManager.componentTypes), t1);
                if CheckedTest(sigs[entities[i]], TypeIdOf(old(componentManager.componentTypes), t1)) == Ok(true)
                then Recorded(afterFirst, t2) else afterFirst
    {
      var entity := entities[i];
      assert entityManager.signatures[entity] == sigs[entity];
      SelectWithBothStep(sigs, entities, i, TypeIdOf(types, t1), TypeIdOf(types, t2));
      DefaultInsertsKeepIds(types, componentManager.componentTypes, {t1, t2});
      var both := TestEntity(t1, t2, entity);
      OnlyDefaultInsertsCompose(types, old(componentManager.componentTypes), componentManager.componentTypes, {t1, t2}, {t1, t2});
      if both.Err? {
        return Err(both.error);
      }
      scanned := Ok(if both.value then selected + [entity] else selected);
    }

    /** One entity of the scan: both bit tests, the second only when the first holds. */
    method TestEntity(t1: K, t2: K, entity: Entity) returns (r: Result<bool>)
      requires Valid()
      requires entity < MAX_ENTITIES
      modifies componentManager`componentTypes
      ensures Valid()
      ensures r == TestBoth(entityManager.signatures[entity], TypeIdOf(old(componentManager.componentTypes), t1),
                            entityManager.signatures[entity], TypeIdOf(old(componentManager.componentTypes), t2))
      ensures componentManager.componentTypes ==
                var afterFirst := Recorded(old(componentManager.componentTypes), t1);
                if CheckedTest(entityManager.signatures[entity], TypeIdOf(old(componentManager.componentTypes), t1)) == Ok(true)
                then Recorded(afterFirst, t2) else afterFirst
      ensures OnlyDefaultInserts(old(componentManager.componentTypes), componentManager.componentTypes, {t1, t2})
    {
      r := LookupBit(t1, entity);
      if r.Ok? && r.value {
        ghost var before := componentManager.componentTypes;
        DefaultInsertsKeepIds(old(componentManager.componentTypes), before, {t1});
        r := LookupBit(t2, entity);
        OnlyDefaultInsertsCompose(old(componentManager.componentTypes), before, componentManager.componentTypes, {t1, t2}, {t2});
      }
    }

    /** `setSystemSignature`: forwards to the system manager's `insert`, which never overwrites. */
    method SetSystemSignature(t: K, signature: Signature)
      requires Valid()
      modifies systemManager
      ensures Valid()
      ensures systemManager.systems == old(systemManager.systems)
      ensures systemManager.signatures ==
                if t in old(systemManager.signatures) then old(systemManager.signatures)
                else old(systemManager.signatures)[t := signature]
      ensures old(Coherent()) ==> Coherent()
      ensures (&& old(MembersSound())
               && (t !in old(systemManager.signatures) && t in old(systemManager.systems) ==>
                     forall e: Entity :: e in old(systemManager.systems)[t] ==>
                       e < MAX_ENTITIES && Matches(entityManager.signatures[e], signature))) ==> MembersSound()
    {
      systemManager.SetSignature(t, signature);
      if old(MembersSound()) && (t !in old(systemManager.signatures) && t in old(systemManager.systems) ==>
                     forall e: Entity :: e in old(systemManager.systems)[t] ==>
                       e < MAX_ENTITIES && Matches(entityManager.signatures[e], signature)) {
        SetSignatureKeepsMembersMatch(old(systemManager.systems), old(systemManager.signatures),
                                      entityManager.signatures[..], t, signature);
      }
    }
  }
}
