/**
 * The component registry: a type-key -> id table fed by an 8-bit counter, and
 * a type-key -> store table holding one ComponentStorage per registered type.
 * Type keys stand for `typeid(T)`; every store holds values of one payload
 * type V.
 */
module Components {
  import opened Types
  import opened Storage

  /**
   * What `componentTypes[t]` yields: the recorded id, or 0 for a key that
   * was never recorded (which `operator[]` then inserts).
   */
  function TypeIdOf<K>(types: map<K, ComponentTypeID>, t: K): ComponentTypeID
  {
    if t in types then types[t] else 0
  }

  /**
   * The table `componentTypes[t]` leaves behind: the lookup writes back the
   * id it returned, so the key is recorded from then on and nothing else
   * changes.
   */
  function Recorded<K>(types: map<K, ComponentTypeID>, t: K): (after: map<K, ComponentTypeID>)
    ensures after == types[t := TypeIdOf(types, t)]
  {
    if t in types then types else types[t := 0]
  }

  /**
   * `after` is `before` with some keys of `ks` default-inserted (value 0):
   * no id that TypeIdOf reports has changed.
   */
  ghost predicate OnlyDefaultInserts<K>(before: map<K, ComponentTypeID>, after: map<K, ComponentTypeID>, ks: set<K>)
  {
    && before.Keys <= after.Keys <= before.Keys + ks
    && forall t :: t in after ==> after[t] == TypeIdOf(before, t)
  }

  /** Default inserts change no id that TypeIdOf reports. */
  lemma DefaultInsertsKeepIds<K>(before: map<K, ComponentTypeID>, after: map<K, ComponentTypeID>, ks: set<K>)
    requires OnlyDefaultInserts(before, after, ks)
    ensures forall t :: TypeIdOf(after, t) == TypeIdOf(before, t)
  {
  }

  /** Two rounds of default inserts add up to one. */
  lemma OnlyDefaultInsertsCompose<K>(a: map<K, ComponentTypeID>, b: map<K, ComponentTypeID>,
                                     c: map<K, ComponentTypeID>, ks: set<K>, ks': set<K>)
    requires OnlyDefaultInserts(a, b, ks) && OnlyDefaultInserts(b, c, ks') && ks' <= ks
    ensures OnlyDefaultInserts(a, c, ks)
  {
  }

  /** The ids of the `registered` keys are pairwise distinct and all below `next`. */
  ghost predicate DistinctBelow<K>(types: map<K, ComponentTypeID>, registered: set<K>, next: ComponentTypeID)
    requires registered <= types.Keys
  {
    && (forall t :: t in registered ==> types[t] < next)
    && (forall a, b :: a in registered && b in registered && a != b ==> types[a] != types[b])
  }

  /**
   * Registering a key that is registered already or was never looked up,
   * while the counter has room, keeps the ids distinct and below the counter.
   */
  lemma RegisterKeepsDistinct<K>(types: map<K, ComponentTypeID>, registered: set<K>, next: ComponentTypeID, t: K)
    requires registered <= types.Keys
    requires DistinctBelow(types, registered, next)
    requires next < 255
    requires t in registered || t !in types
    ensures DistinctBelow(if t in types then types else types[t := next], registered + {t}, Successor(next))
  {
  }

  /** Every store with the entity erased, every other entry kept. */
  function WithoutEntity<K, V>(contents: map<K, map<Entity, V>>, entity: Entity): map<K, map<Entity, V>>
  {
    map t | t in contents :: contents[t] - {entity}
  }

  class ComponentManager<K(==), V> {
    var componentTypes: map<K, ComponentTypeID>
    var storages: map<K, ComponentStorage<V>>
    var nextComponentType: ComponentTypeID

    /**
     * Every registered type has an id; a key with an id but no store was only
     * ever looked up, so its id is the default 0; no two types share a store.
     */
    ghost predicate Valid()
      reads this
    {
      && storages.Keys <= componentTypes.Keys
      && (forall t :: t in componentTypes && t !in storages ==> componentTypes[t] == 0)
      && (forall a, b :: a in storages && b in storages && a != b ==> storages[a] != storages[b])
    }

    /**
     * Registered types have pairwise distinct ids, all below the counter: the
     * ids usable as signature bits. Registering a type that was looked up
     * before (id 0 by default) or wrapping the counter breaks it.
     */
    ghost predicate IdsDistinct()
      reads this
      requires Valid()
    {
      DistinctBelow(componentTypes, storages.Keys, nextComponentType)
    }

    /** The store objects, one per registered type. */
    ghost function Stores(): set<ComponentStorage<V>>
      reads this
    {
      set t | t in storages :: storages[t]
    }

    /** What every store holds, by type. */
    ghost function Contents(): map<K, map<Entity, V>>
      reads this, Stores()
    {
      map t | t in storages :: storages[t].componentMap
    }

    constructor ()
      ensures Valid() && IdsDistinct()
      ensures componentTypes == map[] && storages == map[] && nextComponentType == 0
    {
      componentTypes := map[];
      storages := map[];
      nextComponentType := 0;
    }

    /**
     * Both tables use `insert`, which never overwrites: a fresh type gets the
     * counter's value and an empty store; a type already in a table keeps its
     * entry. The counter is incremented (modulo 256) in every case.
     */
    method RegisterComponent(t: K)
      requires Valid()
      modifies this
      ensures Valid()
      ensures nextComponentType == Successor(old(nextComponentType))
      ensures (&& old(IdsDistinct()) && old(nextComponentType) < 255
               && (t in old(storages) || t !in old(componentTypes))) ==> IdsDistinct()
      ensures componentTypes == if t in old(componentTypes) then old(componentTypes)
                                else old(componentTypes)[t := old(nextComponentType)]
      ensures t in old(storages) ==> storages == old(storages)
      ensures t !in old(storages) ==>
                && storages.Keys == old(storages).Keys + {t}
                && fresh(storages[t]) && storages[t].componentMap == map[]
                && forall u :: u in old(storages) ==> storages[u] == old(storages[u])
      ensures Contents() == if t in old(storages) then old(Contents()) else old(Contents())[t := map[]]
    {
      ghost var types, registered, next := componentTypes, storages.Keys, nextComponentType;
      ghost var keepsIds := IdsDistinct() && next < 255 && (t in registered || t !in types);
      ghost var contents := Contents();
      AssignTypeId(t);
      assert Contents() == contents;
      AddStorage(t);
      if keepsIds {
        RegisterKeepsDistinct(types, registered, next, t);
        assert storages.Keys == registered + {t};
      }
    }

    /** The id half of registration: `insert` of the counter's value, then the increment. */
    method AssignTypeId(t: K)
      modifies this`componentTypes, this`nextComponentType
      ensures nextComponentType == Successor(old(nextComponentType))
      ensures componentTypes == if t in old(componentTypes) then old(componentTypes)
                                else old(componentTypes)[t := old(nextComponentType)]
    {
      if t !in componentTypes {
        componentTypes := componentTypes[t := nextComponentType];
      }
      nextComponentType := Successor(nextComponentType);
    }

    /** The store half of registration: `insert` of a fresh empty store, keeping stores unshared. */
    method AddStorage(t: K)
      requires forall a, b :: a in storages && b in storages && a != b ==> storages[a] != storages[b]
      modifies this`storages
      ensures forall a, b :: a in storages && b in storages && a != b ==> storages[a] != storages[b]
      ensures t in old(storages) ==> storages == old(storages)
      ensures t !in old(storages) ==>
                && t in storages && storages == old(storages)[t := storages[t]]
                && storages.Keys == old(storages).Keys + {t}
                && fresh(storages[t]) && storages[t].componentMap == map[]
      ensures Contents() == if t in old(storages) then old(Contents()) else old(Contents())[t := map[]]
    {
      if t !in storages {
        var storage := new ComponentStorage<V>();
        assert forall u :: u in storages ==> storages[u] != storage;
        storages := storages[t := storage];
        assert Contents() == old(Contents())[t := map[]];
      }
    }

    /**
     * `componentTypes[t]` through `operator[]`: an unknown key reads as 0 and
     * is inserted with that value, so it aliases the first registered type.
     */
    method GetComponentTypeID(t: K) returns (id: ComponentTypeID)
      requires Valid()
      modifies this`componentTypes
      ensures Valid()
      ensures id == TypeIdOf(old(componentTypes), t)
      ensures t !in old(storages) ==> id == 0
      ensures componentTypes == Recorded(old(componentTypes), t)
      ensures OnlyDefaultInserts(old(componentTypes), componentTypes, {t})
    {
      if t !in componentTypes {
        componentTypes := componentTypes[t := 0];
      }
      id := componentTypes[t];
    }

    /**
     * The store of a registered type (for an unregistered type `operator[]`
     * yields a null store, which every caller then dereferences). The store
     * belongs to `t` alone.
     */
    function GetComponentStorage(t: K): (storage: ComponentStorage<V>)
      requires Valid()
      requires t in storages
      reads this
      ensures storage in Stores()
      ensures forall u :: u in storages && storages[u] == storage ==> u == t
    {
      storages[t]
    }

    /** Emplaces into t's store only; every other store is unchanged. */
    method AddComponent(t: K, entity: Entity, component: V)
      requires Valid()
      requires t in storages
      modifies storages[t]
      ensures storages[t].HasData(entity)
      ensures storages[t].componentMap ==
                if entity in old(storages[t].componentMap) then old(storages[t].componentMap)
                else old(storages[t].componentMap)[entity := component]
      ensures Contents() == old(Contents())[t := storages[t].componentMap]
    {
      GetComponentStorage(t).InsertData(entity, component);
      assert Contents() == old(Contents())[t := storages[t].componentMap];
    }

    /** Erases from t's store only; every other store is unchanged. */
    method RemoveComponent(t: K, entity: Entity)
      requires Valid()
      requires t in storages
      modifies storages[t]
      ensures !storages[t].HasData(entity)
      ensures storages[t].componentMap == old(storages[t].componentMap) - {entity}
      ensures Contents() == old(Contents())[t := storages[t].componentMap]
    {
      GetComponentStorage(t).RemoveData(entity);
      assert Contents() == old(Contents())[t := storages[t].componentMap];
    }

    /** Reads t's store: the value, or OutOfRange when the entity has no component of type t. */
    function GetComponent(t: K, entity: Entity): (r: Result<V>)
      requires Valid()
      requires t in storages
      reads this, storages[t]
      ensures r.Ok? <==> entity in storages[t].componentMap
      ensures r.Ok? ==> r.value == storages[t].componentMap[entity]
    {
      GetComponentStorage(t).GetData(entity)
    }

    /** Broadcasts the destruction to every store: each drops the entity and keeps everything else. */
    method EntityDestroyed(entity: Entity)
      requires Valid()
      modifies Stores()
      ensures Contents() == WithoutEntity(old(Contents()), entity)
    {
      var pending := storages.Keys;
      while pending != {}
        invariant pending <= storages.Keys
        invariant forall t :: t in storages && t !in pending ==>
                    storages[t].componentMap == old(storages[t].componentMap) - {entity}
        invariant forall t :: t in pending ==> storages[t].componentMap == old(storages[t].componentMap)
        decreases pending
      {
        var t :| t in pending;
        storages[t].EntityDestroyed(entity);
        pending := pending - {t};
      }
      assert Contents() == WithoutEntity(old(Contents()), entity);
    }
  }
}
