/**
 * The invariant that ties the entity signatures to the component stores,
 * stated on plain values (the id table, the store contents by type, the id
 * counter and the signature array), and how each coordinator step keeps it.
 */
module Coherence {
  import opened Types
  import opened Components

  /**
   * The registered types (the keys of `contents`) have ids that are pairwise
   * distinct and below the counter, the counter fits the bitset, no
   * signature has a bit at or beyond the counter, and an entity's bit for a
   * registered type is set exactly when that type's store holds the entity;
   * stores only hold ids in range.
   */
  ghost predicate CoherentState<K, V>(types: map<K, ComponentTypeID>, contents: map<K, map<Entity, V>>,
                                      next: ComponentTypeID, sigs: seq<Signature>)
  {
    && contents.Keys <= types.Keys
    && |sigs| == MAX_ENTITIES
    && DistinctBelow(types, contents.Keys, next)
    && next <= MAX_COMPONENTS
    && (forall e :: 0 <= e < MAX_ENTITIES ==> forall j :: j in sigs[e] ==> j < next)
    && (forall t, e: Entity :: t in contents && e < MAX_ENTITIES ==> (types[t] in sigs[e] <==> e in contents[t]))
    && (forall t, e: Entity :: t in contents && e in contents[t] ==> e < MAX_ENTITIES)
  }

  /** A fresh coordinator: no type, no store, every signature empty. */
  lemma InitialCoherent<K, V>(sigs: seq<Signature>)
    requires |sigs| == MAX_ENTITIES
    requires forall e :: 0 <= e < |sigs| ==> sigs[e] == EMPTY
    ensures CoherentState<K, V>(map[], map[], 0, sigs)
  {
  }

  /** Looking ids up through `operator[]` only records default ids for unregistered types. */
  lemma LookupKeepsCoherent<K, V>(types: map<K, ComponentTypeID>, types': map<K, ComponentTypeID>,
                                  contents: map<K, map<Entity, V>>, next: ComponentTypeID,
                                  sigs: seq<Signature>, ks: set<K>)
    requires CoherentState(types, contents, next, sigs)
    requires OnlyDefaultInserts(types, types', ks)
    ensures CoherentState(types', contents, next, sigs)
  {
  }

  /**
   * Storing or erasing the entity in one registered type's store together
   * with setting or clearing that type's bit in the entity's signature.
   */
  lemma BitUpdateKeepsCoherent<K, V>(types: map<K, ComponentTypeID>, contents: map<K, map<Entity, V>>,
                                     next: ComponentTypeID, sigs: seq<Signature>,
                                     t: K, entity: Entity, store: map<Entity, V>, value: bool)
    requires CoherentState(types, contents, next, sigs)
    requires t in contents && entity < MAX_ENTITIES
    requires (entity in store) == value
    requires forall e :: e != entity ==> (e in store <==> e in contents[t])
    ensures types[t] < MAX_COMPONENTS
    ensures CoherentState(types, contents[t := store], next,
       sigs[entity := SetBit(sigs[entity], types[t], value)])
  {
  }

  /** Destruction: the entity's signature emptied and the entity erased from every store. */
  lemma DestroyKeepsCoherent<K, V>(types: map<K, ComponentTypeID>, contents: map<K, map<Entity, V>>,
                                   next: ComponentTypeID, sigs: seq<Signature>, entity: Entity)
    requires CoherentState(types, contents, next, sigs)
    requires entity < MAX_ENTITIES
    ensures CoherentState(types, WithoutEntity(contents, entity), next, sigs[entity := EMPTY])
  {
  }

  /**
   * Registration while the counter is below the bitset width, of a type that
   * is registered already or was never looked up: the new type takes the
   * counter's value, which no signature has set, and an empty store.
   */
  lemma RegisterKeepsCoherent<K, V>(types: map<K, ComponentTypeID>, contents: map<K, map<Entity, V>>,
                                    next: ComponentTypeID, sigs: seq<Signature>, t: K)
    requires CoherentState(types, contents, next, sigs)
    requires next < MAX_COMPONENTS
    requires t in contents || t !in types
    ensures CoherentState(if t in types then types else types[t := next],
       if t in contents then contents else contents[t := map[]],
       Successor(next), sigs)
  {
  }
}
