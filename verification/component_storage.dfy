/**
 * The store of one component type: a map from entity to component value,
 * at most one value per entity.
 */
module Storage {
  import opened Types

  class ComponentStorage<T> {
    var componentMap: map<Entity, T>

    constructor ()
      ensures componentMap == map[]
    {
      componentMap := map[];
    }

    /**
     * Inserts the value only when the entity has none (`emplace` semantics):
     * an existing value is kept, not overwritten. Other entries are untouched.
     */
    method InsertData(entity: Entity, component: T)
      modifies this
      ensures HasData(entity)
      ensures GetData(entity) == Ok(if old(entity in componentMap) then old(componentMap[entity]) else component)
      ensures old(entity !in componentMap) ==> componentMap == old(componentMap)[entity := component]
      ensures old(entity in componentMap) ==> componentMap == old(componentMap)
    {
      if entity !in componentMap {
        componentMap := componentMap[entity := component];
      }
    }

    /** Erases the entity's entry; erasing a missing entry changes nothing. */
    method RemoveData(entity: Entity)
      modifies this
      ensures !HasData(entity) && GetData(entity) == Err(OutOfRange)
      ensures componentMap == old(componentMap) - {entity}
    {
      componentMap := componentMap - {entity};
    }

    /** `at`: the stored value, or OutOfRange when the entity has none. */
    function GetData(entity: Entity): (r: Result<T>)
      reads this
      ensures r.Ok? <==> entity in componentMap
      ensures r.Ok? ==> r.value == componentMap[entity]
      ensures r.Err? ==> r.error == OutOfRange
    {
      if entity in componentMap then Ok(componentMap[entity]) else Err(OutOfRange)
    }

    /** The entity has a value exactly when reading it succeeds. */
    predicate HasData(entity: Entity)
      reads this
      ensures HasData(entity) <==> GetData(entity).Ok?
    {
      entity in componentMap
    }

    /** The destruction notice: the same erase as RemoveData, so repeating it changes nothing. */
    method EntityDestroyed(entity: Entity)
      modifies this
      ensures !HasData(entity)
      ensures componentMap == old(componentMap) - {entity}
    {
      RemoveData(entity);
    }
  }
}
