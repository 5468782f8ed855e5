/**
 * The entity pool: identifiers are handed out from a FIFO queue of free ids,
 * every id owns one signature slot in a fixed array, and a live count guards
 * the capacity.
 */
module Entities {
  import opened Types

  /**
   * The ids below `n` whose signature is non-empty, in ascending order: what
   * a scan of the first `n` signature slots collects.
   */
  function LiveUpTo(sigs: seq<Signature>, n: nat): (r: seq<Entity>)
    requires n <= |sigs| <= MAX_ENTITIES
    ensures forall e: Entity :: e in r <==> e < n && sigs[e] != EMPTY
    ensures forall i :: 0 <= i < |r| ==> r[i] < n
    ensures forall i, j :: 0 <= i < j < |r| ==> r[i] < r[j]
  {
    if n == 0 then []
    else LiveUpTo(sigs, n - 1) + (if sigs[n - 1] != EMPTY then [n - 1] else [])
  }

  /** The ids 0, 1, ..., n - 1 in order. */
  function Iota(n: nat): (r: seq<Entity>)
    requires n <= MAX_ENTITIES
    ensures |r| == n && forall i :: 0 <= i < n ==> r[i] == i
  {
    if n == 0 then [] else Iota(n - 1) + [n - 1]
  }

  class EntityManager {
    /** The queue of free ids; the front is at index 0. */
    var availableEntities: seq<Entity>
    /** One signature per id, indexed by id. */
    const signatures: array<Signature>
    var livingEntityCount: nat

    /**
     * Every id is either in the free queue or counted as live, so the queue
     * holds exactly MAX_ENTITIES - livingEntityCount ids, all in range.
     */
    ghost predicate Valid()
      reads this
    {
      && signatures.Length == MAX_ENTITIES
      && |availableEntities| + livingEntityCount == MAX_ENTITIES
      && forall i :: 0 <= i < |availableEntities| ==> availableEntities[i] < MAX_ENTITIES
    }

    /** Seeds the queue with 0, 1, ..., MAX_ENTITIES - 1; every signature starts empty. */
    constructor ()
      ensures Valid() && fresh(signatures)
      ensures availableEntities == Iota(MAX_ENTITIES)
      ensures livingEntityCount == 0
      ensures forall e :: 0 <= e < MAX_ENTITIES ==> signatures[e] == EMPTY
    {
      var queue: seq<Entity> := [];
      var entity: Entity := 0;
      while entity < MAX_ENTITIES
        invariant entity <= MAX_ENTITIES
        invariant queue == Iota(entity)
      {
        queue := queue + [entity];
        entity := entity + 1;
      }
      availableEntities := queue;
      signatures := new Signature[MAX_ENTITIES](_ => EMPTY);
      livingEntityCount := 0;
    }

    /**
     * Fails at capacity and then changes nothing; otherwise pops the front of
     * the free queue, counts it as live and returns it.
     */
    method CreateEntity() returns (r: Result<Entity>)
      requires Valid()
      modifies this
      ensures Valid()
      ensures r.Err? <==> old(livingEntityCount) >= MAX_ENTITIES
      ensures r.Err? ==> r.error == TooManyEntities
                         && availableEntities == old(availableEntities)
                         && livingEntityCount == old(livingEntityCount)
      ensures r.Ok? ==> && r.value == old(availableEntities)[0]
                        && r.value < MAX_ENTITIES
                        && availableEntities == old(availableEntities)[1..]
                        && livingEntityCount == old(livingEntityCount) + 1
    {
      if livingEntityCount >= MAX_ENTITIES {
        return Err(TooManyEntities);
      }
      var id := availableEntities[0];
      availableEntities := availableEntities[1..];
      livingEntityCount := livingEntityCount + 1;
      return Ok(id);
    }

    /**
     * A no-op on an entity with an empty signature. Otherwise fails, changing
     * nothing, when no entity is counted as live; else empties the signature,
     * puts the id at the back of the free queue and decrements the count.
     */
    method DestroyEntity(entity: Entity) returns (out: Outcome)
      requires Valid()
      requires entity < MAX_ENTITIES
      modifies this, signatures
      ensures Valid()
      ensures old(signatures[entity]) == EMPTY ==>
                && out == Pass
                && signatures[..] == old(signatures[..])
                && availableEntities == old(availableEntities)
                && livingEntityCount == old(livingEntityCount)
      ensures old(signatures[entity]) != EMPTY && old(livingEntityCount) == 0 ==>
                && out == Fail(NoEntitiesToDestroy)
                && signatures[..] == old(signatures[..])
                && availableEntities == old(availableEntities)
                && livingEntityCount == old(livingEntityCount)
      ensures old(signatures[entity]) != EMPTY && old(livingEntityCount) > 0 ==>
                && out == Pass
                && signatures[..] == old(signatures[..])[entity := EMPTY]
                && availableEntities == old(availableEntities) + [entity]
                && livingEntityCount == old(livingEntityCount) - 1
    {
      if signatures[entity] == EMPTY {
        return Pass;
      }
      if livingEntityCount <= 0 {
        return Fail(NoEntitiesToDestroy);
      }
      signatures[entity] := EMPTY;
      availableEntities := availableEntities + [entity];
      livingEntityCount := livingEntityCount - 1;
      return Pass;
    }

    /** An id exists when it is in range and its signature is non-empty, i.e. when a scan lists it. */
    predicate EntityExists(entity: Entity)
      requires Valid()
      reads this, signatures
      ensures EntityExists(entity) <==> entity in LiveUpTo(signatures[..], MAX_ENTITIES)
    {
      entity < MAX_ENTITIES && signatures[entity] != EMPTY
    }

    /** Scans every slot and collects the existing ids, ascending and without duplicates. */
    method GetEntities() returns (entities: seq<Entity>)
      requires Valid()
      ensures entities == LiveUpTo(signatures[..], MAX_ENTITIES)
      ensures forall e: Entity :: e in entities <==> EntityExists(e)
      ensures forall i, j :: 0 <= i < j < |entities| ==> entities[i] < entities[j]
    {
      entities := [];
      var entity: Entity := 0;
      while entity < MAX_ENTITIES
        invariant entity <= MAX_ENTITIES
        invariant entities == LiveUpTo(signatures[..], entity)
      {
        if EntityExists(entity) {
          entities := entities + [entity];
        }
        entity := entity + 1;
      }
    }

    /** Overwrites one slot; no liveness check. */
    method SetSignature(entity: Entity, signature: Signature)
      requires Valid()
      requires entity < MAX_ENTITIES
      modifies signatures
      ensures GetSignature(entity) == signature
      ensures signatures[..] == old(signatures[..])[entity := signature]
    {
      signatures[entity] := signature;
    }

    /** Reads one slot; the slot is empty exactly when the id does not exist. */
    function GetSignature(entity: Entity): (signature: Signature)
      requires Valid()
      requires entity < MAX_ENTITIES
      reads this, signatures
      ensures signature != EMPTY <==> EntityExists(entity)
    {
      signatures[entity]
    }
  }
}
