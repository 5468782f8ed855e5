/**
 * The system registry: a required signature per system type key and, for
 * every registered system, the set of its member entities, kept up to date
 * on every signature change and destruction.
 */
module Systems {
  import opened Types

  /** What `signatures[t]` yields: the stored signature, or the empty one for a missing key. */
  function SignatureOf<K>(signatures: map<K, Signature>, t: K): Signature
  {
    if t in signatures then signatures[t] else EMPTY
  }

  /** The signature table after `operator[]` has been applied to every key of `keys`. */
  function WithDefaults<K>(signatures: map<K, Signature>, keys: set<K>): map<K, Signature>
  {
    map t | t in signatures.Keys + keys :: SignatureOf(signatures, t)
  }

  /** A member set with the entity inserted (`member`) or erased (otherwise). */
  function Toggle(members: set<Entity>, entity: Entity, member: bool): set<Entity>
  {
    if member then members + {entity} else members - {entity}
  }

  /**
   * The member sets after a signature change of `entity`: in every system it
   * is a member exactly when its new signature matches the system's, and
   * every other entity's memberships are as they were.
   */
  function Recompute<K>(memberships: map<K, set<Entity>>, signatures: map<K, Signature>,
                        entity: Entity, entitySignature: Signature): (r: map<K, set<Entity>>)
    ensures r.Keys == memberships.Keys
    ensures forall t, e :: t in memberships ==>
              (e in r[t] <==> if e == entity then Matches(entitySignature, SignatureOf(signatures, t)) else e in memberships[t])
  {
    map t | t in memberships :: Toggle(memberships[t], entity, Matches(entitySignature, SignatureOf(signatures, t)))
  }

  /** The member sets after the destruction of `entity`: it is in no system, and every other membership is kept. */
  function Without<K>(memberships: map<K, set<Entity>>, entity: Entity): (r: map<K, set<Entity>>)
    ensures r.Keys == memberships.Keys
    ensures forall t, e :: t in memberships ==> (e in r[t] <==> e != entity && e in memberships[t])
  {
    map t | t in memberships :: memberships[t] - {entity}
  }

  /**
   * The membership invariant: every member of every system has, in its
   * entity signature, all the bits the system asks for. (The converse does
   * not hold in general: a system registered after an entity's last
   * signature change has not been told about that entity.)
   */
  ghost predicate MembersMatch<K>(memberships: map<K, set<Entity>>, signatures: map<K, Signature>,
                                  entitySignatures: seq<Signature>)
  {
    forall t :: t in memberships ==>
      forall e: Entity :: e in memberships[t] ==>
        e < |entitySignatures| && Matches(entitySignatures[e], SignatureOf(signatures, t))
  }

  /** Default-inserting empty signatures changes no signature a system reads. */
  lemma WithDefaultsKeepsSignatures<K>(signatures: map<K, Signature>, keys: set<K>)
    ensures WithDefaults(signatures, keys).Keys == signatures.Keys + keys
    ensures forall t :: SignatureOf(WithDefaults(signatures, keys), t) == SignatureOf(signatures, t)
  {
  }

  /** Recomputing after a signature change keeps the membership invariant. */
  lemma RecomputeKeepsMembersMatch<K>(memberships: map<K, set<Entity>>, signatures: map<K, Signature>,
                                      entitySignatures: seq<Signature>, entity: Entity,
                                      entitySignature: Signature)
    requires MembersMatch(memberships, signatures, entitySignatures)
    requires entity < |entitySignatures|
    ensures MembersMatch(Recompute(memberships, signatures, entity, entitySignature),
      WithDefaults(signatures, memberships.Keys),
      entitySignatures[entity := entitySignature])
  {
  }

  /** Erasing a destroyed entity, whose signature is emptied, keeps the membership invariant. */
  lemma WithoutKeepsMembersMatch<K>(memberships: map<K, set<Entity>>, signatures: map<K, Signature>,
                                    entitySignatures: seq<Signature>, entity: Entity)
    requires MembersMatch(memberships, signatures, entitySignatures)
    requires entity < |entitySignatures|
    ensures MembersMatch(Without(memberships, entity), signatures, entitySignatures[entity := EMPTY])
  {
  }

  /**
   * Setting a system's signature keeps the invariant when it takes effect
   * on a system whose current members all match the new signature (in
   * particular on one registered with no members yet), and always when it
   * is a no-op.
   */
  lemma SetSignatureKeepsMembersMatch<K>(memberships: map<K, set<Entity>>, signatures: map<K, Signature>,
                                         entitySignatures: seq<Signature>, t: K, signature: Signature)
    requires MembersMatch(memberships, signatures, entitySignatures)
    requires t !in signatures && t in memberships ==>
               forall e :: e in memberships[t] ==> e < |entitySignatures| && Matches(entitySignatures[e], signature)
    ensures MembersMatch(memberships, if t in signatures then signatures else signatures[t := signature], entitySignatures)
  {
  }

  class SystemManager<K(==)> {
    var signatures: map<K, Signature>
    /** The member set (`mEntities`) of the system registered under each key. */
    var systems: map<K, set<Entity>>

    constructor ()
      ensures signatures == map[] && systems == map[]
    {
      signatures := map[];
      systems := map[];
    }

    /**
     * Registers a new system with no members; `insert` keeps the system
     * already registered under the key, members and all.
     */
    method RegisterSystem(t: K)
      modifies this
      ensures signatures == old(signatures)
      ensures systems == if t in old(systems) then old(systems) else old(systems)[t := {}]
    {
      if t !in systems {
        systems := systems[t := {}];
      }
    }

    /** `at`: the members of the registered system, or OutOfRange for a key never registered. */
    function GetSystem(t: K): (r: Result<set<Entity>>)
      reads this
      ensures r.Ok? <==> t in systems
      ensures r.Ok? ==> r.value == systems[t]
      ensures r.Err? ==> r.error == OutOfRange
    {
      if t in systems then Ok(systems[t]) else Err(OutOfRange)
    }

    /**
     * `insert`: takes effect only for a key with no signature yet; it never
     * recomputes memberships.
     */
    method SetSignature(t: K, signature: Signature)
      modifies this
      ensures systems == old(systems)
      ensures t in signatures
      ensures signatures == if t in old(signatures) then old(signatures) else old(signatures)[t := signature]
    {
      if t !in signatures {
        signatures := signatures[t := signature];
      }
    }

    /** Removes the entity from every system; every other member stays. */
    method EntityDestroyed(entity: Entity)
      modifies this
      ensures signatures == old(signatures)
      ensures systems == Without(old(systems), entity)
    {
      var pending := systems.Keys;
      while pending != {}
        invariant systems.Keys == old(systems).Keys
        invariant pending <= systems.Keys
        invariant signatures == old(signatures)
        invariant forall t :: t in systems && t !in pending ==> systems[t] == old(systems)[t] - {entity}
        invariant forall t :: t in pending ==> systems[t] == old(systems)[t]
        decreases pending
      {
        var t :| t in pending;
        systems := systems[t := systems[t] - {entity}];
        pending := pending - {t};
      }
    }

    /**
     * For every system: the entity becomes a member when its new signature
     * matches the system's, and stops being one otherwise; no other entity's
     * membership changes. A system without a signature reads the empty one
     * (so it accepts every entity) and `operator[]` records that empty
     * signature for it.
     */
    method EntitySignatureChanged(entity: Entity, entitySignature: Signature)
      modifies this
      ensures signatures == WithDefaults(old(signatures), systems.Keys)
      ensures systems == Recompute(old(systems), old(signatures), entity, entitySignature)
    {
      ghost var signatures0, systems0 := signatures, systems;
      var pending := systems.Keys;
      while pending != {}
        invariant systems.Keys == systems0.Keys
        invariant pending <= systems.Keys
        invariant forall t :: t in signatures <==> t in signatures0 || (t in systems && t !in pending)
        invariant forall t :: t in signatures ==> signatures[t] == SignatureOf(signatures0, t)
        invariant forall t :: t in systems && t !in pending ==>
                    systems[t] == Toggle(systems0[t], entity, Matches(entitySignature, SignatureOf(signatures0, t)))
        invariant forall t :: t in pending ==> systems[t] == systems0[t]
        decreases pending
      {
        var t :| t in pending;
        assert SignatureOf(signatures, t) == SignatureOf(signatures0, t);
        RecomputeMembership(t, entity, entitySignature);
        pending := pending - {t};
      }
    }

    /**
     * One step of the loop above: reads the system's signature through
     * `operator[]`, then inserts or erases the entity in that system alone.
     */
    method RecomputeMembership(t: K, entity: Entity, entitySignature: Signature)
      requires t in systems
      modifies this
      ensures signatures == old(signatures)[t := SignatureOf(old(signatures), t)]
      ensures systems == old(systems)[t := Toggle(old(systems)[t], entity, Matches(entitySignature, SignatureOf(old(signatures), t)))]
    {
      if t !in signatures {
        signatures := signatures[t := EMPTY];
      }
      var systemSignature := signatures[t];
      var members := systems[t];
      if Matches(entitySignature, systemSignature) {
        members := members + {entity};
      } else {
        members := members - {entity};
      }
      systems := systems[t := members];
    }
  }
}
