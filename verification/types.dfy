/**
 * Aliases, capacity constants and the fixed-width signature bitset shared by
 * every manager of the kernel, plus the error results that stand for the
 * exceptions the managers throw.
 */
module Types {

  /** Entity identifiers are 32-bit unsigned integers. */
  type Entity = x: nat | x < 0x1_0000_0000

  /** Capacity of the entity pool: at most this many entities live at once. */
  const MAX_ENTITIES: nat := 5000

  /** Component type identifiers are 8-bit unsigned integers. */
  type ComponentTypeID = x: nat | x < 256

  /** `++` on an 8-bit counter: 255 wraps around to 0. */
  function Successor(id: ComponentTypeID): (r: ComponentTypeID)
    ensures id < 255 ==> r == id + 1 && id < r
    ensures id == 255 ==> r == 0
  {
    (id + 1) % 256
  }

  /** Width of a signature, i.e. the number of component types it can record. */
  const MAX_COMPONENTS: nat := 64

  /**
   * A signature is a bitset of MAX_COMPONENTS bits, represented by the set of
   * the positions whose bit is set; bit i set means "has component type i".
   */
  type Signature = s: set<nat> | forall i :: i in s ==> i < MAX_COMPONENTS

  /** The signature with no bit set. */
  const EMPTY: Signature := {}

  /** The exceptions the kernel throws, one constructor per cause. */
  datatype Error =
    | TooManyEntities      // creation at capacity
    | NoEntitiesToDestroy  // destruction while the live count is zero
    | OutOfRange           // map `at` on a missing key, bitset access at a position >= MAX_COMPONENTS

  datatype Result<T> = Ok(value: T) | Err(error: Error)

  datatype Outcome = Pass | Fail(error: Error)

  datatype Option<T> = None | Some(value: T)

  /** `bitset::test(pos)` for a position inside the bitset. */
  predicate TestBit(s: Signature, pos: nat)
    requires pos < MAX_COMPONENTS
  {
    pos in s
  }

  /** `bitset::test(pos)` with its range check: OutOfRange for a position beyond the bitset. */
  function CheckedTest(s: Signature, pos: nat): (r: Result<bool>)
    ensures r.Err? <==> pos >= MAX_COMPONENTS
    ensures r.Err? ==> r.error == OutOfRange
    ensures r.Ok? ==> r.value == (pos in s)
  {
    if pos < MAX_COMPONENTS then Ok(TestBit(s, pos)) else Err(OutOfRange)
  }

  /** `bitset::set(pos, value)` for a position inside the bitset: that bit takes the value, every other bit keeps its own. */
  function SetBit(s: Signature, pos: nat, value: bool): (r: Signature)
    requires pos < MAX_COMPONENTS
    ensures TestBit(r, pos) == value
    ensures forall j :: 0 <= j < MAX_COMPONENTS && j != pos ==> TestBit(r, j) == TestBit(s, j)
  {
    if value then s + {pos} else s - {pos}
  }

  /**
   * The systems' test: `(entitySig & systemSig) == systemSig`, the bitwise
   * and of the two bitsets compared with the system's.
   */
  predicate Matches(entitySig: Signature, systemSig: Signature)
  {
    entitySig * systemSig == systemSig
  }

  /**
   * The test is a superset test, not equality: an entity matches exactly when
   * it has every bit the system requires, whatever else it has.
   */
  lemma MatchesIffSuperset(entitySig: Signature, systemSig: Signature)
    ensures Matches(entitySig, systemSig) <==>
              forall j :: 0 <= j < MAX_COMPONENTS && TestBit(systemSig, j) ==> TestBit(entitySig, j)
  {
    if forall j :: 0 <= j < MAX_COMPONENTS && TestBit(systemSig, j) ==> TestBit(entitySig, j) {
      forall j | j in systemSig
        ensures j in entitySig * systemSig
      {
        assert TestBit(systemSig, j);
      }
    }
  }

  /** Every signature matches the empty system signature, and the empty signature matches only it. */
  lemma MatchesEmpty(sig: Signature)
    ensures Matches(sig, EMPTY)
    ensures Matches(EMPTY, sig) <==> sig == EMPTY
  {
  }
}
