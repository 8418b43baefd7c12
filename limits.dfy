/** Capacity bounds and the two small value types every part of the store shares (ecs.hpp:14-20). */
module Limits {

  /** Size of the entity identifier universe. */
  const MAX_ENTITIES: nat := 1028

  /** Width of a signature: how many component types can be told apart. */
  const MAX_COMPONENTS: nat := 32

  /** An entity is a bare index into [0, MAX_ENTITIES). */
  type Entity = e: nat | e < MAX_ENTITIES

  /** A signature is a bitset of width MAX_COMPONENTS, kept as the set of its set bits. */
  type Signature = s: set<nat> | forall i | i in s :: i < MAX_COMPONENTS witness {}

  /** std::bitset::set(pos, value): bit pos takes value, every other bit keeps its own. */
  function SetBit(s: Signature, pos: nat, value: bool): (r: Signature)
    requires pos < MAX_COMPONENTS
    ensures pos in r <==> value
    ensures forall i | i != pos :: i in r <==> i in s
  {
    if value then s + {pos} else s - {pos}
  }

  /** A set of naturals all below n has at most n elements. */
  lemma {:induction false} BoundedSetCard(s: set<nat>, n: nat)
    requires forall x | x in s :: x < n
    ensures |s| <= n
  {
    if n == 0 {
      assert s == {};
    } else {
      BoundedSetCard(s - {n - 1}, n - 1);
    }
  }

  /** No collection of distinct entities is larger than the identifier universe. */
  lemma EntitySetBound(s: set<Entity>)
    ensures |s| <= MAX_ENTITIES
  {
    BoundedSetCard(s, MAX_ENTITIES);
  }
}
