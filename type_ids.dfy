/**
 * Component type ids (ecs.hpp:24-35). The source hands out ids through a
 * process-wide counter that each component type samples once, on its first
 * use, into a function-local static. Here that global state is an explicit
 * registry object: a map from an abstract type key to its id, and the next
 * id the counter will hand out.
 */
module TypeIds {

  class TypeRegistry<K(==)> {
    /** The id each type received on its first use. */
    var ids: map<K, nat>
    /** The counter of ecs.hpp:26: the id the next new type will receive. */
    var next: nat
    /** The keys in the order of their first use; order[i] is the type with id i. */
    ghost var order: seq<K>

    /** Ids are exactly 0 .. next-1, one per registered type. */
    ghost predicate Valid()
      reads this
    {
      |order| == next &&
      (forall i | 0 <= i < |order| :: order[i] in ids && ids[order[i]] == i) &&
      (forall k | k in ids :: ids[k] < |order| && order[ids[k]] == k)
    }

    /** The id GetComponentTypeID(k) returns: the stored one, or the next counter value. */
    function IdFor(k: K): (id: nat)
      reads this
    {
      if k in ids then ids[k] else next
    }

    constructor ()
      ensures Valid() && ids == map[] && next == 0
    {
      ids := map[];
      next := 0;
      order := [];
    }

    /** GetComponentTypeID<CompType>() (ecs.hpp:30-35), with the counter of ecs.hpp:24-28. */
    method GetComponentTypeID(k: K) returns (id: nat)
      requires Valid()
      modifies this
      ensures Valid()
      ensures id == old(IdFor(k))
      ensures ids == old(ids)[k := id]
      ensures next == if k in old(ids) then old(next) else old(next) + 1
    {
      if k in ids {
        id := ids[k];
      } else {
        id := next;
        ids := ids[k := id];
        order := order + [k];
        next := next + 1;
      }
    }
  }

  /** Two distinct registered types never share an id. */
  lemma DistinctTypesDistinctIds<K>(r: TypeRegistry<K>, k1: K, k2: K)
    requires r.Valid() && k1 in r.ids && k2 in r.ids && k1 != k2
    ensures r.ids[k1] != r.ids[k2]
  {
    assert r.order[r.ids[k1]] == k1;
  }

  /** The ids in use are exactly 0 .. next-1: consecutive from zero, no gaps. */
  lemma IdsAreConsecutive<K>(r: TypeRegistry<K>)
    requires r.Valid()
    ensures forall i: nat :: i in r.ids.Values <==> i < r.next
  {
    forall i | 0 <= i < r.next
      ensures i in r.ids.Values
    {
      assert r.ids[r.order[i]] == i;
    }
  }

  /** Three look-ups on a fresh registry: the first two types get 0 and 1, and asking again for the first gives 0. */
  method FirstUseScenario() returns (health: nat, position: nat, healthAgain: nat)
    ensures health == 0 && position == 1 && healthAgain == 0
  {
    var r := new TypeRegistry<string>();
    health := r.GetComponentTypeID("Health");
    position := r.GetComponentTypeID("Position");
    healthAgain := r.GetComponentTypeID("Health");
  }
}
