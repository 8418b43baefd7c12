/**
 * The entity registry (ecs.hpp:37-89): a FIFO queue of free ids, a counter of
 * live entities and one signature per id.
 */
module Entities {
  import opened Limits

  class EntityManager {
    /** std::queue<Entity>: front is index 0, push appends at the tail. */
    var freeEntities: seq<Entity>
    /** std::array<Signature, MAX_ENTITIES>. */
    const entitySignatures: array<Signature>
    var entityCount: nat
    /** The ids handed out and not yet returned. */
    ghost var live: set<Entity>

    /**
     * The free queue holds each id at most once, free and live ids partition
     * [0, MAX_ENTITIES), and the counter is the number of live ids.
     */
    ghost predicate Valid()
      reads this
    {
      entitySignatures.Length == MAX_ENTITIES &&
      (forall i, j | 0 <= i < j < |freeEntities| :: freeEntities[i] != freeEntities[j]) &&
      (forall e: Entity :: e in live <==> e !in freeEntities) &&
      |live| == entityCount &&
      entityCount + |freeEntities| == MAX_ENTITIES
    }

    /** Every id waiting in the free queue has an all-zero signature. */
    ghost predicate FreeIdsClean()
      reads this, entitySignatures
    {
      forall i | 0 <= i < |freeEntities| ::
        freeEntities[i] < entitySignatures.Length && entitySignatures[freeEntities[i]] == {}
    }

    /** The constructor (ecs.hpp:45-51) queues 0 .. MAX_ENTITIES-1 in order. */
    constructor ()
      ensures Valid() && FreeIdsClean() && fresh(entitySignatures)
      ensures |freeEntities| == MAX_ENTITIES
      ensures forall i | 0 <= i < |freeEntities| :: freeEntities[i] == i
      ensures live == {} && entityCount == 0
      ensures forall e: Entity :: entitySignatures[e] == {}
    {
      entitySignatures := new Signature[MAX_ENTITIES](_ => {});
      entityCount := 0;
      live := {};
      var queue: seq<Entity> := [];
      var index := 0;
      while index < MAX_ENTITIES
        invariant 0 <= index <= MAX_ENTITIES
        invariant |queue| == index
        invariant forall i | 0 <= i < index :: queue[i] == i
      {
        queue := queue + [index];
        index := index + 1;
      }
      forall e: Entity
        ensures e in queue
      {
        assert queue[e] == e;
      }
      freeEntities := queue;
    }

    /** CreateEntity (ecs.hpp:53-62): pops the front of the free queue. */
    method CreateEntity() returns (id: Entity)
      requires Valid() && entityCount < MAX_ENTITIES
      modifies this
      ensures Valid()
      ensures id == old(freeEntities[0]) && freeEntities == old(freeEntities[1..])
      ensures entityCount == old(entityCount) + 1 && live == old(live) + {id}
      ensures id !in old(live)
      ensures old(FreeIdsClean()) ==> FreeIdsClean() && entitySignatures[id] == {}
    {
      id := freeEntities[0];
      freeEntities := freeEntities[1..];
      entityCount := entityCount + 1;
      live := live + {id};
    }

    /**
     * DestroyEntity (ecs.hpp:64-73): clears the signature and queues the id
     * at the tail. The precondition is that the entity is live; the check of
     * line 66 tests the count instead (see DestroyGuardAsWritten).
     */
    method DestroyEntity(entity: Entity)
      requires Valid() && entity in live
      modifies this, entitySignatures
      ensures Valid()
      ensures freeEntities == old(freeEntities) + [entity]
      ensures entityCount == old(entityCount) - 1 && live == old(live) - {entity}
      ensures entitySignatures[..] == old(entitySignatures[..])[entity := {}]
      ensures old(FreeIdsClean()) ==> FreeIdsClean()
    {
      entitySignatures[entity] := {};
      freeEntities := freeEntities + [entity];
      entityCount := entityCount - 1;
      live := live - {entity};
    }

    /** SetSignature (ecs.hpp:75-81). */
    method SetSignature(entity: Entity, signature: Signature)
      requires Valid()
      modifies entitySignatures
      ensures entitySignatures[..] == old(entitySignatures[..])[entity := signature]
      ensures old(FreeIdsClean()) && entity !in freeEntities ==> FreeIdsClean()
    {
      entitySignatures[entity] := signature;
    }

    /** GetSignature (ecs.hpp:83-88): an id waiting in a clean free queue reads back all-zero. */
    function GetSignature(entity: Entity): (sig: Signature)
      reads this, entitySignatures
      requires Valid()
      ensures FreeIdsClean() && entity !in live ==> sig == {}
    {
      entitySignatures[entity]
    }
  }

  /**
   * The guard DestroyEntity checks as written at ecs.hpp:66: it tests the
   * live count, not the entity its message speaks of.
   */
  predicate DestroyGuardAsWritten(entityCount: nat, entity: Entity): (admitted: bool)
    ensures entityCount >= MAX_ENTITIES ==> !admitted
    ensures entityCount == 0 ==> admitted
  {
    entityCount < MAX_ENTITIES
  }

  /** With every id live, the guard as written refuses to destroy even a live entity. */
  lemma FullRegistryRefusesDestroy(m: EntityManager)
    requires m.Valid() && m.entityCount == MAX_ENTITIES
    ensures 0 in m.live && !DestroyGuardAsWritten(m.entityCount, 0)
  {
    assert m.freeEntities == [];
  }

  /** With no id live, the guard as written lets a destroy of entity 0 through although 0 is not live. */
  lemma EmptyRegistryAdmitsDestroy(m: EntityManager)
    requires m.Valid() && m.entityCount == 0
    ensures 0 !in m.live && DestroyGuardAsWritten(m.entityCount, 0)
  {
    assert m.live == {};
  }

  /** On a fresh registry, successive creates return 0, 1, 2 and each comes with an empty signature. */
  method FreshManagerHandsOutInOrder() returns (a: Entity, b: Entity, c: Entity, sa: Signature)
    ensures a == 0 && b == 1 && c == 2
    ensures sa == {}
  {
    var m := new EntityManager();
    a := m.CreateEntity();
    b := m.CreateEntity();
    c := m.CreateEntity();
    sa := m.GetSignature(a);
  }

  /** A destroyed id goes to the back of the queue: it is not handed out again while older free ids remain. */
  method RecycledIdWaitsItsTurn() returns (first: Entity, second: Entity)
    ensures first == 0 && second == 1
  {
    var m := new EntityManager();
    first := m.CreateEntity();
    m.DestroyEntity(first);
    second := m.CreateEntity();
  }
}
