/**
 * The system base class, System (ecs.hpp:285-316): a required signature and
 * the list of entities the system manages.
 */
module Systems {
  import opened Limits
  import opened TypeIds
  import opened Coordinator

  /**
   * The erase-remove idiom: s with every occurrence of e dropped and the
   * others kept in order.
   */
  function Without(s: seq<Entity>, e: Entity): (r: seq<Entity>)
    ensures forall x :: x in r <==> x in s && x != e
    ensures multiset(r) == multiset(s)[e := 0]
    ensures |r| + multiset(s)[e] == |s|
  {
    if s == [] then []
    else
      var init := s[..|s| - 1];
      assert s == init + [s[|s| - 1]];
      Without(init, e) + (if s[|s| - 1] == e then [] else [s[|s| - 1]])
  }

  /**
   * Dropping an entity works piece by piece: it distributes over
   * concatenation, so the entries that stay keep their relative order.
   */
  lemma {:induction false} WithoutConcat(a: seq<Entity>, b: seq<Entity>, e: Entity)
    ensures Without(a + b, e) == Without(a, e) + Without(b, e)
  {
    if b == [] {
      assert a + b == a;
    } else {
      var init := b[..|b| - 1];
      assert (a + b)[..|a + b| - 1] == a + init;
      WithoutConcat(a, init, e);
    }
  }

  /**
   * RemoveEntity exactly as written at ecs.hpp:312-315: std::remove compacts
   * the kept entities to the front and returns the new end, which is
   * discarded, so the vector keeps its length. The C++ standard leaves the
   * entries past that end valid but unspecified; the model keeps the old
   * tail there, as libstdc++ does. The contract speaks only of the length
   * and the kept prefix.
   */
  function RemoveAsWritten(s: seq<Entity>, e: Entity): (r: seq<Entity>)
    ensures |r| == |s|
    ensures r[..|Without(s, e)|] == Without(s, e)
  {
    var kept := Without(s, e);
    kept + s[|kept|..]
  }

  /** Removing the last of two managed entities as written leaves the list unchanged: the entity is still managed. */
  lemma RemoveAsWrittenKeepsEntity()
    ensures RemoveAsWritten([1, 2], 2) == [1, 2]
    ensures Without([1, 2], 2) == [1]
  {
    assert [1, 2][..1] == [1];
    assert [1, 2][1..] == [2];
  }

  class System<K(==), T(0)> {
    var managedEntities: seq<Entity>
    var systemSignature: Signature
    const managingECS: ECS<K, T>

    /** The constructor (ecs.hpp:293-296): an empty list and the all-zero signature. */
    constructor (ecs: ECS<K, T>)
      ensures managingECS == ecs && managedEntities == [] && systemSignature == {}
    {
      managingECS := ecs;
      managedEntities := [];
      systemSignature := {};
    }

    /**
     * RegisterComponentToSystem<T> (ecs.hpp:297-303): sets the type's bit.
     * The type id comes from the same process-wide registry the coordinator
     * uses, so an unseen type receives its id here.
     */
    method RegisterComponentToSystem(k: K) returns (id: nat)
      requires managingECS.types.Valid() && managingECS.types.IdFor(k) < MAX_COMPONENTS
      modifies this, managingECS.types
      ensures managingECS.types.Valid()
      ensures id == old(managingECS.types.IdFor(k)) && managingECS.types.ids == old(managingECS.types.ids)[k := id]
      ensures managingECS.types.next == old(managingECS.types.next) + if k in old(managingECS.types.ids) then 0 else 1
      ensures systemSignature == SetBit(old(systemSignature), id, true)
      ensures managedEntities == old(managedEntities)
      ensures old(managingECS.Valid()) ==> managingECS.Valid()
    {
      id := managingECS.types.GetComponentTypeID(k);
      systemSignature := SetBit(systemSignature, id, true);
    }

    /** RegisterEntity (ecs.hpp:305-310): the assert of line 307 admits only an exact signature match. */
    method RegisterEntity(entity: Entity, entitySignature: Signature)
      requires entitySignature == systemSignature
      modifies this
      ensures managedEntities == old(managedEntities) + [entity]
      ensures systemSignature == old(systemSignature)
    {
      managedEntities := managedEntities + [entity];
    }

    /**
     * RemoveEntity (ecs.hpp:312-315) as the erase-remove idiom intends: a
     * pass that keeps every entry other than the entity, in order.
     */
    method RemoveEntity(entity: Entity)
      modifies this
      ensures managedEntities == Without(old(managedEntities), entity)
      ensures systemSignature == old(systemSignature)
    {
      var kept: seq<Entity> := [];
      var i := 0;
      while i < |managedEntities|
        invariant 0 <= i <= |managedEntities|
        invariant kept == Without(managedEntities[..i], entity)
      {
        assert managedEntities[..i + 1][..i] == managedEntities[..i];
        if managedEntities[i] != entity {
          kept := kept + [managedEntities[i]];
        }
        i := i + 1;
      }
      assert managedEntities[..i] == managedEntities;
      managedEntities := kept;
    }
  }

  /**
   * A system asking for component types A and B admits an entity with
   * exactly A and B, and forgets it again on removal.
   */
  method AdmitAndForgetScenario() returns (admitted: seq<Entity>, after: seq<Entity>, sig: Signature)
    ensures admitted == [5] && after == [] && sig == {0, 1}
  {
    var types := new TypeRegistry<string>();
    var ecs := new ECS<string, int>(types);
    var system := new System<string, int>(ecs);
    var a := system.RegisterComponentToSystem("A");
    var b := system.RegisterComponentToSystem("B");
    sig := system.systemSignature;
    system.RegisterEntity(5, {0, 1});
    admitted := system.managedEntities;
    system.RemoveEntity(5);
    after := system.managedEntities;
  }
}
