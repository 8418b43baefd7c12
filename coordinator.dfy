/**
 * The coordinator, ECS (ecs.hpp:218-283): it owns the entity registry and the
 * component directory and keeps them in step, so that an entity's signature
 * always records exactly the component types it has.
 */
module Coordinator {
  import opened Limits
  import opened TypeIds
  import opened Entities
  import opened ComponentStore
  import opened Directory

  /**
   * The coordinator's invariant: bit t of entity e's signature is set exactly
   * when e has an entry in the store with type id t.
   */
  ghost predicate Consistent<T>(sigs: seq<Signature>, stores: map<nat, StoreState<T>>) {
    |sigs| == MAX_ENTITIES &&
    forall e: Entity, t: nat :: t in sigs[e] <==> t in stores && e in stores[t].entityToIndex
  }

  /** A fresh coordinator: every signature empty and no store registered. */
  lemma InitConsistent<T>()
    ensures Consistent<T>(seq(MAX_ENTITIES, _ => {}), map[])
  {
    var sigs: seq<Signature> := seq(MAX_ENTITIES, _ => {});
    forall e: Entity
      ensures sigs[e] == {}
    {
    }
  }

  /** Registering a new type files an empty store; no signature has its bit yet, so nothing changes. */
  lemma RegisterKeepsConsistent<T>(sigs: seq<Signature>, stores: map<nat, StoreState<T>>, t: nat, st: StoreState<T>)
    requires Consistent(sigs, stores) && t !in stores && st.entityToIndex == map[]
    ensures Consistent(sigs, stores[t := st])
  {
    forall e: Entity, u: nat
      ensures u in sigs[e] <==> u in stores[t := st] && e in stores[t := st][u].entityToIndex
    {
      if u == t {
        assert u !in sigs[e];
      }
    }
  }

  /**
   * ECS::AddComponent (ecs.hpp:247-255): inserting e into store t and
   * setting bit t of e's signature, and nothing else, keeps the two in step.
   */
  lemma AddKeepsConsistent<T>(sigs: seq<Signature>, stores: map<nat, StoreState<T>>, t: nat, e: Entity, v: T)
    requires Consistent(sigs, stores) && AllPacked(stores)
    requires t in stores && t < MAX_COMPONENTS && e !in stores[t].entityToIndex
    ensures Consistent(sigs[e := SetBit(sigs[e], t, true)], stores[t := Appended(stores[t], e, v)])
  {
    var sigs' := sigs[e := SetBit(sigs[e], t, true)];
    var stores' := stores[t := Appended(stores[t], e, v)];
    assert stores'[t].entityToIndex == stores[t].entityToIndex[e := stores[t].size];
    forall x: Entity, u: nat
      ensures u in sigs'[x] <==> u in stores' && x in stores'[u].entityToIndex
    {
      if x == e && u != t {
        assert u in sigs'[x] <==> u in sigs[x];
      }
    }
  }

  /**
   * ECS::RemoveComponent (ecs.hpp:257-265): removing e from store t and
   * clearing bit t of e's signature, and nothing else, keeps the two in step.
   */
  lemma RemoveKeepsConsistent<T>(sigs: seq<Signature>, stores: map<nat, StoreState<T>>, t: nat, e: Entity)
    requires Consistent(sigs, stores) && AllPacked(stores)
    requires t in stores && t < MAX_COMPONENTS && e in stores[t].entityToIndex
    ensures Consistent(sigs[e := SetBit(sigs[e], t, false)], stores[t := SwapRemoved(stores[t], e)])
  {
    var sigs' := sigs[e := SetBit(sigs[e], t, false)];
    var stores' := stores[t := SwapRemoved(stores[t], e)];
    assert stores[t].indexToEntity[stores[t].size - 1] in stores[t].entityToIndex;
    assert stores'[t].entityToIndex.Keys == stores[t].entityToIndex.Keys - {e};
    forall x: Entity, u: nat
      ensures u in sigs'[x] <==> u in stores' && x in stores'[u].entityToIndex
    {
      if x == e && u != t {
        assert u in sigs'[x] <==> u in sigs[x];
      }
    }
  }

  /**
   * ECS::DestroyEntity (ecs.hpp:235-239): clearing e's signature and tearing
   * e down in every store keeps the two in step.
   */
  lemma DestroyKeepsConsistent<T>(sigs: seq<Signature>, stores: map<nat, StoreState<T>>, e: Entity)
    requires Consistent(sigs, stores) && AllPacked(stores)
    ensures Consistent(sigs[e := {}], TeardownAll(stores, e))
  {
    TeardownAllSpec(stores, e);
    var sigs' := sigs[e := {}];
    var stores' := TeardownAll(stores, e);
    forall x: Entity, u: nat
      ensures u in sigs'[x] <==> u in stores' && x in stores'[u].entityToIndex
    {
      if u in stores && x != e {
        TeardownIdempotent(stores[u], e);
        assert Contents(stores'[u]) == Contents(stores[u]) - {e};
        assert x in Contents(stores'[u]) <==> x in Contents(stores[u]);
      }
    }
  }

  class ECS<K(==), T(0)> {
    /** The process-wide type-id counters of ecs.hpp:24-35, shared with every System. */
    const types: TypeRegistry<K>
    const componentManager: ComponentManager<K, T>
    const entityManager: EntityManager

    /** Every entity's signature, as a value. */
    ghost function Signatures(): seq<Signature>
      reads entityManager.entitySignatures
    {
      entityManager.entitySignatures[..]
    }

    ghost function Stores(): map<nat, StoreState<T>>
      reads componentManager
    {
      componentManager.componentArrays
    }

    /** Both parts are valid, they share the registry, and signatures agree with the stores. */
    ghost predicate Valid()
      reads types, componentManager, entityManager, entityManager.entitySignatures
    {
      componentManager.types == types && types.Valid() &&
      componentManager.Valid() && entityManager.Valid() &&
      Consistent(Signatures(), Stores())
    }

    /** Every id waiting in the free queue has an empty signature. */
    ghost predicate Tidy()
      reads entityManager, entityManager.entitySignatures
    {
      entityManager.FreeIdsClean()
    }

    /** Init (ecs.hpp:225-229): a fresh directory and a fresh entity registry. */
    constructor (types: TypeRegistry<K>)
      requires types.Valid()
      ensures Valid() && Tidy()
      ensures this.types == types && types.ids == old(types.ids)
      ensures fresh(componentManager) && fresh(entityManager) && fresh(entityManager.entitySignatures)
      ensures Stores() == map[] && entityManager.live == {}
      ensures forall i | 0 <= i < |entityManager.freeEntities| :: entityManager.freeEntities[i] == i
    {
      this.types := types;
      componentManager := new ComponentManager(types);
      entityManager := new EntityManager();
      new;
      InitConsistent<T>();
      assert Signatures() == seq(MAX_ENTITIES, _ => {});
    }

    /** CreateEntity (ecs.hpp:230-233). */
    method CreateEntity() returns (id: Entity)
      requires Valid() && entityManager.entityCount < MAX_ENTITIES
      modifies entityManager
      ensures Valid() && Signatures() == old(Signatures()) && Stores() == old(Stores())
      ensures id == old(entityManager.freeEntities[0]) && entityManager.freeEntities == old(entityManager.freeEntities[1..])
      ensures entityManager.entityCount == old(entityManager.entityCount) + 1
      ensures entityManager.live == old(entityManager.live) + {id}
      ensures id !in old(entityManager.live)
      ensures old(Tidy()) ==> Tidy() && Signatures()[id] == {}
    {
      id := entityManager.CreateEntity();
    }

    /** DestroyEntity (ecs.hpp:235-239): the signature is cleared and every store drops the entity. */
    method DestroyEntity(entity: Entity)
      requires Valid() && entity in entityManager.live
      modifies entityManager, entityManager.entitySignatures, componentManager
      ensures Valid()
      ensures Signatures() == old(Signatures())[entity := {}]
      ensures Stores() == TeardownAll(old(Stores()), entity)
      ensures entityManager.live == old(entityManager.live) - {entity}
      ensures entityManager.freeEntities == old(entityManager.freeEntities) + [entity]
      ensures old(Tidy()) ==> Tidy()
    {
      DestroyKeepsConsistent(Signatures(), Stores(), entity);
      entityManager.DestroyEntity(entity);
      componentManager.EntityDestroyed(entity);
    }

    /** RegisterComponent<T> (ecs.hpp:241-245). */
    method RegisterComponent(k: K) returns (id: nat)
      requires Valid()
      modifies componentManager, types
      ensures Valid() && Signatures() == old(Signatures())
      ensures id == old(types.IdFor(k)) && types.ids == old(types.ids)[k := id]
      ensures Stores().Keys == old(Stores()).Keys + {id}
      ensures id in old(Stores()) ==> Stores() == old(Stores())
      ensures id !in old(Stores()) ==>
        Stores() == old(Stores())[id := Stores()[id]] && Stores()[id].entityToIndex == map[]
    {
      ghost var before := Stores();
      id := componentManager.RegisterComponent(k);
      if id !in before {
        RegisterKeepsConsistent(Signatures(), before, id, Stores()[id]);
      }
    }

    /**
     * AddComponent<T> (ecs.hpp:247-255): the value goes into the type's
     * store and only the type's bit of the entity's signature is set.
     * std::bitset::set throws for a position of 32 or more; the model
     * requires the id to fit.
     */
    method AddComponent(k: K, entity: Entity, component: T)
      requires Valid() && k in types.ids && types.ids[k] < MAX_COMPONENTS
      requires types.ids[k] in Stores() && entity !in Stores()[types.ids[k]].entityToIndex
      modifies componentManager, entityManager.entitySignatures
      ensures Valid()
      ensures var t := types.ids[k];
        Stores() == old(Stores())[t := Appended(old(Stores())[t], entity, component)] &&
        Signatures() == old(Signatures())[entity := SetBit(old(Signatures())[entity], t, true)]
      ensures old(Tidy()) && entity in entityManager.live ==> Tidy()
    {
      ghost var sigs := Signatures();
      AddKeepsConsistent(Signatures(), Stores(), types.ids[k], entity, component);
      componentManager.AddComponent(k, entity, component);
      assert Signatures() == sigs && entityManager.Valid();
      var signature := entityManager.GetSignature(entity);
      signature := SetBit(signature, componentManager.GetComponentType(k), true);
      entityManager.SetSignature(entity, signature);
    }

    /**
     * RemoveComponent<T> (ecs.hpp:257-265). The source calls the directory
     * without the entity; the model removes the entity's entry, as the
     * signature update that follows intends.
     */
    method RemoveComponent(k: K, entity: Entity)
      requires Valid() && k in types.ids && types.ids[k] < MAX_COMPONENTS
      requires types.ids[k] in Stores() && entity in Stores()[types.ids[k]].entityToIndex
      modifies componentManager, entityManager.entitySignatures
      ensures Valid()
      ensures var t := types.ids[k];
        Stores() == old(Stores())[t := SwapRemoved(old(Stores())[t], entity)] &&
        Signatures() == old(Signatures())[entity := SetBit(old(Signatures())[entity], t, false)]
      ensures old(Tidy()) && entity in entityManager.live ==> Tidy()
    {
      ghost var sigs := Signatures();
      RemoveKeepsConsistent(Signatures(), Stores(), types.ids[k], entity);
      componentManager.RemoveComponent(k, entity);
      assert Signatures() == sigs && entityManager.Valid();
      var signature := entityManager.GetSignature(entity);
      signature := SetBit(signature, componentManager.GetComponentType(k), false);
      entityManager.SetSignature(entity, signature);
    }

    /** GetComponent<T> (ecs.hpp:267-271). */
    function GetComponent(k: K, entity: Entity): (v: T)
      reads types, componentManager, entityManager, entityManager.entitySignatures
      requires Valid() && k in types.ids && types.ids[k] in Stores()
      requires entity in Stores()[types.ids[k]].entityToIndex
      ensures entity in Contents(Stores()[types.ids[k]]) && v == Contents(Stores()[types.ids[k]])[entity]
    {
      componentManager.GetComponent(k, entity)
    }

    /** GetComponentType<T> (ecs.hpp:273-277). */
    function GetComponentType(k: K): (id: nat)
      reads types, componentManager, entityManager, entityManager.entitySignatures
      requires Valid() && k in types.ids
      ensures id < types.next && types.order[id] == k
    {
      componentManager.GetComponentType(k)
    }

    /** GetEntitySignature (ecs.hpp:279-282): bit t is set exactly when the entity has a type-t component. */
    function GetEntitySignature(entity: Entity): (sig: Signature)
      reads types, componentManager, entityManager, entityManager.entitySignatures
      requires Valid()
      ensures forall t: nat :: t in sig <==> t in Stores() && entity in Stores()[t].entityToIndex
    {
      entityManager.GetSignature(entity)
    }
  }

  /**
   * One component type with value 10 added to a fresh entity: the entity
   * reads back 10, its signature is exactly the type's bit, and once the
   * component is removed the signature is empty again.
   */
  method HealthScenario() returns (health: int, withHealth: Signature, without: Signature)
    ensures health == 10 && withHealth == {0} && without == {}
  {
    var types := new TypeRegistry<string>();
    var ecs := new ECS<string, int>(types);
    var id := ecs.RegisterComponent("Health");
    var e := ecs.CreateEntity();
    AppendedContents(ecs.Stores()[0], e, 10);
    ecs.AddComponent("Health", e, 10);
    health := ecs.GetComponent("Health", e);
    withHealth := ecs.GetEntitySignature(e);
    ecs.RemoveComponent("Health", e);
    without := ecs.GetEntitySignature(e);
  }

  /** Through the coordinator, successive creates on a fresh ECS return 0 and then 1. */
  method CoordinatorHandsOutInOrder() returns (a: Entity, b: Entity)
    ensures a == 0 && b == 1
  {
    var types := new TypeRegistry<string>();
    var ecs := new ECS<string, int>(types);
    a := ecs.CreateEntity();
    b := ecs.CreateEntity();
  }

  /** A component added before a second type is registered still reads back afterwards. */
  method RegisterLaterKeepsValuesScenario() returns (health: int)
    ensures health == 10
  {
    var types := new TypeRegistry<string>();
    var ecs := new ECS<string, int>(types);
    var id := ecs.RegisterComponent("Health");
    var e := ecs.CreateEntity();
    AppendedContents(ecs.Stores()[0], e, 10);
    ecs.AddComponent("Health", e, 10);
    ghost var stored := ecs.Stores()[0];
    var position := ecs.RegisterComponent("Position");
    assert ecs.Stores()[0] == stored;
    health := ecs.GetComponent("Health", e);
  }
}
