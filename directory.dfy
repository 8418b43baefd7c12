/**
 * The component directory, ComponentManager (ecs.hpp:161-216): one store per
 * registered component type, keyed by the type's id. The source keeps
 * type-erased shared_ptr handles and casts them back; here every store holds
 * the same value type T and the map holds each store's state as a value.
 */
module Directory {
  import opened Limits
  import opened TypeIds
  import opened ComponentStore

  /** Every store is packed. */
  ghost predicate AllPacked<T>(stores: map<nat, StoreState<T>>) {
    forall t | t in stores :: Packed(stores[t])
  }

  /** ComponentManager::EntityDestroyed (ecs.hpp:207-215) on values: every store drops the entity. */
  ghost function TeardownAll<T>(stores: map<nat, StoreState<T>>, e: Entity): (r: map<nat, StoreState<T>>)
    requires AllPacked(stores)
    ensures r.Keys == stores.Keys
  {
    map t | t in stores :: Teardown(stores[t], e)
  }

  /**
   * Teardown of an entity across the directory leaves every store packed and
   * removes the entity from all of them, and every other entity keeps its value.
   */
  lemma TeardownAllSpec<T>(stores: map<nat, StoreState<T>>, e: Entity)
    requires AllPacked(stores)
    ensures AllPacked(TeardownAll(stores, e))
    ensures TeardownAll(stores, e).Keys == stores.Keys
    ensures forall t | t in stores ::
      e !in TeardownAll(stores, e)[t].entityToIndex &&
      Contents(TeardownAll(stores, e)[t]) == Contents(stores[t]) - {e}
  {
    var once := TeardownAll(stores, e);
    forall t | t in stores
      ensures Packed(once[t]) && e !in once[t].entityToIndex
      ensures Contents(once[t]) == Contents(stores[t]) - {e}
    {
      TeardownIdempotent(stores[t], e);
    }
  }

  /** Tearing the same entity down twice across the directory is the same as once. */
  lemma TeardownAllIdempotent<T>(stores: map<nat, StoreState<T>>, e: Entity)
    requires AllPacked(stores)
    ensures AllPacked(TeardownAll(stores, e))
    ensures TeardownAll(TeardownAll(stores, e), e) == TeardownAll(stores, e)
  {
    TeardownAllSpec(stores, e);
    var once := TeardownAll(stores, e);
    var twice := TeardownAll(once, e);
    forall t | t in once
      ensures twice[t] == once[t]
    {
      TeardownIdempotent(stores[t], e);
    }
  }

  /** The state of the store ComponentArray's constructor (ecs.hpp:111-114) builds: a default-initialised buffer, nothing occupied. */
  method NewStore<T(0)>() returns (st: StoreState<T>)
    ensures Packed(st) && st.size == 0 && Contents(st) == map[]
  {
    var buffer := new T[MAX_ENTITIES];
    st := EmptyStore(buffer[0]);
  }

  /** Filing a packed store keeps the directory packed. */
  lemma StorePut<T>(stores: map<nat, StoreState<T>>, t: nat, st: StoreState<T>)
    requires AllPacked(stores) && Packed(st)
    ensures AllPacked(stores[t := st])
  {
  }

  /**
   * Part way through EntityDestroyed: the stores still pending are as they
   * were, every other store has dropped the entity.
   */
  ghost predicate PartlyTornDown<T>(before: map<nat, StoreState<T>>, now: map<nat, StoreState<T>>, pending: set<nat>, e: Entity) {
    AllPacked(before) && now.Keys == before.Keys && pending <= before.Keys &&
    forall t | t in now :: now[t] == if t in pending then before[t] else Teardown(before[t], e)
  }

  /** Tearing one pending store down keeps the loop's invariant and every store packed. */
  lemma TeardownStep<T>(before: map<nat, StoreState<T>>, now: map<nat, StoreState<T>>, pending: set<nat>, t: nat, e: Entity)
    requires PartlyTornDown(before, now, pending, e) && t in pending
    ensures AllPacked(now)
    ensures PartlyTornDown(before, now[t := Teardown(now[t], e)], pending - {t}, e)
  {
    forall u | u in now
      ensures Packed(now[u])
    {
      TeardownIdempotent(before[u], e);
    }
  }

  /** With nothing pending, every store has dropped the entity. */
  lemma TeardownDone<T>(before: map<nat, StoreState<T>>, now: map<nat, StoreState<T>>, e: Entity)
    requires PartlyTornDown(before, now, {}, e)
    ensures AllPacked(now) && now == TeardownAll(before, e)
  {
    TeardownAllSpec(before, e);
  }

  /**
   * The directory: one store per registered type id. The source reaches each
   * store through a shared_ptr that nothing else holds; here the map holds
   * each store's state as a value and every operation replaces it with the
   * state the matching ComponentArray method produces.
   */
  class ComponentManager<K(==), T(0)> {
    /** The type-id registry; it stands for the process-wide counters of ecs.hpp:24-35. */
    const types: TypeRegistry<K>
    var componentArrays: map<nat, StoreState<T>>

    /** Every store is packed. */
    ghost predicate Valid()
      reads this
    {
      AllPacked(componentArrays)
    }

    constructor (types: TypeRegistry<K>)
      ensures Valid() && this.types == types && componentArrays == map[]
    {
      this.types := types;
      componentArrays := map[];
    }

    /**
     * RegisterComponent<T> (ecs.hpp:175-179). unordered_map::insert leaves
     * an existing entry alone, so registering a type twice keeps its store.
     */
    method RegisterComponent(k: K) returns (id: nat)
      requires Valid() && types.Valid()
      modifies this, types
      ensures Valid() && types.Valid()
      ensures id == old(types.IdFor(k)) && types.ids == old(types.ids)[k := id]
      ensures componentArrays.Keys == old(componentArrays).Keys + {id}
      ensures id in old(componentArrays) ==> componentArrays == old(componentArrays)
      ensures id !in old(componentArrays) ==>
        componentArrays == old(componentArrays)[id := componentArrays[id]] &&
        componentArrays[id].size == 0 && Contents(componentArrays[id]) == map[]
    {
      id := types.GetComponentTypeID(k);
      if id !in componentArrays {
        var store := NewStore<T>();
        StorePut(componentArrays, id, store);
        componentArrays := componentArrays[id := store];
      }
    }

    /** GetComponentType<T> (ecs.hpp:181-187). */
    function GetComponentType(k: K): (id: nat)
      reads types
      requires types.Valid() && k in types.ids
      ensures id < types.next && types.order[id] == k
    {
      types.ids[k]
    }

    /** AddComponent<T> (ecs.hpp:189-193): InsertData on the type's store. */
    method AddComponent(k: K, entity: Entity, component: T)
      requires Valid() && k in types.ids && types.ids[k] in componentArrays
      requires entity !in componentArrays[types.ids[k]].entityToIndex
      modifies this
      ensures Valid()
      ensures var t := types.ids[k];
        componentArrays == old(componentArrays)[t := Appended(old(componentArrays)[t], entity, component)]
    {
      var t := types.ids[k];
      AppendedPacked(componentArrays[t], entity, component);
      componentArrays := componentArrays[t := Appended(componentArrays[t], entity, component)];
    }

    /**
     * RemoveComponent<T> (ecs.hpp:195-199). The source passes the component
     * to a one-argument RemoveData; the model removes by entity alone.
     */
    method RemoveComponent(k: K, entity: Entity)
      requires Valid() && k in types.ids && types.ids[k] in componentArrays
      requires entity in componentArrays[types.ids[k]].entityToIndex
      modifies this
      ensures Valid()
      ensures var t := types.ids[k];
        componentArrays == old(componentArrays)[t := SwapRemoved(old(componentArrays)[t], entity)]
    {
      var t := types.ids[k];
      SwapRemovedSpec(componentArrays[t], entity);
      componentArrays := componentArrays[t := SwapRemoved(componentArrays[t], entity)];
    }

    /** GetComponent<T> (ecs.hpp:201-205). */
    function GetComponent(k: K, entity: Entity): (v: T)
      reads this, types
      requires Valid() && k in types.ids && types.ids[k] in componentArrays
      requires entity in componentArrays[types.ids[k]].entityToIndex
      ensures var st := componentArrays[types.ids[k]];
        entity in Contents(st) && v == Contents(st)[entity]
    {
      var st := componentArrays[types.ids[k]];
      st.components[st.entityToIndex[entity]]
    }

    /** EntityDestroyed (ecs.hpp:207-215): every store, in any order, drops the entity. */
    method EntityDestroyed(entity: Entity)
      requires Valid()
      modifies this
      ensures Valid()
      ensures componentArrays == TeardownAll(old(componentArrays), entity)
    {
      var pending := componentArrays.Keys;
      while pending != {}
        invariant PartlyTornDown(old(componentArrays), componentArrays, pending, entity)
        decreases pending
      {
        var t :| t in pending;
        TeardownStep(old(componentArrays), componentArrays, pending, t, entity);
        componentArrays := componentArrays[t := Teardown(componentArrays[t], entity)];
        pending := pending - {t};
      }
      TeardownDone(old(componentArrays), componentArrays, entity);
    }
  }
}
