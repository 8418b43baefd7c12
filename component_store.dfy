/**
 * The per-type packed component store, ComponentArray<T> (ecs.hpp:98-159).
 *
 * StoreState is the store as a value: the whole fixed buffer of MAX_ENTITIES
 * values (stale values past the live prefix included), the two index maps and
 * the occupied length. Appended, SwapRemoved and Teardown say what InsertData,
 * RemoveData and EntityDestroyed do to it; the lemmas below state what that
 * means for the entities in the store. The class ComponentArray updates the
 * same fields in place and is proved to follow those functions.
 */
module ComponentStore {
  import opened Limits

  datatype StoreState<T> = StoreState(
    components: seq<T>,
    entityToIndex: map<Entity, nat>,
    indexToEntity: map<nat, Entity>,
    size: nat)

  /**
   * The store invariant: the occupied slots are exactly [0, size), each
   * present entity owns exactly one of them, and the two index maps are
   * mutual inverses.
   */
  ghost predicate Packed<T>(st: StoreState<T>) {
    |st.components| == MAX_ENTITIES &&
    st.size <= MAX_ENTITIES &&
    |st.entityToIndex.Keys| == st.size &&
    SlotsExact(st) && ForwardInverse(st) && BackwardInverse(st)
  }

  /** What the store holds: the value each present entity retrieves with Get. */
  ghost function Contents<T>(st: StoreState<T>): (m: map<Entity, T>)
    requires Packed(st)
  {
    map e | e in st.entityToIndex :: st.components[st.entityToIndex[e]]
  }

  /** A freshly constructed store: a buffer of default values and nothing occupied. */
  function EmptyStore<T>(default: T): (st: StoreState<T>)
    ensures Packed(st) && st.size == 0 && Contents(st) == map[]
  {
    StoreState(seq(MAX_ENTITIES, _ => default), map[], map[], 0)
  }

  /** An entity that is not yet in the store always finds a free slot in the fixed buffer. */
  lemma RoomFor<T>(st: StoreState<T>, e: Entity)
    requires Packed(st) && e !in st.entityToIndex
    ensures st.size < MAX_ENTITIES
  {
    EntitySetBound(st.entityToIndex.Keys + {e});
  }

  /** InsertData (ecs.hpp:116-126): the value goes to slot size, both maps record the pair. */
  function Appended<T>(st: StoreState<T>, e: Entity, v: T): (r: StoreState<T>)
    requires Packed(st) && e !in st.entityToIndex
    ensures r.size == st.size + 1 && e in r.entityToIndex
  {
    RoomFor(st, e);
    StoreState(
      st.components[st.size := v],
      st.entityToIndex[e := st.size],
      st.indexToEntity[st.size := e],
      st.size + 1)
  }

  /**
   * RemoveData (ecs.hpp:128-145) with the moved entity's slot repaired: the
   * last occupied value moves into the vacated slot, the moved entity is
   * re-pointed at that slot, then the removed entity and the old last slot
   * are dropped from the maps. Line 138 of the source writes the repair into
   * indexToEntity instead of entityToIndex; SwapRemovedAsWritten models that.
   */
  function SwapRemoved<T>(st: StoreState<T>, e: Entity): (r: StoreState<T>)
    requires Packed(st) && e in st.entityToIndex
    ensures r.size + 1 == st.size && e !in r.entityToIndex
  {
    var removed := st.entityToIndex[e];
    var last := st.size - 1;
    var lastEntity := st.indexToEntity[last];
    assert lastEntity in st.entityToIndex;
    StoreState(
      st.components[removed := st.components[last]],
      st.entityToIndex[lastEntity := removed] - {e},
      st.indexToEntity[removed := lastEntity] - {last},
      last)
  }

  /** EntityDestroyed (ecs.hpp:154-158): remove when present, otherwise leave the store alone. */
  function Teardown<T>(st: StoreState<T>, e: Entity): (r: StoreState<T>)
    requires Packed(st)
    ensures e !in r.entityToIndex
  {
    if e in st.entityToIndex then SwapRemoved(st, e) else st
  }

  /** The occupied slots are exactly [0, size). */
  ghost predicate SlotsExact<T>(st: StoreState<T>) {
    forall s: nat :: s in st.indexToEntity <==> s < st.size
  }

  /** Every present entity owns an occupied slot that points back at it. */
  ghost predicate ForwardInverse<T>(st: StoreState<T>) {
    forall e | e in st.entityToIndex ::
      st.entityToIndex[e] < st.size && st.entityToIndex[e] in st.indexToEntity &&
      st.indexToEntity[st.entityToIndex[e]] == e
  }

  /** Every occupied slot names a present entity that points back at it. */
  ghost predicate BackwardInverse<T>(st: StoreState<T>) {
    forall s | s in st.indexToEntity ::
      st.indexToEntity[s] in st.entityToIndex && st.entityToIndex[st.indexToEntity[s]] == s
  }

  lemma AppendedForward<T>(st: StoreState<T>, e: Entity, v: T)
    requires Packed(st) && e !in st.entityToIndex
    ensures ForwardInverse(Appended(st, e, v))
  {
    RoomFor(st, e);
    var r := Appended(st, e, v);
    forall x | x in r.entityToIndex
      ensures r.entityToIndex[x] < r.size && r.entityToIndex[x] in r.indexToEntity
      ensures r.indexToEntity[r.entityToIndex[x]] == x
    {
      if x != e {
        assert st.indexToEntity[st.entityToIndex[x]] == x;
      }
    }
  }

  lemma AppendedBackward<T>(st: StoreState<T>, e: Entity, v: T)
    requires Packed(st) && e !in st.entityToIndex
    ensures BackwardInverse(Appended(st, e, v))
  {
    RoomFor(st, e);
    var r := Appended(st, e, v);
    forall s | s in r.indexToEntity
      ensures r.indexToEntity[s] in r.entityToIndex && r.entityToIndex[r.indexToEntity[s]] == s
    {
      if s < st.size {
        assert st.indexToEntity[s] in st.entityToIndex;
      }
    }
  }

  /**
   * InsertData appends: the store stays packed and grows by one, e sits at
   * slot old size in both maps, and every other entity keeps its slot.
   */
  lemma AppendedPacked<T>(st: StoreState<T>, e: Entity, v: T)
    requires Packed(st) && e !in st.entityToIndex
    ensures Packed(Appended(st, e, v))
    ensures Appended(st, e, v).size == st.size + 1
    ensures Appended(st, e, v).entityToIndex[e] == st.size
    ensures Appended(st, e, v).indexToEntity[st.size] == e
    ensures forall x | x in st.entityToIndex ::
      Appended(st, e, v).entityToIndex[x] == st.entityToIndex[x]
  {
    RoomFor(st, e);
    AppendedForward(st, e, v);
    AppendedBackward(st, e, v);
    var r := Appended(st, e, v);
    assert r.entityToIndex.Keys == st.entityToIndex.Keys + {e};
  }

  /** InsertData changes nothing else: e retrieves v and every other entity its old value. */
  lemma AppendedContents<T>(st: StoreState<T>, e: Entity, v: T)
    requires Packed(st) && e !in st.entityToIndex
    ensures Packed(Appended(st, e, v))
    ensures Contents(Appended(st, e, v)) == Contents(st)[e := v]
  {
    AppendedPacked(st, e, v);
    var r := Appended(st, e, v);
    var expected := Contents(st)[e := v];
    assert Contents(r).Keys == expected.Keys;
    forall x | x in expected
      ensures Contents(r)[x] == expected[x]
    {
      if x != e {
        assert st.entityToIndex[x] < st.size;
      }
    }
  }

  /**
   * RemoveData is a swap-remove that keeps every other entity retrievable:
   * the store stays packed and shrinks by one, e is gone, the entity that
   * held the last slot now holds e's old slot, every other entity keeps its
   * slot, and every remaining entity retrieves the value it had before.
   */
  lemma SwapRemovedSpec<T>(st: StoreState<T>, e: Entity)
    requires Packed(st) && e in st.entityToIndex
    ensures Packed(SwapRemoved(st, e))
    ensures SwapRemoved(st, e).size == st.size - 1
    ensures SwapRemoved(st, e).entityToIndex.Keys == st.entityToIndex.Keys - {e}
    ensures forall x | x in SwapRemoved(st, e).entityToIndex ::
      SwapRemoved(st, e).entityToIndex[x] ==
        if st.entityToIndex[x] == st.size - 1 then st.entityToIndex[e] else st.entityToIndex[x]
    ensures Contents(SwapRemoved(st, e)) == Contents(st) - {e}
  {
    var removed := st.entityToIndex[e];
    var last := st.size - 1;
    var lastEntity := st.indexToEntity[last];
    var r := SwapRemoved(st, e);
    assert lastEntity in st.entityToIndex;
    assert r.entityToIndex.Keys == st.entityToIndex.Keys - {e};
    forall x | x in r.entityToIndex
      ensures r.entityToIndex[x] == if st.entityToIndex[x] == last then removed else st.entityToIndex[x]
      ensures r.entityToIndex[x] < r.size && r.indexToEntity[r.entityToIndex[x]] == x
      ensures r.components[r.entityToIndex[x]] == st.components[st.entityToIndex[x]]
    {
      if x == lastEntity {
        assert removed != last;
      } else {
        assert st.indexToEntity[st.entityToIndex[x]] == x;
      }
    }
    forall s | s in r.indexToEntity
      ensures r.indexToEntity[s] in r.entityToIndex && r.entityToIndex[r.indexToEntity[s]] == s
    {
      assert st.indexToEntity[s] in st.entityToIndex;
    }
  }

  /** EntityDestroyed is idempotent: a second teardown of the same entity changes nothing. */
  lemma TeardownIdempotent<T>(st: StoreState<T>, e: Entity)
    requires Packed(st)
    ensures Packed(Teardown(st, e))
    ensures e !in Teardown(st, e).entityToIndex
    ensures Teardown(Teardown(st, e), e) == Teardown(st, e)
    ensures Contents(Teardown(st, e)) == Contents(st) - {e}
  {
    if e in st.entityToIndex {
      SwapRemovedSpec(st, e);
    } else {
      assert Contents(st) - {e} == Contents(st);
    }
  }

  /** RemoveData exactly as written at ecs.hpp:128-145, line 138 included. */
  function SwapRemovedAsWritten<T>(st: StoreState<T>, e: Entity): (r: StoreState<T>)
    requires Packed(st) && e in st.entityToIndex
    ensures r.size + 1 == st.size && e !in r.entityToIndex
  {
    var removed := st.entityToIndex[e];
    var last := st.size - 1;
    var lastEntity := st.indexToEntity[last];
    StoreState(
      st.components[removed := st.components[last]],
      st.entityToIndex - {e},
      st.indexToEntity[lastEntity := removed][removed := lastEntity] - {last},
      last)
  }

  /** Entities 0, 1 and 2 inserted in that order into a fresh store, with values va, vb and vc. */
  function ThreeInserted<T>(default: T, va: T, vb: T, vc: T): (st: StoreState<T>)
    ensures Packed(st) && st.size == 3
    ensures st.entityToIndex == map[0 := 0, 1 := 1, 2 := 2]
    ensures st.indexToEntity == map[0 := 0, 1 := 1, 2 := 2]
  {
    var s0 := EmptyStore(default);
    AppendedPacked(s0, 0, va);
    var s1 := Appended(s0, 0, va);
    AppendedPacked(s1, 1, vb);
    var s2 := Appended(s1, 1, vb);
    AppendedPacked(s2, 2, vc);
    Appended(s2, 2, vc)
  }

  /**
   * With entities 0, 1, 2 in slots 0, 1, 2, removing entity 1 as written
   * leaves entity 2 pointing at slot 2: outside the occupied range and the
   * very slot the next InsertData overwrites. The store is no longer packed.
   */
  lemma AsWrittenLosesMovedEntity<T>(default: T, va: T, vb: T, vc: T)
    ensures var s := SwapRemovedAsWritten(ThreeInserted(default, va, vb, vc), 1);
      s.size == 2 && 2 in s.entityToIndex && s.entityToIndex[2] == s.size && !Packed(s)
  {
    var st := ThreeInserted(default, va, vb, vc);
    var s := SwapRemovedAsWritten(st, 1);
    assert s.entityToIndex == map[0 := 0, 2 := 2];
    assert !ForwardInverse(s) by {
      assert 2 in s.entityToIndex && s.entityToIndex[2] >= s.size;
    }
  }

  class ComponentArray<T(0)> {
    const components: array<T>
    var entityToIndex: map<Entity, nat>
    var indexToEntity: map<nat, Entity>
    const componentType: nat
    var arraySize: nat

    /** The fields as a StoreState value. */
    ghost function State(): (st: StoreState<T>)
      reads this, components
    {
      StoreState(components[..], entityToIndex, indexToEntity, arraySize)
    }

    ghost predicate Valid()
      reads this, components
    {
      Packed(State())
    }

    /** The constructor (ecs.hpp:111-114); the caller supplies the type's id from the registry. */
    constructor (componentType: nat)
      ensures Valid() && fresh(components)
      ensures this.componentType == componentType
      ensures arraySize == 0 && Contents(State()) == map[]
    {
      components := new T[MAX_ENTITIES];
      this.componentType := componentType;
      entityToIndex := map[];
      indexToEntity := map[];
      arraySize := 0;
    }

    /** InsertData (ecs.hpp:116-126); the assert of line 118 is the precondition. */
    method InsertData(entity: Entity, component: T)
      requires Valid() && entity !in entityToIndex
      modifies this, components
      ensures Valid()
      ensures State() == Appended(old(State()), entity, component)
    {
      AppendedContents(State(), entity, component);
      var newIndex := arraySize;
      entityToIndex := entityToIndex[entity := newIndex];
      indexToEntity := indexToEntity[newIndex := entity];
      components[newIndex] := component;
      arraySize := arraySize + 1;
    }

    /**
     * RemoveData (ecs.hpp:128-145); the assert of line 130 is the
     * precondition. The repair that line 138 aims at indexToEntity is made
     * to entityToIndex, as the comment above it intends.
     */
    method RemoveData(entity: Entity)
      requires Valid() && entity in entityToIndex
      modifies this, components
      ensures Valid()
      ensures State() == SwapRemoved(old(State()), entity)
    {
      SwapRemovedSpec(State(), entity);
      var removedEntity := entityToIndex[entity];
      var lastElement := arraySize - 1;
      components[removedEntity] := components[lastElement];
      var lastElementEntity := indexToEntity[lastElement];
      entityToIndex := entityToIndex[lastElementEntity := removedEntity];
      indexToEntity := indexToEntity[removedEntity := lastElementEntity];
      entityToIndex := entityToIndex - {entity};
      indexToEntity := indexToEntity - {lastElement};
      arraySize := arraySize - 1;
    }

    /** Get (ecs.hpp:147-152): the value the entity owns; the assert of line 149 is the precondition. */
    function Get(entity: Entity): (v: T)
      reads this, components
      requires Valid() && entity in entityToIndex
      ensures entity in Contents(State()) && v == Contents(State())[entity]
    {
      components[entityToIndex[entity]]
    }

    /** EntityDestroyed (ecs.hpp:154-158): tolerates an entity without a component. */
    method EntityDestroyed(entity: Entity)
      requires Valid()
      modifies this, components
      ensures Valid()
      ensures State() == Teardown(old(State()), entity)
    {
      if entity in entityToIndex {
        RemoveData(entity);
      }
    }
  }

  /**
   * Entities 0, 1 and 2 inserted in that order and entity 1 removed: 0 and 2
   * still retrieve their own values and two slots remain occupied.
   */
  method SwapRemoveScenario<T(0)>(va: T, vb: T, vc: T) returns (a: T, c: T, size: nat)
    ensures a == va && c == vc && size == 2
  {
    var store := new ComponentArray<T>(0);
    AppendedContents(store.State(), 0, va);
    store.InsertData(0, va);
    AppendedContents(store.State(), 1, vb);
    store.InsertData(1, vb);
    AppendedContents(store.State(), 2, vc);
    store.InsertData(2, vc);
    assert Contents(store.State()) == map[0 := va, 1 := vb, 2 := vc];
    SwapRemovedSpec(store.State(), 1);
    store.RemoveData(1);
    a := store.Get(0);
    c := store.Get(2);
    size := store.arraySize;
  }
}
