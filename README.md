# A verified model of a small entity-component store

This project models the storage and indexing engine of a single-header C++
entity-component-system library (`ecs.hpp`) in Dafny. It models six parts:

- **Type ids** (`type_ids.dfy`, module `TypeIds`). The process-wide counter hands each component type one id on its first use. The model makes it an explicit `TypeRegistry` object: a map from an abstract type key to its id, plus the next counter value.
- **Entity registry** (`entity_manager.dfy`, module `Entities`). `EntityManager` keeps a FIFO queue of free ids, initially `0 .. MAX_ENTITIES-1`, a live counter, and a fixed array of one signature per id.
- **Packed component store** (`component_store.dfy`, module `ComponentStore`).
  - `StoreState` describes a store as a value: the fixed buffer, the entity→slot and slot→entity maps, and the occupied length. `Appended`, `SwapRemoved` and `Teardown` say what insertion, swap-remove and teardown do to it.
  - The lemmas prove that the occupied slots stay exactly `[0, size)`, that the two maps stay mutual inverses, and that every other entity keeps its value.
  - The class `ComponentArray` updates an `array` and two maps in place, and is proved to follow those functions.
- **Component directory** (`directory.dfy`, module `Directory`). `ComponentManager` maps type ids to stores, routes add, get and remove to the right store, and tears an entity down in every store with a loop.
- **Coordinator** (`coordinator.dfy`, module `Coordinator`). `ECS` couples every store change with the matching signature-bit change. It keeps the invariant `Consistent`: bit `t` of an entity's signature is set exactly when the entity has an entry in the store with type id `t`.
- **System base** (`system.dfy`, module `Systems`). `System` has a required signature and a list of managed entities. It admits only an exact signature match.

A signature, a `std::bitset<32>`, is the set of its set bits. An entity is a natural below `MAX_ENTITIES` (1028). Both are defined in `limits.dfy`.

The code has four defects. The first three are each modelled both as written, with a lemma that exhibits the fault, and corrected; the rest of the model uses the corrected behaviour. The fourth cannot be modelled as written, so only its intended behaviour is:

- **ecs.hpp:138.** The repair of the moved entity's slot is written into the wrong map.
- **ecs.hpp:66.** `DestroyEntity` checks the live count instead of the entity.
- **ecs.hpp:314.** `std::remove` is called without `erase`.
- **ecs.hpp:198 and 260.** These call `RemoveData` and `RemoveComponent` with the wrong number of arguments, so they do not compile once instantiated. The model removes by entity, which is what the signature update that follows them intends.

Registering a type twice keeps the first store, because `unordered_map::insert` leaves an existing entry alone; a second registration does not reset it.

## Model

| member | source | states |
|---|---|---|
| Limits.SetBit | ecs.hpp:253 | bit `pos` takes the given value and every other bit keeps its own |
| TypeIds.TypeRegistry.constructor | ecs.hpp:26 | the counter starts at 0 with no type registered |
| TypeIds.TypeRegistry.GetComponentTypeID | ecs.hpp:24-35 | a registered type gets its stored id back; a new type gets the counter value, which is recorded, and the counter moves on by one; the registry invariant is kept |
| TypeIds.DistinctTypesDistinctIds | ecs.hpp:30-35 | two distinct registered types never share an id |
| TypeIds.IdsAreConsecutive | ecs.hpp:24-28 | the ids in use are exactly `0 .. next-1` |
| TypeIds.FirstUseScenario | ecs.hpp:24-35 | on a fresh registry the first two types get 0 and 1, and asking again for the first gives 0 |
| Entities.EntityManager.constructor | ecs.hpp:45-51 | the free queue holds `0 .. MAX_ENTITIES-1` in order, nothing is live, and every signature is all-zero |
| Entities.EntityManager.CreateEntity | ecs.hpp:53-62 | returns the front of the free queue, pops it, increments the count, and adds the id to the live set; the free/live partition is kept; from a clean queue the id comes with an empty signature |
| Entities.EntityManager.DestroyEntity | ecs.hpp:64-73 | clears the entity's signature and no other, appends the id to the tail of the queue, decrements the count, and keeps the partition and the clean queue |
| Entities.EntityManager.SetSignature | ecs.hpp:75-81 | only that entity's signature changes, and it takes the new value |
| Entities.EntityManager.GetSignature | ecs.hpp:83-88 | an id waiting in a clean free queue reads back all-zero |
| Entities.DestroyGuardAsWritten | ecs.hpp:66 | the check as written depends only on the count: it refuses every entity when the count is at the limit and admits any entity when the count is 0 |
| Entities.FullRegistryRefusesDestroy | ecs.hpp:66 | with every id live, the as-written guard refuses to destroy the live entity 0 |
| Entities.EmptyRegistryAdmitsDestroy | ecs.hpp:66 | with no id live, the as-written guard lets a destroy of entity 0 through although 0 is not live |
| Entities.FreshManagerHandsOutInOrder | ecs.hpp:45-62 | successive creates on a fresh registry return 0, 1 and 2, each with an empty signature |
| Entities.RecycledIdWaitsItsTurn | ecs.hpp:53-73 | a destroyed id goes to the back of the queue, so the next create returns the next fresh id |
| ComponentStore.Appended | ecs.hpp:116-126 | the state after InsertData: one more occupied slot, and the entity is present |
| ComponentStore.SwapRemoved | ecs.hpp:128-145 | the state after RemoveData with the moved entity's slot repaired: one fewer occupied slot, and the entity is absent |
| ComponentStore.Teardown | ecs.hpp:154-158 | the state after EntityDestroyed: the entity is absent whether or not it was present |
| ComponentStore.SwapRemovedAsWritten | ecs.hpp:128-145 | the state after RemoveData exactly as written, line 138 included: one fewer occupied slot and the entity absent, but the moved entity's slot is not repaired (see AsWrittenLosesMovedEntity) |
| ComponentStore.EmptyStore | ecs.hpp:111-114 | a fresh store is packed, with size 0 and no contents |
| ComponentStore.RoomFor | ecs.hpp:102-126 | an entity not yet in a packed store always finds a free slot in the fixed buffer |
| ComponentStore.AppendedForward | ecs.hpp:120-122 | after an insert, every present entity owns an occupied slot that points back at it |
| ComponentStore.AppendedBackward | ecs.hpp:120-122 | after an insert, every occupied slot names a present entity that points back at it |
| ComponentStore.AppendedPacked | ecs.hpp:116-126 | an insert keeps the store packed and grows it by one; the new entity sits at the old size in both maps; every other entity keeps its slot |
| ComponentStore.AppendedContents | ecs.hpp:116-126 | after an insert the new entity retrieves the inserted value and every other entity its old value |
| ComponentStore.SwapRemovedSpec | ecs.hpp:128-145 | swap-remove keeps the store packed, shrinks it by one, and drops exactly the entity; the entity in the last slot moves into the vacated slot and all others keep theirs; every remaining entity retrieves its old value |
| ComponentStore.TeardownIdempotent | ecs.hpp:154-158 | teardown leaves the store packed and without the entity, removes only that entity's value, and a second teardown changes nothing |
| ComponentStore.ThreeInserted | ecs.hpp:116-126 | inserting entities 0, 1 and 2 into a fresh store puts them in slots 0, 1 and 2 of both maps |
| ComponentStore.AsWrittenLosesMovedEntity | ecs.hpp:138 | after entities 0, 1 and 2 are inserted, removing entity 1 as written leaves entity 2 pointing at slot 2, past the occupied range, and the store is no longer packed |
| ComponentStore.ComponentArray.constructor | ecs.hpp:111-114 | the store starts packed and empty, with its type id |
| ComponentStore.ComponentArray.InsertData | ecs.hpp:116-126 | the new state is `Appended` of the old, and the store stays valid |
| ComponentStore.ComponentArray.RemoveData | ecs.hpp:128-145 | the new state is `SwapRemoved` of the old, with the moved entity's slot repaired, and the store stays valid |
| ComponentStore.ComponentArray.Get | ecs.hpp:147-152 | returns the value the entity owns in the store's contents |
| ComponentStore.ComponentArray.EntityDestroyed | ecs.hpp:154-158 | the new state is `Teardown` of the old: it removes the entity when present and changes nothing otherwise |
| ComponentStore.SwapRemoveScenario | ecs.hpp:116-152 | after inserting A, B and C and removing B, A and C are still retrievable and the size is 2 |
| Directory.TeardownAll | ecs.hpp:207-215 | the directory after EntityDestroyed: every store torn down, and the same set of type ids |
| Directory.TeardownAllSpec | ecs.hpp:207-215 | tearing an entity down everywhere keeps every store packed and the set of type ids; every store loses exactly that entity |
| Directory.TeardownAllIdempotent | ecs.hpp:207-215 | tearing the same entity down everywhere twice is the same as once |
| Directory.NewStore | ecs.hpp:111-114 | the store a registration files is packed and empty |
| Directory.StorePut | ecs.hpp:178 | filing a packed store keeps every store packed |
| Directory.TeardownStep | ecs.hpp:209-214 | tearing down one pending store keeps the loop invariant: pending stores are unchanged and the others are torn down |
| Directory.TeardownDone | ecs.hpp:207-215 | once nothing is pending, every store has been torn down |
| Directory.ComponentManager.constructor | ecs.hpp:164 | the directory starts with no store |
| Directory.ComponentManager.RegisterComponent | ecs.hpp:175-179 | the type gets its id; a new id gets an empty store, and an already registered id keeps its store untouched |
| Directory.ComponentManager.GetComponentType | ecs.hpp:181-187 | the id returned is the one the registry assigned to that type |
| Directory.ComponentManager.AddComponent | ecs.hpp:189-193 | only the type's store changes, and it becomes `Appended` of its old state |
| Directory.ComponentManager.RemoveComponent | ecs.hpp:195-199 | only the type's store changes, and it becomes `SwapRemoved` of its old state |
| Directory.ComponentManager.GetComponent | ecs.hpp:201-205 | returns the value the entity owns in the type's store |
| Directory.ComponentManager.EntityDestroyed | ecs.hpp:207-215 | after the loop over every store, the directory equals `TeardownAll` of the old one |
| Coordinator.InitConsistent | ecs.hpp:225-229 | all-empty signatures and no stores are consistent |
| Coordinator.RegisterKeepsConsistent | ecs.hpp:241-245 | filing an empty store for a new type id keeps signatures and stores consistent |
| Coordinator.AddKeepsConsistent | ecs.hpp:247-255 | inserting into store t and setting bit t of that entity's signature keeps signatures and stores consistent |
| Coordinator.RemoveKeepsConsistent | ecs.hpp:257-265 | removing from store t and clearing bit t of that entity's signature keeps signatures and stores consistent |
| Coordinator.DestroyKeepsConsistent | ecs.hpp:235-239 | clearing an entity's signature and tearing it down in every store keeps signatures and stores consistent |
| Coordinator.ECS.constructor | ecs.hpp:225-229 | a fresh coordinator is consistent, no entity is live, and the free queue is `0 ..` in order |
| Coordinator.ECS.CreateEntity | ecs.hpp:230-233 | hands out the front of the free queue, pops it and increments the count; signatures and stores are unchanged |
| Coordinator.ECS.DestroyEntity | ecs.hpp:235-239 | the entity's signature becomes empty, every store drops the entity, the id goes to the tail of the queue, and consistency is kept |
| Coordinator.ECS.RegisterComponent | ecs.hpp:241-245 | the type gets its id and, when new, an empty store, while every other store keeps its state; signatures are unchanged and consistency is kept |
| Coordinator.ECS.AddComponent | ecs.hpp:247-255 | the value goes into the type's store, only the type's bit of the entity's signature is set, and consistency is kept |
| Coordinator.ECS.RemoveComponent | ecs.hpp:257-265 | the entity leaves the type's store, only the type's bit of its signature is cleared, and consistency is kept |
| Coordinator.ECS.GetComponent | ecs.hpp:267-271 | returns the value the entity owns in the type's store |
| Coordinator.ECS.GetComponentType | ecs.hpp:273-277 | returns the id the registry assigned to that type |
| Coordinator.ECS.GetEntitySignature | ecs.hpp:279-282 | bit t of the returned signature is set exactly when the entity has a type-t component |
| Coordinator.HealthScenario | ecs.hpp:225-282 | a component with value 10 added to a fresh entity reads back 10, the signature is exactly that type's bit, and after removal the signature is empty |
| Coordinator.CoordinatorHandsOutInOrder | ecs.hpp:225-233 | successive creates on a fresh coordinator return 0 and then 1 |
| Coordinator.RegisterLaterKeepsValuesScenario | ecs.hpp:241-271 | a value added under one type still reads back after a second type is registered |
| Systems.Without | ecs.hpp:314 | the erase-remove result holds exactly the entries other than the entity, with the same multiplicities, and is shorter by the entity's count |
| Systems.WithoutConcat | ecs.hpp:314 | erase-remove distributes over concatenation, so the kept entries keep their order |
| Systems.RemoveAsWritten | ecs.hpp:314 | as written, the list keeps its length and the kept entries come first |
| Systems.RemoveAsWrittenKeepsEntity | ecs.hpp:314 | removing 2 from `[1, 2]` as written leaves `[1, 2]`, where the intended result is `[1]` |
| Systems.System.constructor | ecs.hpp:293-296 | a new system manages nothing and requires the all-zero signature |
| Systems.System.RegisterComponentToSystem | ecs.hpp:297-303 | sets exactly the type's bit of the system signature, assigning the type an id on first use, and keeps a valid coordinator valid |
| Systems.System.RegisterEntity | ecs.hpp:305-310 | admits an entity only when its signature equals the system's exactly, and appends it to the managed list |
| Systems.System.RemoveEntity | ecs.hpp:312-315 | the managed list becomes `Without` of the old list |
| Systems.AdmitAndForgetScenario | ecs.hpp:285-315 | a system that needs types 0 and 1 admits an entity with exactly those bits and forgets it on removal |

## Findings

| source | as written | input that shows it | evidently intended | confidence | as-written member | corrected member |
|---|---|---|---|---|---|---|
| ecs.hpp:138 | the moved entity's new slot is stored in `indexToEntity`, keyed by the entity, so `entityToIndex` still points it at the old last slot | entities 0, 1 and 2 in slots 0, 1 and 2, then `RemoveData(1)`: entity 2 still maps to slot 2, which equals the new size | `entityToIndex[lastElementEntity] = removedEntity` | not executed | ComponentStore.AsWrittenLosesMovedEntity | ComponentStore.SwapRemovedSpec |
| ecs.hpp:66 | `DestroyEntity` asserts `entityCount < MAX_ENTITIES` | all 1028 ids live, then `DestroyEntity(0)` is refused; with none live, `DestroyEntity(0)` is let through, queues a second copy of 0 and wraps the count below zero | the entity is in range and live, as every destroy needs; the range part matches the message "Entity out of range" and the checks at ecs.hpp:78 and 85 | not executed | Entities.DestroyGuardAsWritten | Entities.EntityManager.DestroyEntity |
| ecs.hpp:314 | the result of `std::remove` is discarded and nothing is erased | managed list `[1, 2]`, then `RemoveEntity(2)` leaves `[1, 2]` | `managedEntities.erase(std::remove(...), managedEntities.end())` | not executed | Systems.RemoveAsWrittenKeepsEntity | Systems.System.RemoveEntity |

## Left out

- Directory.ComponentManager: the directory holds each store's state as a `StoreState` value, not a `shared_ptr` to a `ComponentArray` object. Nothing else holds those handles, so no aliasing is lost. The state changes are the same functions `ComponentArray` is proved to follow.
- Heterogeneous component types: every store in one directory holds the same value type `T`. The virtual base `BaseComponentArray`, `shared_ptr`, `unique_ptr` and `static_pointer_cast` are not modelled.
- Type-id counters: the function-local statics and their initialisation order are replaced by the explicit `TypeRegistry`. The 32-bit wrap of the counter is not modelled, because ids stay far below it.
- Directory.ComponentManager.AddComponent: requires the type to be registered. `operator[]` on an unregistered id (ecs.hpp:171) would insert a null store and dereference it.
- Directory.ComponentManager.GetComponentType, Coordinator.ECS.GetComponentType: require the type to have an id already. In the source (ecs.hpp:184 and 276, through line 33) a first call for an unseen type also assigns the next id. These two stay pure reads; first-use assignment is modelled once, by TypeIds.TypeRegistry.GetComponentTypeID, which the registration methods and Systems.System.RegisterComponentToSystem call.
- Coordinator.ECS.AddComponent: requires the type id to be below `MAX_COMPONENTS`, where `std::bitset::set` would throw `std::out_of_range`. The same applies to Coordinator.ECS.RemoveComponent and Systems.System.RegisterComponentToSystem.
- Entities.EntityManager.DestroyEntity: requires the entity to be live, not the count check of ecs.hpp:66 (see Findings). The `uint32_t` wrap of `entityCount` that the as-written check allows is therefore not modelled.
- `entityCount` and `arraySize` start at 0. The source leaves them uninitialised.
- `Get` and `GetComponent` return references in the source; the model returns the value, and writes through the returned reference are not modelled.
- The order in which `unordered_map` visits stores is not modelled: the teardown loop takes them in any order.
- The demo program (main.cpp) and the example system (testsystem.hpp) are not part of this model. They hold console output and an endless loop.
- The `<mutex>` include is unused; there is no concurrency to model.
