# Generational slot map

A Dafny model of the object table in `SlotMapExample/Main.cpp`. The table hands
out 64-bit handles for objects, finds an object from its handle in constant
time, and recycles the slots of destroyed objects. It detects a stale handle
even after that handle's slot has been given to a new object.

The final design is namespace `v4`. Storage is a growable list of chunks of
256 slots. A chunk never moves once it is allocated, so an object's address
stays valid while the table grows. A LIFO free list holds the indices of the
unused slots. Each slot stores a 64-bit tag. The low 32 bits of the tag hold
the slot's own index and the high bits hold its generation. A handle is a
slot's tag at the time `create_object` returned it:

- `create_object` grows the table by one chunk when the free list is empty. It
  then pops an index and returns the tag that slot already carries.
- `get_object` accepts a handle exactly when the slot named by the handle's
  low bits holds that same tag.
- `destroy_object` adds one to the slot's generation and pushes the index.

The earlier designs appear as references. `v1` is a map keyed by a counter and
serves as the abstract model. `v3` has the same chunked storage without
generations, and the model exhibits its stale-id bug.

## Layout

- `options.dfy` (`Options`): the optional result of a lookup. A null pointer becomes `None`.
- `handles.dfy` (`Handles`): the handle codec (index, generation, encode, the generation bump) and the source's constants.
- `slotmap.dfy` (`SlotMap`): the v4 state as one `Table` value (`object_table` plus `free_list`) and `Grow`, `Create`, `Get`, `Destroy` as pure transitions. `GrowChunk` is the growth loop as written.
- `slotmap_properties.dfy` (`SlotMapProperties`): the table invariant and the properties proved about it.
- `lifecycle.dfy` (`Lifecycle`): the table plus the handles the caller holds, split into live and destroyed. It states which issued handles `get_object` accepts, and how the table refines the v1 map.
- `maptable.dfy` (`MapTable`): the v1 map-keyed table.
- `recycling.dfy` (`RecyclingTable`): the v3 table with its recycling bug.
- `driver.dfy` (`Driver`): the rounds of the test driver as methods with loop invariants.

## Modelling decisions

- The bit operations are written as arithmetic on unbounded integers.
  - `h & 0xFFFFFFFF` is `h % 2^32`. Dafny's `%` is Euclidean, so this gives the low 32 bits of the two's-complement value even for negative `h`.
  - `h >> 32` is `h / 2^32`, because an arithmetic shift rounds toward minus infinity.
  - The `|` of two disjoint bit fields is their sum.
- A slot's address is the pair (chunk number, offset in chunk). Dereferencing an address reads the slot's tag.
- Tags are written in two places only: when a chunk is allocated (generation 0, tag = index) and by `destroy_object`. `create_object` writes nothing. So a free slot's tag already equals the handle it will issue next.
- `Lifecycle.World` adds the caller's view: `live` holds the handles returned by `create_object` and not yet destroyed, and `dead` holds the destroyed ones. These sets do not exist in the source. They make it possible to say "no free-list entry is a live handle's index" and "a destroyed handle is never accepted again".

### Behaviour of the code the model keeps

- `create_object` writes no tag. A slot's tag is written when its chunk is allocated and again by `destroy_object`, which stores the next generation's tag. So the handle a free slot will issue is already in place.
- `get_object` does no bounds check (line 139): it indexes `object_table` with whatever index the handle carries. The model therefore requires the index to be below the capacity.
- `destroy_object` on a handle already destroyed dereferences a null pointer (lines 144-145), because `get_object` rejects that handle. The model makes a current handle a precondition of `Destroy`.
- `destroy_object` on a value equal to the tag of a slot that is already free passes `get_object`'s check, though no such handle was ever issued, and frees that slot's index a second time. `SlotMapProperties.DestroyFreeSlotCorruptsFreeList` shows the duplicate free-list entry this creates.

## Model

| member | source | states |
|---|---|---|
| Handles.Index | SlotMapExample/Main.cpp:139 | The index field is below 2^32 and is the handle itself for a handle below 2^32, i.e. a generation-0 tag |
| Handles.Generation | SlotMapExample/Main.cpp:145 | The generation of a non-negative handle is non-negative, zero below 2^32, and below 2^31 for any handle that fits a signed 64-bit value |
| Handles.Encode | SlotMapExample/Main.cpp:127 | Decoding an encoded handle gives back exactly the index and generation it was built from |
| Handles.EncodeDecode | SlotMapExample/Main.cpp:139 | Every handle is the encoding of its own index and generation |
| Handles.HandleEquality | SlotMapExample/Main.cpp:140 | The whole-handle comparison `obj->id != id` means "index or generation differ": two handles are equal iff both fields are |
| Handles.NextGeneration | SlotMapExample/Main.cpp:145 | The tag destroy writes keeps the index bits, has generation one higher, and is the old tag plus 2^32 |
| SlotMap.AddressOf | SlotMapExample/Main.cpp:139 | Index i lives at chunk i / 256, offset i % 256; the offset is inside the chunk and the pair determines i |
| SlotMap.Grow | SlotMapExample/Main.cpp:124-131 | Growth appends exactly one chunk of 256 slots and keeps the existing chunks as a prefix. It pushes exactly the new indices, highest first, so the lowest new index ends up on top of the free list |
| SlotMap.GrowTags | SlotMapExample/Main.cpp:126-127 | Growth leaves every existing slot's tag untouched and gives each new slot generation 0, so its tag is its own index |
| SlotMap.GrowChunk | SlotMapExample/Main.cpp:125-130 | The source's downward loop that stamps each new slot and pushes its index produces exactly the state `Grow` describes |
| SlotMap.Create | SlotMapExample/Main.cpp:123-136 | With a free index, no chunk is allocated, the top index is popped, and that slot's current tag is returned. With an empty free list, exactly one chunk is appended and the handle returned is the first new index at generation 0 |
| SlotMap.Get | SlotMapExample/Main.cpp:138-141 | A lookup succeeds exactly when the slot named by the handle's index bits holds the whole handle as its tag, and then yields that slot's address |
| SlotMap.Destroy | SlotMapExample/Main.cpp:143-147 | Needs a handle get accepts (the result is dereferenced unchecked). Afterwards the slot keeps its index bits at one generation higher, only its index is pushed, every other slot is unchanged, and get rejects the destroyed handle |
| SlotMapProperties.EmptyValid | SlotMapExample/Main.cpp:119-121 | The initial empty table satisfies the table invariant |
| SlotMapProperties.GrowPreservesValid | SlotMapExample/Main.cpp:124-131 | Growth keeps every slot's index bits equal to its position and keeps the free list free of duplicates |
| SlotMapProperties.CreateLeavesTags | SlotMapExample/Main.cpp:124-135 | Create never changes an existing slot's tag and gives new slots generation 0. It appends a chunk exactly when the free list was empty, and then exactly one |
| SlotMapProperties.CreatePreservesValid | SlotMapExample/Main.cpp:133-135 | Create keeps the invariant. Its handle is the current tag of a slot no longer on the free list, so get on it returns that slot, whose id equals the handle. The slot is the popped top or, after growth, the first new index at generation 0 |
| SlotMapProperties.GetChecksGeneration | SlotMapExample/Main.cpp:138-141 | On a valid table get is a generation check: it accepts a handle iff the handle's generation equals the stored generation of its slot |
| SlotMapProperties.DestroyPreservesValid | SlotMapExample/Main.cpp:143-147 | Destroying a handle whose slot is not free keeps the invariant and puts the slot on the free list |
| SlotMapProperties.CreateKeepsGenerations | SlotMapExample/Main.cpp:123-136 | Create lowers no slot's generation and changes no slot's index bits |
| SlotMapProperties.DestroyKeepsGenerations | SlotMapExample/Main.cpp:145 | Destroy lowers no slot's generation and strictly raises the destroyed slot's generation |
| SlotMapProperties.RecycleRejectsStale | SlotMapExample/Main.cpp:133-146 | After destroy, the next create reuses the same index (LIFO) with generation one higher. The new handle differs from the old one, get rejects the old handle and accepts the new one |
| SlotMapProperties.GetIgnoresOccupancy | SlotMapExample/Main.cpp:138-141 | The tag of a free slot already carries that slot's index, and get accepts it: get checks tags, not occupancy |
| SlotMapProperties.DestroyFreeSlotCorruptsFreeList | SlotMapExample/Main.cpp:143-146 | Destroy on a free slot's tag passes get's check and pushes an index already on the free list, so the free list gains a duplicate |
| Lifecycle.StartCoherent | SlotMapExample/Main.cpp:119-121 | The empty table with no handles issued satisfies the coherence invariant |
| Lifecycle.Create | SlotMapExample/Main.cpp:123-136 | Create on the table, with the returned handle added to the caller's live handles |
| Lifecycle.Destroy | SlotMapExample/Main.cpp:143-147 | A live handle is accepted by get, so destroy is defined on it. It moves from live to destroyed |
| Lifecycle.LiveHandlesDistinctSlots | SlotMapExample/Main.cpp:133-134 | Distinct live handles occupy distinct slots |
| Lifecycle.IssuedHandleValidity | SlotMapExample/Main.cpp:138-141 | For every handle ever issued, get accepts it iff it is live, and then yields its own slot. A destroyed handle is rejected forever, even after its index is reused |
| Lifecycle.CreateFromFreeList | SlotMapExample/Main.cpp:133-135 | Reusing a free index keeps the world coherent. The handle issued was never issued before, neither live nor destroyed |
| Lifecycle.FreeListAfterGrowth | SlotMapExample/Main.cpp:126-134 | After growth from an empty free list and one pop, the free list holds exactly the other 255 slots of the new chunk |
| Lifecycle.CreateAfterGrowth | SlotMapExample/Main.cpp:124-135 | Growth followed by a pop keeps the world coherent. The other new slots join the free list, and the handle issued is new |
| Lifecycle.CreateKeepsCoherent | SlotMapExample/Main.cpp:123-136 | Create keeps the world coherent: a slot is free iff its tag is not live, and destroyed handles stay behind their slots' generations. Its handle is fresh and accepted by get |
| Lifecycle.DestroyKeepsCoherent | SlotMapExample/Main.cpp:143-147 | Destroying a live handle keeps the world coherent, so its index is now free, no live handle's index is, and get rejects it |
| Lifecycle.Abstract | SlotMapExample/Main.cpp:17-18 | The map-table view of a world has exactly the live handles as keys, each mapped to an object whose id is that handle |
| Lifecycle.CreateRefinesInsert | SlotMapExample/Main.cpp:123-136 | Seen as the v1 map, create inserts an object under a key not yet present, as v1 does with its counter |
| Lifecycle.DestroyRefinesErase | SlotMapExample/Main.cpp:143-147 | Seen as the v1 map, destroy erases the handle's entry |
| Lifecycle.GetRefinesFind | SlotMapExample/Main.cpp:138-141 | On issued handles get succeeds iff the v1 lookup on the abstract map does, and the object found has the handle as its id |
| MapTable.Create | SlotMapExample/Main.cpp:20-23 | v1 create returns the counter's value, bumps the counter by one, and stores an object with that id under it. Other entries are untouched |
| MapTable.Get | SlotMapExample/Main.cpp:25-28 | v1 get succeeds iff the id is in the map, and on a valid table the object found has that id |
| MapTable.Destroy | SlotMapExample/Main.cpp:30-34 | v1 destroy removes exactly that id. A missing id leaves the table unchanged |
| MapTable.CreatePreservesValid | SlotMapExample/Main.cpp:20-23 | v1 create keeps the table valid, hands out an id no live object has, and get finds the new object with that id |
| MapTable.DestroyThenGet | SlotMapExample/Main.cpp:30-34 | After v1 destroy, get on that id finds nothing and the table stays valid |
| MapTable.Replay | SlotMapExample/Main.cpp:17-34 | Any history of v1 creates and destroys keeps the table valid. The counter advances by one per create, and every id handed out lies between the counter before and after the history |
| MapTable.IdsNeverReused | SlotMapExample/Main.cpp:20-23 | Over any history of creates and destroys, v1 hands out strictly increasing ids, so never the same id twice, and never the id of an object already in the table |
| RecyclingTable.GrowUnstamped | SlotMapExample/Main.cpp:85-90 | v3 growth appends one chunk of uninitialised slots, keeps the old slots' ids, and leaves the lowest new index on top of the free list |
| RecyclingTable.Create | SlotMapExample/Main.cpp:84-96 | v3 create returns an index whose slot now holds that index. Without growth it is the popped top of the free list |
| RecyclingTable.Get | SlotMapExample/Main.cpp:98-101 | v3 get succeeds iff the slot is not marked -1, whatever handle is asked for |
| RecyclingTable.Destroy | SlotMapExample/Main.cpp:103-106 | v3 destroy marks the slot -1 and pushes its index, after which get on that index fails |
| RecyclingTable.StaleIdAccepted | SlotMapExample/Main.cpp:92-104 | The bug: after destroy, the next create hands out the same id, and get accepts the destroyed id again |
| RecyclingTable.FirstIdRecycled | SlotMapExample/Main.cpp:84-106 | From an empty v3 table, id 0 is issued, destroyed, issued again, and its stale copy is accepted |
| Driver.CreateBatch | SlotMapExample/Main.cpp:160-166 | n creates return n distinct, never-issued, live handles. With n free indices no chunk is allocated. After any growth fewer than 256 slots are left free. Old tags are unchanged and new slots are at generation 0 |
| Driver.DestroyBatch | SlotMapExample/Main.cpp:181-187 | Destroying distinct live handles makes each one dead and pushes their indices in batch order. Each handle's slot moves exactly one generation on, and every other slot keeps its tag |
| Driver.Round | SlotMapExample/Main.cpp:160-195 | One driver round. After the creates, get finds every created object at its own slot and that object carries the handle as its id (lines 173 and 178). After the destroys, get rejects every one of them (lines 191-194). With n free indices no chunk is allocated, and any growth stops short of a full spare chunk |
| Driver.Run | SlotMapExample/Main.cpp:158-201 | The whole driver meets every precondition. Chunks are allocated in the first round only, no more than n objects need, and at the end every slot is free |

## Left out

- The namespace `v2` (lines 37-70) is a design step between `v1` and `v3`. It is a resizable array whose growth moves objects. It is not modelled.
- `FixedSizeDelegates/Main.cpp` is not part of this model. It is an unrelated type-erased callable whose behaviour is C++ object layout and lifetime.
- Raw pointers, `new object[chunk_size]` and the payload fields of an object are not modelled. An address is a (chunk, offset) pair and an object is its `id` tag.
- The `main` driver's `assert` macro is not modelled as such. The checks it makes at lines 173, 178 and 191-194 are postconditions of `Driver.Round`, about the world after the creates and the world after the destroys.
- Generation overflow is not modelled. From generation 2^31 - 1 on, `(generation + 1) << 32` leaves the non-negative signed 64-bit range; whether that is undefined or implementation-defined depends on the C++ standard in force. `SlotMap.Destroy` therefore requires `CanBump`.
- Indices of 2^31 or more are not modelled. The free list stores `int`, so the table never grows past 2^31 slots (`WellFormed`, `CanCreate`).
- Counter overflow in v1 is not modelled. `next_id++` on an `int` overflows at 2^31 - 1, so `MapTable.Create` requires a smaller counter.
- The model has no teardown. The source never frees a chunk, and neither does the model.
- Bounds-checked lookup and double-destroy detection are not modelled, because the source does neither. They are preconditions of `Get` and `Destroy`.
