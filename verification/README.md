# Hazard-pointer reclamation, modelled in Dafny

This project models the single-threaded behaviour of a hazard-pointer memory-reclamation
library. There are three parts:

- the **registry** (`HazardBag`): a grow-only chain of hazard slots, each with an `active` flag
  and a published `hazard` pointer;
- the reader-side **shield**: a lease on one slot, used to publish a pointer loaded from a
  shared cell and to validate it against that cell;
- the writer-side **retirement queue** (`RetiredSet`): buffers retired pointers and frees the
  ones that the registry's snapshot does not mention.

Conventions:

- Pointers are `nat`, and `0` (`Hazard.NULL`) is the null pointer.
- The registry is an immutable value: `Bag(slots: seq<Slot>)`.
- Slots are kept in allocation order. `slots[0]` is the oldest slot (the tail of the linked
  chain) and the last element is the head. No slot is ever unlinked or moved, so a slot's
  position is a stable identity, and a `Shield` names its slot by that position.
- Linking a new slot in at the head is appending at the end of `slots`.
- `Hazard.Chain` gives the head-to-tail view. `AcquireSlot` states the prepend on that view.
- A retired entry is `Retired(ptr, deleter)`. The deleter (`free::<T>`) is identified by a
  number.
- Each deleter call is recorded, in call order, in the `freed` list of the result of
  `Collect`/`Retire`.
- The queue's reference to its registry becomes a `Bag` argument to `Collect` and `Retire`:
  the registry's state at the time of the call.

Modules:

- `Wrappers` (`wrappers.dfy`): `Option` and `Result`.
- `Hazard` (`hazard.dfy`): slots, registry, shield operations.
- `RegistryProperties` (`registry_properties.dfy`):
  - how a one-slot change affects the snapshot;
  - the invariant "a slot no shield leases publishes nothing" (`Idle`);
  - slot recycling.
- `ShieldProperties` (`shield_properties.dfy`):
  - protect and release against the snapshot;
  - the two snapshot tests of the registry.
- `Retirement` (`retire.dfy`): the retirement queue.
- `RetireProperties` (`retire_properties.dfy`):
  - `collect` is idempotent;
  - its split into kept and freed entries is unique;
  - frees are distinct under retire-once;
  - the threshold behaviour.
- `Reclamation` (`reclamation.dfy`): a reader's shield delays reclamation of a retired pointer
  until the shield is dropped.

Two behaviours of the code worth spelling out:

- `retire` collects whenever the buffer length is **at least** 64 (`>=`), not only when it
  reaches exactly 64. So once hazarded entries hold the buffer at or above 64, every further
  `retire` collects.
- `try_acquire_inactive` walks from the head and claims an inactive slot with a weak
  compare-and-swap, which may fail spuriously and move on. The model takes the first
  inactive slot from the head, that is, it assumes no spurious failure.

## Model

| member | source | states |
|---|---|---|
| Hazard.NewBag | src/hazard.rs:130-134 | a new registry has no slots and publishes no pointer |
| Hazard.FirstInactive | src/hazard.rs:171-184 | finds a slot iff some slot is inactive; the slot found is inactive and every slot nearer the head is active |
| Hazard.TryAcquireInactive | src/hazard.rs:170-185 | returns nothing iff every slot is leased; otherwise it leases a slot that was inactive, and only that slot's flag changes (its hazard stays) |
| Hazard.NewSlot | src/hazard.rs:118-124 | a freshly allocated slot starts leased and publishes null |
| Hazard.AcquireSlot | src/hazard.rs:146-167 | the returned slot is leased and no shield held it before. With a free slot: chain length is unchanged and only that slot's flag changes. Without one: the head-to-tail chain becomes an active null slot followed by the old chain, unchanged |
| Hazard.NewShield | src/hazard.rs:19-22 | the new shield's slot is leased and was not leased before; every other old slot is unchanged. With a free slot the chain keeps its length and the slot keeps its hazard; only when every slot is leased does the chain grow, by one leased null slot |
| Hazard.Set | src/hazard.rs:25-28 | the shield's slot publishes the given pointer, its lease flag is unchanged, and no other slot changes |
| Hazard.Clear | src/hazard.rs:31-33 | the shield's slot publishes null, its lease flag is unchanged, and no other slot changes |
| Hazard.Validate | src/hazard.rs:39-49 | success iff the cell still holds the pointer, otherwise an error carrying the cell's value; it takes no registry, so no state changes |
| Hazard.TryProtect | src/hazard.rs:55-58 | succeeds iff the cell holds the pointer. On success the slot publishes it; on mismatch the slot is null and the cell's value is returned. The slot never publishes a non-null value the cell does not hold, and no other slot changes |
| Hazard.Protect | src/hazard.rs:63-71 | over the values successive loads of the cell return: the result is the value at the first round whose re-load agrees, the slot publishes it, and no other slot changes |
| Hazard.Release | src/hazard.rs:82-86 | dropping a shield makes its slot inactive and null and touches no other slot |
| Hazard.HazardsOf | src/hazard.rs:190-198 | the walk collects exactly the non-null hazard values of the slots walked |
| Hazard.AllHazards | src/hazard.rs:188-200 | a pointer is in the snapshot iff it is non-null and some slot publishes it |
| RegistryProperties.SnapshotAfterSlotChange | src/hazard.rs:188-200 | after a change to one slot, a pointer is in the snapshot iff that slot now publishes it or another slot already did |
| RegistryProperties.AcquireKeepsSnapshot | src/hazard.rs:146-167 | leasing a slot never changes the snapshot |
| RegistryProperties.AcquireKeepsIdle | src/hazard.rs:118-124 | if inactive slots publish nothing, a fresh lease publishes nothing and the invariant still holds |
| RegistryProperties.SlotChangeKeepsIdle | src/hazard.rs:82-86 | a one-slot change that leaves the slot leased or null keeps "inactive slots publish nothing" |
| RegistryProperties.InactiveCountZero | src/hazard.rs:170-185 | no slot is free iff every slot is leased |
| RegistryProperties.AcquireRecycles | src/hazard.rs:146-149 | with a free slot, acquiring keeps the chain length, returns an existing slot, and leaves one fewer free slot |
| RegistryProperties.ReleaseFreesOne | src/hazard.rs:82-86 | dropping a live shield keeps the chain length and frees exactly one more slot |
| RegistryProperties.AcquireMany | src/hazard.rs:294-296 | m shields alive together hold pairwise distinct slots, all leased, each free before or new; the chain never shrinks and slots already leased are untouched |
| RegistryProperties.ReleaseAll | src/hazard.rs:303 | dropping a list of shields leaves each of their slots inactive and null, all other slots unchanged, and the length unchanged |
| RegistryProperties.ReleaseAllFrees | src/hazard.rs:82-86 | dropping shields on distinct leased slots frees exactly one slot per shield |
| RegistryProperties.RecycleAfterRelease | src/hazard.rs:146-149 | from any registry: lease n shields, drop them, lease m <= n: no slot is added and every new shield gets an existing slot |
| RegistryProperties.RecycleWithinFree | src/hazard.rs:146-149 | acquiring no more shields than there are free slots adds no slot, and every shield gets an existing slot |
| RegistryProperties.AcquireManyWhenFull | src/hazard.rs:151-166 | with every slot leased, m acquisitions add exactly m leased slots, one per shield, in order |
| RegistryProperties.AcquireThenReleaseAll | src/hazard.rs:146-167 | leasing n shields from a new registry gives slots 0 .. n in order, and dropping them all leaves n free slots |
| RegistryProperties.RecycleSlots | src/hazard.rs:291-315 | lease n shields from a new registry, drop them, lease m <= n: the chain stays at n slots and every new shield reuses one of the old slots |
| ShieldProperties.ProtectUnchangedSource | src/hazard.rs:63-71 | with the cell unchanged, protect returns the cell's value and the slot publishes it, so a non-null value is in the snapshot |
| ShieldProperties.ReleaseWithdraws | src/hazard.rs:82-86 | after a drop, a pointer is in the snapshot iff some other slot publishes it |
| ShieldProperties.ProtectThenRelease | src/hazard.rs:63-86 | a protected pointer no other slot publishes is in the snapshot while the shield lives and absent after the drop |
| ShieldProperties.ProtectFresh | src/hazard.rs:249-251 | a new shield protecting a value from an unchanged cell: its slot is leased, was free before, publishes the value, and every other old slot is unchanged |
| ShieldProperties.ProtectFreshPublishes | src/hazard.rs:249-251 | on a registry where inactive slots publish nothing, protecting a value adds it to the snapshot, loses nothing already there, and keeps the invariant |
| ShieldProperties.LeakedShieldsStayPublished | src/hazard.rs:242-263 | after protecting values with shields never dropped, every non-null value is in the snapshot, and so is everything that was there before |
| ShieldProperties.ReleasedShieldsLeaveNothing | src/hazard.rs:267-287 | from a registry with every slot free and null, protect-then-drop of any values leaves every slot free and null and the snapshot empty |
| ShieldProperties.SnapshotScenarios | src/hazard.rs:242-287 | from a new registry: leaked shields leave all protected values in the snapshot; dropped shields leave it empty |
| Retirement.NewRetiredSet | src/retire.rs:28-34 | a new queue has an empty buffer |
| Retirement.Retain | src/retire.rs:71-78 | kept entries are all hazarded and freed entries all are not; kept and freed together are a permutation of the buffer; each keeps the buffer's order |
| Retirement.Collect | src/retire.rs:68-82 | an entry is kept iff it was buffered and its pointer is in the snapshot, and freed iff it was buffered and its pointer is not. Kept plus freed is a permutation of the buffer, both keep the original order, and no pointer any slot publishes is freed |
| Retirement.Retire | src/retire.rs:47-64 | below the threshold the entry is only appended and nothing is freed; at or above it the extended buffer is collected against the snapshot. Afterwards the buffer is under 64 long or wholly hazarded. Nothing is lost or duplicated, and nothing freed is in the snapshot |
| Retirement.RetireAll | src/retire.rs:125-127 | a run of retire calls conserves entries: buffer plus freed equals old buffer plus the retired entries, as multisets |
| RetireProperties.RetainAllHazarded | src/retire.rs:71-78 | when every entry is hazarded, the retain pass keeps the buffer as it is and frees nothing |
| RetireProperties.RetainNoneHazarded | src/retire.rs:71-78 | when no entry is hazarded, the retain pass frees every entry in order and keeps none |
| RetireProperties.SubseqMultiset | src/retire.rs:71-78 | an order-preserving selection never holds an entry more often than the buffer does |
| RetireProperties.RetainUnique | src/retire.rs:71-78 | the kept and freed lists are the only order-preserving split of the buffer into hazarded and non-hazarded entries |
| RetireProperties.CollectIdempotent | src/retire.rs:68-82 | a second collect against the same registry state frees nothing and leaves the buffer unchanged |
| RetireProperties.SubseqDistinct | src/retire.rs:42 | an order-preserving selection of entries with distinct pointers has distinct pointers |
| RetireProperties.CollectFreesOnce | src/retire.rs:79-81 | if no pointer is buffered twice, collect calls deleters on distinct pointers and the kept buffer stays duplicate-free |
| RetireProperties.RetireOnceFreesOnce | src/retire.rs:42-63 | retiring a pointer not already buffered keeps the buffer and the frees duplicate-free |
| RetireProperties.RetireBelowThreshold | src/retire.rs:60-63 | while the buffer stays under 64, a run of retire calls only appends, in order, and frees nothing |
| RetireProperties.RetireFillsThreshold | src/retire.rs:60-63 | with nothing hazarded, the retire that brings the buffer to 64 frees every buffered entry in order and empties the buffer |
| RetireProperties.RetireUpToThreshold | src/retire.rs:60-63 | with nothing hazarded, a run of retire calls ending exactly at 64 frees everything, in retirement order, and leaves the buffer empty |
| RetireProperties.RetireThresholdCollect | src/retire.rs:115-131 | retiring exactly 64 entries into a new queue, with nothing hazarded, frees all 64 in order and leaves the buffer empty |
| Reclamation.ProtectFreshThenRelease | src/hazard.rs:82-86 | a new shield on a pointer no other slot publishes puts it in the snapshot, and dropping the shield removes it again |
| Reclamation.RetireKeepsPublished | src/retire.rs:47-82 | retiring a pointer the registry publishes never frees it and leaves it buffered |
| Reclamation.ShieldDelaysReclamation | src/retire.rs:68-82 | a pointer a reader protects survives the writer's retire and stays buffered; after the reader drops its shield, the next collect frees it |

## Left out

- Atomics and memory orderings (Relaxed/Acquire/Release, fences): the model is sequential.
- Compare-and-swap retry loops under contention (src/hazard.rs:156-166, 174-178): the model
  is sequential.
- Spurious failure of the weak compare-and-swap (src/hazard.rs:174-178): the model leases the
  first inactive slot from the head. In the code, spurious failures at every inactive slot
  make `try_acquire_inactive` return `None` (src/hazard.rs:183), and `acquire_slot` then
  links in a new slot although free ones exist. So `RegistryProperties.RecycleWithinFree`,
  `RegistryProperties.RecycleAfterRelease` and `RegistryProperties.RecycleSlots` hold only
  when no such spurious failure happens.
- Cross-thread interleavings: the multi-threaded snapshot tests are modelled as one thread's
  iterations run one after another.
- Safety under concurrent retirement is not modelled. Its sequential core is
  `Reclamation.ShieldDelaysReclamation` and the no-published-pointer-freed clause of
  `Retirement.Collect`.
- `Drop for HazardBag` (src/hazard.rs:211-221): it deallocates the slot memory, which a value
  model has no counterpart for.
- `Drop for RetiredSet` (src/retire.rs:99-101): its drain loop ends only if other threads drop
  their shields. Sequentially it need not terminate. One step of it is `Collect`.
- The `free::<T>` deleter and `Box` deallocation (src/retire.rs:57-59): unsafe memory
  management. A deleter call is recorded as an entry of the `freed` list.
- The global `HAZARDS` registry and the `Default` impls: process wiring.
- `Debug` impls and `unsafe impl Send/Sync`: no behaviour.
- The `check-loom` variants and `spin_loop_hint`: a development harness. The loom
  `HazardBag::new` builds the same empty chain.
- Retire-once is not checked at run time. It appears only as a hypothesis of
  `RetireProperties.CollectFreesOnce` and `RetireProperties.RetireOnceFreesOnce`.
- Hazard.Protect: requires that the values loaded from the cell eventually repeat on two
  consecutive loads. Without that, the retry loop of `Shield::protect` never returns. A loop that spins
  forever is not modelled.
