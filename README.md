# lpg-engine entity store, in Dafny

This project models the core of lpg-engine, a small C++ game-engine
skeleton. Its heart is the paged entity store of `World.cpp`. Entities of
one type live in `EntityPage`s of 256 slots each. A slot is occupied when
its bit in a four-word occupancy bitmap is set. The `World` keeps:

- the registered entity interfaces;
- the page list;
- per-type page lists;
- per-component-type page entries;
- per-type pools of pages with room.

An entity descriptor is `page * 256 + slot`.

Around the store the project models:

- the vector helpers of `util.hpp`;
- the strided span and its iterator;
- the message-type registry;
- the system-frequency counters;
- the compile-time member-index mapping of `data.hpp` (`lpg::refl`), and the
  `Registry` that uses it to register a value's scalar leaves under dotted keys;
- the timer-divisor selection loop in `lpg_engine.cpp`;
- the integer layout of the demo's terrain and skybox meshes.

How the model is laid out:

- One module per source file: `Bits`, `EntityPages`, `Worlds`, `Vec`,
  `Strided`, `Message`, `SysCounter`, `Refl`, `Registry`, `Divisions` and
  `DemoMesh`, plus `Wrappers` (`Option`, `Result`, `Outcome`).
- A page's bitmap is four `Word`s of 64 bits, least significant bit first.
  `Slots()` flattens them to 256 slots.
- `EntityPage` and `World` are classes whose methods update their fields in
  place. The loops of the source are `while` loops with invariants.
- Each loop is proved against a specification function:
  - `FirstFrom` is the free-slot search;
  - `Runs` gives the maximal runs of occupied slots;
  - `Count` is the popcount;
  - `RunSlots` gives the slots a loop over the runs visits.
- The world has a ghost log of the calls made through type-erased function
  pointers: pre-kill message, destroy, move, swap, and the `onEntity`
  callback. Those calls are recorded, not executed.
- Exceptions and undefined behaviour become the `Err`/`Fail` cases of
  `WorldError`.
- Where the source's behaviour differs from what it evidently means, the
  model has both versions, and the rest of the model uses the corrected one
  (see Findings).

Some world-level behaviour is modelled as written, except that every
world operation tests and clears slots with the intended 64-bit masks (see
"## Left out"):

- `despawnEntity` looks up the interface by page number
  (`DespawnEntityAsWritten`).
- `getFreePage` erases a pooled page and throws for a type with no page yet
  (`GetFreePageAsWritten`).
- `relocateEntity` and `swapEntities` never touch the bitmaps.
- The component loop of `forEachEntity` passes `beg` every time round
  (`ForEachEntity` with `asWritten`).

## Model

| member | source | states |
|---|---|---|
| Bits.CountrZero | src/lpg/core/World.cpp:43 | bits below the result are clear, the bit at the result is set, and the result is 64 exactly when the word is zero |
| Bits.CountrOne | src/lpg/core/World.cpp:140 | bits below the result are set and the bit at the result is clear |
| Bits.RunLength | src/lpg/core/World.cpp:138-141 | the run of equal bits from `from` stays in range, all its bits equal `b`, and the bit after it differs |
| Bits.ShiftRight | src/lpg/core/World.cpp:139 | bit k of `w >> n` is bit k+n of `w`, or zero past the top |
| Bits.ShiftRightTwice | src/lpg/core/World.cpp:139-141 | two right shifts by m and n equal one shift by m+n |
| Bits.MaskTest | src/lpg/core/World.cpp:112 | `w & (1 << k)` is non-zero exactly when bit k is set |
| Bits.CountUpdate | src/lpg/core/World.cpp:378 | setting or clearing one bit changes the popcount by exactly the difference it makes |
| Bits.IntMaskAsWritten | src/lpg/core/World.cpp:75 | the 32-bit `1 << s` widened to 64 bits has a defined value exactly for shifts below 32 |
| Bits.IntMaskDiverges | src/lpg/core/World.cpp:75 | the 32-bit mask is the one-bit mask for shifts below 31, sets 33 bits at 31, and is undefined from 32 |
| EntityPages.FirstFrom | src/lpg/core/World.cpp:41-52 | the result is the lowest slot from `from` whose bit is `b`, and it is None exactly when no such slot exists |
| EntityPages.Runs | src/lpg/core/World.cpp:130-167 | the last run ends at or before n, and it ends at n exactly when slot n-1 is occupied |
| EntityPages.RunsOrdered | src/lpg/core/World.cpp:130-167 | the runs are non-empty, lie inside the page, ascend, and are separated by a clear slot |
| EntityPages.RunsCover | src/lpg/core/World.cpp:130-167 | a slot is occupied exactly when some run covers it |
| EntityPages.RunsMaximal | src/lpg/core/World.cpp:130-167 | every run is bounded by a clear slot or the page edge on both sides |
| EntityPages.RunSlotsOccupied | src/lpg/core/World.cpp:221-223 | the loop over the runs visits exactly the occupied slots, ascending, each once |
| EntityPages.RoomHasFreeSlot | src/lpg/core/World.cpp:351 | a page with fewer than 256 occupied slots has a free slot, so `reserveEntity().value()` is defined |
| EntityPages.FreshPageSearch | src/lpg/core/World.cpp:41-52 | on a fresh page the search as written finds nothing, while the leftmost free slot is 0 |
| EntityPages.ScanAsWrittenDropsRuns | src/lpg/core/World.cpp:153-159 | with slot 0 clear and some slot occupied, the range scan as written yields nothing although runs exist |
| EntityPages.StrideAfter | src/lpg/core/World.cpp:115-117 | stretches of `stride` bytes at ascending slots do not overlap |
| EntityPages.EntityPage.constructor | src/lpg/core/World.cpp:318-330 | a new page keeps its type, id and stride, has no parent, has an empty buffer, and has every slot clear |
| EntityPages.EntityPage.FindFreeOffset | src/lpg/core/World.cpp:41-52 | as written, the word-by-word `countr_zero` search returns the lowest OCCUPIED slot |
| EntityPages.EntityPage.FindFreeOffsetIntended | src/lpg/core/World.cpp:59-62 | the word-by-word search returns the lowest free slot, or None when the page is full |
| EntityPages.EntityPage.ReserveEntity | src/lpg/core/World.cpp:63-80 | a full page is unchanged and gives None; otherwise the lowest free slot becomes occupied and no other slot changes, the buffer grows to hold it, and the slot and its address `off*stride` are returned |
| EntityPages.EntityPage.ReleaseEntity | src/lpg/core/World.cpp:104-106 | with the intended 64-bit mask (see Findings): slot `offset` becomes free and no other slot or field changes |
| EntityPages.EntityPage.IsEntityPresent | src/lpg/core/World.cpp:108-113 | with the intended 64-bit mask (see Findings): false at or past slot 256 and for a negative offset (which the unsigned comparison sends past the page), otherwise whether the slot is occupied |
| EntityPages.EntityPage.ReleaseEntityAsWritten | src/lpg/core/World.cpp:104-106 | with the 32-bit `int` mask as written: undefined when `offset % 64 >= 32`; otherwise slot `offset` becomes free and, when `offset % 64 == 31`, so do the 32 slots after it in the same word; nothing else changes |
| EntityPages.EntityPage.IsEntityPresentAsWritten | src/lpg/core/World.cpp:108-113 | with the 32-bit mask as written: false at or past slot 256 and for a negative offset, which converts to a huge unsigned value; undefined for `offset % 64 >= 32` within the page; the slot's occupancy below 31; at 31, whether any of slots offset..offset+32 is occupied |
| EntityPages.EntityPage.Slot31Discrepancy | src/lpg/core/World.cpp:104-113 | slot 31 free and slot 40 occupied: the as-written test reports slot 31 present and the as-written release frees slot 40, unlike the intended versions |
| Bits.ClearAsWritten | src/lpg/core/World.cpp:105 | `w & ~(1 << s)` with the 32-bit mask: defined exactly below 32, clears bit s and, at 31, bits 32..63 too |
| Bits.TestAsWritten | src/lpg/core/World.cpp:112 | `w & (1 << s)` with the 32-bit mask: defined exactly below 32, true when bit s is set or, at 31, when any of bits 32..63 is |
| EntityPages.EntityPage.EntityPtr | src/lpg/core/World.cpp:115-117 | slot `offset` starts `offset * stride` bytes into the buffer; `EntitiesDisjoint` shows these stretches do not overlap |
| EntityPages.EntityPage.ComponentPtr | src/lpg/core/World.cpp:118-120 | a component lies `componentOffset` bytes past its entity's address; `ComponentInEntity` shows it stays inside the entity |
| EntityPages.EntityPage.EntitiesDisjoint | src/lpg/core/World.cpp:115-117 | entities in different slots occupy disjoint, ascending stretches of the buffer |
| EntityPages.EntityPage.ComponentInEntity | src/lpg/core/World.cpp:118-120 | a component at an offset within the stride lies inside its entity's stretch |
| EntityPages.EntityPage.NumActiveEntities | src/lpg/core/World.cpp:122-128 | the sum of the four popcounts is the number of occupied slots |
| EntityPages.EntityPage.IsEmpty | src/lpg/core/World.cpp:82-89 | true exactly when no slot is occupied |
| EntityPages.EntityPage.IsFull | src/lpg/core/World.cpp:91-98 | true exactly when all 256 slots are occupied |
| EntityPages.EntityPage.GetActiveRanges | src/lpg/core/World.cpp:130-167 | corrected scan: the result is the maximal runs of occupied slots, merged across word boundaries |
| EntityPages.EntityPage.GetActiveRangesAsWritten | src/lpg/core/World.cpp:130-167 | the scan as written equals the maximal runs when slot 0 is occupied, and is empty otherwise |
| Worlds.ToInt32 | src/lpg/core/World.cpp:357 | the signed cast lands in the int32 range and converts back to the same unsigned value |
| Worlds.ComposeEntityDescriptor | src/lpg/core/World.cpp:357 | the descriptor is a signed 32-bit value whose unsigned reading is page*256 + offset modulo 2^32; `DescriptorRoundTrip` decomposes it back |
| Worlds.DecomposeEntityDescriptor | src/lpg/core/World.cpp:199-208 | page*256 + offset equals the descriptor converted to unsigned, with offset below 256 |
| Worlds.DescriptorRoundTrip | src/lpg/core/World.cpp:357 | a descriptor built from a page below 2^24 and a slot decomposes back into them, even when the cast wraps |
| Worlds.SetInsert | src/lpg/core/World.cpp:308 | `std::set::insert` keeps the set ascending and adds exactly the key |
| Worlds.SetErase | src/lpg/core/World.cpp:353 | `std::set::erase` keeps the set ascending and removes exactly the key |
| Worlds.AddComponentPages | src/lpg/core/World.cpp:309-314 | every component table keeps its old entries as a prefix and only gains entries for the new page |
| Worlds.RecordComponentPages | src/lpg/core/World.cpp:309-314 | the loop over embedded components computes `AddComponentPages` |
| Worlds.NewPageKeepsShape | src/lpg/core/World.cpp:303-330 | createNewPage's table updates keep the world's shape, and they keep each pool equal to its type's pages with room |
| Worlds.ReserveKeepsPools | src/lpg/core/World.cpp:352-354 | occupying a slot keeps the pools exact when a page that became full leaves its pool |
| Worlds.ReleaseKeepsPools | src/lpg/core/World.cpp:377-380 | freeing a slot leaves 255 occupied exactly when the page was full, and re-inserting it then keeps the pools exact |
| Worlds.PoolFirstIsLowest | src/lpg/core/World.cpp:338-339 | a pool's first page is the lowest-numbered page of its type with a free slot |
| Worlds.PreKillEvents | src/lpg/core/World.cpp:370-374 | the pre-kill message is sent exactly when the interface has a handler for its id |
| Worlds.LoopSlotsCorrected | src/lpg/core/World.cpp:406-413 | the corrected component loop visits the same slots as the destructor's loop |
| Worlds.LoopSlotsAsWritten | src/lpg/core/World.cpp:408-409 | the component loop as written makes one call per occupied slot, and every call is on the first slot of a run |
| Worlds.ComponentLoopSkipsSlot | src/lpg/core/World.cpp:408-409 | a slot whose predecessor is occupied is visited by the corrected loop and never by the loop as written |
| Worlds.World.constructor | src/lpg/core/World.cpp:210-212 | a new world is valid and has no types, no pages, no tables, no log, and is not finalised |
| Worlds.World.RegisterEntityType | src/lpg/core/World.cpp:230-240 | a known name is rejected and nothing changes; otherwise the interface is appended and its index becomes the type id in the name map |
| Worlds.World.SaveEntityInterface | src/lpg/core/World.cpp:432-444 | after finalisation it fails and nothing changes; otherwise the interface vector grows with default interfaces and holds the interface at the id |
| Worlds.World.RegisterMessageType | src/lpg/core/World.cpp:418-425 | fails exactly when init was finalised, and records nothing |
| Worlds.World.FinalizeInit | src/lpg/core/World.cpp:387-391 | sets the flag and changes nothing else |
| Worlds.World.CreateNewPage | src/lpg/core/World.cpp:295-331 | succeeds exactly when the type exists and its components fit; then the page is appended, empty and of the type's stride, and joins its type's list, its pool and its component tables; an unknown type throws |
| Worlds.World.GetFreePage | src/lpg/core/World.cpp:333-345 | corrected: returns the lowest-numbered page of the type with room and changes nothing; with no such page it creates one |
| Worlds.World.GetFreePageAsWritten | src/lpg/core/World.cpp:333-345 | as written: an unknown pool throws; a pooled page is returned and erased from its pool although it still has room, which breaks the pool invariant |
| Worlds.World.ReserveEntity | src/lpg/core/World.cpp:347-359 | the entity takes the lowest free slot of the lowest page with room, or slot 0 of a new page; the page leaves its pool exactly when full; the descriptor and address match the slot |
| Worlds.World.KillAt | src/lpg/core/World.cpp:367-381 | the pre-kill message (when handled) and the destroy call are logged, the slot is freed, and a page that was full rejoins its pool |
| Worlds.World.DespawnEntity | src/lpg/core/World.cpp:361-384 | corrected (calls through the page type's interface): a missing page throws; an empty slot gives false with no change; otherwise the entity is killed and the result is true |
| Worlds.World.DespawnEntityAsWritten | src/lpg/core/World.cpp:361-384 | as written except for the page-level masks: it throws when the page number is not a type id, and otherwise calls through the interface indexed by the page number |
| Worlds.World.RelocateEntity | src/lpg/core/World.cpp:248-270 | missing pages, different types and an occupied target each fail with the matching error; otherwise move and destroy are logged; the bitmaps never change (the occupied test uses the 64-bit mask) |
| Worlds.World.SwapEntities | src/lpg/core/World.cpp:272-293 | missing pages, different types and an empty slot each fail with the matching error; otherwise one swap is logged; the bitmaps never change (the presence tests use the 64-bit mask) |
| Worlds.World.ForEachEntity | src/lpg/core/World.cpp:393-416 | an unknown type throws; otherwise it logs one callback per run of each page of the type, then one per pass of the component loop for each component entry |
| Worlds.World.DestroyAll | src/lpg/core/World.cpp:214-227 | each occupied slot of every page is destroyed once through its page type's interface, page by page, ascending |
| Vec.TryGet | src/lpg/core/util.hpp:17-23 | None exactly when the index is past the end; otherwise the element |
| Vec.ResizedFor | src/lpg/core/util.hpp:25-30 | the vector grows to index+1 only when too short, keeping its elements and filling the rest with the default |
| Vec.InsertedAt | src/lpg/core/util.hpp:32-36 | the vector holds the value at the index, keeps every other element, and is default-filled in between |
| Vec.Vector.ResizeFor | src/lpg/core/util.hpp:25-30 | the elements become `ResizedFor` of the old ones and are unchanged when the index is in range |
| Vec.Vector.InsertAt | src/lpg/core/util.hpp:32-36 | the elements become `InsertedAt` of the old ones |
| Vec.TryGetAfterInsert | src/lpg/core/util.hpp:32-36 | after `InsertAt`, `TryGet` at the index yields the value, and other present elements are unchanged |
| Strided.TypeErasedStridedSpan.NthElement | src/lpg/util/strided_span.hpp:27-29 | element 0 is at `data`, and with a positive stride element n is at least n bytes past it |
| Strided.NthElementSpacing | src/lpg/util/strided_span.hpp:27-29 | consecutive elements are exactly one stride apart |
| Strided.NthElementStrictlyIncreasing | src/lpg/util/strided_span.hpp:27-29 | with a positive stride, earlier elements lie at least one stride before later ones |
| Strided.StridedSpan.constructor | src/lpg/util/strided_span.hpp:49-51 | the span wraps the given data, count and stride |
| Strided.TypeErasedStridedSpan.NumElements | src/lpg/util/strided_span.hpp:31-33 | `numElements()` is the element count given at construction |
| Strided.StridedSpan.Size | src/lpg/util/strided_span.hpp:90-92 | `size()` is the count of the underlying type-erased span |
| Strided.StridedSpan.At | src/lpg/util/strided_span.hpp:57-59 | `operator[](i)` is the address i strides past `data` |
| Strided.StridedSpan.End | src/lpg/util/strided_span.hpp:87-89 | `end()` is a new iterator over this span at index `size()` |
| Strided.InterpretAs | src/lpg/util/strided_span.hpp:98-101 | the typed view wraps the same span and has the same size |
| Strided.Iterator.Deref | src/lpg/util/strided_span.hpp:72-74 | dereferencing gives the span's element at the index |
| Strided.Iterator.PostIncrement | src/lpg/util/strided_span.hpp:76 | both increments bump the index in place (mod 2^64) and return the same iterator |
| Strided.Iterator.AddAssign | src/lpg/util/strided_span.hpp:77 | `+= n` moves the index by n modulo 2^64 and returns the same iterator |
| Strided.Iterator.Minus | src/lpg/util/strided_span.hpp:80 | `- n` is a new iterator on the same span, n back modulo 2^64 |
| Strided.Compare | src/lpg/util/strided_span.hpp:81 | the defaulted `<=>` is equal exactly on equal fields and orders by span, then by index |
| Strided.CompareTransitive | src/lpg/util/strided_span.hpp:81 | the iterator order is transitive |
| Strided.AddSubRoundTrip | src/lpg/util/strided_span.hpp:77-80 | adding then subtracting n restores the index, even across wrap-around |
| Strided.StridedSpan.FromTypeErased | src/lpg/util/strided_span.hpp:53-55 | the typed span keeps the type-erased span's data, count and stride |
| Strided.StridedSpan.Begin | src/lpg/util/strided_span.hpp:84-86 | a new iterator over this span at index 0 |
| Strided.Iterator.PreIncrement | src/lpg/util/strided_span.hpp:75 | prefix `++` bumps the index in place (mod 2^64) and returns the same iterator |
| Strided.Iterator.SubAssign | src/lpg/util/strided_span.hpp:78 | `-= n` moves the index back by n modulo 2^64 and returns the same iterator |
| Strided.Iterator.Plus | src/lpg/util/strided_span.hpp:79 | `+ n` is a new iterator on the same span, n ahead modulo 2^64, and leaves this one alone |
| Strided.CompareAntisymmetric | src/lpg/util/strided_span.hpp:81 | swapping the operands turns Less into Greater and keeps Equal |
| Strided.AdvanceFromBegin | src/lpg/util/strided_span.hpp:72-86 | `begin()` followed by k prefix increments, for k up to the size, dereferences to the k-th element and is the end position exactly when k is the size |
| Strided.JumpFromBegin | src/lpg/util/strided_span.hpp:72-86 | `begin() += k`, for k up to the size and within `int`, dereferences to the k-th element |
| Message.MessageRegistry.GetMessageTypeId | src/lpg/core/message.hpp:22-29 | -1 for an unregistered name, otherwise the stored id |
| Message.MessageRegistry.RegisterMessageType | src/lpg/core/message.hpp:31-38 | a registered name throws and nothing changes; otherwise the name is added and other entries are kept |
| SysCounter.SysFreqToDivision | src/lpg/core/SysCounter.hpp:36-39 | the divisor read from the enumerator's name lies in [0, 9999] and ends in the name's seventh character; `DivisionsPositive` shows it is never zero |
| SysCounter.ParseDivisionDigits | src/lpg/core/SysCounter.hpp:36-39 | four digits at positions 3..6 give a value in [0, 9999] with the right leading and trailing digits |
| SysCounter.DivisionExamples | src/lpg/core/SysCounter.hpp:41-42 | the two static_asserts hold: 29 and 8201 |
| SysCounter.DivisionsPositive | src/lpg/core/SysCounter.hpp:14-39 | every enumerator's divisor is at least 1, and `Div0001` has divisor 1 |
| SysCounter.ResidueIsMod | src/lpg/core/SysCounter.hpp:55 | stepping `(c + 1) % d` from zero t times gives t mod d |
| SysCounter.SystemCounters.AdvanceCounters | src/lpg/core/SysCounter.hpp:53-57 | every counter steps to `(c + 1) % div`, and the counters stay tied to the number of calls |
| SysCounter.CountersAreTicksMod | src/lpg/core/SysCounter.hpp:52-57 | counter i is the number of calls mod its divisor, lies below the divisor, and is 0 for 360 Hz |
| Refl.IsAttr | src/lpg/core/data.hpp:135-138 | false where real member N does not exist, otherwise whether member N is an attribute list |
| Refl.NumAttributesUntil | src/lpg/core/data.hpp:143-150 | the `bool` count as written is true exactly when some member up to N is an attribute list |
| Refl.IdxRealToReduced | src/lpg/core/data.hpp:157-160 | the reduced index is N or N-1, and N exactly when no member up to N is an attribute list |
| Refl.SaturatedCountIsNonZero | src/lpg/core/data.hpp:143-150 | the saturated count agrees with the true count only on whether it is zero |
| Refl.NumNonAttrMembers | src/lpg/core/data.hpp:152-155 | the member count minus the saturated attribute count |
| Refl.IdxReducedToRealImpl | src/lpg/core/data.hpp:163-171 | the scan returns the largest real index at or below X whose reduced index is N, or None |
| Refl.ReducedToRealOfDecl | src/lpg/core/data.hpp:173-177 | for a data member, mapping real to reduced and back is defined and lands on it or a later index |
| Refl.IdxReducedToReal | src/lpg/core/data.hpp:173-177 | no instantiation for a negative index (the `size_t` comparison rejects it); otherwise the largest real index whose reduced index is N, or None when there is none |
| Refl.HasAttributes | src/lpg/core/data.hpp:219-227 | no instantiation when the index mapping has none (including every negative index); otherwise false at real index 0, else whether the member before is an attribute list |
| Refl.NegativeIndexRejected | src/lpg/core/data.hpp:173-177 | a leading marker reduces to -1, yet reduced index -1 instantiates neither `idx_reduced_to_real` nor `has_attributes` |
| Refl.ForEachDecl | src/lpg/core/data.hpp:247-255 | one call per data member, in order, each passing that member's reduced index |
| Refl.DeclMembersAscending | src/lpg/core/data.hpp:247-255 | the visited real indices ascend strictly |
| Refl.DeclMembersOnce | src/lpg/core/data.hpp:247-255 | every data member is visited, and none twice |
| Refl.IntendedReducedToReal | src/lpg/core/data.hpp:173-177 | corrected: the n-th data member, which is not an attribute list, or None past the last |
| Refl.IntendedRoundTrip | src/lpg/core/data.hpp:157-177 | with a true count, real-to-reduced-to-real returns the member itself |
| Refl.SaturationExample | src/lpg/core/data.hpp:143-150 | for `{ATTR, a, ATTR, b}`, b gets reduced index 2 as written, where the intended index is 1 |
| Refl.ReducedToRealHitsMarker | src/lpg/core/data.hpp:163-177 | for `{a, ATTR, b}`, reduced index 0 maps to the marker (1) as written, where the intended index is 0 |
| Registry.SubKey | src/lpg/core/Registry.hpp:30 | the subkey begins with `key.` |
| Registry.CalledMember | src/lpg/core/Registry.hpp:29-31 | the member reached lies in the aggregate; when corrected, it is the j-th data member |
| Registry.Registry.RegisterValue | src/lpg/core/Registry.hpp:20-34 | the storage becomes `Register` of the old storage, for both overloads |
| Registry.RegisterFrame | src/lpg/core/Registry.hpp:20-34 | registering writes only the key of a scalar, or keys under `key.` for an aggregate |
| Registry.AggregateKeyUntouched | src/lpg/core/Registry.hpp:26-34 | an aggregate never stores anything under its own key |
| Registry.MarkerRegistersNothing | src/lpg/core/Registry.hpp:26-34 | an attribute-list marker, an empty aggregate, adds nothing |
| Registry.ScalarStoredAtKey | src/lpg/core/Registry.hpp:20-24 | a scalar is stored under its key with its address, and no other key changes |
| Registry.NoAttrsVisitsOwnMember | src/lpg/core/Registry.hpp:29-31 | without attribute lists, call j reaches member j |
| Registry.FirstMemberDropped | src/lpg/core/Registry.hpp:29-33 | as written, `{a, ATTR, b}` registers only `k.b` |
| Registry.IntendedReachesEveryMember | src/lpg/core/Registry.hpp:29-33 | corrected, every data member is reached by exactly one call |
| Registry.BothMembersRegistered | src/lpg/core/Registry.hpp:29-33 | corrected, `{a, ATTR, b}` registers `k.a` and `k.b` |
| Registry.RegisterFromKeeps | src/lpg/core/Registry.hpp:29-33 | corrected, calls that all leave a key untouched keep its entry |
| Registry.RegisterFromReaches | src/lpg/core/Registry.hpp:29-33 | corrected, the call that registers a scalar member stores its address under `key.name`, and no later call touching other keys undoes it |
| Registry.SubKeyInjective | src/lpg/core/Registry.hpp:30 | distinct member names give distinct subkeys |
| Registry.NotUnderSibling | src/lpg/core/Registry.hpp:30 | a member name without a dot never puts its subkey under another member's `key.name.` |
| Registry.ScalarMemberStored | src/lpg/core/Registry.hpp:26-34 | corrected, for every aggregate whose data members have distinct dot-free names, each scalar data member ends up with its address under `key.name` |
| Divisions.NoneDividesFromMeans | src/lpg_engine.cpp:19-26 | the early-exit scan means that no chosen divisor divides n |
| Divisions.CoprimeWithAll | src/lpg_engine.cpp:19-26 | true exactly when no chosen divisor divides n |
| Divisions.FirstAcceptedIsFirst | src/lpg_engine.cpp:28-33 | the accepted candidate is divided by no chosen divisor, and every earlier candidate is; None exactly when all are |
| Divisions.FirstCandidate | src/lpg_engine.cpp:28-33 | the inner loop returns the first accepted candidate in [i, 2i) |
| Divisions.SelectDivisions | src/lpg_engine.cpp:27-39 | the outer loop computes `Selection` from the start value |
| Divisions.SelectionNoEarlierDivides | src/lpg_engine.cpp:27-39 | no selected divisor is divisible by one selected before it |
| Divisions.SelectionAtLeastStart | src/lpg_engine.cpp:27-39 | every selected divisor is at least the start value |
| Divisions.SelectionFromTwo | src/lpg_engine.cpp:18-39 | from i = 2 the loop selects exactly 2, 3, 5, …, 4099, 8201 (twenty divisors) |
| DemoMesh.CreateTerrain | demo/src/main.cpp:175-194 | the grid's vertices are produced row by row, with six indices for every cell except in the last row and column |
| DemoMesh.GridVertexAt | demo/src/main.cpp:179-184 | vertex y*sx + x is grid point (x, y): row-major order |
| DemoMesh.GridVerticesCount | demo/src/main.cpp:179-184 | there are sx*sy vertices |
| DemoMesh.GridIndicesCount | demo/src/main.cpp:185-188 | there are 6*(sx-1)*(sy-1) indices |
| DemoMesh.GridCellAt | demo/src/main.cpp:185-188 | cell (x, y) owns the six indices at 6*(y*(sx-1)+x): base + {0, 1, sx, 1, sx+1, sx} |
| DemoMesh.GridIndicesInGrid | demo/src/main.cpp:185-188 | every terrain index names a vertex of the grid |
| DemoMesh.CreateSkyboxMesh | demo/src/main.cpp:119-158 | the mesh is the ten wall vertices then the eight floor/ceiling vertices, with the wall indices then the shifted floor/ceiling indices |
| DemoMesh.SkyboxIndices | demo/src/main.cpp:154-155 | the floor/ceiling indices are shifted past the wall vertices |
| DemoMesh.SkyboxVertexAt | demo/src/main.cpp:146-153 | mesh vertex k sits on its cube corner, and the wall vertices come first |
| DemoMesh.SkyboxIndicesInRange | demo/src/main.cpp:137-155 | wall triangles use vertices 0..9, floor and ceiling triangles use vertices 10..17 |
| DemoMesh.WallRings | demo/src/main.cpp:121-127 | wall vertex i+5 is straight above vertex i, and each ring's fifth vertex returns to its first corner |

## Left out

- Raw storage is not modelled. Pointers are byte offsets (`Addr`, `nat`), the page buffer is its length (`storageSize`), and placement construction is left out.
- Type-erased calls through interface function pointers (`move`, `swap`, `destroy`, `sendMessage`, `onEntity`) are recorded in a ghost log, not executed.
- The id-to-descriptor and version arrays (`arrIdToDescriptor_`, `arrDescriptorToId_`, `arrIdToVersion_`, `getCurVersionNumOf`) and `hmEntNameToId_` are not modelled: no core operation updates them.
- `managedComponentPageOffsets`, `currentSize` and `numOccupied` of a page are never read and are not modelled.
- `detail::GetMessageTypeId<PreKillMessage>()` is a parameter (`preKillId`) of the despawn methods.
- World.hpp, entity.hpp, entity_codegen.hpp, data.cpp, core.hpp, Registry.cpp (`dump`), SystemManager.hpp and the entity and system headers are not part of this model. The one exception is SystemManager.hpp's divisor list, which `Divisions.SelectionFromTwo` restates.
- The reflection library is replaced by tables:
  - a struct's members are a sequence of flags, true for an attribute-list marker;
  - member names are strings;
  - enumerator names are `SysCounter.SysFreqNames`.
- `member_attr_list`, `member_attr`, `has_member_attr`, `type_name` and `enum_name` return compile-time types or tuples and are not modelled.
- `printf` in `lpg_engine.cpp` is output only and is left out. The main window, camera, Perlin noise, heights, colours, `scaleUV` and rendering in `demo/src/main.cpp` are floating point or I/O and are left out. Mesh vertices are their integer grid point, or cube corner and texture cell.
- Whether every skybox triangle lies on one face of the cube is not stated: that proof over the 36 indices was too costly.
- Worlds.World.RegisterEntityType: modelled as its body means it. Line 231 declares `auto& data` initialised from `std::any_cast` of that same `data`, which is ill-formed (a variable declared with `auto` cannot appear in its own initializer), so the function as written does not compile; the model uses the world's data.
- Worlds.World.CreateNewPage: returns the new page's id. The source's body ends without a `return`, which is undefined behaviour.
- Worlds.World.CreateNewPage: an embedded component naming a component table that `ResizeFor` did not create is undefined behaviour. The model reports it as `UndefinedBehaviour` before changing anything.
- Worlds.World.SaveEntityInterface: requires a non-negative type id. With id -1 the comparison `size() < 0` is false, so nothing is resized and `[-1]` indexes before the vector, which is undefined; with id -2 or below, `entTypeId + 1` converts to a huge `size_t` and `resize` throws `length_error`. Neither path is modelled.
- Worlds.World.KillAt: frees the slot with the intended 64-bit `ReleaseEntity`, where World.cpp:377 uses the 32-bit `int` mask, which at bit 31 also frees the 32 slots after it and from bit 32 is undefined (`ReleaseEntityAsWritten`).
- Worlds.World.DespawnEntityAsWritten: as written only in the interface index; the presence test (World.cpp:367) and the release (:377) are the intended 64-bit ones, so with slot 31 free and slot 40 occupied despawning slot 31 returns false, where the source destroys a non-existent entity, frees slots 31..63 and returns true.
- Worlds.World.RelocateEntity: the occupied-target test (World.cpp:259) is the intended 64-bit one, so with slot 31 free and slot 40 occupied a move onto slot 31 succeeds, where the source throws.
- Worlds.World.SwapEntities: the presence tests (World.cpp:283) are the intended 64-bit ones, so with slot 31 free and slot 40 occupied a swap with slot 31 fails as a swap with an empty slot, where the source swaps with it.
- Worlds.World.ReserveEntity: composes the corrected page operations, with the intended free-slot search and 64-bit masks. It also uses the corrected `GetFreePage`, which keeps the page in its pool. The as-written versions are modelled separately (see Findings) but are not composed into a whole-world run.
- Worlds.World.ForEachEntity and Worlds.World.DestroyAll: use the corrected `GetActiveRanges`. The as-written scan is modelled on its own by `EntityPages.EntityPage.GetActiveRangesAsWritten`.
- EntityPages.EntityPage.ReleaseEntity: requires an offset inside the page. Out of range indexes past the bitmap, which is undefined.
- Message.MessageRegistry.RegisterMessageType: the id stored for a new name is left unconstrained. Line 37 inserts the bare name, which names no id, and `idCounter` is never read.
- Strided.TypeErasedStridedSpan.NthElement: addresses are unbounded naturals. The wrap-around of `n * stride` in `size_t` is not modelled; iterator indices do wrap.
- DemoMesh.CreateTerrain: heights and texture coordinates are left out.

## Findings

| source | as written | input that shows it | evidently intended | confidence | as-written member | corrected member |
|---|---|---|---|---|---|---|
| src/lpg/core/World.cpp:41-52 | `findFreeOffset` uses `countr_zero`, which finds the lowest OCCUPIED slot | a fresh page (all words 0): no offset, so `reserveEntity().value()` throws on every new page | the lowest free slot (`countr_one`), as the comment at :59-62 says | high, not executed | EntityPages.FreshPageSearch | EntityPages.EntityPage.FindFreeOffsetIntended |
| src/lpg/core/World.cpp:75 | `1 << (off % 64)` is a 32-bit `int` shift widened to 64 bits | off = 31 sets bits 31..63 (33 bits); off % 64 >= 32 is undefined | a 64-bit one-bit mask `uint64_t{1} << (off % 64)` | high, not executed | Bits.IntMaskDiverges | EntityPages.EntityPage.ReserveEntity |
| src/lpg/core/World.cpp:105 | `occupancy[offset / 64] &= ~(1 << (offset % 64))` uses the 32-bit `int` mask | offset 31 with slot 40 occupied: slot 40 is freed too; offset 32..63 (mod 64) is undefined | clear exactly one bit with a 64-bit mask | high, not executed | EntityPages.EntityPage.ReleaseEntityAsWritten | EntityPages.EntityPage.ReleaseEntity |
| src/lpg/core/World.cpp:112 | `occupancy[offset / 64] & (1 << (offset % 64))` uses the 32-bit `int` mask | slot 31 free and slot 40 occupied: `isEntityPresent(31)` is true | test exactly one bit with a 64-bit mask | high, not executed | EntityPages.EntityPage.Slot31Discrepancy | EntityPages.EntityPage.IsEntityPresent |
| src/lpg/core/World.cpp:153-159 | the `else if (curBegin != curEnd)` never opens a range while the open range is empty | slot 0 clear, slot 5 occupied: `getActiveRanges()` returns nothing | a block that does not extend the open range always replaces it (emitting it if non-empty) | high, not executed | EntityPages.ScanAsWrittenDropsRuns | EntityPages.EntityPage.GetActiveRanges |
| src/lpg/core/World.cpp:336-341 | `getFreePage` erases the page it returns from the pool, and `.at` throws for a type with no pages | every reservation throws: the pool of a type only grows in `createNewPage` (:304), which is reached only from `getFreePage` after `.at` has already thrown (:336), so the vector of pools never reaches the type's index; were a page pooled, one with 255 free slots would leave the pool after one reservation | the page stays pooled until full (`reserveEntity` erases it then, :352-354) and an empty pool creates a page | high, not executed | Worlds.World.GetFreePageAsWritten | Worlds.World.GetFreePage |
| src/lpg/core/World.cpp:366 | `entityInterfaces_.at(pageNum)` indexes interfaces by page number | two types, pages 0 (type 0) and 1 (type 0): despawning on page 1 destroys through type 1's interface | the interface of the page's type, `page.entityTypeId` | high, not executed | Worlds.World.DespawnEntityAsWritten | Worlds.World.DespawnEntity |
| src/lpg/core/World.cpp:408-409 | the component loop passes `beg` to `componentPtr` each time round | slots 0 and 1 occupied: slot 0's component is visited twice, slot 1's never | `componentPtr(i, …)` | high, not executed | Worlds.ComponentLoopSkipsSlot | Worlds.LoopSlotsCorrected |
| src/lpg/core/data.hpp:143-150 | `num_attributes_until` returns `bool`, so the count saturates at 1 | `{ATTR, a, ATTR, b}`: b's reduced index is 2 | an `int` count (reduced index 1) | high, not executed | Refl.SaturationExample | Refl.IntendedRoundTrip |
| src/lpg/core/data.hpp:163-171 | `idx_reduced_to_real_impl` scans down from the last member and returns the first match, the LARGEST real index | `{a, ATTR, b}` (the shape of `BaseGameObject`): reduced 0 maps to the marker, so `Registry` never registers `a` | the data member itself, which is the only match once markers are skipped | high, not executed | Registry.FirstMemberDropped | Registry.BothMembersRegistered |
