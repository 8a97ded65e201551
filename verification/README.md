# Boot loader policy, modelled and verified in Dafny

The project models the policy layer of a UEFI boot loader and proves what that layer promises. Three parts
are connected:

* **Page tables.** A mapping plan (a sorted list of virtual-to-physical ranges with a write-xor-execute alias
  policy) is compiled into construction records for a four-level hierarchy, written into frames, and read back
  by an independent verifier. The target semantics are 4-level paging as in the Intel SDM Volume 3A, section 4.5
  (`Paging.WalkFrom`): present bits, large pages, accumulated write, user and execute rights, cache bits.
  The central theorem is that the hardware walk and `translate` agree on every canonical address.
* **The physical memory map.** Firmware descriptors are sorted and merged in place, reservations are cut out of
  the result, page-table frames are coalesced into reservations, and the kernel checks coverage. Everything is
  stated through one function, the kind and attributes at an address (`MemoryMap.At`).
* **Loading and ownership.** ELF64 images are validated, planned into a physical window, copied and checked in
  one shared byte memory, and mapped into the higher half. Owners roll back under any pattern of backend
  failures, and a state machine follows all owners to the point where firmware is left.

`KernelView.KernelBytes` joins the first and third parts: through the page tables the processor finds, at every
address of every segment, exactly the bytes of the file, with the rights of the segment.

Conventions. Const-generic capacities are parameters. Machine words are integers with explicit bounds; an
addition the source leaves unchecked is assigned to a bounded type, so that its absence of overflow is proved.
`address | flags` is a sum because the fields are disjoint (`Paging.DecodeWord`). Backends and table memory are
classes whose calls may fail at will; a `ghost` log records what is live and what was freed, and freeing what is
not live is ruled out by a precondition that every call site is proved to meet. Fixed arrays with a length field
are arrays where the source works in place on them (memory map, reservation list, mapping plan, frame owner) and
bounded sequences in the page-table planner.

Where code and expectation differ, the code is followed:

* `ExitState.HandedWholeExactly`: a kernel image or boot data that has lost some but not all of its allocations is
  not refused; the checks see complete release only (`ExitState.KernelCheckExact`, `ExitState.BootCheckExact`), and
  `ExitState.PartHandedOver` carries every such loss through to the handover. The exact condition on whole runs: all
  of it is handed over if and only if no release freed a piece of it before its owner moved into the state machine.
  The stack is a single allocation and cannot be lost this way (`ExitState.StackHandedWhole`). The hierarchy check
  compares counts, and `ExitState.LostNeverReady` shows it catches every loss.
* `Extensions.JoinAccepted`: two accepted areas whose joined size reaches 2^32 are refused whatever is declared.
* `LoadTargets.PrefixUnchecked`: `verify_target` never looks at bytes before the copy offset. Planned items have
  copy offset zero (`LoadPlan.MakeItemExact`), for which the check is exact.
* `PageTableVerifier.AcceptedAndLinked`: the per-word check alone lets a zero word stand in for a child pointer.

`dafny verify dfyconfig.toml` checks the whole project.

## Model

| member | source | states |
|---|---|---|
| `AddressTranslation.WalkIsTranslate` | crates/bootloader/src/page_tables.rs:207-239 | for every canonical address, the processor's four-level walk of the materialised frames equals `translate` of the mapping plan: same mapped/unmapped answer, same physical address, effective write, execute, user and cache bits those of the mapping |
| `AddressTranslation.NoWritableExecutableAlias` | crates/memory-layout/src/lib.rs:589-629 | the write-xor-execute rule at processor level: no physical page is writable through one canonical address and executable through any other, all its aliases agree on writability, and no translation is a user one |
| `AddressTranslation.RemovalsClearLowerHalf` | crates/memory-layout/src/page_table.rs:550-623 | clearing exactly the root words the plan lists as removals removes every lower-half translation and changes no upper-half one |
| `AddressTranslation.PlannedIsPage` | crates/memory-layout/src/page_table.rs:464-509 | the 4 KiB page compiled for an address carries exactly the physical address, permissions and cache policy the plan gives it, and is missing exactly when the plan maps nothing there |
| `Paging.WalkFromRoot` | crates/bootloader/src/page_tables.rs:419-428 | with the root word and the tables below it as planned, a walk from the root yields the leaf of the page, permissions narrowed by the intermediate entries as the hardware does |
| `Paging.DecodeWord` | crates/memory-layout/src/page_table.rs:294-305 | address and flag fields of an encoded entry are disjoint: the hardware reads back the address and every flag bit separately |
| `Paging.DecodeLeafBits` | crates/memory-layout/src/page_table.rs:140-162 | each hardware bit of a leaf (present, write, no-execute, cache, global) says what the permissions and cache policy say, and no other bit is set |
| `PageTables.Materialize` | crates/bootloader/src/page_tables.rs:207-239 | on success all 512 words of every frame are the planned encoding or zero where nothing is planned; words of no other frame change; only a failing write can stop it |
| `PageTables.WriteTable` | crates/bootloader/src/page_tables.rs:216-236 | one frame: its 512 words become the planned ones and every other frame is untouched |
| `PageTableVerifier.VerifyMaterialized` | crates/bootloader/src/page_tables.rs:430-582 | failing reads aside, accepts exactly the memories in which every one of the 512 words of every owned frame is the planned one, the frame count matches and the root is the first frame |
| `PageTableVerifier.AcceptedAndLinked` | crates/bootloader/src/page_tables.rs:449-558 | the exact strength of the check: a zero word passes in place of a child pointer, but since every child has one parent entry, all words accepted plus all tables reached is equivalent to all words planned |
| `PageTableVerifier.VerifyEntry` | crates/bootloader/src/page_tables.rs:452-550 | one word is accepted exactly when it is the planned one or zero where a child table is planned, and exactly the child a non-zero word points at is marked as reached |
| `PageTableVerifier.VerifyTables` | crates/bootloader/src/page_tables.rs:447-551 | after the first pass the marked tables are exactly those whose parent word is set |
| `PageTableVerifier.VerifyReachable` | crates/bootloader/src/page_tables.rs:552-558 | the second pass succeeds exactly when every table's parent word is set |
| `PageTableVerifier.VerifyRemovals` | crates/bootloader/src/page_tables.rs:559-581 | on planned words the removal check cannot report a mismatch |
| `PageTableVerifier.CheckChild` | crates/bootloader/src/page_tables.rs:482-540 | a child pointer passes exactly when the first owned frame at its address is the planned child |
| `PageTableVerifier.ChildMismatch` | crates/bootloader/src/page_tables.rs:503-526 | a wrong child is a cycle exactly when it is the table itself or one of its ancestors, otherwise a wrong level, otherwise a wrong child |
| `PageTableVerifier.IsAncestor` | crates/bootloader/src/page_tables.rs:630-638 | the upward walk terminates and finds the candidate exactly when it is an ancestor |
| `PageTableVerifier.PlannedWordPasses` | crates/bootloader/src/page_tables.rs:592-619 | every planned word passes the bit checks and resolves to its own child |
| `PageTableBuilder.ConstructionPlan.Build` | crates/memory-layout/src/page_table.rs:425-440 | succeeds exactly when the mode check passes, no mapped frame is the null frame and the records fit the three capacities; the result is a valid tree with exactly the tables its pages need, holding exactly the plan's pages; each failure names its cause: a layout error for a failed mode check, the null-frame error for a null frame, a table, entry or removal capacity error only when the plan needs more of exactly that record than there is room for, and nothing else |
| `PageTableBuilder.CountsWhenMinimal` | crates/memory-layout/src/page_table.rs:625-638 | the size of a built plan: one root plus one table per distinct upper, middle and lower path, one entry per table but the root plus one per page, one removal per lower-half root path |
| `PageTablePlan.NodesCounted` | crates/memory-layout/src/page_table.rs:516-548 | the tables any hierarchy for the pages needs are one root and one table for each distinct PML4, PDPT and PD path |
| `PageTablePlan.LeafForExact` | crates/memory-layout/src/page_table.rs:672-684 | `leaf_entry` answers for exactly the mapped pages, with the page's frame and flags |
| `PageTablePlan.AddressIndexIsPrefix` | crates/memory-layout/src/page_table.rs:776-783 | the four shifted and masked indices of an address are the nine-bit digits of its page number |
| `PageTablePlan.AddChild` | crates/memory-layout/src/page_table.rs:562-589 | a new table under a free entry keeps the tree: slot equals index, parent before child, level drops by one, keys unique |
| `PageTablePlan.AddLeaf` | crates/memory-layout/src/page_table.rs:534-548 | a new leaf for an unmapped page keeps the tree, and leaves sit only in page tables |
| `PageTablePlan.TableCountBounded` | crates/memory-layout/src/page_table.rs:73-77 | a tree never has as many tables as a 32-bit slot can name, so slot numbers never overflow and never meet the no-parent sentinel |
| `PageTableBuilder.ConstructionPlan.EnsureChild` | crates/memory-layout/src/page_table.rs:550-590 | finds or records the child on the path; the only errors are the capacity errors, each reported only when the whole plan needs more of that record than fits, never a remap |
| `PageTableBuilder.ConstructionPlan.InsertPage` | crates/memory-layout/src/page_table.rs:516-548 | adds exactly one page to the tree and only the tables on its path; the only errors are the capacity errors, each reported only when the whole plan needs more of that record than fits, never duplicate or remap |
| `PageTableBuilder.ConstructionPlan.AddMapping` | crates/memory-layout/src/page_table.rs:464-509 | adds exactly the pages of a mapping in order; a guard adds none |
| `PageTableBuilder.ConstructionPlan.ValidateStructure` | crates/memory-layout/src/page_table.rs:625-638 | the closing check never fails on a built tree |
| `PageTableBuilder.TransitionLowRoots` | crates/memory-layout/src/lib.rs:519-558 | a valid transitional plan has exactly one lower-half root path, index 0 |
| `PageTableBuilder.FinalLowRoots` | crates/memory-layout/src/lib.rs:560-587 | a valid final plan has none |
| `MappingPages.PagesFaithful` | crates/memory-layout/src/page_table.rs:464-509 | expanding mappings into pages keeps the meaning: for every canonical address the page list and the plan agree |
| `MappingPages.AllPagesDistinct` | crates/memory-layout/src/page_table.rs:516-548 | no page number occurs twice, so duplicate and remap errors are unreachable |
| `TransitionTables.ForTransition` | crates/bootloader/src/page_tables.rs:158-188 | succeeds exactly for aligned, non-zero, non-overlapping addresses below 4 GiB: the capacities of 8 tables, 32 entries and 1 removal always suffice; a failure is a layout error of addresses that cannot be placed or the null-frame error of a zero address |
| `TransitionTables.EightTablesSuffice` | crates/bootloader/src/page_tables.rs:14-16 | wherever the trampoline page and the sixteen stack pages lie below 4 GiB, eight tables are enough |
| `TransitionTables.EightTablesNeeded` | crates/bootloader/src/page_tables.rs:14-16 | the bound is tight: a stack across a GiB boundary and a page in a third GiB need all eight |
| `TransitionPipeline.Install` | crates/bootloader/src/page_tables.rs:157-252 | plan, allocate, materialise, verify: on success the processor sees the trampoline page executable, the stack writable, both at their own address, and nothing else; on failure every frame is freed if no free fails; verification can fail only on a failing read |
| `TransitionPipeline.InstalledWalk` | crates/bootloader/src/page_tables.rs:158-188 | the walk of a verified transition hierarchy, written out for every canonical address |
| `MappingPlan.Plan.InsertEntry` | crates/memory-layout/src/lib.rs:589-629 | keeps the plan sorted, disjoint and free of write/execute or writability conflicts; accepts exactly compatible entries while there is room; a refused entry changes nothing and reports the first conflict in order |
| `MappingPlan.Plan.InsertMapping` | crates/memory-layout/src/lib.rs:464-483 | as above for a mapping, which must also satisfy the region policy; a length mismatch is reported before a policy error, a policy error before the first conflict, and a full plan last |
| `MappingPlan.Plan.InsertGuard` | crates/memory-layout/src/lib.rs:485-496 | as above for a guard, which must lie in the kernel-local region; a guard outside it is reported before the first conflict, and a full plan last |
| `MappingPlan.InsertAllIsSort` | crates/memory-layout/src/lib.rs:589-629 | a sequence of inserts succeeds exactly when the set is acceptable as a whole, and the plan is then its sorted list |
| `MappingPlan.InsertOrderIrrelevant` | crates/memory-layout/src/lib.rs:589-629 | acceptance of a set of mappings and the plan they form do not depend on insertion order |
| `MappingPlan.AliasesAgree` | crates/memory-layout/src/lib.rs:589-611 | addresses that translate to one physical page agree on writability, and none is writable while another is executable |
| `MappingPlan.TranslateInside` | crates/memory-layout/src/lib.rs:498-517 | an address translates through the one entry that contains it, at its offset, and guards translate to nothing |
| `MappingPlan.ValidateTransition` | crates/memory-layout/src/lib.rs:519-558 | accepts exactly plans whose lower half is one executable page and one bootstrap stack |
| `MappingPlan.ValidateFinal` | crates/memory-layout/src/lib.rs:560-587 | accepts exactly plans without lower-half or transition mappings in which every stack has a guard page below it |
| `MappingPlan.NewPhysicalRange` | crates/memory-layout/src/lib.rs:138-148 | accepts exactly non-empty, ordered, page-aligned ranges below the supported limit |
| `MappingPlan.NewVirtualRange` | crates/memory-layout/src/lib.rs:194-207 | accepts exactly non-empty, ordered, page-aligned ranges inside one canonical half |
| `MappingPlan.PolicyExact` | crates/memory-layout/src/lib.rs:664-792 | the chain of checks accepts exactly what a table says: per kind its region, permissions, cache policy and relation between physical and virtual range |
| `MappingPlan.ValidateMappingPolicy` | crates/memory-layout/src/lib.rs:664-792 | accepted permissions are one of the three kernel sets, and a mapping below the canonical hole is a bounded identity mapping |
| `MemoryMap.NormalizeMappedMemoryMap` | crates/bootloader/src/boot_info.rs:124-139 | accepts exactly the inputs within capacity whose ranges are valid and pairwise disjoint; the output is the normal form and the rest of the buffer is cleared |
| `MemoryMap.NormalIsCanonical` | crates/bootloader/src/boot_info.rs:124-139 | the normal form is sorted, has no mergeable neighbours, and gives every address the kind and attributes it had |
| `MemoryMap.NormalByMeaning` | crates/bootloader/src/boot_info.rs:124-189 | two maps have the same normal form exactly when they say the same about every address |
| `MemoryMap.NormalPermutation` | crates/bootloader/src/boot_info.rs:141-151 | the normal form does not depend on the order of the input |
| `MemoryMap.NormalIdempotent` | crates/bootloader/src/boot_info.rs:124-189 | normalising again changes nothing |
| `MemoryMap.CanonicalUnique` | crates/bootloader/src/boot_info.rs:163-189 | maps without mergeable neighbours that agree at every address are equal |
| `MemoryMap.ApartIsOrdered` | crates/bootloader/src/boot_info.rs:153-161 | after sorting, the neighbour check sees exactly pairwise disjointness |
| `MemoryMap.ValidateNonOverlapping` | crates/bootloader/src/boot_info.rs:153-161 | succeeds exactly when each range ends before the next begins |
| `MemoryMap.MergeBaseDescriptors` | crates/bootloader/src/boot_info.rs:163-189 | the two-cursor in-place merge leaves the merged list in front and the cells behind untouched |
| `Sorting.InsertionSort` | crates/bootloader/src/boot_info.rs:141-151 | the in-place sort leaves the stably sorted permutation of the first cells and touches nothing else |
| `Overlay.ApplyReservations` | crates/bootloader/src/boot_info.rs:280-361 | for an accepted base and a finished list the outcome is decided by output capacity and coverage alone, the closing overlap check never fires, and the output is the overlay with the rest cleared |
| `Overlay.OverlaidMeaning` | crates/bootloader/src/boot_info.rs:286-350 | address by address the overlay carries the reservation's kind inside a reservation, the base kind and attributes elsewhere, and nothing outside the base; it is ordered |
| `Overlay.OverlaidConservesPages` | crates/bootloader/src/boot_info.rs:286-350 | cutting reservations out neither loses nor invents a page |
| `Overlay.OverlaidReserved` | crates/bootloader/src/boot_info.rs:393-401 | no output descriptor has a non-zero reserved field |
| `Overlay.CoverageExact` | crates/bootloader/src/boot_info.rs:351-360 | the page counter reaches a reservation's size exactly when every byte of it lies in the base map |
| `Overlay.SplitDescriptor` | crates/bootloader/src/boot_info.rs:286-350 | one base descriptor is replaced by its pieces, the counters grow by its overlap with each reservation, and running out of room is reported exactly then |
| `Overlay.AppendDescriptor` | crates/bootloader/src/boot_info.rs:363-391 | appends a piece or grows the last one when they merge, and fails exactly when a new cell is needed and none is left |
| `Overlay.CheckCoverage` | crates/bootloader/src/boot_info.rs:351-360 | fails exactly when a non-framebuffer reservation is not fully counted |
| `Overlay.ReservationList.Push` | crates/bootloader/src/boot_info.rs:233-241 | appends a valid reservation while there is room and changes nothing otherwise |
| `Overlay.ReservationList.Finish` | crates/bootloader/src/boot_info.rs:243-259 | sorts the list and accepts it exactly when the reservations are disjoint |
| `Overlay.SortReservations` | crates/bootloader/src/boot_info.rs:243-259 | sorting reservations sorts the ranges they stand for and loses none |
| `FrameReservations.AppendPageTableReservations` | crates/bootloader/src/page_tables.rs:640-695 | pushes one reservation for every maximal run of adjacent frames, or fails for an empty or oversized list or a full reservation list |
| `FrameReservations.FrameRunsExact` | crates/bootloader/src/page_tables.rs:640-695 | for distinct frames the pushed ranges are maximal runs that cover exactly those frames |
| `FrameReservations.VerifyPageTableReservations` | crates/bootloader/src/page_tables.rs:697-742 | accepts exactly the maps in which every frame is page-table memory, and otherwise reports what is wrong with the first bad frame in list order |
| `FrameReservations.ReservedFramesPassBothChecks` | crates/bootloader/src/page_tables.rs:640-742 | after the overlay accepts the list, both the loader's check and the boot protocol's check of the owned-frame list must accept the map |
| `FrameReservations.FramesReserved` | crates/bootloader/src/page_tables.rs:697-742 | every frame is page-table memory in the overlaid map |
| `FrameReservations.CoalesceSorted` | crates/bootloader/src/page_tables.rs:660-695 | walking sorted frames with one open run pushes exactly the merged runs |
| `Coverage.CoveredNonUsable` | crates/kernel/src/lib.rs:81-112 | on any descriptors it terminates; a yes means every address of the range is found in some non-usable descriptor, a no means some address is found in none or in a usable one, and an error means an invalid descriptor; on valid disjoint descriptors it answers exactly |
| `Coverage.ValidateBootState` | crates/kernel/src/lib.rs:51-79 | the checks are decided in the order of the source: invalid boot information, a map of the wrong shape (stride, count, byte length with overflow), an invalid descriptor; then a reserved range that is empty or, on a disjoint map, not wholly non-usable is refused and all others accepted; on any map acceptance means every reserved address is found non-usable |
| `Coverage.CheckRanges` | crates/kernel/src/lib.rs:73-77 | the reserved ranges are refused exactly when one is empty or not wholly non-usable, on disjoint descriptors, and on any descriptors acceptance means every reserved address is found non-usable |
| `Coverage.ReservedRangesAreBacked` | crates/kernel/src/lib.rs:81-112 | the kernel accepts every range inside the union of the non-usable reservations of an overlay the loader accepted, a framebuffer reservation included when the map covers it wholly |
| `Extensions.ValidateExtensionArea` | crates/boot-protocol/src/extensions.rs:177-263 | for major version 2 accepts exactly the areas that are a concatenation of well-formed records without an unknown required one and with at most one valid version-1 ownership record; the count is the number of records and the ownership that record's |
| `Extensions.EnvelopeUnique` | crates/boot-protocol/src/extensions.rs:198-262 | an area can be cut into records in one way only |
| `Extensions.ConcatEnvelopes` | crates/boot-protocol/src/extensions.rs:198-262 | two well-formed envelopes laid end to end are an envelope exactly when not both carry ownership, with the records of both |
| `Extensions.JoinAccepted` | crates/boot-protocol/src/extensions.rs:177-262 | the validator accepts two joined envelopes exactly when the declared size is the header plus both lengths and not both carry ownership; when that sum reaches 2^32 no declared size is accepted |
| `Extensions.ScanCannotFail` | crates/boot-protocol/src/extensions.rs:198-262 | if the whole area is well formed, the scan does not fail on any record |
| `Extensions.ValidatePageTableFrames` | crates/boot-protocol/src/extensions.rs:265-306 | accepts exactly complete lists of distinct, valid, reserved frames that contain the root |
| `ExtensionLayout.OwnershipExact` | crates/boot-protocol/src/extensions.rs:49-100 | an ownership is valid exactly when version, levels, state, page size, cap, root, list range, stride and reserved fields are as specified |
| `ExtensionLayout.RecordRoundTrip` | crates/boot-protocol/src/extensions.rs:325-350 | a record laid out byte by byte parses back to the same header and ownership |
| `ExtensionLayout.OwnershipEnvelope` | crates/boot-protocol/src/extensions.rs:177-263 | a valid ownership written as one record is an accepted area that carries exactly it |
| `FrameOwner.PageTableFrameOwner.Allocate` | crates/memory-layout/src/frame_owner.rs:126-217 | yields the planned number of distinct, valid, zeroed frames with the first as root; every failure leaves an owner of exactly the still-live allocations, none if no free failed; the capacity error comes exactly from too many tables |
| `FrameOwner.IncompleteFrameOwner.Acquire` | crates/memory-layout/src/frame_owner.rs:140-191 | whatever the backend answers (failure, duplicate, invalid frame, failed zeroing), what is tracked is what is live |
| `FrameOwner.IncompleteFrameOwner.TryRelease` | crates/memory-layout/src/frame_owner.rs:63-80 | frees in reverse order only what is live, stops at the first failure with the rest tracked, and can be retried to empty; owner, frees and attempts are those of the value-level release |
| `FrameOwner.IncompleteFrameOwner.Drop` | crates/memory-layout/src/frame_owner.rs:83-96 | attempts every tracked frame once, in reverse order; exactly the refused frames stay live and the others are the value-level frees |
| `FrameOwner.PageTableFrameOwner.TryRelease` | crates/memory-layout/src/frame_owner.rs:239-254 | the same release for a complete owner, and nothing at all once transferred |
| `FrameOwner.PageTableFrameOwner.Transfer` | crates/memory-layout/src/frame_owner.rs:256-263 | hands over all frames and disarms the owner |
| `FrameOwner.PageTableFrameOwner.Drop` | crates/memory-layout/src/frame_owner.rs:266-279 | attempts every frame once in reverse order while owned, exactly the refused ones staying live, and none after transfer |
| `FrameOwner.ReleaseFrames` | crates/memory-layout/src/frame_owner.rs:63-80 | the shared release loop equals the value-level release of as many pieces as were freed, and never frees what is not live |
| `FrameOwner.DropFrames` | crates/memory-layout/src/frame_owner.rs:83-96 | the shared drop loop equals the value-level drop under the set of refused frames, which is what stays live |
| `Owners.ReleaseKeeps` | crates/memory-layout/src/frame_owner.rs:63-80 | a release splits what an owner held into what it freed and what it still holds |
| `Owners.DropKeeps` | crates/memory-layout/src/frame_owner.rs:83-96 | a drop attempts each held piece once; the refused ones leak and exactly the others are freed |
| `RangeOwner.RangeOwner.TryRelease` | crates/bootloader/src/load_plan.rs:527-542 | frees flagged ranges in reverse order, never one that is not live, stops at the first failure with flags equal to what is live; flags, frees and attempts follow the value-level release of the held indices; the boot-data owner releases by the same loop |
| `RangeOwner.RangeOwner.Drop` | crates/bootloader/src/load_plan.rs:551-569 | attempts every held range once in reverse order and keeps a flag exactly where the free was refused; frees and attempts are those of the value-level drop |
| `RangeOwner.RangeOwner.Remaining` | crates/bootloader/src/load_plan.rs:544-549 | the number of set flags is the number of live allocations |
| `LoadPlan.Build` | crates/bootloader/src/load_plan.rs:125-190 | accepts exactly the segment lists that fit the window, are pairwise page-disjoint, off the source and contain the entry; every error is explained by the input (an overflowing source range, no segment, an entry in no executable segment, or a segment that is out of place for the reason reported) and is never the total size |
| `LoadPlan.PackedFits` | crates/bootloader/src/load_plan.rs:170-176 | by packing disjoint intervals, items inside the window never exceed it, so the total-size error is unreachable |
| `LoadPlan.MakeItemExact` | crates/bootloader/src/load_plan.rs:213-273 | an item exists exactly for an aligned, non-empty segment whose bytes are in the file and whose pages are representable; its page range is tiled exactly by file bytes, zeroed memory and padding, with copy offset zero |
| `LoadPlan.PlaceSegment` | crates/bootloader/src/load_plan.rs:138-179 | one segment is placed exactly when it is acceptable beside the earlier ones; otherwise the error is the reason that segment cannot be placed |
| `LoadPlan.FromVerified` | crates/bootloader/src/load_plan.rs:631-671 | the loaded kernel has the exact hull, page sum and metadata, and its entry segment is the one and only executable segment that holds the entry |
| `LoadPlan.EntryUnique` | crates/bootloader/src/load_plan.rs:651-657 | page-disjoint items cannot both hold the entry |
| `LoadTargets.PrepareTargets` | crates/bootloader/src/load_plan.rs:428-481 | only a failing allocation can stop it; every target ends as its file bytes followed by zeros to the page end, source bytes and all other memory are unchanged, and ownership flags equal the live allocations |
| `LoadTargets.VerifyTarget` | crates/bootloader/src/load_plan.rs:344-386 | accepts exactly targets of the right length with the file bytes at the copy offset and zeros behind them |
| `LoadTargets.FilledIsImage` | crates/bootloader/src/load_plan.rs:344-386 | for planned items, whose copy offset is zero, exactly one content is accepted |
| `LoadTargets.PrefixUnchecked` | crates/bootloader/src/load_plan.rs:344-386 | with a non-zero copy offset the bytes before it are never looked at, and every other changed byte is noticed |
| `LoadTargets.CopyTarget` | crates/bootloader/src/load_plan.rs:320-342 | copies exactly the file bytes to the copy offset, leaves everything else, and fails exactly when a range does not fit |
| `ElfImage.Parse` | crates/kernel-image/src/lib.rs:263-349 | accepts exactly the acceptable images and reports the exact segment count and the exact physical and virtual hulls |
| `ElfImage.AcceptedSegments` | crates/kernel-image/src/lib.rs:277-339 | segments of an accepted image lie in the file, are pairwise disjoint physically and virtually, none is writable and executable, and exactly one executable one holds the entry |
| `ElfImage.ImageUnique` | crates/kernel-image/src/lib.rs:263-349 | the bytes determine everything the parser reports |
| `ElfImage.Collect` | crates/kernel-image/src/lib.rs:375-380 | the iterator yields exactly the counted load segments in table order |
| `ElfImage.LoadSegments.Next` | crates/kernel-image/src/lib.rs:579-601 | yields the next load segment and skips the rest, and keeps returning nothing at the end |
| `ElfImage.LoadSegmentExact` | crates/kernel-image/src/lib.rs:703-743 | a load segment is accepted exactly when sizes, file range, address ranges, end points, alignment and permissions are in order |
| `ElfImage.CheckOverlaps` | crates/kernel-image/src/lib.rs:287-317 | a segment passes exactly when it is disjoint from all earlier ones in both address spaces; otherwise the first earlier segment in its way decides the error, a physical overlap before a virtual one, and no other error can occur |
| `ElfImage.ScanHeaders` | crates/kernel-image/src/lib.rs:277-339 | the running minima, maxima, count and entry flag are those of the segments seen |
| `Elf.ValidateSectionTable` | crates/kernel-image/src/lib.rs:662-701 | accepts exactly section tables inside the file without relocations and with sound symbol tables; the additions the source leaves unchecked never overflow and never read out of bounds |
| `Elf.ValidateSymbolTable` | crates/kernel-image/src/lib.rs:745-779 | accepts exactly tables inside the file whose symbols after the first are all defined; its unchecked additions never overflow |
| `Elf.ValidateHeader` | crates/kernel-image/src/lib.rs:613-645 | accepts exactly little-endian x86-64 System V executables with the expected header sizes |
| `Elf.HeaderPresent` | crates/kernel-image/src/lib.rs:172-179 | once the table lies in the file, every program header can be read |
| `ElfLayout.HeaderRoundTrip` | crates/kernel-image/src/lib.rs:144-166 | a file header laid out as the System V ABI prescribes is read back unchanged |
| `ElfLayout.ProgramHeaderRoundTrip` | crates/kernel-image/src/lib.rs:781-792 | a program header laid out anywhere in a file is read back unchanged |
| `HigherHalf.FromValidated` | crates/bootloader/src/higher_half_plan.rs:33-111 | for an accepted image, planning fails exactly when the source allocation does not fit, and then only with the load errors of an overflowing source range, a source too short for some segment, or a target page meeting the source, each true of the input; on success the load plan is sound and the mapping plan is the sorted list of segment mappings and passes the final check |
| `HigherHalf.OnlySourceFaults` | crates/bootloader/src/higher_half_plan.rs:37-48 | of all the load errors, an accepted image leaves only the three about the source allocation |
| `HigherHalf.TranslatesByOffset` | crates/bootloader/src/higher_half_plan.rs:50-82 | every address of a mapped page translates to itself minus 0xffffffff80000000, and nothing else is mapped |
| `HigherHalf.BuildableExact` | crates/bootloader/src/higher_half_plan.rs:37-48 | load planning of an accepted image can fail only because of the source allocation |
| `HigherHalf.EntryMapped` | crates/bootloader/src/higher_half_plan.rs:84-100 | the entry is mapped executable and translates to the physical entry, so the entry checks never fire |
| `HigherHalf.MappingsFinal` | crates/bootloader/src/higher_half_plan.rs:50-82 | the mappings of an accepted image pass `validate_final` |
| `HigherHalf.RoundingKeepsApart` | crates/bootloader/src/higher_half_plan.rs:52-70 | rounding page-aligned disjoint segments to pages keeps them disjoint |
| `HigherHalf.EntryForOk` | crates/bootloader/src/higher_half_plan.rs:142-149 | the layout policy accepts the mapping of every segment of an accepted image |
| `HigherHalf.ValidateHigherHalfImage` | crates/kernel-image/src/lib.rs:475-572 | accepts exactly the images that satisfy the policy; the entry-backing checks never fire |
| `HigherHalf.EntryBacked` | crates/kernel-image/src/lib.rs:554-567 | the constant offset makes the virtual entry's segment back the physical entry |
| `KernelView.KernelBytes` | crates/bootloader/src/higher_half_plan.rs:33-111 | end to end, for every address of a segment's mapped pages: the processor's walk of the compiled final plan yields physical memory that holds the file byte at the same offset of the segment, or zero past the file part, writable and executable exactly as the segment flags say and never for user code |
| `KernelView.BuiltKernelBytes` | crates/bootloader/src/higher_half_plan.rs:33-111 | the same for whatever construction plan the builder makes of the loaded kernel, written into any distinct frames |
| `KernelView.LoadedExists` | crates/bootloader/src/load_plan.rs:428-493 | every accepted image in memory whose source allocation fits has a plan and a loaded memory, so the statements about loaded kernels are not empty |
| `KernelTables.BuildTables` | crates/memory-layout/src/page_table.rs:425-440 | for an accepted image the final plan is never refused by the mode check nor for a null frame and needs no removal: only tables or entries can run out, and never with room for 35 tables and one entry for each loaded page besides |
| `KernelTables.KernelNeeds` | crates/bootloader/src/higher_half_plan.rs:250-258 | what the final plan of an accepted image needs: it passes the final check, at most 35 tables (root, PDPT, PD and one PT for each 2 MiB of the window), no removal, no null frame |
| `KernelTables.MappedIsLoaded` | crates/bootloader/src/higher_half_plan.rs:49-81 | the mapping plan maps exactly as many pages as the load plan allocates |
| `ElfFile.FileAcceptedExactly` | crates/kernel-image/src/lib.rs:263-349 | a file laid out as header, program header table and further bytes is accepted exactly when its load segments are acceptable, pairwise disjoint and hold the entry, and its segments are then exactly those laid out |
| `KernelSample.SampleAccepted` | crates/bootloader/src/higher_half_plan.rs:178-210 | a concrete three-segment file is an accepted higher-half image with exactly its three segments |
| `KernelSample.SampleLoads` | crates/bootloader/src/higher_half_plan.rs:212-216 | it has a plan and a loaded memory, from source pages that hold exactly the file |
| `KernelSample.SampleNeeds` | crates/bootloader/src/higher_half_plan.rs:250-255 | its final plan fits 8 tables, 16 entries and 1 removal |
| `KernelSample.SampleTables` | crates/bootloader/src/higher_half_plan.rs:256-258 | every construction plan built from it has four tables, seven entries and no removal |
| `KernelView.NothingElseMapped` | crates/bootloader/src/higher_half_plan.rs:33-111 | the processor's walk maps a canonical address exactly when some segment's pages contain it |
| `KernelView.LoadKernel` | crates/bootloader/src/load_plan.rs:428-493 | planning and preparing the targets of an accepted image ends with the bytes in place, fails in planning only when the source does not fit, and leaves memory unchanged on failure |
| `ExitState.HandoffHasAllFrames` | crates/bootloader/src/exit_state.rs:229-246 | in every run, the hierarchy that reaches the handoff state or is handed over at the boundary has every planned frame, and at most two exit attempts are made |
| `ExitState.LostNeverReady` | crates/bootloader/src/page_tables.rs:274-311 | once a partial release has lost a frame, no continuation reaches the handoff state or the boundary |
| `ExitState.RunConserves` | crates/bootloader/src/exit_state.rs:95-271 | in every run each allocation is always held by one armed owner, freed, leaked by a refused free on drop, or handed over, in unchanged number: none is lost or duplicated |
| `ExitState.FreedAtMostOnce` | crates/bootloader/src/exit_state.rs:95-271 | in every run an allocation is freed, leaked or handed over at most once in all |
| `ExitState.NoFreeAfterBoundary` | crates/bootloader/src/exit_state.rs:172-201 | after the boundary nothing is ever attempted, freed or leaked, and the handed-over allocations stay the same, whatever is dropped later |
| `ExitState.FailureDropsOwners` | crates/bootloader/src/exit_state.rs:100-138 | a failing transition drops every owner it was given |
| `ExitState.UnwindLetsAllGo` | crates/bootloader/src/exit_state.rs:67-93 | unwinding before the boundary leaves every allocation of the run freed or leaked, and newly leaks only those whose free was refused |
| `ExitState.KernelCheckExact` | crates/bootloader/src/exit_state.rs:100-108 | the kernel check accepts exactly an owner with something left and a segment count: it looks for complete release only, and a kernel with one segment freed and one left passes |
| `ExitState.BootCheckExact` | crates/bootloader/src/exit_state.rs:118-138 | the boot-information check accepts exactly an owner with something left, a descriptor and a well-formed record, so partly released boot data passes |
| `ExitState.HandedWholeExactly` | crates/bootloader/src/exit_state.rs:95-271 | in every run that crosses the boundary, what is handed over of the kernel image, the boot data or the stack is a non-empty front of its allocations, and all of them exactly when no release freed one before the owner was given to the state machine |
| `ExitState.PartHandedOver` | crates/bootloader/src/exit_state.rs:95-271 | the loss is real for kernel image and boot data: for any number of their last allocations short of all, a run frees just those, passes every check and hands over the rest |
| `ExitState.StackHandedWhole` | crates/bootloader/src/bootstrap_stack.rs:36-86 | the stack is one allocation, so every run that crosses the boundary hands it over and has never released it |
| `ExitState.ExitRetryPolicy.BeginAttempt` | crates/bootloader/src/exit_state.rs:34-40 | grants an attempt exactly while fewer than two have been made |
| `ExitState.RequestAttempts` | crates/bootloader/src/exit_state.rs:24-49 | however often requested, at most two attempts are granted |
| `Extensions.CheckRecord` | crates/boot-protocol/src/extensions.rs:209-251 | one record is accepted exactly when it is well framed and admissible after what came before |
| `Extensions.ScanRecords` | crates/boot-protocol/src/extensions.rs:206-257 | the scan terminates with the one way to cut the area into admissible records, or no such way exists |
| `Extensions.FindReservation` | crates/boot-protocol/src/extensions.rs:290-300 | a frame counts as reserved exactly when some page-table descriptor covers its page |
| `MemoryMap.ValidateRanges` | crates/bootloader/src/boot_info.rs:131-133 | the whole map passes exactly when every range is valid, and the first invalid one decides the error |
| `MemoryMap.MergeStep` | crates/bootloader/src/boot_info.rs:171-186 | one step of the in-place merge grows the last kept descriptor or keeps the next one, as merging on values does |
| `Overlay.CutReservation` | crates/bootloader/src/boot_info.rs:294-337 | cutting one reservation appends the base part before it and the reserved part, moves the cursor behind it and counts the overlapped pages |
| `Overlay.AppendRest` | crates/bootloader/src/boot_info.rs:338-349 | what is left of a descriptor behind its last reservation keeps the base kind |
| `Overlay.SplitBase` | crates/bootloader/src/boot_info.rs:289-350 | after all base descriptors the output is the overlay and every counter is the overlap with the base |
| `Overlay.ReservationList.constructor` | crates/bootloader/src/boot_info.rs:226-231 | a new list is empty and valid |
| `Coverage.FindDescriptor` | crates/kernel/src/lib.rs:87-96 | the first descriptor found at an address gives the map's answer for it |
| `FrameReservations.SortedFrames` | crates/bootloader/src/page_tables.rs:649-659 | the copied frames are sorted in place and none is lost |
| `FrameReservations.AdvanceRun` | crates/bootloader/src/page_tables.rs:662-691 | the next frame either extends the open run or closes it, pushing exactly the run it ends |
| `FrameReservations.FindCovering` | crates/bootloader/src/page_tables.rs:712-727 | the first covering descriptor gives the map's answer for the frame |
| `MappingPlan.Plan.FindConflict` | crates/memory-layout/src/lib.rs:590-611 | reports the first conflict in plan order, and none exactly when the entry fits |
| `MappingPlan.Plan.Store` | crates/memory-layout/src/lib.rs:615-628 | shifting the tail inserts the entry at its place in address order |
| `PageTableBuilder.ConstructionPlan.Begin` | crates/memory-layout/src/page_table.rs:442-462 | a new plan is the tree of the root alone |
| `PageTableBuilder.ConstructionPlan.AddTable` | crates/memory-layout/src/page_table.rs:562-589 | records a table, its parent entry and, in the lower half of the root, its removal; the error says which of the three records is full and the whole plan indeed needs more of it |
| `PageTableBuilder.ConstructionPlan.EnsurePath` | crates/memory-layout/src/page_table.rs:522-533 | makes sure of exactly the three tables above a page and returns its page table |
| `PageTableBuilder.ConstructionPlan.PlaceLeaf` | crates/memory-layout/src/page_table.rs:534-548 | records the leaf of an unmapped page; the entry record being too small for the whole plan is the only error, so the duplicate and remap branches are unreachable |
| `PageTableBuilder.ConstructionPlan.PushEntry` | crates/memory-layout/src/page_table.rs:599-606 | appends exactly one entry or reports a full record |
| `PageTableBuilder.ConstructionPlan.PushRemoval` | crates/memory-layout/src/page_table.rs:608-623 | appends the removal of a child entry or reports why not |
| `PageTables.TableMemory.WriteEntry` | crates/bootloader/src/page_tables.rs:30-35 | a successful write changes exactly one word |
| `PageTables.TableMemory.ReadEntry` | crates/bootloader/src/page_tables.rs:36-36 | a successful read returns the word |
| `PageTables.EntryEncodes` | crates/memory-layout/src/page_table.rs:294-305 | everything a built plan records can be encoded, so missing-assignment errors are unreachable |
| `PageTableVerifier.VerifyTable` | crates/bootloader/src/page_tables.rs:452-551 | one table passes exactly when all its 512 words do, and adds exactly the tables linked from it |
| `FrameOwner.FrameBackend.FreeFrame` | crates/memory-layout/src/frame_owner.rs:12-13 | a free is only ever asked for a live allocation and ends its life exactly when it succeeds |
| `FrameOwner.FrameBackend.AllocateFrame` | crates/memory-layout/src/frame_owner.rs:8-9 | an allocation becomes live and is not known to be zeroed |
| `FrameOwner.FrameBackend.ZeroFrame` | crates/memory-layout/src/frame_owner.rs:10-11 | only a live frame is zeroed |
| `FrameOwner.IncompleteFrameOwner.Push` | crates/memory-layout/src/frame_owner.rs:58-61 | tracks one more live allocation |
| `FrameOwner.PageTableFrameOwner.constructor` | crates/memory-layout/src/frame_owner.rs:199-214 | a complete owner takes over exactly the acquired frames, the first as root |
| `RangeOwner.RangeOwner.Allocate` | crates/bootloader/src/load_plan.rs:435-444 | the flag is set exactly when the allocation is live |
| `RangeOwner.RangeOwner.ReleaseOne` | crates/bootloader/src/load_plan.rs:529-540 | a held range is attempted once and its flag cleared exactly when the free succeeds |
| `RangeOwner.RangeOwner.constructor` | crates/bootloader/src/load_plan.rs:511-525 | a new owner holds nothing |
| `LoadPlan.FindOverlap` | crates/bootloader/src/load_plan.rs:153-161 | finds an overlap with an earlier item exactly when there is one; the range-overflow branch is unreachable |
| `LoadTargets.ZeroTarget` | crates/bootloader/src/load_plan.rs:297-298 | the target becomes zero and nothing else changes |
| `LoadTargets.AllocateAll` | crates/bootloader/src/load_plan.rs:434-445 | flags equal live allocations after every outcome, and success flags everything |
| `LoadTargets.ZeroAll` | crates/bootloader/src/load_plan.rs:448-456 | after zeroing, all targets are zero and everything outside them is as before |
| `LoadTargets.CopyAll` | crates/bootloader/src/load_plan.rs:459-467 | copying from the shared memory cannot fail and completes every image, because targets never meet the source |
| `LoadTargets.VerifyAll` | crates/bootloader/src/load_plan.rs:470-478 | on completed targets verification accepts |
| `ElfImage.CheckHeader` | crates/kernel-image/src/lib.rs:278-317 | one program header passes exactly when its kind is allowed and a load segment is sound and disjoint from the earlier ones |
| `ElfImage.ParseTables` | crates/kernel-image/src/lib.rs:264-268 | accepts exactly files with sound magic, header, program table and section table |
| `Elf.CheckSection` | crates/kernel-image/src/lib.rs:671-698 | one section passes exactly when it is no relocation section with content and any symbol table is sound |
| `Elf.CheckSymbols` | crates/kernel-image/src/lib.rs:762-777 | passes exactly when every symbol after the first names a section; index arithmetic stays in the file |
| `Elf.ParseProgramHeader` | crates/kernel-image/src/lib.rs:781-792 | a program header is readable exactly when its 56 bytes lie in the file, and these bytes are then exactly the layout of the fields read |
| `Elf.ReadU64` | crates/kernel-image/src/lib.rs:812-825 | a word is readable exactly when its bytes lie in the file, and its little-endian bytes are then exactly those |
| `HigherHalf.CheckSegment` | crates/kernel-image/src/lib.rs:494-541 | one segment passes exactly when alignment, windows, offset and permissions follow the policy |
| `HigherHalf.CheckSegments` | crates/kernel-image/src/lib.rs:489-553 | passes exactly when every segment does and text, read-only, writable and zero-filled segments all occur |
| `HigherHalf.InsertSegment` | crates/bootloader/src/higher_half_plan.rs:51-81 | inserting the mapping of a segment that fits always succeeds |
| `HigherHalf.InsertSegments` | crates/bootloader/src/higher_half_plan.rs:50-82 | no segment of an accepted image can be refused, and the plan is the sorted list of their mappings |
| `HigherHalf.SegmentMappingOk` | crates/bootloader/src/higher_half_plan.rs:51-73 | rounding and range construction never fail for a segment of an accepted image |
| `TransitionTables.InsertIdentity` | crates/bootloader/src/page_tables.rs:162-185 | an identity mapping is accepted exactly when it is aligned, below the limit and fits the plan |
| `TransitionPipeline.Fill` | crates/bootloader/src/page_tables.rs:207-252 | materialising and verifying can fail only on a failing access, and then the frames are given back |
| `ExitState.NextConserves` | crates/bootloader/src/exit_state.rs:95-271 | no single step loses or duplicates an allocation; freed, leaked and handed-over allocations are kept apart |
| `ExitState.RunSafe` | crates/bootloader/src/exit_state.rs:95-271 | the ownership invariant holds after every sequence of steps |

## Left out

- UEFI adapters and firmware calls (`boot_info_loader.rs`, `kernel_loader.rs`, `segment_loader.rs`, `page_table_loader.rs`, `main.rs`): raw pointers and foreign calls; they appear as the failing backends.
- Assembly, port I/O, serial output and hardware probing: there is no machine model beyond the page walk.
- Paging.WalkFromRoot: the walk models 4-level paging with execute-disable enabled; reserved-bit faults, accessed and dirty updates, translation caches and protection keys are not modelled.
- CPU feature checks (`cpu.rs`): independent bit tests; readiness is an arbitrary permission and root address in `ExitState`.
- The bootstrap stack owner and boot-information construction: easy one-range cases of the modelled owners and range checks.
- Framebuffer format conversion, the UEFI memory-kind tables and map-size helpers: settled by reading one branch.
- The fingerprint in `confirm_final_map_reservation`: collisions are possible, so the proof object carries the frame list itself.
- `encode_abstract` and the byte form of construction plans: a serialisation no decoder in the repository reads.
- `validate_bootstrap_image` and `total_physical_load_size`: weaker relatives of the higher-half validation.
- Crossing the exit boundary without page tables (`ExitReady` and `HandoffReady` directly): the same disarming with fewer owners.
- `PostExitState::from_final_map`: a conjunction of checks, of which the frame check is modelled by itself.
- The build tooling (`xtask`): process and file I/O.
- PageTableBuilder.ConstructionPlan.Build: takes the mapping plan in the form every sequence of inserts yields, and keeps records in bounded sequences instead of arrays, so update in place is not captured there.
- Coverage.CoveredNonUsable: on overlapping descriptors the answer depends on which one is found first; there it is sound both ways and not exact.
- Coverage.ValidateBootState: `boot.validate()` is a boolean input; the boot-information fields it reads are not modelled.
- ExitState.RunConserves: owners are values holding numbered allocations; the owner classes are proved to follow these values, and the two are not composed into one heap.
- KernelView.KernelBytes: page-table frames and loaded bytes are two separate memories; that writing one leaves the other alone is built into the model, not proved.
