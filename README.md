# Nekos memory management, modelled in Dafny

Nekos is a small RISC-V kernel. This project models the core of its memory
management and the helpers around it.

- **The physical frame allocator.** A doubly-linked free list of regions
  `{base, num_pages}`. The list is kept in ascending base order behind a dummy
  root node, which has base 0 and no pages.
  - `allocate` is first-fit. It carves the pages from the top of a larger
    region, or unlinks a region that fits exactly.
  - `deallocate` inserts a region in address order and coalesces it with both
    neighbours.
  - `append_node` inserts at the tail.
- **The RISC-V page-table code** for the Sv39, Sv48 and Sv57 schemes of the
  RISC-V Privileged Architecture (sections 4.4 to 4.6 of version 1.12):
  - the entry codec (`PageTableEntry`, `PPN`, `VPN`, `PageTableFlags`);
  - the single-page mapper `map_page`, with its helper `get_next_level`. The
    helper allocates zeroed intermediate tables on demand.
- **Boot-time set-up:**
  - the allocator is seeded from the boot loader's memory map;
  - the kernel-image offset and the page-rounded kernel sections are computed;
  - the usable memory is mapped at the higher-half direct-map offset;
  - `allocate_pages` and `deallocate_pages` wrap the allocator and can zero
    the frames they return.
- **The alignment helpers, the typed addresses and their hexadecimal
  `Display`.**
- **The two `scause` decoders:**
  - the total one in `nekos-arch`, which maps codes it does not know to
    `Unknown`;
  - the partial one in the kernel's CSR module, which panics on such codes.

## How the model is built

The model follows the source's own form.

**Allocator.** `PageAllocator.FreeListAllocator` is a class.
- Its node memory is a map from a node's address (or the root) to the node's
  `prev`, `next`, `base` and `num_pages`. The methods update this map one link
  at a time, as the source updates the nodes in place.
- Two ghost fields give the abstract view:
  - the list order;
  - the sequence of regions, with the root at index 0.
- Every method is proved against a pure function of that sequence. The
  functions live in `FreeListSpec`: `Allocated`, `Deallocated`, `Appended`,
  `Coalesced`, `FirstFit` and `InsertAfter`.
- The lemmas about those functions carry the allocator's properties:
  - conservation of free pages;
  - ascending order;
  - separation, meaning no two regions touch or overlap;
  - the allocate/deallocate round trip;
  - the quirks of the source.

**Page tables.** `RiscvMem.PageTableMemory` is a class holding two things:
- the page-table frames, as a map from a frame's physical page number to its
  512 entries;
- the supply of frames that `allocate_pages(1)` would return, consumed from
  the front.

`GetNextLevel`, `DescendLevels` and `MapPage` are methods. Each is proved
equal to the pure `NextLevel`, `Walk` and `MapPageSpec`, and the lemmas are
stated about those functions. The tables reached from a root are given
levels, with the root at the top and the walk ending at level 0. This
invariant (`RiscvMem.PageDirectory`) holds for the zeroed root and is kept
by `map_page`, so consecutive calls on one root can always walk their
path.

**Boot-time set-up.** The seeding loop and the direct-map loop are methods,
proved against `Mem.Seeded` and `Mem.DirectMap`. The section arithmetic
consists of functions.

Two behaviours of the source are modelled as written:

- **The last node is never allocated from.** `allocate` examines a node only
  while it has a successor, so the last node of the free list is never a
  candidate. A list with a single free region therefore always fails.
- **Address 0 merges into the root.** The root's region ends at address 0, so
  a region freed at address 0 merges into the root.

## Model

| member | source | states |
|---|---|---|
| Misc.AlignUp | nekos-kernel/src/misc.rs:2-4 | the result is a multiple of `align` with `addr <= r < addr + align`, provided `addr + align - 1` fits in a u64 |
| Misc.AlignDown | nekos-kernel/src/misc.rs:7-9 | the result is a multiple of `align` with `addr - align < r <= addr` |
| Misc.AlignUpPage | nekos-kernel/src/misc.rs:12-15 | equals `AlignUp` with the page size |
| Misc.AlignDownPage | nekos-kernel/src/misc.rs:18-21 | equals `AlignDown` with the page size |
| Misc.AlignedIsFixed | nekos-kernel/src/misc.rs:2-9 | an aligned value is left unchanged by both helpers |
| Misc.AlignIdempotent | nekos-kernel/src/misc.rs:2-9 | applying either helper twice gives the same result as applying it once |
| Misc.AlignDownUpOrder | nekos-kernel/src/misc.rs:2-9 | rounding down never exceeds rounding up, and the two are equal exactly when the value is aligned |
| Addr.VirtualAddr.AsMutPtr | nekos-kernel/src/mem/addr.rs:12-14 | a writable pointer holding the address's `raw` value |
| Addr.VirtualAddr.AsPtr | nekos-kernel/src/mem/addr.rs:17-19 | a read-only pointer holding the address's `raw` value |
| Addr.VirtualAddr.Raw | nekos-kernel/src/mem/addr.rs:22-24 | `new` of the raw value is the address again, so `new` and `raw` are inverse |
| Addr.PhysicalAddr.Raw | nekos-kernel/src/mem/addr.rs:31-38 | `new` of the raw value is the address again, so `new` and `raw` are inverse |
| Addr.Format | nekos-kernel/src/mem/addr.rs:43-53 | `Display` of either address type (applied to `raw()`): 18 characters, `0x` followed by sixteen upper-case hexadecimal digits |
| Addr.FormatRoundTrip | nekos-kernel/src/mem/addr.rs:43-53 | reading the sixteen digits back gives the value, so no value is truncated |
| Addr.FormatInjective | nekos-kernel/src/mem/addr.rs:43-53 | different values render differently |
| Addr.FormatOnto | nekos-kernel/src/mem/addr.rs:43-53 | every string of that shape is the rendering of some u64 |
| Addr.ParseHexDigits | nekos-kernel/src/mem/addr.rs:43-53 | zero-padded fixed-width digits of a value that fits read back as the value |
| Addr.DigitsOfParse | nekos-kernel/src/mem/addr.rs:43-53 | every digit string is the fixed-width rendering of the value it reads as |
| Trap.InterruptNumber | nekos-arch/src/riscv64/trap.rs:1-16 | each named interrupt has a cause number and only `Unknown` has none; that these are the numbers the decoder maps to each variant is stated by `RiscvArch.InterruptOfCode` |
| Trap.ExceptionNumber | nekos-arch/src/riscv64/trap.rs:18-48 | each named exception has a cause number and only `Unknown` has none; that these are the numbers the decoder maps to each variant is stated by `RiscvArch.ExceptionOfCode` |
| RiscvArch.Code | nekos-arch/src/riscv64/mod.rs:118-120 | `code` clears bit 63 and keeps bits 0 to 62 of the raw value |
| RiscvArch.IsInterrupt | nekos-arch/src/riscv64/mod.rs:114-116 | `is_interrupt` holds exactly when bit 63 is set |
| RiscvArch.InterruptOfCode | nekos-arch/src/riscv64/mod.rs:66-82 | the table names exactly the codes 1, 2, 3, 5, 6, 7, 9, 10, 11 and 12, each as the cause with that number; every other code gives `Unknown` |
| RiscvArch.ExceptionOfCode | nekos-arch/src/riscv64/mod.rs:86-111 | the table names exactly the codes 0 to 13, 15, 16 and 18 to 23, each as the cause with that number; every other code gives `Unknown` |
| RiscvArch.InterruptCodeOf | nekos-arch/src/riscv64/mod.rs:65-83 | `interrupt_code` is `Unknown` exactly when `code()` is not a listed interrupt code; otherwise the variant's number is `code()` |
| RiscvArch.ExceptionCodeOf | nekos-arch/src/riscv64/mod.rs:85-112 | `exception_code` is `Unknown` exactly when `code()` is not a listed exception code; otherwise the variant's number is `code()` |
| RiscvArch.CodeRoundTrip | nekos-arch/src/riscv64/mod.rs:114-120 | a code with bit 63 clear, plus the interrupt bit, can be recovered from the register value |
| RiscvArch.CounterOverflowNeverDecoded | nekos-arch/src/riscv64/mod.rs:65-83 | code 13 is declared as the counter-overflow interrupt, but no register value decodes to it |
| RiscvArch.DecodersIgnoreInterruptBit | nekos-arch/src/riscv64/mod.rs:65-112 | flipping bit 63 changes neither `code` nor either decoder's result |
| Csr.Code | nekos-kernel/src/arch/riscv64/csr.rs:107-109 | `code` clears bit 63 and keeps bits 0 to 62 |
| Csr.IsInterrupt | nekos-kernel/src/arch/riscv64/csr.rs:103-105 | `is_interrupt` holds exactly when bit 63 is set |
| Csr.InterruptCodeOf | nekos-kernel/src/arch/riscv64/csr.rs:53-71 | defined only where `code()` is a known interrupt code (the source panics elsewhere); the variant's number is `code()` |
| Csr.ExceptionCodeOf | nekos-kernel/src/arch/riscv64/csr.rs:73-101 | defined only where `code()` is a known exception code (the source panics elsewhere); the variant's number is `code()` |
| Csr.CodesAgree | nekos-kernel/src/arch/riscv64/csr.rs:103-109 | the kernel's `is_interrupt` and `code` equal the nekos-arch ones on every register value |
| Csr.InterruptOfCode | nekos-kernel/src/arch/riscv64/csr.rs:53-71 | defined only on the known interrupt codes; returns the cause with that number |
| Csr.ExceptionOfCode | nekos-kernel/src/arch/riscv64/csr.rs:73-101 | defined only on the known exception codes; returns the cause with that number |
| Csr.InterruptAgreesWithArch | nekos-kernel/src/arch/riscv64/csr.rs:53-71 | for every register value, the kernel decoder agrees with the nekos-arch decoder where it is defined; where it panics, the nekos-arch decoder says `Unknown` |
| Csr.ExceptionAgreesWithArch | nekos-kernel/src/arch/riscv64/csr.rs:73-101 | the same for the exception decoder |
| FreeListSpec.TotalConcat | nekos-kernel/src/mem/page_allocator.rs:22-28 | the free-page count of a concatenation is the sum of the parts' counts |
| FreeListSpec.Merge | nekos-kernel/src/mem/page_allocator.rs:158-165 | `extend` of region i by region i+1: i keeps its base and gains i+1's pages, i+1 disappears, the others are unchanged, and the total is unchanged |
| FreeListSpec.Insert | nekos-kernel/src/mem/page_allocator.rs:177-189 | linking a region after position k-1 puts it at k, shifts the rest up by one, and adds its pages to the total |
| FreeListSpec.Delete | nekos-kernel/src/mem/page_allocator.rs:191-202 | unlinking region k shifts the rest down by one and removes its pages from the total |
| FreeListSpec.Coalesced | nekos-kernel/src/mem/page_allocator.rs:106-122 | coalescing keeps the free-page total |
| FreeListSpec.InsertAfter | nekos-kernel/src/mem/page_allocator.rs:79-86 | the insertion point is the last region (the root included) whose base is at most the address; the next one, if any, lies above it |
| FreeListSpec.Deallocated | nekos-kernel/src/mem/page_allocator.rs:73-91 | deallocating n pages raises the free-page total by n |
| FreeListSpec.Appended | nekos-kernel/src/mem/page_allocator.rs:93-104 | appending n pages raises the free-page total by n |
| FreeListSpec.FirstFit | nekos-kernel/src/mem/page_allocator.rs:53-68 | the chosen region is the first one, among those that have a successor, with at least n pages; no earlier one has enough; with no choice, none of the examined regions has enough |
| FreeListSpec.Allocated | nekos-kernel/src/mem/page_allocator.rs:50-71 | succeeds exactly when first-fit finds a region; on failure the list is unchanged; on success the total falls by n, the root is untouched, and the n pages returned are the top of the chosen region; a larger region keeps its base and loses n pages with every other region unchanged, an exact fit is removed and the rest keep their order |
| FreeListSpec.CoalescedSplice | nekos-kernel/src/mem/page_allocator.rs:106-122 | coalescing an inserted region merges the predecessor exactly when it ends where the region begins; it then merges the successor exactly when the (possibly merged) region ends where the successor begins |
| FreeListSpec.DeallocatedSplice | nekos-kernel/src/mem/page_allocator.rs:73-91 | the same description, for a freed region at its insertion point |
| FreeListSpec.DeallocatedSeparated | nekos-kernel/src/mem/page_allocator.rs:73-91 | freeing a range that overlaps no free region keeps the regions pairwise separated |
| FreeListSpec.DeallocatedAscending | nekos-kernel/src/mem/page_allocator.rs:79-89 | freeing at an address that is not already a region's base keeps the bases strictly ascending |
| FreeListSpec.DeallocatedKeysBelow | nekos-kernel/src/mem/page_allocator.rs:73-91 | freeing below a bound keeps every base below it |
| FreeListSpec.DeallocatedEndsBelow | nekos-kernel/src/mem/page_allocator.rs:73-91 | freeing a range that ends below a bound keeps every region ending below it |
| FreeListSpec.AllocatedAscending | nekos-kernel/src/mem/page_allocator.rs:50-71 | allocation keeps the bases strictly ascending |
| FreeListSpec.AllocatedSeparated | nekos-kernel/src/mem/page_allocator.rs:50-71 | allocation keeps the regions separated |
| FreeListSpec.AllocateDeallocateRoundTrip | nekos-kernel/src/mem/page_allocator.rs:50-91 | freeing what a successful allocation returned restores the exact free list |
| FreeListSpec.ShrunkRoundTrip | nekos-kernel/src/mem/page_allocator.rs:204-213 | after `shrink`, freeing the carved pages merges them back into their region |
| FreeListSpec.UnlinkedRoundTrip | nekos-kernel/src/mem/page_allocator.rs:191-202 | after an exact-fit `remove`, freeing the region re-inserts it where it was |
| FreeListSpec.SingleRegionNeverAllocates | nekos-kernel/src/mem/page_allocator.rs:53 | with one free region behind the root, allocation always fails and changes nothing |
| FreeListSpec.RootNeverAllocated | nekos-kernel/src/mem/page_allocator.rs:50-53 | allocation never changes the root |
| FreeListSpec.RootAbsorbsAddressZero | nekos-kernel/src/mem/page_allocator.rs:37-47 | a region freed at address 0 merges into the root |
| FreeListSpec.SixteenFrameScenario | nekos-kernel/src/mem/page_allocator.rs:50-91 | freeing 16 frames into an empty allocator yields one region, from which 4 frames cannot then be allocated |
| FreeListSpec.AppendedSplice | nekos-kernel/src/mem/page_allocator.rs:93-104 | appending merges into the tail exactly when the tail ends where the new region begins |
| FreeListSpec.AppendedAscending | nekos-kernel/src/mem/page_allocator.rs:93-104 | appending above the tail's base keeps the bases ascending |
| FreeListSpec.AppendedSeparated | nekos-kernel/src/mem/page_allocator.rs:93-104 | appending at or above the tail's end keeps the regions separated |
| FreeListSpec.AppendOnEmptyListSkipsRoot | nekos-kernel/src/mem/page_allocator.rs:93-104 | on an empty list `append_node` never merges with the root, even at address 0, unlike `deallocate` |
| PageAllocator.Linked | nekos-kernel/src/mem/page_allocator.rs:177-189 | `append` writes links but no node is added or removed |
| PageAllocator.Unlinked | nekos-kernel/src/mem/page_allocator.rs:191-202 | `remove` writes links but no node is added or removed |
| PageAllocator.Extended | nekos-kernel/src/mem/page_allocator.rs:158-165 | `extend` writes sizes and links but no node is added or removed |
| PageAllocator.LinkedInserts | nekos-kernel/src/mem/page_allocator.rs:177-189 | `append` after the k-th node makes the linked nodes represent the region list with the new region inserted at k+1 |
| PageAllocator.UnlinkedDeletes | nekos-kernel/src/mem/page_allocator.rs:191-202 | `remove` of the k-th node links its neighbours to each other and clears its own links; the list represents the regions with k deleted |
| PageAllocator.ExtendedMerges | nekos-kernel/src/mem/page_allocator.rs:158-165 | `extend` of neighbours i and i+1 makes the list represent the regions with the two merged |
| PageAllocator.ShrunkReplaces | nekos-kernel/src/mem/page_allocator.rs:204-213 | lowering a node's page count changes only that region |
| PageAllocator.WriteOutside | nekos-kernel/src/mem/page_allocator.rs:138-156 | writing a node at an address outside the list leaves the list intact |
| PageAllocator.FreeListAllocator.constructor | nekos-kernel/src/mem/page_allocator.rs:37-48 | a new allocator holds only the root, at base 0 with no pages |
| PageAllocator.FreeListAllocator.Head | nekos-kernel/src/mem/page_allocator.rs:124-126 | `None` exactly on an empty list; otherwise the first node after the root |
| PageAllocator.FreeListAllocator.Tail | nekos-kernel/src/mem/page_allocator.rs:128-134 | `None` exactly on an empty list; otherwise the last node, which has no successor |
| PageAllocator.FreeListAllocator.FromAddr | nekos-kernel/src/mem/page_allocator.rs:138-156 | writes an unlinked node with the given base and size at that address |
| PageAllocator.FreeListAllocator.Append | nekos-kernel/src/mem/page_allocator.rs:177-189 | the new node memory is exactly `Linked` of the old |
| PageAllocator.FreeListAllocator.LinkAfter | nekos-kernel/src/mem/page_allocator.rs:88-89 | linking a node after the k-th keeps the representation and inserts its region at k+1 |
| PageAllocator.FreeListAllocator.Remove | nekos-kernel/src/mem/page_allocator.rs:191-202 | the new node memory is exactly `Unlinked` of the old |
| PageAllocator.FreeListAllocator.Extend | nekos-kernel/src/mem/page_allocator.rs:158-165 | the new node memory is exactly `Extended` of the old |
| PageAllocator.FreeListAllocator.Shrink | nekos-kernel/src/mem/page_allocator.rs:204-213 | lowers the page count by n and returns the new end, which lies n pages below the old end |
| PageAllocator.FreeListAllocator.Coalesce | nekos-kernel/src/mem/page_allocator.rs:106-122 | the regions become `Coalesced` of the old, and the list stays well linked |
| PageAllocator.FreeListAllocator.MergeWithPrevious | nekos-kernel/src/mem/page_allocator.rs:110-115 | merges into the predecessor exactly when the two are adjacent; otherwise nothing changes |
| PageAllocator.FreeListAllocator.MergePair | nekos-kernel/src/mem/page_allocator.rs:158-165 | `extend` on two list neighbours merges their regions and drops the right node from the list |
| PageAllocator.FreeListAllocator.MergeWithNext | nekos-kernel/src/mem/page_allocator.rs:117-121 | merges the successor exactly when the two are adjacent |
| PageAllocator.FreeListAllocator.Allocate | nekos-kernel/src/mem/page_allocator.rs:50-71 | result and new regions are `Allocated` of the old regions; order and links are kept |
| PageAllocator.FreeListAllocator.InsertionPoint | nekos-kernel/src/mem/page_allocator.rs:79-86 | the cursor loop stops at the node `InsertAfter` names |
| PageAllocator.FreeListAllocator.Deallocate | nekos-kernel/src/mem/page_allocator.rs:73-91 | new regions are `Deallocated` of the old; order and links are kept |
| PageAllocator.FreeListAllocator.AppendNode | nekos-kernel/src/mem/page_allocator.rs:93-104 | new regions are `Appended` of the old; order and links are kept |
| RiscvMem.TranslateFlags | nekos-kernel/src/arch/riscv64/mem.rs:86-104 | always VALID and READABLE; WRITABLE, EXECUTABLE and USER exactly when the corresponding kernel flags are set; never GLOBAL, ACCESSED or DIRTY; nothing above bit 7 |
| RiscvMem.TranslateIgnoresMmio | nekos-kernel/src/arch/riscv64/mem.rs:86-104 | the MMIO flag does not change the result |
| RiscvMem.Ppn | nekos-kernel/src/arch/riscv64/mem.rs:129-131 | the page number has at most 44 bits |
| RiscvMem.FlagsOf | nekos-kernel/src/arch/riscv64/mem.rs:133-135 | keeps only the low eight bits, which together with the upper bits make up the entry |
| RiscvMem.NewEntry | nekos-kernel/src/arch/riscv64/mem.rs:124-127 | for a 44-bit page number and 8-bit flags, `ppn()` and `flags()` give them back |
| RiscvMem.SetFlags | nekos-kernel/src/arch/riscv64/mem.rs:137-139 | replaces the low eight bits and keeps every other bit |
| RiscvMem.SetFlagsKeepsPpn | nekos-kernel/src/arch/riscv64/mem.rs:137-139 | `set_flags` leaves the page number unchanged |
| RiscvMem.HasFlag | nekos-kernel/src/arch/riscv64/mem.rs:141-143 | for a flag within the eight flag bits, true exactly when all its bits are set in the entry; never true for bits outside them |
| RiscvMem.IsValid | nekos-kernel/src/arch/riscv64/mem.rs:47-54 | the entry's valid bit is what `flags().contains(VALID)` tests, i.e. `has_flag(VALID)` |
| RiscvMem.FromPhysical | nekos-kernel/src/arch/riscv64/mem.rs:193-195 | the page number of a 64-bit address has at most 52 bits |
| RiscvMem.AsPhysical | nekos-kernel/src/arch/riscv64/mem.rs:197-199 | the address of a page number is page-aligned |
| RiscvMem.PhysicalRoundTrip | nekos-kernel/src/arch/riscv64/mem.rs:193-199 | the conversion there and back clears the low 12 bits, so it is the identity exactly on page-aligned addresses |
| RiscvMem.Extract | nekos-kernel/src/arch/riscv64/mem.rs:179-183 | a nine-bit index, below 512 |
| RiscvMem.Parse | nekos-kernel/src/arch/riscv64/mem.rs:157-177 | vpn0 to vpn2 are always present; vpn3 is present exactly for Sv48 and Sv57, and vpn4 exactly for Sv57; all are below 512 |
| RiscvMem.WalkIndices | nekos-kernel/src/arch/riscv64/mem.rs:21-32 | the walk visits vpn4 and vpn3 when present, then always vpn2 and then vpn1 |
| RiscvMem.LevelsPerMode | nekos-kernel/src/arch/riscv64/mem.rs:21-32 | 2, 3 or 4 intermediate levels for Sv39, Sv48 or Sv57, every index below 512 |
| RiscvMem.InstalledEntryTargets | nekos-kernel/src/arch/riscv64/mem.rs:60-62 | the entry installed for a fresh frame is valid, has only VALID set, and points to that frame |
| RiscvMem.Lookup | nekos-kernel/src/arch/riscv64/mem.rs:21-32 | a lookup that succeeds ends at an existing table, and every step it takes goes through a valid entry |
| RiscvMem.NextLevel | nekos-kernel/src/arch/riscv64/mem.rs:41-68 | fails exactly on an invalid entry when allocation is off or no frame is left, changing nothing; a valid entry changes nothing; on success the entry is valid and the result is the table it points to |
| RiscvMem.NextLevelInstalls | nekos-kernel/src/arch/riscv64/mem.rs:54-63 | an invalid entry with allocation on takes the next frame, zeroes it and installs an entry pointing to it with only VALID set |
| RiscvMem.NextLevelPreserves | nekos-kernel/src/arch/riscv64/mem.rs:41-68 | one step keeps the tables well formed, keeps every valid entry, adds exactly the frames it took, and leaves the rest of the walk walkable |
| RiscvMem.Walk | nekos-kernel/src/arch/riscv64/mem.rs:21-32 | the intermediate walk keeps the tables well formed and ends at an existing table |
| RiscvMem.WalkPreserves | nekos-kernel/src/arch/riscv64/mem.rs:21-32 | the whole walk keeps every valid entry, adds exactly the frames it took (at most one per level), and takes them from the front of the supply |
| RiscvMem.WalkFindsTable | nekos-kernel/src/arch/riscv64/mem.rs:21-32 | after a successful walk, following the same indices through valid entries reaches the returned table |
| RiscvMem.WalkIdleOnMappedPath | nekos-kernel/src/arch/riscv64/mem.rs:21-32 | when every entry on the path is already valid, the walk allocates nothing and changes nothing |
| RiscvMem.LeafEntry | nekos-kernel/src/arch/riscv64/mem.rs:34-36 | the leaf entry carries the physical page number and the translated flags |
| RiscvMem.LeafWrite | nekos-kernel/src/arch/riscv64/mem.rs:34-36 | the leaf write changes exactly one entry, and the path to the leaf table still leads there unless it runs through that entry |
| RiscvMem.MapPageSpec | nekos-kernel/src/arch/riscv64/mem.rs:8-39 | `map_page` on values keeps the tables well formed: every table has 512 entries and the frames left are unused |
| RiscvMem.MapPageEffect | nekos-kernel/src/arch/riscv64/mem.rs:8-39 | `map_page` fails exactly when the walk fails, keeping the tables the walk installed; on success exactly `entries[vpn0]` of the reached table changes, to the leaf page number and the translated flags |
| RiscvMem.MapPageSpecOfWalk | nekos-kernel/src/arch/riscv64/mem.rs:8-39 | `map_page` is the walk followed by the single leaf write |
| RiscvMem.FreshDirectory | nekos-kernel/src/mem/mod.rs:89 | the zeroed root that `allocate_pages(1, true)` returns is a page directory for any mode |
| RiscvMem.NextLevelLevelled | nekos-kernel/src/arch/riscv64/mem.rs:41-68 | a step of the walk above the last level reaches a table one level down; an installed frame gets that level and every other table keeps its level |
| RiscvMem.WalkLevelled | nekos-kernel/src/arch/riscv64/mem.rs:21-32 | the walk from a table at least as high as its indices ends that many levels down, and the tables it leaves stay levelled |
| RiscvMem.MapPageLevelled | nekos-kernel/src/arch/riscv64/mem.rs:8-39 | `map_page` from a root as high as the walk is long leaves the tables levelled, with every old table's level kept |
| RiscvMem.MapPageKeepsDirectory | nekos-kernel/src/mem/mod.rs:90-156 | every address of the mode can be walked from a page directory's root, and after `map_page` the tables are still a page directory for that root, so the next `map_page` call of `init_kernel_page_directory` can be made too |
| RiscvMem.DirectoryWalkable | nekos-kernel/src/arch/riscv64/mem.rs:8-39 | from the root of a page directory, the walk of every address of its mode meets only tables that exist |
| RiscvMem.LeafLevelWrite | nekos-kernel/src/arch/riscv64/mem.rs:34-36 | writing a leaf entry into a last-level table keeps the levels, because no walk follows it |
| RiscvMem.PageTableMemory.AllocateFrame | nekos-kernel/src/arch/riscv64/mem.rs:55 | hands out the next frame of the supply, or `None` when it is empty |
| RiscvMem.PageTableMemory.GetNextLevel | nekos-kernel/src/arch/riscv64/mem.rs:41-68 | result, tables and supply afterwards are `NextLevel` of the old state |
| RiscvMem.PageTableMemory.Descend | nekos-kernel/src/arch/riscv64/mem.rs:21-32 | one step of the walk is the first step of `Walk` |
| RiscvMem.PageTableMemory.DescendLevels | nekos-kernel/src/arch/riscv64/mem.rs:21-32 | the sequence of `get_next_level` calls equals `Walk` of the old state |
| RiscvMem.PageTableMemory.MapPage | nekos-kernel/src/arch/riscv64/mem.rs:8-39 | result, tables and supply afterwards are `MapPageSpec` of the old state |
| Mem.SeedPages | nekos-kernel/src/mem/mod.rs:57 | `length / PAGE_SIZE` with floor division, so a trailing partial page is dropped |
| Mem.Seeded | nekos-kernel/src/mem/mod.rs:47-68 | seeding adds exactly the usable entries' whole pages to the free total |
| Mem.UsablePages | nekos-kernel/src/mem/mod.rs:51-62 | the whole pages of the usable entries fit in their total length |
| Mem.UsableLength | nekos-kernel/src/mem/mod.rs:130-146 | the `usable_memory` total is at least each usable entry's length |
| Mem.SeedStep | nekos-kernel/src/mem/mod.rs:51-65 | seeding one entry of a memory map whose usable entries are sorted and disjoint keeps the list ascending and separated |
| Mem.SeededWellFormed | nekos-kernel/src/mem/mod.rs:47-68 | seeding a whole map whose usable entries are sorted and disjoint keeps the list ascending and separated, and conserves pages |
| Mem.SeedOneEntry | nekos-kernel/src/mem/mod.rs:47-68 | one usable entry at a nonzero base seeds one region of `length / PAGE_SIZE` pages |
| Mem.SeedEntry | nekos-kernel/src/mem/mod.rs:56-64 | a usable entry's whole pages are freed at its base, so the regions become `Deallocated` of the old ones; any other entry leaves them unchanged; the invariants are kept and what remains is seeding the rest of the map |
| Mem.InitPageAllocator | nekos-kernel/src/mem/mod.rs:47-68 | the allocator's regions become `Seeded` of the memory map, and stay ascending and separated |
| Mem.KernelImageOffset | nekos-kernel/src/mem/mod.rs:75-82 | defined exactly when the page-rounded blob address is not below the kernel's load address; it is then page-aligned against that address and within one page of the blob |
| Mem.MapSection | nekos-kernel/src/mem/mod.rs:91-109 | the request starts at the section's begin rounded down and ends at its end rounded up; its size is a multiple of the page size; physical plus offset is virtual; no request when either subtraction would underflow |
| Mem.KernelSections | nekos-kernel/src/mem/mod.rs:111-127 | defined exactly when all three `map_section` calls are; the requests are, in order, the code section mapped Executable, the read-only data with no flags and the data Writeable |
| Mem.KernelSectionPermissions | nekos-kernel/src/mem/mod.rs:111-127 | these become R+X, R and R+W entries |
| Mem.DirectMap | nekos-kernel/src/mem/mod.rs:132-154 | at most one request per entry, each Writeable and mapping virtual `base + hhdm_offset` to physical `base` |
| Mem.DirectMapInOrder | nekos-kernel/src/mem/mod.rs:132-154 | the direct map has one request per usable entry, in map order: the k-th request maps the k-th usable entry, whole and writable, at `base + hhdm_offset` |
| Mem.DirectMapCoversUsable | nekos-kernel/src/mem/mod.rs:132-154 | every usable entry is mapped, whole and writable, at `base + hhdm_offset` |
| Mem.UsableIndices | nekos-kernel/src/mem/mod.rs:132-136 | the positions of the usable entries, ascending, and every usable position is among them |
| Mem.DirectMapSize | nekos-kernel/src/mem/mod.rs:129-156 | the direct map's total size equals the sum of the usable lengths |
| Mem.DirectMapFromUsable | nekos-kernel/src/mem/mod.rs:132-136 | each request comes from a usable entry, with the same base and length |
| Mem.DirectMapLoop | nekos-kernel/src/mem/mod.rs:129-156 | the loop issues exactly the direct-map requests, and `usable_memory` is their total size |
| Mem.Interval | nekos-kernel/src/mem/mod.rs:173-182 | the byte addresses `[start, start + len)` |
| Mem.Zeroed | nekos-kernel/src/mem/mod.rs:173-182 | bytes in the range read 0, and every other byte is unchanged |
| Mem.AllocatePages | nekos-kernel/src/mem/mod.rs:165-185 | propagates `Allocated`; memory is unchanged on failure or when zeroing is not asked for; otherwise exactly `PAGE_SIZE * num_pages` bytes at the frame's direct-map address are cleared |
| Mem.DeallocatePages | nekos-kernel/src/mem/mod.rs:187-190 | the allocator's regions become `Deallocated` of the old |

## Left out

- CSR `read`/`write`: the inline-assembly register accesses in both CSR files are foreign code.
- The `stval`, `sepc`, `sstatus` and `stvec` wrappers of `nekos-kernel/src/arch/riscv64/csr.rs` are plain `new`/`value` holders with no logic of their own. Only `scause` is modelled.
- Other kernel files. The SBI console, logging, boot, entry points and module glue do I/O or run assembly. Only the page size is taken from `nekos-kernel/src/arch/mod.rs`.
- The range allocator (`nekos-kernel/src/mem/range_allocator.rs`) is not part of this model: its allocation functions are unimplemented (`todo!()`).
- Globals and concurrency. The spin locks, the `Once` cells, the boot-info globals and the paging-mode global are not modelled. The allocator, paging mode, memory map, section bounds and direct-map offset are parameters.
- The kernel's own trap module, which `csr.rs` imports, is not part of this model. Its enums are taken to be the nekos-arch ones.
- Machine words. Addresses in the allocator and the boot-time arithmetic are unbounded naturals. The u64 overflow of `base + PAGE_SIZE * num_pages`, `usable_memory` and `base + hhdm_offset` is not modelled. The page-table codec models the 64-bit width. The alignment helpers take and return u64 values, but they exclude the inputs where the source's arithmetic overflows or divides by zero (see Misc.AlignUp below).
- Physical memory and the direct map. The allocator's node memory is a map keyed by the node's address. Page-table frames are keyed by their physical page number. `phys_to_virt` and `translate` are taken to be injective, and the direct map is a map from addresses to bytes.
- Frame supply. The frames `allocate_pages(1)` would hand to the page-table walker are an abstract supply. The model does not connect it to the free-list allocator.
- RiscvMem.Mode: only Sv39, Sv48 and Sv57 are modelled. Other paging modes are unreachable in the source.
- RiscvMem.PageTableMemory.MapPage: the root table is a parameter instead of `KernelPageDirectory`. The debug-only alignment assertions are not modelled.
- Mem.KernelSections: the calls in `nekos-kernel/src/mem/mod.rs` pass a size to `map_page`, which the single-page `map_page` does not take. The model represents them as a list of map requests, which are not handed to the mapper.
- Mem.DirectMapLoop: the direct-map requests are not handed to the mapper either. Huge pages and length-based mapping are not modelled.
- Signature mismatches between source revisions are abstracted:
  - `deallocate` takes a `phys_to_virt` argument in its definition but not at its call sites;
  - `PageMapErr` is a unit struct in one file and an enum in another;
  - `allocate_pages(1)` is called with one argument but defined with two.
- PageAllocator.FreeListAllocator.Deallocate requires that the freed address is not already the base of a free region. Writing the new node in place would otherwise overwrite that node; the source leaves the case undefined.
- PageAllocator.FreeListAllocator.AppendNode requires the new base to lie above the tail's, which is the condition the source asserts. The panic path is not modelled.
- Csr.InterruptOfCode and Csr.ExceptionOfCode require a known code where the source panics.
- Mem.InitPageAllocator requires the usable entries of the memory map to be sorted by base and disjoint, and to lie above the allocator's regions. Entries of other types are unconstrained, since the source filters them out before reading them. The order and separation results depend on this. The boot loader promises order by base and disjointness for usable entries, but the source does not check it.
- PageAllocator.FreeListAllocator.MergeWithNext reads the successor link after the predecessor half of `coalesce`, while the source reads it before. The value is the same, because the predecessor half does not change that link.
- Trap.InterruptCode and Trap.ExceptionCode carry an `Unknown` variant that `nekos-arch/src/riscv64/trap.rs` does not declare; the decoders in `nekos-arch/src/riscv64/mod.rs` return it, so it is added. The enums have no discriminants in the source; the numbering is the architecture's.
- RiscvMem.WellFormed assumes the frames the walker receives are page-aligned, as the allocator's frames are when the memory map's usable entries are. An unaligned frame would be zeroed from its own address, not from the page its number names.
- Misc.AlignUp, Misc.AlignDown, Misc.AlignUpPage: AlignUp and AlignUpPage require `addr + align - 1` to fit in u64. The source panics there in a debug build and wraps in a release build (`nekos-kernel/src/misc.rs:3`, `:14`). AlignUp and AlignDown also require `align > 0`, where the source divides by zero. Mem.MapSection and Mem.KernelSections inherit the overflow requirement for the section ends.
- Logging and the `ubyte` formatting of sizes are output only.
