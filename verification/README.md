# Miyabi kernel: memory, loaders, scheduler and initramfs

A Dafny model of the stateful core of the Miyabi kernel, with proofs of what that core keeps over whole runs. Each C file that changes state in place is a class (or a method over arrays) whose methods are proved against a specification function or a step relation; the theorems about whole runs are lemmas over those relations.

| C source | Dafny files | main results |
|---|---|---|
| `src/mm/pmm.c` | `Pmm.dfy` | the byte bitmap refines a set of free pages; what `init_pmm` leaves free; what any run of allocations returns |
| `src/mm/vmm.c` | `Paging.dfy`, `Mapping.dfy`, `MappingRuns.dfy`, `Strays.dfy`, `Vmm.dfy` | maps and unmaps against the 4-level walk of the processor, runs of maps, isolation of user roots, effective permissions, ranges; exactly when the translation query is right and what an unmap loses |
| `src/mm/heap.c` | `HeapLists.dfy`, `HeapPages.dfy`, `Heap.dfy` | the block list is a canonical form; frees commute; a free undoes an allocation exactly; every byte of the heap is mapped, also for roots that share its PML4 slot |
| `src/elf/loader.c` | `Elf.dfy`, `ElfFormat.dfy`, `ElfLoader.dfy`, `Programs.dfy` | parsing undoes writing; after a load of a written executable the walk reads every segment back, byte by byte and flag by flag |
| `src/modules/loader.c` | `ModuleLayout.dfy`, `Relocations.dfy`, `ModuleLoader.dfy`, `ModuleFormat.dfy` | layout passes agree, every relocated field of a loaded image holds the ABI's value, which modules are accepted, in terms of the fields as written, relocations are confined and order-independent, loading is transactional on the heap |
| `src/arch/x86_64/thread.c`, `switch.asm` | `SchedulerModel.dfy`, `SchedulerRuns.dfy`, `ThreadStacks.dfy`, `Scheduler.dfy` | queue and stack invariant over every run, threads resume where they left, bounded waiting; stacks come from the heap |
| `src/fs/initramfs.c` | `Names.dfy`, `Ustar.dfy`, `InitramfsTable.dfy`, `Initramfs.dfy` | reading an archive undoes writing it; parents of every name are in the table |
| `src/fs/vfs.c` | `PathWalk.dfy`, `Vfs.dfy` | exactly when a component-wise walk finds what a flat search finds |

`Bytes.dfy` holds the machine integers: bytes, little-endian words, and bitwise operations defined on unbounded naturals.

The code and its specification share definitions such as a parsed header, a table entry, a rounded size or a symbol's value. What those definitions mean is stated as well, in numbers, bits and bytes and without them: `Programs.LoadProgram` for a load, `ModuleFormat.LoadedEntry` and `ModuleFormat.AcceptsExactly` for a module, `Mapping.MappedTo` (in the contract of `Vmm.Vmm.MapPage`) and `Mapping.WalkSpelled` for a table entry, `Pmm.InitialExactly` for the memory map, `HeapLists.AllocInNumbers` for an allocation, `InitramfsTable.Recorded` and `InitramfsTable.MetaSkipped` for an archive.

How the state is represented:

- Physical memory is a map from frame numbers to 4096 bytes; table entries are the little-endian 64-bit words in them. The abstract view of a root is `Walk`, the translation the processor computes (Intel SDM Volume 3A, sections 4.5 and 4.6): it takes bits 12 to 51 of an entry as the frame (`Frame`), where the code takes bits 12 to 63 (`Masked`). A ghost map gives every table the one place in one address space it serves (`Tag`); tables below the upper half of a PML4 are tagged as shared. This typing is what makes framing provable: a slot of a table is visited only by walks for the pages it serves.
- The heap is a map from addresses to block headers, linked by address; a ghost list of blocks in address order is what the theorems speak about. `CanonicalUnique` says that the heap bounds and the live blocks determine that list, so an allocation or a free is specified by the live set alone.
- A module is relocated in a byte array; the specification is the list of patches (`Run`) and their application in order (`ApplyAll`).
- The scheduler is a list of thread objects linked by `next`, plus the stack pointer, the callee-saved registers, the return address, and memory in 8-byte words. The running thread may do anything to its registers and to all memory but the stacks of other threads (`WorkStep`).
- The initramfs is an array of 128 nodes and a counter; `Table` is the table an archive stands for and `Cut` what fits into the array.

Where the code does not do what one would expect:

- `init_pmm` marks the pages of the bitmap as used and then offers them again in its last pass. `Pmm.ReservationUndone` shows that this happens on every memory map it accepts. `Pmm.BitmapHandedOut` adds that a long enough run of allocations hands each of them out, and `Pmm.SmallMap` is such a memory map. Nothing else in the model relies on the reservation; `Vmm.Valid` assumes that free frames hold no tables.
- The overlap test of `init_pmm` compares physical regions with the kernel's link addresses (src/linker.ld:12-14) and never excludes anything (`Pmm.KernelNeverMet`).
- `init_pmm` also offers memory that the boot loader marked reclaimable (`Pmm.AcceptedHandedOut`), and the page tables that `init_vmm` takes over from CR3 may lie there. That no free frame holds a table is therefore an assumption about the boot loader (`Vmm.constructor`, kept by every method from then on), not something the code provides.
- `vmm_virt_to_phys` follows entries without looking at their present bits, its null tests cannot fire, and its mask keeps bits 52 to 63. Three inputs show that it fails: `Strays.QueryStrays` (a missing table; a frame is read out of frame 0), `Strays.QueryStale` (all tables exist, and the last entry has frame bits without the present bit) and `Strays.QueryNx` (a mapped page with `PTE_NX`; bit 63 stays in the answer). `Strays.QueryRightIff` is the exact condition. `Tidy` says that no entry without the present bit has any bit set, `Low` that none has a bit from 52 up; maps, unmaps and new roots keep both, maps with `PTE_NX` only the first (`TidyKept` in `MapStep`, `UnmapStep`, `RootStep`; `MappingRuns.RunTidy`). On tidy trees `Strays.QueryExact` says: with all tables, right exactly if the entry has no bits from 52 up; with the first missing table at level `l`, exactly if following frame 0 from level `l - 1` down ends in an entry without bits from 12 up. So it is always right on tidy trees without high bits over a frame 0 of zeros (`Strays.QueryOverZeros`), and after a map exactly if the flags have no such bits (`Strays.MappedAnswer`).
- `vmm_unmap_page` writes a zero to the slot found the same way. With all tables that is the entry of the page. Otherwise it writes to the frame found from frame 0 down, and `Strays.UnmapStrays` says what that does: exactly the pages walked through the slot are lost, so it is harmless exactly if no mapped page is walked through it, as with a frame that is no table, and always over a frame 0 of zeros (`Strays.UnmapOverZeros`). `Strays.UnmapLoses` is a memory in which unmapping a page that is not mapped unmaps another one.
- `elf_load` never reads its `user_pml4` argument. Pages are mapped under the root that is current when it is called, and the model does the same.
- A path whose first component consists of dots only is treated differently by a walk and by a flat search. `PathWalk.DotsStray` is the counterexample, `PathWalk.DotsMiss` the reason, and `PathWalk.WalkFinds` the exact condition for every path.
- `schedule` searches for ever when every thread is dead. `SchedulerModel.NextExists` says that this is the only such case, and `SchedulerModel.SchedulingEnds` that a state of the invariant always schedules and can exit exactly if another thread lives. Any thread may exit, the boot thread included.
- Two roots share an upper-half PML4 slot only if it was there when the second one was created. What is mapped behind such a slot is seen by both for ever (`MappingRuns.SharedForever`), which is why the heap may grow under a user root (`HeapPages.HeapGrowsForKernel`); a slot that was missing is filled for one root only.
- Payloads of the heap are multiples of 8 over every run (`HeapLists.RunAligned`), but the first one is no multiple of 16 (`HeapLists.FirstPayload`), so a module section that asks for 16 is misplaced there (`ModuleLayout.AlignedUpToEight`).
- The initramfs keeps only the first 128 nodes. Nothing assumes fewer: what is left is `Cut(Table(…))`, and it is still closed under parents.

## Model

| member | source | states |
|---|---|---|
| Bytes.LeDigit | src/elf/loader.c:10-33 | byte i of a stored little-endian word is its digit i to base 256 |
| Bytes.BitIs | src/mm/vmm.c:31-39 | bit k of a word is its binary digit k |
| Pmm.SetBit | src/mm/pmm.c:34-36 | setting the bit of a page marks that page and no other as in use |
| Pmm.ClearBit | src/mm/pmm.c:38-40 | clearing the bit of a page frees that page and no other |
| Pmm.Pmm.BitmapSet | src/mm/pmm.c:34-36 | in the array: exactly the given page becomes used |
| Pmm.Pmm.BitmapClear | src/mm/pmm.c:38-40 | in the array: exactly the given page becomes free |
| Pmm.Pmm.BitmapTest | src/mm/pmm.c:42-44 | answers whether the page is in use |
| Pmm.Pmm.Alloc | src/mm/pmm.c:52-60 | returns the lowest free non-zero page and takes it out of the free set, or NULL exactly when none is free |
| Pmm.Pmm.FindHighest | src/mm/pmm.c:77-85 | the first pass finds the end of the highest region |
| Pmm.Pmm.FindRegion | src/mm/pmm.c:91-117 | finds the first usable kernel-free region that holds the bitmap, or none exactly if there is none |
| Pmm.Pmm.FillOnes | src/mm/pmm.c:126-128 | every page starts as used |
| Pmm.Pmm.ClearInside | src/mm/pmm.c:138-151 | frees exactly the pages the entry covers |
| Pmm.Pmm.ClearUsable | src/mm/pmm.c:130-152 | afterwards exactly the pages of usable aligned kernel-free regions are free |
| Pmm.Pmm.Reserve | src/mm/pmm.c:154-158 | marks the pages of the bitmap and page 0, and no others |
| Pmm.Pmm.ClearAccepted | src/mm/pmm.c:160-182 | afterwards a page is free exactly when an accepted region covers it |
| Pmm.Pmm.ClearRegion | src/mm/pmm.c:178-180 | frees exactly the pages of the region |
| Pmm.Pmm.Passes | src/mm/pmm.c:77-182 | fails exactly when no region holds the bitmap; otherwise a bit is clear exactly when its page lies in an aligned, kernel-free region of an accepted type, which InitialExactly says in terms of the map |
| Pmm.Pmm.Init | src/mm/pmm.c:66-185 | halts exactly when the boot loader gave no memory map or no offset or no region holds the bitmap; otherwise leaves what the passes leave |
| Pmm.InitialExactly | src/mm/pmm.c:26-32 | what is left to hand out: page 0 never, and any other page exactly if base <= page * 4096 and page * 4096 + 4096 <= base + length for a usable or reclaimable entry no inner page of which holds a byte of the kernel |
| Pmm.SizesExact | src/mm/pmm.c:77-89 | the page count and the pages of the bitmap are the least that reach the highest end of a region and a bit for every page |
| Pmm.HoldsExactly | src/mm/pmm.c:94-117 | an entry holds the bitmap exactly if it is usable, kernel-free and has that many pages from the first page inside it on; the bitmap starts at that page |
| Pmm.KernelNeverMet | src/mm/pmm.c:62-64 | with the kernel's link addresses the overlap test never excludes a region |
| Pmm.AcceptedHandedOut | src/mm/pmm.c:160-182 | every page but page 0 of a region of an accepted type can be handed out, boot-loader memory included |
| Pmm.ReservationUndone | src/mm/pmm.c:154-182 | on every accepted memory map all pages reserved for the bitmap are offered again |
| Pmm.BitmapHandedOut | src/mm/pmm.c:154-182 | a run of allocations that uses up the frames hands out every page of the bitmap but page 0 |
| Pmm.SmallMap | src/mm/pmm.c:91-182 | a concrete accepted memory map, with the kernel at its link address, whose bitmap page is the first frame handed out |
| Pmm.RunIncreases | src/mm/pmm.c:52-60 | over any run of allocations: strictly increasing, non-zero, initially free frames, then NULL for ever, exactly once all of them are used up |
| Paging.NewTableEntryBits | src/mm/vmm.c:33-34 | the entry of a new table leads to its frame, present, writable, user, not large |
| Paging.OpenedEntryBits | src/mm/vmm.c:36 | opening an entry to user writes keeps its frame, its present bit and its size bit |
| Paging.SlotServesOnePage | src/mm/vmm.c:63-74 | a page table slot serves one page of one root, or the same upper-half page of all roots |
| Paging.Unvisited | src/mm/vmm.c:63-74 | a write to one table slot leaves every walk alone that does not go through the slot |
| Paging.EnsuredKeeps | src/mm/vmm.c:31-39 | allocating or opening a table keeps every leaf of every page and narrows no permission |
| Mapping.IndexOfVpn | src/mm/vmm.c:64-67 | the shifted and masked address bits are the indices of its page at each level |
| Mapping.IndexBits | src/mm/vmm.c:64-67 | the index at each level is nine bits of the address, from bit 12, 21, 30 and 39 on |
| Mapping.UpperIsBit47 | src/mm/vmm.c:47-53 | the PML4 slots that are shared are those of addresses with bit 47 set |
| Mapping.WalkSpelled | src/mm/vmm.c:63-74 | the walk of a 4 KiB page in numbers: four 64-bit words, present bits, next frames, and the access as the AND over all levels |
| Mapping.NewTable | src/mm/vmm.c:32-34 | linking a blank frame into an empty slot keeps the tree well formed and every translation |
| Mapping.OpenTable | src/mm/vmm.c:35-37 | or-ing user and write into an entry keeps the tree well formed and every leaf |
| Mapping.EnsuredMissing | src/mm/vmm.c:31-39 | an allocated table is one less to allocate on the way to the page, an opened one changes nothing about that |
| Mapping.TidyAfter | src/mm/vmm.c:31-92 | a write of a present or zero entry, with a blank table at most, leaves a tidy tree tidy, and one without high bits as it is if the entry has none |
| Mapping.LeafSet | src/mm/vmm.c:63-74 | once the three tables are there, one write makes the page translate to the entry and changes no other leaf |
| Mapping.PageEntryBits | src/mm/vmm.c:73 | the entry written by a map holds the frame of the physical address, the given user and write flags, and is present; it has bits from 52 up exactly if the flags have |
| Mapping.PageEntryBit | src/mm/vmm.c:73 | bit k of the entry a map writes is set exactly if k is 0, or it is set in the flags, or k is at least 12 and it is set in the physical address |
| Mapping.NewTableBit | src/mm/vmm.c:33-34 | bits 0 to 2 and the address of the frame, and no other bit |
| Mapping.OpenedBit | src/mm/vmm.c:36 | the bits of the entry, and bits 1 and 2 |
| Mapping.LeafMappedTo | src/mm/vmm.c:73 | every bit of the leaf that a walk finds after a map |
| Mapping.LeafCleared | src/mm/vmm.c:76-92 | clearing the page table entry unmaps the page and changes no other translation |
| Mapping.RootAdded | src/mm/vmm.c:41-56 | a copy of the upper half under a blank lower half is a root that shares the upper half and changes no translation |
| Vmm.Vmm.AllocPageTable | src/mm/vmm.c:10-23 | a zeroed frame that was free, or a halt exactly when none is |
| Vmm.Vmm.AddTable | src/mm/vmm.c:32-34 | an empty slot gets a blank table made from a free frame; halts exactly when no frame is free |
| Vmm.Vmm.EnsureTable | src/mm/vmm.c:31-39 | the slot leads to a table open to user writes, all translations are kept; a frame is taken exactly if the slot was empty, and only then can it halt |
| Vmm.Vmm.EnsurePath | src/mm/vmm.c:64-71 | the three tables of the page exist afterwards, exactly the missing ones take a frame, and it halts exactly if there are fewer frames than that; all translations are kept even then |
| Vmm.Vmm.MapPage | src/mm/vmm.c:63-74 | the page translates to an entry whose every bit is given: bit 0, the bits of the flags, and the bits of the physical address from 12 on; every other page keeps its leaf and narrows no permission; lower-half maps are invisible to other roots; halts exactly if fewer frames are free than tables are missing; a tidy tree stays tidy |
| Vmm.Vmm.UnmapPage | src/mm/vmm.c:76-92 | with all tables: the page is unmapped, its tables stay, no other translation changes; in every case exactly the pages walked through the written slot are lost, and it faults exactly where a followed pointer leaves memory |
| Vmm.Vmm.FindEntry | src/mm/vmm.c:82-89 | the page table found by following every entry |
| Vmm.Vmm.ClearSlot | src/mm/vmm.c:91 | a zero in any slot of any frame leaves the tree well formed |
| Vmm.Vmm.VirtToPhys | src/mm/vmm.c:94-110 | returns the frame bits of the raw page table entry, whatever the entries above say |
| Vmm.Vmm.CreateUserPml4 | src/mm/vmm.c:41-56 | the new root translates the upper half as the current root and nothing in the lower half; 0 exactly when no frame is free |
| Vmm.Vmm.CopyUpperHalf | src/mm/vmm.c:47-53 | 256 zero entries and 256 copied ones, in no other frame |
| Vmm.Vmm.SwitchPml4 | src/mm/vmm.c:58-61 | later maps go to the given root |
| Vmm.Vmm.MapRange | src/mm/vmm.c:112-120 | page i of the range translates to frame i of the run, every other page keeps its leaf, for every size rounded up to pages |
| MappingRuns.RangeBits | src/mm/vmm.c:112-120 | the same for every bit of every page of a mapped range |
| Vmm.Vmm.UnmapRange | src/mm/vmm.c:122-128 | the unmaps of all pages one after the other; with all tables exactly the pages of the range are unmapped |
| Vmm.Vmm.MapAndUnmapRange | src/mm/vmm.c:112-128 | after a map of unmapped pages the unmap of the same range is allowed, and both together restore every translation |
| MappingRuns.RunTranslates | src/mm/vmm.c:63-74 | over any run of maps the page tables are a map from pages to entries in which the last write wins |
| MappingRuns.RunPermissions | src/mm/vmm.c:31-74 | where pages have the access their leaves state, that stays so over any run, and other pages do not change at all |
| MappingRuns.OpenPathIsEffective | src/mm/vmm.c:33-37 | if all table entries on a path carry user and write, the AND over the levels is the leaf's own flags |
| MappingRuns.RunTidy | src/mm/vmm.c:31-74 | any run of maps leaves a tidy tree tidy, and a tree without bits from 52 up without them if no map brings any |
| MappingRuns.RunIsolated | src/mm/vmm.c:63-74 | lower-half maps under one root change nothing under any other root, nor in the upper half |
| MappingRuns.UserSpaceIsolated | src/mm/vmm.c:41-74 | after creating a user root and any run of lower-half maps under it, the kernel root translates as before and both agree on the upper half |
| MappingRuns.UpperSeen | src/mm/vmm.c:41-74 | a mapped upper-half page is seen by every other root whose PML4 slot leads to the same table, with the access of that slot, and stays unmapped in roots without the slot |
| MappingRuns.SharedPages | src/mm/vmm.c:51-53 | roots that share a PML4 slot translate all its pages to the same leaves |
| MappingRuns.SharedForever | src/mm/vmm.c:41-74 | a slot present when a user root is created stays shared over every run of maps under that root, a missing one stays missing in the kernel root |
| MappingRuns.RangeHasTables | src/mm/vmm.c:112-128 | after a range has been mapped, all tables that unmapping it needs exist |
| MappingRuns.MapThenUnmap | src/mm/vmm.c:112-128 | unmapping a freshly mapped range restores the original translation |
| Strays.QueryRightIff | src/mm/vmm.c:94-110 | the query answers the physical address of a mapped page and 0 otherwise exactly if the page is mapped by an entry without bits from 52 up, or the entry it ends at has no bits from 12 up |
| Strays.QueryAgrees | src/mm/vmm.c:94-110 | where the tables exist, a mapped page gets its address exactly if its entry has no bits from 52 up |
| Strays.QueryExact | src/mm/vmm.c:94-110 | on a tidy tree: with all tables exactly if the entry has no bits from 52 up, below a missing table exactly if following frame 0 ends without bits from 12 up |
| Strays.QueryOverZeros | src/mm/vmm.c:94-110 | on a tidy tree without high bits over a frame 0 of zeros it is right for every page |
| Strays.MappedAnswer | src/mm/vmm.c:63-110 | after a map of page v to p the query for v returns the frame of p exactly if no flag lies above the address bits |
| Strays.QueryStrays | src/mm/vmm.c:100-109 | counterexample with a missing table: a frame is answered for an unmapped page |
| Strays.QueryStale | src/mm/vmm.c:109 | counterexample with all tables: a frame is answered for an entry that is not present |
| Strays.QueryNx | src/mm/vmm.c:109 | counterexample with a mapped page: with PTE_NX bit 63 is part of the answer |
| Strays.ZeroedWalk | src/mm/vmm.c:91 | zeroing a slot of any frame unmaps exactly the pages whose walks read it |
| Strays.StrayHarmless | src/mm/vmm.c:82-91 | the write changes no translation exactly if no mapped page of any root is walked through the slot |
| Strays.IdleSlots | src/mm/vmm.c:82-91 | so it does for a frame that is no table and for an empty slot |
| Strays.UnmapStrays | src/mm/vmm.c:76-92 | on a tidy tree with a missing table the write goes to the frame found from frame 0 down; harmless exactly if its slot is idle, and a page whose entry that slot is gets lost |
| Strays.UnmapOverZeros | src/mm/vmm.c:76-92 | over a frame 0 of zeros an unmap through a missing table changes no translation |
| Strays.UnmapLoses | src/mm/vmm.c:76-92 | counterexample: unmapping a page that is not mapped unmaps another one |
| HeapLists.AlignUpIs | src/mm/heap.c:17-19 | the least multiple that is not below the value |
| HeapLists.AllocInNumbers | src/mm/heap.c:50-99 | the payload lies 24 bytes into the lowest free block that is big enough, cut to the request rounded up to 16 if 40 bytes are left over; without such a block it lies in new pages at the end of the heap, the fewest that do |
| HeapLists.HeadersOutsidePayloads | src/mm/heap.c:50-117 | in a tiled list no header lies in a live payload and payloads are disjoint |
| HeapLists.CanonicalUnique | src/mm/heap.c:50-117 | the list is determined by the heap bounds and the live blocks |
| HeapLists.AllocSize | src/mm/heap.c:55-98 | an allocation adds one live block, at least as big as the request and less than 40 bytes over the rounded request |
| HeapLists.FreeRemoves | src/mm/heap.c:101-117 | a free takes exactly the block of that payload out of the live set |
| HeapLists.AllocThenFree | src/mm/heap.c:50-117 | freeing what was just allocated restores the exact list, plus the new pages as free space if the heap grew |
| HeapLists.RunLive | src/mm/heap.c:101-117 | a run of frees leaves exactly the other live blocks |
| HeapLists.FreeOrderIrrelevant | src/mm/heap.c:101-117 | freeing a set of blocks in any order gives the same list |
| HeapLists.FreeAll | src/mm/heap.c:101-117 | freeing all blocks gives one free block over the whole heap |
| HeapLists.TakenCanonical | src/mm/heap.c:62-71 | cutting a free block keeps the list canonical and adds one live block |
| HeapLists.MergedTiled | src/mm/heap.c:111-114 | merging two neighbours keeps the tiling and the live blocks |
| HeapLists.AllocAligned | src/mm/heap.c:50-99 | an allocation keeps all blocks at multiples of 8 and hands out such a payload |
| HeapLists.RunAligned | src/mm/heap.c:50-117 | over every run of allocations and frees all payloads are multiples of 8 |
| HeapLists.FirstPayload | src/mm/heap.c:10-72 | the first payload of a fresh heap is no multiple of 16 |
| HeapPages.HeapGrows | src/mm/heap.c:27-35 | one more page of the heap is mapped writable, for the kernel only, to a frame no other heap page has and that is neither free nor a table |
| HeapPages.OwnedBits | src/mm/heap.c:27-35 | the flags of a heap page are present and writable and nothing else |
| HeapPages.HeapSurvivesMap | src/mm/vmm.c:63-74 | maps outside the heap leave it mapped as it is |
| HeapPages.HeapUnderUser | src/mm/vmm.c:41-56 | a user root starts out with the whole heap |
| HeapPages.HeapGrowsForKernel | src/mm/heap.c:27-35 | a heap grown under a user root is translated exactly alike by the kernel root |
| Heap.RelinkTaken | src/mm/heap.c:62-71 | the split edits the header of the block and writes one inside it; the list in memory is the cut list |
| Heap.RelinkMerged | src/mm/heap.c:111-114 | the merge edits one header; the list in memory is the merged list |
| Heap.Heap.constructor | src/mm/heap.c:14-15 | an empty heap at its start address |
| Heap.Heap.AddPage | src/mm/heap.c:27-35 | the page at the end of the heap is mapped to a free frame; halts only with no frame left, and never with four |
| Heap.Heap.Expand | src/mm/heap.c:21-43 | adds the bytes rounded up to pages behind the heap, all mapped; halts only with no frame left, and never with four frames for each page |
| Heap.Heap.Init | src/mm/heap.c:45-48 | one free block over the initial 16 MiB, under the same halting conditions |
| Heap.Heap.BlockMapped | src/mm/heap.c:50-117 | every byte of every block, header and payload, lies in a mapped writable page of the heap |
| Heap.Heap.Take | src/mm/heap.c:62-71 | cuts the found block in place, keeping the heap valid |
| Heap.Heap.Kmalloc | src/mm/heap.c:50-99 | first fit, or growth at the end, as a step of the canonical form; without growth it never halts and takes no frame, with growth it halts only with no frame left |
| Heap.Heap.Grow | src/mm/heap.c:78-98 | new mapped pages behind the last block, cut to size |
| Heap.Heap.Kfree | src/mm/heap.c:101-117 | removes the block from the live set and leaves the list canonical |
| Heap.Heap.MergeNext | src/mm/heap.c:112-113 | one merge in memory |
| Heap.Heap.Coalesce | src/mm/heap.c:109-116 | no two adjacent free blocks are left, live blocks are kept |
| ElfFormat.EhdrReads | include/elf/elf.h:60-75 | parsing a file header undoes writing its fourteen fields in order |
| ElfFormat.PhdrReads | include/elf/elf.h:146-155 | parsing a program header undoes writing its eight fields in order |
| ElfFormat.ShdrReads | include/elf/elf.h:77-88 | parsing a section header undoes writing its ten fields in order |
| ElfFormat.SymReads | include/elf/elf.h:90-97 | parsing a symbol undoes writing its six fields in order |
| ElfFormat.RelaReads | include/elf/elf.h:116-124 | parsing a relocation entry undoes writing it, symbol index, kind and signed addend |
| Programs.LoadProgram | src/elf/loader.c:10-83 | loads a file that was written as a header and program headers: the entry point is that of the header, every address of a segment of type 1 reads the file byte below the file size and zero above it, its page is user-accessible and writable exactly if bit 1 of the flags is set, no other bit of its flags is set, every other page keeps its leaf; 0 and no change exactly for what is no executable |
| Programs.HeaderSeen | src/elf/loader.c:13-24 | a written file is accepted exactly if it starts with 7F 45 4C 46, its machine is 62 and its type 2 |
| Programs.PageShows | src/elf/loader.c:40-76 | one address of a segment: the byte it reads and the bits of its page |
| Programs.LoadedBits | src/elf/loader.c:42-48 | every flag bit of a loaded page |
| ElfLoader.Load | src/elf/loader.c:10-83 | rejects exactly what is no x86-64 executable, otherwise loads all segments, changes nothing else and returns the entry point |
| ElfLoader.LoadHeader | src/elf/loader.c:28-79 | one program header: earlier segments stay loaded, loadable ones are added |
| ElfLoader.LoadSegment | src/elf/loader.c:30-77 | every page of the segment is loaded |
| ElfLoader.LoadPage | src/elf/loader.c:40-76 | the page is mapped to a fresh frame with the flags of the segment and holds its part of it |
| ElfLoader.ZeroFrame | src/elf/loader.c:50-53 | a frame of zeros |
| ElfLoader.CopyIntoFrame | src/elf/loader.c:70-75 | copies a piece of the file into a frame and no more |
| ElfLoader.FillPage | src/elf/loader.c:50-76 | the clip into the page is exactly the part of the file range that falls into it, zeros around it |
| ElfLoader.MapNewFrame | src/elf/loader.c:41-48 | a frame that was free is mapped with user access, and write access exactly for writable segments |
| ElfLoader.DataWriteKeeps | src/elf/loader.c:50-75 | writing the bytes of a frame that is no table changes no translation |
| ElfLoader.LoadedStays | src/elf/loader.c:28-79 | a loaded page survives whatever is loaded elsewhere later |
| ElfLoader.ReadsBack | src/elf/loader.c:28-79 | after a load, reading any address of any segment through the walk gives the file byte, or zero outside the file range up to the end of the last page |
| ElfLoader.PagesCoverSegment | src/elf/loader.c:35-38 | the pages of a segment cover its memory range |
| ElfLoader.PagesExact | src/elf/loader.c:35-38 | and no page that the memory range does not meet |
| ElfLoader.PageFlagsBit | src/elf/loader.c:42-46 | present, user, and write exactly for writable segments |
| ModuleLayout.PaddedRounds | src/modules/loader.c:75-77 | for powers of two the mask rounds up to the next multiple |
| ModuleLayout.PlacesFit | src/modules/loader.c:67-114 | allocatable sections get disjoint ranges inside the allocation at multiples of their alignment |
| ModuleLayout.PlaceLeast | src/modules/loader.c:93-97 | a section starts at the least multiple of its alignment from the end of the one before on |
| ModuleLayout.OffsetIsEnd | src/modules/loader.c:91-113 | that is the end of the last allocatable section before it |
| ModuleLayout.SizePositive | src/modules/loader.c:65-85 | there is something to allocate exactly if some allocatable section is not empty |
| ModuleLayout.AddressAligned | src/modules/loader.c:93-97 | the address of a section is aligned exactly if the base of the allocation is |
| ModuleLayout.AlignedUpToEight | src/modules/loader.c:93-97 | at a base like the first payload of the heap a section is aligned exactly if it asks for at most 8 |
| ModuleLayout.SizePass | src/modules/loader.c:65-80 | rejects exactly the modules with an allocatable section outside the file, else gives the size of the image |
| ModuleLayout.PlacePass | src/modules/loader.c:90-114 | its final offset is the size of the sizing pass, and every section is copied to its place |
| ModuleLayout.FillSection | src/modules/loader.c:99-110 | the bytes of the section, or zeros, and nothing else is touched |
| Relocations.Untouched | src/modules/loader.c:228-250 | bytes no patch touches keep their value |
| Relocations.PatchedField | src/modules/loader.c:228-250 | with disjoint patches every patch is there in the end |
| Relocations.OrderIrrelevant | src/modules/loader.c:152-252 | the order of disjoint relocations does not matter |
| Relocations.PatchInTarget | src/modules/loader.c:214-223 | no relocation writes outside the placed range of its target section |
| Relocations.PatchesInside | src/modules/loader.c:152-252 | nor does any of a whole module |
| Relocations.FieldReadsBack | src/modules/loader.c:228-244 | a patched field reads back as S + A or S + A - P, modulo its width |
| Relocations.NameFound | src/modules/loader.c:190 | a symbol name starts at its offset and runs up to its first NUL |
| Relocations.NameUnique | src/modules/loader.c:190 | there is only one such name |
| Relocations.RunDone | src/modules/loader.c:152-252 | the relocations of a module run through exactly if those of each section do |
| Relocations.LoadedBytes | src/modules/loader.c:90-252 | the relocated image byte by byte: the byte of a patch where one touches it, the section byte or zero elsewhere |
| Relocations.RelocatedField | src/modules/loader.c:152-252 | with disjoint patches, the field of every entry of every relocation section of a loaded section reads back as S + A or S + A - P |
| Relocations.RunAnyBase | src/modules/loader.c:152-252 | whether all relocations resolve does not depend on the address of the image |
| ModuleLoader.AcceptsAnyBase | src/modules/loader.c:50-252 | nor does whether the module can be loaded |
| ModuleLoader.LoadedFields | src/modules/loader.c:152-252 | in the image load_module leaves, every relocation entry has its field relocated; LoadedEntry says with what value |
| ModuleFormat.ModuleSeen | src/modules/loader.c:11-47 | a written module is accepted by the header checks exactly if its fields are in order, and its sections are those that were written |
| ModuleFormat.SymbolSeen | src/modules/loader.c:185-212 | the value of a symbol: st_value for SHN_ABS, the kernel's non-zero address of its name for SHN_UNDEF, otherwise base + place of the section + st_value; rejected exactly where there is none |
| ModuleFormat.LoadedEntry | src/modules/loader.c:171-251 | in the image of a written module every entry has its field: S + A in 8 or 4 bytes, or S + A - P in 4 bytes by its kind, with S by the kind of its symbol |
| ModuleFormat.LoadedByte | src/modules/loader.c:99-110 | and every byte that no entry patches is zero in a NOBITS section and the byte of the file otherwise |
| ModuleFormat.AcceptsExactly | src/modules/loader.c:64-252 | a written module is accepted exactly if its header, ranges, first symbol table, string table and every entry are in order, each condition spelled out |
| ModuleLoader.LoadedRest | src/modules/loader.c:90-114 | and every other byte of a loaded section is that of the file, or zero |
| ModuleLoader.ResolveIs | src/modules/loader.c:214-250 | the switch of the loader, in its wrapping arithmetic, is the calculation of the ABI |
| ModuleLoader.SumModulo | src/modules/loader.c:232-244 | the wrapping 64-bit sums of the code are the signed calculation of the ABI, modulo 2^64 and 2^32 |
| ModuleLoader.CheckHeader | src/modules/loader.c:11-48 | accepts exactly the 64-bit x86-64 relocatable files with a section table inside the file |
| ModuleLoader.FindSymtab | src/modules/loader.c:116-124 | the first symbol table, if there is one |
| ModuleLoader.FindSymbol | src/modules/loader.c:185-212 | fails exactly on the names, sections and externals the loader rejects, else gives the value of the symbol |
| ModuleLoader.Relocate | src/modules/loader.c:171-250 | one entry in place: rejected, skipped or stored exactly as the ABI calculation says |
| ModuleLoader.RelocateEntry | src/modules/loader.c:171-251 | one entry more is applied to the image, or rejected |
| ModuleLoader.RelocateSection | src/modules/loader.c:168-251 | applies all entries of a section in order or fails where one is bad |
| ModuleLoader.RelocateAll | src/modules/loader.c:152-252 | applies the whole module or fails exactly where an entry or a section is bad |
| ModuleLoader.BuildImage | src/modules/loader.c:90-252 | succeeds exactly on acceptable modules, and then the block holds their image |
| ModuleLoader.GiveBack | src/modules/loader.c:126-147 | the free on a failure path restores the live blocks, and the exact list if the heap did not grow |
| ModuleLoader.AddDescriptor | src/modules/loader.c:256-261 | one more block, or a halt with no frame left |
| ModuleLoader.LoadIntoBlock | src/modules/loader.c:82-261 | gives the block back on failure, adds the descriptor on success |
| ModuleLoader.LoadModule | src/modules/loader.c:50-316 | NULL only for modules that cannot be loaded anywhere, and then the live blocks are those of before; halts only with no frame left, and never with enough for both blocks; otherwise the heap gained the image and the descriptor |
| ModuleLoader.LoadModuleFromFile | src/modules/loader.c:318-352 | success adds exactly the image block and the descriptor, failure adds nothing; the same halting conditions with the file buffer |
| SchedulerModel.PopUndoesPush | src/arch/x86_64/switch.asm:7-26 | the pops and the return restore what the call and the pushes saved |
| SchedulerModel.NextExists | src/arch/x86_64/thread.c:85-97 | the search has an answer exactly if some thread is not dead |
| SchedulerModel.NextUnique | src/arch/x86_64/thread.c:85-97 | and only one |
| SchedulerModel.SchedulingEnds | src/arch/x86_64/thread.c:71-97 | in every state of the invariant a schedule finds a thread, and an exit does exactly if another thread is not dead |
| SchedulerModel.SwitchKeepsInv | src/arch/x86_64/thread.c:103-110 | a switch keeps the invariant |
| SchedulerModel.StepKeepsInv | src/arch/x86_64/thread.c:28-111 | create, tick, exit and work keep it: ids strictly increase along the queue, exactly the current thread is running, stacks are disjoint, every ready thread has a switch frame on its own stack |
| SchedulerModel.StackUntouched | src/arch/x86_64/thread.c:28-111 | no step writes to the stack of a thread that does not run |
| SchedulerRuns.RunKeepsInv | src/arch/x86_64/thread.c:28-111 | the invariant holds in every state of every run |
| SchedulerRuns.ResumesWhereItLeft | src/arch/x86_64/switch.asm:7-26 | a thread switched back in has the stack pointer, callee-saved registers and return address it left with |
| SchedulerRuns.StartsAtEntry | src/arch/x86_64/thread.c:47-60 | a new thread starts at its entry point with kthread_exit as its return address |
| SchedulerRuns.DeadStaysDead | src/arch/x86_64/thread.c:71-78 | a dead thread never runs again |
| SchedulerRuns.TickRotates | src/arch/x86_64/thread.c:80-111 | a schedule runs the first waiting thread and puts the old one at the end of the ring |
| SchedulerRuns.ExitRotates | src/arch/x86_64/thread.c:71-78 | an exit runs the first waiting thread and drops the old one |
| SchedulerRuns.CreateInserts | src/arch/x86_64/thread.c:62-66 | a creation inserts one thread into the ring |
| SchedulerRuns.RankStep | src/arch/x86_64/thread.c:62-111 | every scheduling step lowers the rank of every waiting thread by exactly one |
| SchedulerRuns.BoundedWaiting | src/arch/x86_64/thread.c:62-111 | a thread with k live threads before it runs within k + 1 scheduling steps, plus one for each thread created meanwhile |
| Scheduler.Scheduler.constructor | src/arch/x86_64/thread.c:15-26 | the boot thread alone, running |
| Scheduler.Scheduler.ContextSwitch | src/arch/x86_64/switch.asm:7-26 | pushes one frame, stores the stack pointer, restores the registers from the other stack |
| Scheduler.Scheduler.FindNext | src/arch/x86_64/thread.c:82-97 | terminates, with the cyclic distance to the goal as measure, at the first thread behind the running one, around the list, that is not dead |
| Scheduler.Scheduler.Schedule | src/arch/x86_64/thread.c:80-111 | one tick of the state machine |
| Scheduler.Scheduler.SwitchTo | src/arch/x86_64/thread.c:103-110 | exactly the two threads, the current one, the registers and one frame change |
| Scheduler.Scheduler.Tick | src/arch/x86_64/thread.c:80-111 | keeps the invariant |
| Scheduler.Scheduler.Exit | src/arch/x86_64/thread.c:71-78 | of any thread while another one lives: a step of the state machine up to the switch, keeping the invariant |
| Scheduler.Scheduler.FillStack | src/arch/x86_64/thread.c:47-60 | eight words below the top of the new stack |
| Scheduler.Scheduler.LastThread | src/arch/x86_64/thread.c:62-65 | the walk along the links ends at the last thread |
| Scheduler.Scheduler.Append | src/arch/x86_64/thread.c:62-66 | the thread is linked behind the last one |
| Scheduler.Scheduler.AddThread | src/arch/x86_64/thread.c:40-68 | a ready thread with a new id and a prepared stack is appended, keeping the invariant |
| ThreadStacks.NewStackFits | src/arch/x86_64/thread.c:33-47 | what the heap returns for a stack is aligned and meets no stack in use |
| ThreadStacks.NeverNull | src/arch/x86_64/thread.c:29-38 | a request that is not empty is never answered NULL |
| ThreadStacks.EventKeeps | src/arch/x86_64/thread.c:28-111 | scheduling, heap use that frees no stack, and thread creation on the heap keep all invariants of both |
| ThreadStacks.HistoryKeeps | src/arch/x86_64/thread.c:28-111 | so does every history of them, and every creation in it is a step of the scheduler |
| Scheduler.Scheduler.AllocFor | src/arch/x86_64/thread.c:29-34 | one allocation of a thread, keeping the stacks of the others |
| Scheduler.Scheduler.CreateOnHeap | src/arch/x86_64/thread.c:28-69 | two heap allocations and a new ready thread on the second, keeping all invariants; or a halt with no frame left and no change to the threads |
| Scheduler.Scheduler.Create | src/arch/x86_64/thread.c:28-69 | NULL and no change exactly if an allocation failed, otherwise a step of the state machine |
| Names.Sanitize | src/fs/initramfs.c:41-46 | finds where the name without leading dots and slashes starts |
| Names.SanitizedBegins | src/fs/initramfs.c:41-46 | what is left of a name begins at its first character that is neither 2E nor 2F |
| Names.TarMatchName | src/fs/initramfs.c:48-65 | matches exactly names equal after sanitizing, but for one trailing slash |
| Names.SameMeans | src/fs/initramfs.c:48-65 | two names match exactly if what is left of them is equal or one has one more 2F at its end |
| Names.MatchClean | src/fs/initramfs.c:54-64 | the comparison loop decides that for clean names |
| Names.FrontClosed | src/fs/initramfs.c:108-144 | where parents come first, every front part of the table is closed under parents |
| Names.ParentsAdded | src/fs/initramfs.c:108-144 | scanning a path gives all its parents nodes and adds nothing but directories named after its prefixes |
| Ustar.Oct2Bin | src/fs/initramfs.c:24-39 | reads leading blanks and octal digits |
| Ustar.OctalReads | src/fs/initramfs.c:24-39 | blanks and zero bytes are skipped and reading stops at the first character that is no octal digit |
| Ustar.OctalDigit | src/fs/initramfs.c:33-37 | each character of a written size is one octal digit of it, most significant first |
| Ustar.BlocksLeast | src/fs/initramfs.c:196-197 | data is padded to the next multiple of 512 |
| Ustar.SizeReadsBack | src/fs/initramfs.c:24-39 | reading an octal size field undoes writing it, for every size below 2^32 |
| Ustar.WrittenFields | src/fs/initramfs.c:12-22 | where a written member holds its name, size, type and data |
| Ustar.ArchiveParts | src/fs/initramfs.c:156-198 | every member is found at its offset, and the next one behind its padded data |
| InitramfsTable.TableClosed | src/fs/initramfs.c:108-144 | every proper directory prefix of every recorded name matches an earlier node |
| InitramfsTable.CutClosed | src/fs/initramfs.c:127-170 | also in the part of the table that fits into the array |
| InitramfsTable.CutMeans | src/fs/initramfs.c:170 | that part is the first 128 nodes |
| InitramfsTable.JoinedMeans | src/fs/initramfs.c:68-85 | the joined path has one 2F between its parts, none below the root, and is cut at 255 characters |
| InitramfsTable.Recorded | src/fs/initramfs.c:158-194 | every member of a kind other than 'x', 'g', 'K' and 'L' is recorded in archive order with its name, as a directory exactly if its kind is '5', and otherwise with the length of its data, which begins 512 bytes behind its header |
| InitramfsTable.MetaSkipped | src/fs/initramfs.c:162-166 | a member of kind 'x', 'g', 'K' or 'L' leaves the table as it was |
| InitramfsTable.OnlyParentsAdded | src/fs/initramfs.c:126-139 | every other node is a directory added for a prefix of some name |
| InitramfsTable.FileBytes | src/fs/initramfs.c:188-191 | the bytes a file node points to are the data of its member |
| Initramfs.AtMember | src/fs/initramfs.c:156-164 | the reader stops exactly at the end of the members and finds every header field where it was written |
| Initramfs.Read | src/fs/initramfs.c:96-106 | copies the part of the file that the range meets and leaves the rest of the buffer alone |
| Initramfs.ReadLength | src/fs/initramfs.c:98-105 | a read returns the minimum of what was asked for and what is left of the file, from the offset on |
| Initramfs.AdjoiningReads | src/fs/initramfs.c:96-106 | adjoining reads return what one read of their total size returns |
| Initramfs.FileReadsBack | src/fs/initramfs.c:96-198 | reading a recorded file from its start in any adjoining pieces returns the archived bytes |
| Initramfs.Initramfs.FindNode | src/fs/initramfs.c:87-93 | the first node whose name matches |
| Initramfs.Initramfs.Append | src/fs/initramfs.c:139 | one node behind the others |
| Initramfs.Initramfs.EnsureParent | src/fs/initramfs.c:117-140 | a node for the directory unless one matches; stops exactly when the array is full |
| Initramfs.Initramfs.EnsureParents | src/fs/initramfs.c:108-144 | the table with all parents of the path, as far as the array has room |
| Initramfs.Initramfs.MakeNode | src/fs/initramfs.c:172-192 | a node with the name and, for a file, its length and place |
| Initramfs.Initramfs.ParseHeader | src/fs/initramfs.c:158-162 | name, type and size of the member that was written |
| Initramfs.Initramfs.StoreMember | src/fs/initramfs.c:168-194 | parents and node of one member, or what fits of the parents |
| Initramfs.Initramfs.Init | src/fs/initramfs.c:146-201 | for every archive: the table of its members if it has at most 128 nodes, otherwise its first 128 nodes |
| Initramfs.Initramfs.FindDir | src/fs/initramfs.c:67-94 | the first node matching the directory's name joined with the component |
| Initramfs.Initramfs.BuildPath | src/fs/initramfs.c:68-85 | that joined path, in a buffer of 256 characters |
| PathWalk.StepSearches | src/fs/initramfs.c:67-94 | looking a component up in a matching directory searches for the longer path |
| PathWalk.WalkFinds | src/fs/vfs.c:34-66 | for every path: a walk finds a node exactly when a flat search does and every proper prefix matches a directory first, and then the same node |
| PathWalk.WalkIsSearch | src/fs/vfs.c:34-66 | in a table closed under parents in which no file is a prefix, walk and flat search agree |
| PathWalk.DotsMiss | src/fs/initramfs.c:67-94 | below a first component of dots only the walk fails unless a node has the empty name |
| PathWalk.DotsStray | src/fs/initramfs.c:67-94 | counterexample: a flat search finds a node there and the walk does not |
| Vfs.TokensOfPath | src/fs/vfs.c:10-26 | taking a path apart undoes putting it together |
| Vfs.TokensAre | src/fs/vfs.c:13-22 | components are not empty and hold no 2F |
| Vfs.SlashesIgnored | src/fs/vfs.c:13-15 | a slash more at the start of a path changes nothing |
| Vfs.LastSlashIgnored | src/fs/vfs.c:13-18 | nor does one at its end |
| Vfs.TokensAppend | src/fs/vfs.c:10-26 | a slash and a component behind any path add one token |
| Vfs.GetNextToken | src/fs/vfs.c:10-26 | the next component and where it ends, or none at the end of the path |
| Vfs.LookUp | src/fs/vfs.c:42-58 | one step of the walk |
| Vfs.GetNodeByPath | src/fs/vfs.c:34-66 | the walk over all components of an absolute path, and nothing for other paths |
| Vfs.ArchivedFileOpens | src/fs/vfs.c:34-66 | an archived file is opened by its absolute path and reads back as archived |

## Left out

- Pmm.Pmm.Init: base + length of a memory map entry does not wrap at 64 bits; the answers of the boot loader and the addresses of the kernel image are parameters.
- Vmm.Vmm.MapPage: physical addresses lie below 2^52, flags outside the address bits 12 to 51 (`PTE_NX` is allowed), and no large page covers the mapped page. Large pages occur only as leaves of the walk. Entries that lead to tables have no bits from 52 up; the code never sets any there. Execute permission is not part of the effective permission.
- Vmm.Vmm.VirtToPhys: reads outside memory give zero instead of a fault.
- Vmm.Vmm.UnmapPage: what the zero does to data in a frame that is no table is said only as far as memory goes: eight bytes of one frame.
- MappingRuns.UpperSeen: says nothing about a root whose PML4 slot leads to a different table for the same pages.
- The table tree the boot loader hands over is assumed well formed, without large pages in the heap's range; that it is tidy is assumed only where a result says so.
- Vmm.Vmm.SwitchPml4: the write to CR3 and all TLB behaviour are not modelled.
- Vmm.Vmm.MapRange: requires that virtual and physical ends do not wrap.
- Separation of the bitmap from frames handed out: `init_pmm` does not provide it, so frames are stored apart from the bitmap array.
- Heap.Heap.Expand: how many table frames a growth takes is bounded by three for each page, not counted. The heap is a map of headers, and payload bytes are not modelled.
- Heap.Heap.Kmalloc: requires that no size or address wraps at 64 bits. Out of physical memory is an outcome without a next state.
- ElfLoader.Load: requires file ranges inside the file, file sizes not above memory sizes, segments that share no page and lie in the lower half, and four free frames for every page. A failed `pmm_alloc`, which the code does not check, is outside the model.
- Programs.LoadProgram: the same conditions, in terms of the headers as written.
- ElfLoader.Load: maps under the current root, as the code does; the unused argument is dropped.
- ModuleLoader.LoadModule: requires power-of-two alignments, no overflow of sizes, and counts and symbol indices below 2^31. Symbol names end inside the file. `ksym_lookup` is an uninterpreted function.
- ModuleLoader.LoadModule: section headers are parsed once; writing section addresses back into the file buffer is not modelled. The copy of the module name, the search for `module_init` and `module_cleanup`, and running them are left out.
- ModuleLoader.LoadModuleFromFile: the opened file is a parameter with its bytes; a read returns all of them.
- Scheduler.Scheduler.Create: takes the outcomes of the two allocations as parameters; CreateOnHeap is the whole operation. The headers of the heap and the words of the threads are two separate memories.
- Scheduler.Scheduler.Exit: requires another thread that is not dead; otherwise the loop does not end, and there is no next state.
- Interrupts inside an operation: every scheduler call is one atomic step. Caller-saved registers, flags and the interrupt frame are not modelled.
- Initramfs.Initramfs.Init: names have between 1 and 99 characters and sizes lie below 2^32. Node memory from the heap is always available.
- Initramfs.Read: `offset + size` does not wrap.
- Vfs.GetNodeByPath: nothing is mounted, the root is that of the initramfs, and components fit the 128-byte token buffer.
- Device drivers, framebuffer, ext2, partition tables, system calls, command line and the file descriptor table: hardware effects, printing or thin tables that add only easy members.
- The constants of limine.h are a datatype of memory kinds; limine.h is not part of this model.
