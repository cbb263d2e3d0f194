# Larch kernel: verified models

Larch is a small x86 kernel written in Rust and C. This project models the parts
of it whose behaviour is hardest to see from the code, and proves what they keep
over whole runs:

- **Frames and page tables.** The bitmap allocator of physical frames (`Pmm`;
  `PoolRuns` for runs of calls), the two-level tables of `kernel/mem/vmm.rs` (`Vmm`), the four-level tables of
  `kernel/larch/paging.rs` (`PageEntry`, `Paging`; `PagingRuns` for runs of calls) and
  the page-fault handler on top (`Bridge`). Both kinds of table are instances of one
  theory of radix trees over frames (`RadixTree`).
- **Heaps.** The slab free list (`Slab` for the list of blocks, `Overlap` for when
  blocks overlap, `SlabList` for the linked headers) and the bump allocator (`Bump`).
- **The round-robin scheduler** (`Scheduler`).
- **From keyboard to screen.** The scrolling text screen as a window on endless paper
  (`Paper`, `Vga`), where its characters go (`Layout`), the command history (`History`), the tokenizer and the choice of
  command (`Tokenizer`, `Commands`), the prompt (`Prompt`), the line editor and its
  escape-key machine (`LineEditor`, `Typing`, `Shell`) and the hexdump command
  (`Hexdump`).
- **The ELF loader** (`Elf`; `ElfFile` for the file format).

`Bits` holds the bit operators on natural numbers, `Options` the option type, `Text`
bytes and strings.
`dafny verify dfyconfig.toml` checks everything.

## How the model is built

Each component that changes state in place is a class with the fields of the source;
each of its methods is proved to carry out one step of a function on values
(`State() == Step(old(State()), ...)`). The lemmas about runs are about those
functions, so they hold of the objects too. Where the source panics, a method returns
`false`, and its contract says exactly when.

Machine words are natural numbers. The kernel is built for i686 without overflow
checks, so `usize` is 32 bits wide and wraps; the wrapping is written out (`% WORD`)
wherever it can be reached. The bit operators `And`, `Or`, `Not`, `Shl`, `Shr` are
defined bit by bit, and the mask tricks of the source are proved equal to the division,
remainder and rounding they stand for.

A contract that reads `P(...) == true` states `P(...)`; it is spelled out so that the
verifier keeps the predicate in one piece.

Taken as given:

- A frame comes out of the allocator zero-filled. The kernel does not clear new page
  tables, and without this the tables would hold whatever the frame held before.
- The four-level tree starts from the zeroed statics, and the static PML4 is not a frame of
  the allocator. (That the allocator hands out the kernel's own megabyte, as said below,
  is what this sets aside.)
- The page-fault handler and the two-level tables draw on one frame allocator.
- What the commands and the greeting print are sequences of screen operations, passed as
  parameters.
- The supply of frames of the ELF loader (`sys_alloc_page`, `sys_map_page`) and what
  those frames hold are parameters.

## Where the code does not do what it seems to promise

Each of these is proved with the exact condition under which the code does what is
expected.

- `alloc_page` counts pages from 1 MB while `init` reserves them from 0, so memory that
  `init` means to reserve is handed out exactly when the lowest free page number is below
  256, or is between 0xFFF00 and 0xFFFA0, where the address wraps to the first 639 KB
  (`Pmm.ReservedIff`, `Pmm.WrapsToZero`); the first allocation after boot returns
  0x1A0000 (`Pmm.BootAllocatesReserved`).
- The free counter stays exact if and only if no free page is freed again
  (`Pmm.CounterExactIff`, `Pmm.DoubleFreeLeads`); in general it is ahead by the number of
  double frees.
- The two-level `map_page` maps the given frame if and only if the flags do not reach
  into the frame number (`Vmm.MapsGivenFrameIff`, `Vmm.FlagsReachFrame`).
- The four-level `map_page` grants user access if and only if the tables already on the
  way grant it (`Paging.MappedPage`, `PagingRuns.UserWithheld`): the flags of existing tables
  are not raised.
- Coalescing in the slab allocator adds one header too many. The blocks tile the heap if
  and only if no merge has happened (`Slab.TiledIffNeverMerged`), a release keeps the
  layout if and only if the block has no free neighbour (`Slab.DeallocTilesIff`). The
  merge itself does no harm: a release never makes blocks overlap (`Overlap.DeallocClear`).
  Over every run headers and live payloads stay disjoint and inside the heap if and only
  if every request has room, when it is made, between the block chosen and the next one
  (`Overlap.SoundIffRoom`). Six calls suffice to make a live payload cover the next header
  (`Slab.MergeOverlaps`): the last of them has no such room
  (`Overlap.LastRequestHasNoRoom`).
- A slab request within 12 bytes of 2^32 wraps to a tiny one; a request keeps the layout
  if and only if the addition does not wrap or no free block is large enough for the
  wrapped sum (`Slab.AllocIntactIff`, `Slab.OverlongGranted`).
- The bump allocator stays inside its heap if and only if neither addition wraps
  (`Bump.GrantedInsideIff`, `Bump.WrapGrants`), and its blocks are aligned if and only if
  the alignment is a power of two (`Bump.MaskRoundsUpIff`, `Bump.OddAlignment`).
- A key keeps screen and line buffer together if and only if there is room on the row for
  what it puts on the line (`LineEditor.KeyDisplaysIff`, `LineEditor.OverflowDesync`).
- The hexdump of a file ends if and only if the file has at most 2^32 - 16 bytes
  (`Hexdump.EndsIff`).
- A read from a file stays inside it if and only if its end does not wrap
  (`Hexdump.ReadInsideIff`, `Hexdump.ReadBehindFile`).
- The ELF loader maps a new frame for every page of every segment, so the image is right
  whatever the frames held if and only if no byte of a segment is disturbed by the last
  segment covering it (`Elf.AlwaysLoadsIff`); for segments that do not overlap byte by byte
  this means that no two share a page (`Elf.UndisturbedIff`, `Elf.SharedPageDisturbs`).

## Model

| member | source | states |
|---|---|---|
| `Pmm.FullByte` | kernel/mem/pmm.rs:58-61 | a bitmap byte is 0xFF exactly when its eight pages are all taken, so skipping such bytes loses no free page |
| `Pmm.SetBit` | kernel/mem/pmm.rs:50-51 | setting a bit of a byte removes exactly that page from the set of free pages |
| `Pmm.ClearBit` | kernel/mem/pmm.rs:79-80 | clearing a bit of a byte adds exactly that page to the set of free pages |
| `Pmm.AddrRoundTrip` | kernel/mem/pmm.rs:65-75 | the page number free_page computes from an address alloc_page returned is the one that was taken, and the address is page aligned |
| `Pmm.AllocThenFree` | kernel/mem/pmm.rs:56-83 | allocating a page and freeing it restores bitmap set and counter exactly |
| `PoolRuns.FreeTaken` | kernel/mem/pmm.rs:74-83 | freeing the address of any page that is taken adds that page, counts up by one and changes nothing else |
| `PoolRuns.FreeByLast` | kernel/mem/pmm.rs:56-83 | over every run, after each call, a page is free if and only if the last call that decided it, an alloc returning its address or a free of an address in it, was a free, or there was none and it was free at the start |
| `Pmm.CounterLedger` | kernel/mem/pmm.rs:56-87 | over every run of allocs and frees the counter is the number of clear bits, plus the pages beyond the last whole byte, plus one for every double free, modulo 2^32 |
| `Pmm.CounterExactIff` | kernel/mem/pmm.rs:56-87 | a step keeps the counter exact if and only if it does not free a page that is free |
| `Pmm.DoubleFreeLeads` | kernel/mem/pmm.rs:56-83 | allocating a page and freeing it twice leaves every pool as it was with the counter one ahead |
| `Pmm.NoDoubleAllocation` | kernel/mem/pmm.rs:56-83 | if two allocs of a run return the same address, that page was freed in between |
| `Pmm.PoolRunValid` | kernel/mem/pmm.rs:56-83 | over every run free pages stay within the bitmap and the counter within a word |
| `Pmm.AllocFrame` | kernel/mem/pmm.rs:56-72 | in terms of frames: the frame returned was free, is free no longer, and nothing else changed |
| `Pmm.ReservedIff` | kernel/mem/pmm.rs:37-65 | an allocation lands in memory init means to reserve, 0..0x9FC00 or 0x100000..0x200000, exactly when the lowest free page number is below 256, or from 0xFFF00 up to 0xFFFA0, where the address wraps |
| `Pmm.WrapsToZero` | kernel/mem/pmm.rs:56-72 | with only page 0xFFF00 left on a 4 GB machine the address returned is 0 |
| `Pmm.BootAllocatesReserved` | kernel/mem/pmm.rs:25-72 | after init the first allocation returns 0x1A0000 on every machine with more than 160 tracked pages |
| `Pmm.BootMarked` | kernel/mem/pmm.rs:37-42 | the two marking loops leave free exactly the pages outside 0..160 and 256..512, with an exact counter |
| `PoolRuns.BootByAddress` | kernel/mem/pmm.rs:37-42 | after init a tracked page is free if and only if its start, counted from address 0, is outside 0..0x9FC00 and 0x100000..0x200000 |
| `Pmm.PhysicalMemoryManager.constructor` | kernel/mem/pmm.rs:25-43 | after init the free pages are the tracked pages that are not reserved, and the counter is exact |
| `Pmm.PhysicalMemoryManager.MarkUsed` | kernel/mem/pmm.rs:45-54 | takes one page out of the set and counts down, or changes nothing for an address beyond the bitmap |
| `Pmm.PhysicalMemoryManager.AllocPage` | kernel/mem/pmm.rs:56-72 | returns the address of the least free page and removes that page; None, with nothing changed, exactly when no page is free |
| `Pmm.PhysicalMemoryManager.FreePage` | kernel/mem/pmm.rs:74-83 | for every address: its page joins the free set and the counter goes up, or nothing changes if the page is beyond the bitmap |
| `Pmm.PhysicalMemoryManager.FreePagesCount` | kernel/mem/pmm.rs:85-87 | returns the counter that CounterLedger is about |
| `RadixTree.TrailUnaffected` | kernel/larch/paging.rs:101-144 | for page tables of any depth in which no frame is two tables: writing a slot leaves every walk alone that does not pass through it |
| `RadixTree.Graft` | kernel/larch/paging.rs:107-136 | hanging an empty frame into an empty slot makes that one table reachable and changes no other walk |
| `RadixTree.GraftSeparated` | kernel/larch/paging.rs:107-136 | and no frame becomes two tables by it |
| `RadixTree.LeafSeparated` | kernel/larch/paging.rs:137-143 | writing a last-level slot keeps all tables distinct |
| `Vmm.DirectoryIndex` | kernel/mem/vmm.rs:26-26 | shift and mask give the directory index of the page, below 1024 |
| `Vmm.TableIndex` | kernel/mem/vmm.rs:27-27 | shift and mask give the table index of the page |
| `Vmm.NewTableEntry` | kernel/mem/vmm.rs:32-33 | the directory entry stored for a new table decodes to that frame with flags 7 |
| `Vmm.PageEntryDecodes` | kernel/mem/vmm.rs:37-37 | for all arguments: the processor sees the upper bits of address and flags as frame and the lower bits of both, with the present bit, as flags |
| `Vmm.MapsGivenFrameIff` | kernel/mem/vmm.rs:37-37 | the entry leads to the given frame if and only if the flags above bit 11 are bits the frame number has anyway |
| `Vmm.FlagsReachFrame` | kernel/mem/vmm.rs:37-37 | address 0x1000 with flags 0x2007 is mapped to frame 3 |
| `Vmm.AlignedEntry` | kernel/mem/vmm.rs:37-37 | an aligned address and flags below 4096 come out exactly |
| `Vmm.LinkTable` | kernel/mem/vmm.rs:29-35 | entering a zero-filled free frame as table keeps the shape of memory, adds that table and changes no translation |
| `Vmm.WriteEntry` | kernel/mem/vmm.rs:37-46 | storing a table entry changes the translation of that page and of no other, and keeps the shape of memory |
| `Vmm.MapUnmapRun` | kernel/mem/vmm.rs:25-48 | over every run of maps and unmaps every page is translated as the last operation on it left it, all others as at the start |
| `Vmm.VirtualMemoryManager.constructor` | kernel/mem/vmm.rs:18-23 | a manager for an empty directory over zero-filled free frames maps nothing |
| `Vmm.VirtualMemoryManager.TableFor` | kernel/mem/vmm.rs:29-35 | the table for a directory index is there afterwards, taken from the allocator only if it was missing; fails exactly when one is needed and no frame is left |
| `Vmm.VirtualMemoryManager.MapPage` | kernel/mem/vmm.rs:25-38 | is an update of the map from page number to frame and flags; succeeds if and only if the directory entry is present or a frame is free, and panics otherwise |
| `Vmm.VirtualMemoryManager.UnmapPage` | kernel/mem/vmm.rs:40-48 | is a removal from that map, and nothing else |
| `Bridge.RunAccounted` | lib/libcrust/bridge.rs:35-45 | over every run of faults and unmaps each frame has exactly one role (free, table, mapped page, dropped, lost), no frame is mapped at two pages, and none is two tables |
| `Bridge.Conservation` | lib/libcrust/bridge.rs:35-45 | over every run the frames taken since boot are in number the tables plus the mapped pages plus those dropped by unmap or a second fault plus those lost in a panic |
| `Bridge.MappedByLast` | lib/libcrust/bridge.rs:35-45 | over every run of faults and unmaps, after each of them, a page is mapped if and only if the last event that decided it was a fault on it for which there were frames, and then to the frame taken for that fault; otherwise as at the start |
| `Bridge.FaultAccounted` | lib/libcrust/bridge.rs:35-45 | one fault keeps every frame in exactly one role, in all three outcomes |
| `Bridge.UnmapAccounted` | kernel/mem/vmm.rs:40-48 | one unmap moves the frame of that page, and no other, out of circulation |
| `Bridge.FaultPage` | lib/libcrust/bridge.rs:38-38 | masking the fault address gives an address on the same page |
| `Bridge.FaultSlot` | lib/libcrust/bridge.rs:37-40 | the page faulted on is mapped to the frame just taken, with flags 7 |
| `Bridge.Kernel.Resolve` | lib/libcrust/bridge.rs:35-45 | returns 1 exactly when there is a free frame for the page and, if its table is missing, another one; then the page faulted on is translated to the frame alloc_page returned, with flags 7, and every other page as before; panics exactly when the one frame left is needed twice; on 0 and on a panic no translation changes |
| `Bridge.Kernel.HandlePageFault` | lib/libcrust/bridge.rs:35-45 | the same, and one Fault step of the run model |
| `Bridge.Kernel.Unmap` | kernel/mem/vmm.rs:40-48 | is one Unmap step of the run model |
| `PageEntry.BitOfSetBit` | kernel/larch/paging.rs:21-43 | a flag setter changes its own bit to the given value and no other |
| `PageEntry.BitOfSetAddress` | kernel/larch/paging.rs:17-19 | set_address replaces bits 51:12 and no other |
| `PageEntry.BitOfCompose` | kernel/larch/paging.rs:101-144 | the four setters in a row: every bit of the resulting entry |
| `PageEntry.AddressField` | kernel/larch/paging.rs:49-51 | physical_address is the frame number in bits 51:12 times 4096 |
| `PageEntry.ComposeDecodes` | kernel/larch/paging.rs:101-144 | the processor, by section 4.5 of volume 3A of the Intel SDM, reads from a composed entry exactly the frame and rights that were set |
| `PagingRuns.MapRun` | kernel/larch/paging.rs:101-144 | over any number of successful calls from empty tables every page has the frame and writable bit of the last request for it, and user access exactly if that request and the first request through each of its three tables asked for it; no other page is translated |
| `PagingRuns.UserWithheld` | kernel/larch/paging.rs:101-144 | page 1 mapped without user access and then page 2 with it: page 2 is translated without user access |
| `PagingRuns.AllSucceedIff` | kernel/larch/paging.rs:101-144 | of calls made one after the other from empty tables until one fails, all succeed if and only if the distinct tables their addresses lead through are no more than the frames free at the start |
| `Paging.MappedPage` | kernel/larch/paging.rs:101-144 | the page mapped gets the given frame and writable bit, and user access exactly if asked for and granted by the tables already on the way |
| `Paging.MapResult` | kernel/larch/paging.rs:101-144 | the three table steps and the final store together translate that page anew, leave the translation of every other page unchanged, and give the user bit asked for to exactly the tables that were missing |
| `Paging.SamePathIff` | kernel/larch/paging.rs:102-105 | two addresses share a translation exactly when bits 47:12 agree |
| `Paging.PathNumber` | kernel/larch/paging.rs:102-105 | the four indices are the base-512 digits of bits 47:12, most significant first |
| `Paging.LinkShape` | kernel/larch/paging.rs:107-136 | a new table keeps all tables distinct, in use in the allocator, writable and not large, and the remaining free frames zero |
| `Paging.LeafShape` | kernel/larch/paging.rs:137-143 | so does the final store |
| `Paging.PageTables.constructor` | kernel/larch/paging.rs:54-56 | the zeroed statics translate nothing and have the shape all operations keep |
| `Paging.PageTables.Descend` | kernel/larch/paging.rs:107-136 | one level: the table is there afterwards and no other walk changed; fails exactly when it was missing and no frame is left; takes one frame if it was missing |
| `Paging.PageTables.MapPage` | kernel/larch/paging.rs:101-144 | succeeds exactly when there are frames for the missing tables and takes exactly that many, all that are left when it fails; then the page has frame bits 51:12 of the address, is writable exactly if bit 1 of the flags is set, and admits user accesses exactly if bit 2 is set and the tables already on the way admit them; every other translation is unchanged and the new tables carry the user bit asked for; tables stay distinct frames in use |
| `Slab.MergeHalvesPairs` | kernel/mem/slab_allocator.rs:66-74 | one coalescing pass at least halves the number of adjacent free pairs |
| `Slab.AllocPairs` | kernel/mem/slab_allocator.rs:34-57 | alloc never adds an adjacent free pair |
| `Slab.AllocGives` | kernel/mem/slab_allocator.rs:39-51 | a pointer returned is the payload of the first block that fits, free before and live now with the request on record; the blocks in front of it are untouched |
| `Slab.AllocExactly` | kernel/mem/slab_allocator.rs:34-57 | a request that does not wrap gets the first free block with at least 12 bytes more; with more than 12 further bytes to spare it is cut behind the request and the rest becomes a free block, otherwise it is handed out whole; without such a block nothing changes |
| `Slab.DeallocReleases` | kernel/mem/slab_allocator.rs:59-75 | a release takes exactly that block out of use; all others stay in use with their addresses and sizes, whatever is merged |
| `Slab.DeallocPairs` | kernel/mem/slab_allocator.rs:59-75 | dealloc leaves at most half of the old pairs plus one |
| `Slab.RunPairs` | kernel/mem/slab_allocator.rs:34-75 | over every run at most one adjacent free pair is left, although the pass runs once and moves past merged blocks |
| `Slab.AtMostOnePair` | kernel/mem/slab_allocator.rs:27-75 | in positions: after any run from init, whatever the heap size, two adjacent free pairs coincide, so three free blocks in a row never occur |
| `Slab.AllocLedger` | kernel/mem/slab_allocator.rs:34-57 | alloc keeps the ledger, for all sizes including those that wrap |
| `Slab.DeallocLedger` | kernel/mem/slab_allocator.rs:59-75 | so does the release of a live block, merges included |
| `Slab.RunLedger` | kernel/mem/slab_allocator.rs:27-79 | over every run, modulo 2^32, recorded sizes sum to the heap less one header plus one header per merge, and total_allocated minus total_freed is the recorded size of the live blocks |
| `Slab.ExactLedger` | kernel/mem/slab_allocator.rs:27-79 | as long as heap size plus drift fits a word both hold as plain equalities |
| `Slab.MergeSums` | kernel/mem/slab_allocator.rs:66-74 | a pass adds one header to the recorded sizes per merge and leaves the live ones alone |
| `Slab.TilesDisjoint` | kernel/mem/slab_allocator.rs:27-57 | in a tiled heap headers and live payloads are pairwise disjoint, rising and inside the heap |
| `Slab.IntactUntilMerge` | kernel/mem/slab_allocator.rs:27-64 | over every run of harmless requests (see AllocIntactIff), until the first merge the blocks tile the heap, live blocks have room for what was asked, and no two free blocks are adjacent |
| `Slab.AllocIntactIff` | kernel/mem/slab_allocator.rs:34-57 | a request keeps that layout if and only if its size plus a header does not wrap or no free block is large enough for the wrapped sum |
| `Slab.OverlongGranted` | kernel/mem/slab_allocator.rs:35-51 | a request of 2^32 - 12 bytes on a fresh heap of 1000 is granted and puts two headers at one address |
| `Slab.DeallocTilesIff` | kernel/mem/slab_allocator.rs:59-75 | a release keeps the tiling if and only if the block has no free neighbour, which is exactly when no merge happens |
| `Slab.TiledIffNeverMerged` | kernel/mem/slab_allocator.rs:27-75 | over every run of harmless requests the blocks tile the heap if and only if no merge has happened, unless the number of merges is a multiple of 2^30 |
| `Slab.MergeOverlaps` | kernel/mem/slab_allocator.rs:34-75 | a run of four allocs and two deallocs on 1000 bytes ends with a live payload covering the header of the next live block |
| `Overlap.AllocSoundIff` | kernel/mem/slab_allocator.rs:34-57 | from blocks that end before the next starts, a request leaves headers and live payloads disjoint and inside the heap if and only if the first block that fits has room for it, and for the header of the rest if it is cut, up to the next block of the list |
| `Overlap.DeallocClear` | kernel/mem/slab_allocator.rs:59-75 | a release keeps every block ending before the next starts, whatever it merges |
| `Overlap.SoundIffRoom` | kernel/mem/slab_allocator.rs:27-75 | over every run from init, merges and wrapping requests included, headers and live payloads are disjoint and inside the heap after each of the first n calls if and only if every request among them has that room when it is made |
| `Overlap.DisjointUntilMerge` | kernel/mem/slab_allocator.rs:27-64 | so over every run of harmless requests they are disjoint and inside the heap until the first merge |
| `Overlap.LastRequestHasNoRoom` | kernel/mem/slab_allocator.rs:34-75 | in the run of MergeOverlaps nothing overlaps after the merge; the request that follows has no room |
| `Slab.PassIdle` | kernel/mem/slab_allocator.rs:66-74 | the pass changes nothing exactly when no two free blocks are adjacent |
| `SlabList.SlabAllocator.constructor` | kernel/mem/slab_allocator.rs:27-32 | the list is one free block of the heap size less a header, wrapping if the heap is smaller than that |
| `SlabList.SlabAllocator.Alloc` | kernel/mem/slab_allocator.rs:34-57 | walking and splitting the linked headers is first fit on the list of blocks: same result, same new list, for every size |
| `SlabList.SlabAllocator.Split` | kernel/mem/slab_allocator.rs:42-47 | links a new header behind the block; the list stays acyclic and records the two halves |
| `SlabList.SlabAllocator.Dealloc` | kernel/mem/slab_allocator.rs:59-75 | releasing and coalescing in place is the one-pass merge on the list of blocks; null changes nothing |
| `SlabList.SlabAllocator.Coalesce` | kernel/mem/slab_allocator.rs:66-74 | unlinking absorbed headers while walking gives the one-pass merge of the recorded blocks |
| `Bump.MaskRoundsUpIff` | kernel/mem/allocator.rs:33-34 | the mask trick gives the least multiple of the alignment not below next, from everywhere, if and only if the alignment is a power of two |
| `Bump.MaskPads` | kernel/mem/allocator.rs:33-34 | for every alignment, without wrap the candidate is not below next and padded by at most the mask |
| `Bump.OddAlignment` | kernel/mem/allocator.rs:33-34 | from 1 with an alignment of 3 the candidate is 1 |
| `Bump.MaskWraps` | kernel/mem/allocator.rs:33-34 | with wrap it gives an address below next |
| `Bump.GrantedInsideIff` | kernel/mem/allocator.rs:32-42 | a granted block lies between next and the end of the heap if and only if neither addition wraps |
| `Bump.RefusedIff` | kernel/mem/allocator.rs:32-42 | without wrap a request is refused exactly when the padded block does not fit, and a refusal changes nothing |
| `Bump.WrapGrants` | kernel/mem/allocator.rs:32-42 | an overlong request on any fresh heap is granted and moves next below the heap |
| `Bump.BlocksRise` | kernel/mem/allocator.rs:26-42 | over every run in which no granted request wraps every block lies above all earlier ones |
| `Bump.BlockSound` | kernel/mem/allocator.rs:26-42 | over every such run every block returned, the only one included, is inside the heap, padded by at most the mask and, for a power of two, aligned and padded by less than the alignment |
| `Bump.BumpAllocator.constructor` | kernel/mem/allocator.rs:26-30 | the heap is empty from start to start plus size, which wraps |
| `Bump.BumpAllocator.Alloc` | kernel/mem/allocator.rs:32-42 | for every size and alignment: returns the candidate and moves next behind the block, or returns null and changes nothing |
| `Scheduler.PickedIsNext` | kernel/sched/scheduler.rs:55-75 | the search returns the first runnable slot in cyclic order after current, current itself last, and None exactly when no process is runnable |
| `Scheduler.PickedStates` | kernel/sched/scheduler.rs:55-75 | what next returns is ready or running, and it returns none if and only if every process is waiting or terminated |
| `Scheduler.NextUnique` | kernel/sched/scheduler.rs:55-75 | that description has only one answer |
| `Scheduler.PickStopsAt` | kernel/sched/scheduler.rs:55-75 | a pick never jumps over a runnable slot |
| `Scheduler.WaitingBound` | kernel/sched/scheduler.rs:48-75 | while a runnable process waits, every call of next uses up one unit of a bound that additions and state changes cannot raise |
| `Scheduler.NoStarvation` | kernel/sched/scheduler.rs:48-75 | a process that stays runnable is picked within 256 calls of next, whatever the others do and whatever is added |
| `Scheduler.TurnCounts` | kernel/sched/scheduler.rs:55-75 | without additions, since the last pick of one process another has been picked once if the circle has passed it and not at all before |
| `Scheduler.OneTurnEach` | kernel/sched/scheduler.rs:55-75 | with no additions, between two consecutive picks of a process every other one that stays runnable is picked exactly once |
| `Scheduler.RoundRobin.constructor` | kernel/sched/scheduler.rs:40-46 | no process, current 0 |
| `Scheduler.RoundRobin.AddProcess` | kernel/sched/scheduler.rs:48-53 | the process stands unchanged in the first unused slot while there are fewer than 256, otherwise nothing changes; all other slots and current are kept |
| `Scheduler.RoundRobin.PickNext` | kernel/sched/scheduler.rs:55-75 | the loop ends within count steps with the pick of PickedIsNext, and current is that slot or unchanged |
| `Paper.CellParts` | kernel/drivers/vga_scroll.c:42-42 | glyph and colour can be read back from a cell |
| `Paper.RunContinues` | kernel/drivers/vga_scroll.c:12-60 | over every stream of characters and colour changes nothing above the cursor row is touched again, the cursor never goes up, and rows below it are blank |
| `Paper.TextLayout` | kernel/drivers/vga_scroll.c:30-66 | text without control characters ends up one character per cell behind the cursor, wrapped at column 80, in the current colour, with the cursor behind it; every other cell is as it was and new rows are blank |
| `Layout.StreamLayout` | kernel/drivers/vga_scroll.c:12-75 | after every stream of characters, colour changes and clears the cursor, the colour and every single cell are as a description by pen position says: newline one row down at column 0, return to column 0, backspace one back and blanked but not over the left edge, any other character in one cell with wrap at column 80, new rows blank |
| `Layout.PrintedColor` | kernel/drivers/vga_scroll.c:12-14 | what is printed after a colour change has the foreground in the low and the background in the high half of its colour byte |
| `Vga.ShowsScroll` | kernel/drivers/vga_scroll.c:16-28 | moving the rows up and blanking the last shows the paper with one more row |
| `Vga.WidenedCell` | kernel/drivers/vga_scroll.c:42-42 | the or with the widened signed character gives glyph and colour for 7-bit characters and all colour bits on for the others |
| `Vga.RowsOnlyShift` | kernel/drivers/vga_scroll.c:12-60 | on the 25-row screen, over every such stream, rows above the cursor only shift up by the number of scrolls and rows below it are blank |
| `Vga.Screen.constructor` | kernel/drivers/vga_scroll.c:76-79 | after vga_init the screen shows blank paper |
| `Vga.Screen.SetColor` | kernel/drivers/vga_scroll.c:12-14 | changes the colour of what follows and no cell |
| `Vga.Screen.Scroll` | kernel/drivers/vga_scroll.c:16-28 | the buffer shows the last 25 rows of the paper with a blank row added |
| `Vga.Screen.PutChar` | kernel/drivers/vga_scroll.c:30-60 | for every character the screen stays the last 25 rows of the paper with the character put on it; a newline moves the cursor to column 0 of the next row, or of the last row again, a return to column 0, a backspace one column back |
| `Vga.Screen.WriteString` | kernel/drivers/vga_scroll.c:62-66 | puts the characters on the paper one after the other |
| `Vga.Screen.Clear` | kernel/drivers/vga_scroll.c:68-74 | a fresh blank sheet in the current colour |
| `History.HistoryIsLast20` | kernel/shell/command_history.c:12-43 | after any run of adds and arrow keys the history is exactly the last 20 commands in order and the index is in range |
| `History.PrevShowsKthNewest` | kernel/shell/command_history.c:26-32 | from a fresh add, k presses of up show the k-th newest command, staying at the oldest |
| `History.UpThenDown` | kernel/shell/command_history.c:26-43 | k presses up and k down, k at most the number stored, return to the empty line |
| `History.NextMovesDown` | kernel/shell/command_history.c:34-43 | k presses of down move k commands towards the newest and then stay on the empty line |
| `History.RecallAfterAdd` | kernel/shell/command_history.c:8-32 | after any run that ends with a command, k presses of up show the k-th newest of all commands submitted, up to 20 |
| `History.CommandHistory.constructor` | kernel/shell/command_history.c:7-10 | the statics are the empty history |
| `History.CommandHistory.Add` | kernel/shell/command_history.c:12-24 | shifting the array in place when full appends the command and drops the oldest of 20 |
| `History.CommandHistory.Previous` | kernel/shell/command_history.c:26-32 | moves towards the oldest and returns what is shown there |
| `History.CommandHistory.Following` | kernel/shell/command_history.c:34-43 | moves towards the newest and returns what is shown there, the empty line behind it |
| `LineEditor.TypeOne` | kernel/drivers/vga_scroll.c:41-44 | a character typed at the end of the line appears there and nowhere else on the row |
| `LineEditor.EraseOne` | kernel/drivers/vga_scroll.c:36-40 | a backspace takes the last character off the row |
| `LineEditor.EraseText` | kernel/shell/shell_main.c:128-132 | the back-blank-back loop of the arrow keys takes exactly the typed text off the row |
| `LineEditor.PromptPrints` | kernel/shell/colored_shell.c:27-40 | on an empty line the coloured prompt leaves its 11 characters and the cursor behind them |
| `Prompt.PromptShades` | kernel/shell/colored_shell.c:27-40 | brackets, name and the rest of the prompt have their three colours on black, and what follows is white on black |
| `LineEditor.KeyDisplaysIff` | kernel/shell/shell_main.c:114-176 | a key keeps the row equal to prompt, line buffer, blanks if and only if before the key there is room for what it puts on the line: fewer than 68 characters for a printable key, a command of at most 68 for an arrow key |
| `LineEditor.SessionDisplays` | kernel/shell/shell_main.c:114-176 | over every session of typing, backspace, history recall and commands the row shows the line buffer after each of the first n keys if and only if each of them has that room when it is pressed |
| `LineEditor.StartDisplays` | kernel/shell/shell_main.c:178-183 | a cleared screen, a greeting that ends its line and a prompt start such a session |
| `Typing.TypedIsSubmitted` | kernel/shell/shell_main.c:156-176 | over every session without escape sequences, after each key, the line buffer is the left-to-right edit of the keys since the last Enter (append a printable character up to 255, drop the last on backspace), and the history is the lines so typed, the last 20 in order |
| `Typing.EscapeElse` | kernel/shell/shell_main.c:114-159 | an escape that no bracket follows is as if it had not been pressed, and an escape sequence with another letter than A or B does nothing |
| `Shell.EnterReplies` | kernel/shell/shell_main.c:62-112 | Enter prints a newline, then the output of the command that the first word names, or nothing for a line of blanks, then the prompt |
| `LineEditor.SessionSubmitsShown` | kernel/shell/shell_main.c:156-166 | in a session whose keys have room, Enter puts exactly the text shown behind the prompt into the history |
| `LineEditor.UpShowsKthNewest` | kernel/shell/shell_main.c:125-136 | from a fresh prompt, the escape, bracket and letter of k presses of up put the k-th newest command, or the oldest, into the line buffer and on the screen |
| `LineEditor.DownShowsNewer` | kernel/shell/shell_main.c:138-152 | from any position, the keys of k presses of down show the command k places nearer to the newest, and beyond it the empty line, where they stay |
| `LineEditor.NoHistory` | kernel/shell/shell_main.c:125-152 | without stored commands up does nothing and down empties the line |
| `LineEditor.UpThenDownClears` | kernel/shell/shell_main.c:125-154 | the keys of k presses up and k down leave an empty line behind the prompt and the history as it was |
| `LineEditor.OverflowDesync` | kernel/shell/shell_main.c:167-175 | a 69th character typed and taken back restores the line buffer but not the screen |
| `Shell.ShellMain.constructor` | kernel/shell/shell_main.c:178-183 | shell_init prints greeting and prompt with an empty line buffer |
| `Shell.ShellMain.PressKey` | kernel/shell/shell_main.c:114-176 | the handler on the static buffer, screen and history is one HandleKey step of the line editor, for every key, with the output of the command the line names |
| `Shell.ShellMain.ProcessCommand` | kernel/shell/shell_main.c:62-112 | an empty line prints a prompt; any other is recorded, split, dispatched on its words if it has any, and followed by a prompt |
| `Commands.Choose` | kernel/shell/shell_main.c:79-109 | the comparisons on the arguments cut in place pick the command that the pure split of the line names, with its second word as argument; cat and hexdump without one are unknown |
| `Commands.PlainDispatch` | kernel/shell/shell_main.c:79-101 | each of nine words runs its command, whatever follows |
| `Commands.OtherDispatch` | kernel/shell/shell_main.c:87-109 | cat and hexdump run on their second word and are unknown without one, echo takes an optional second word, every other word is unknown |
| `Shell.ShellMain.EraseLine` | kernel/shell/shell_main.c:128-132 | prints back, blank, back for every character of the line |
| `Tokenizer.WordsAtStarts` | kernel/shell/shell_main.c:33-50 | the pure split on blanks yields the words at the positions where a blank or the start of the line precedes a non-blank |
| `Tokenizer.WordsKeepInk` | kernel/shell/shell_main.c:33-50 | put together, the words are the characters of the line other than blank, tab and newline, in order |
| `Tokenizer.ParseDone` | kernel/shell/shell_main.c:33-50 | what the scan has when it stops is the promise of ParseCommand |
| `Tokenizer.ParseCommand` | kernel/shell/shell_main.c:33-50 | argc is the number of words, at most 16; argv points at the words in order; the first 15 are NUL-terminated in place, a sixteenth is the untouched rest of the line; nothing behind the line changes |
| `Tokenizer.TrimNewline` | kernel/shell/shell_main.c:52-60 | the buffer holds the line without its trailing newlines and returns |
| `Tokenizer.TrimmedIs` | kernel/shell/shell_main.c:52-60 | only newlines and returns are cut off, and none is left at the end |
| `Hexdump.HexdumpInvertible` | kernel/shell/builtin_commands.c:92-138 | reading the hex columns of the dump line by line gives back exactly the bytes of the file |
| `Hexdump.LineLayout` | kernel/shell/builtin_commands.c:106-135 | every character of a line: two upper-case digits and a blank per byte in its column, blanks for missing bytes, and between bars each byte itself if printable, else a dot |
| `Hexdump.DumpLayout` | kernel/shell/builtin_commands.c:104-137 | the dump is an empty line and then one such line for every 16 bytes |
| `Hexdump.LineEncodes` | kernel/shell/builtin_commands.c:106-126 | each byte of a chunk, or its absence, can be read off its column |
| `Hexdump.EndsIff` | kernel/shell/builtin_commands.c:105-137 | some read comes back empty if and only if the file has at most 2^32 - 16 bytes |
| `Hexdump.LongFileWraps` | kernel/shell/builtin_commands.c:105-137 | for a longer file every read returns 16 bytes for ever, the offset wrapping to zero |
| `Hexdump.FsOpen` | kernel/fs/initramfs.c:17-26 | the handle is one more than the position of the first file with exactly that name, or 0 |
| `Hexdump.FsRead` | kernel/fs/initramfs.c:28-42 | reports min of len and what is left, 0 for a bad handle or offset, and the buffer starts with those bytes of the file |
| `Hexdump.ReadInsideIff` | kernel/fs/initramfs.c:33-41 | a read stays inside the file if and only if offset plus len does not wrap |
| `Hexdump.ReadBehindFile` | kernel/fs/initramfs.c:33-41 | a read of 16 bytes at 0xFFFFFFF0 of a file of 2^32 - 1 bytes ends one byte behind it |
| `Hexdump.PrintLine` | kernel/shell/builtin_commands.c:106-135 | one line: two groups of eight hex columns and the text column |
| `Hexdump.CmdHexdump` | kernel/shell/builtin_commands.c:92-138 | prints the invertible dump of the first file of that name, or the error message if there is none |
| `Elf.MappedMeets` | kernel/userspace/elf_loader.c:64-71 | the page loop covers exactly the pages that contain a byte of the segment |
| `Elf.FilledLoads` | kernel/userspace/elf_loader.c:64-83 | one segment: its bytes then zeros, the rest of its pages as their frames were, everything else as before |
| `Elf.MappedExactly` | kernel/userspace/elf_loader.c:61-85 | after any number of segments exactly the pages that meet some segment have been added |
| `Elf.ImageCorrect` | kernel/userspace/elf_loader.c:61-85 | a segment that shares no page with a later one is in memory at the end, file bytes then zeros |
| `Elf.FinalImage` | kernel/userspace/elf_loader.c:61-85 | the memory at every address: what the last segment covering it left, its image inside and what the frame held outside, or what was there before |
| `Elf.AlwaysLoadsIff` | kernel/userspace/elf_loader.c:61-85 | the image is right whatever the frames held if and only if every byte of a segment is the same in the last segment whose pages cover it, which the headers and the file decide |
| `Elf.UndisturbedIff` | kernel/userspace/elf_loader.c:61-85 | for segments that do not overlap byte by byte this means that no two share a page |
| `Elf.SharedPageDisturbs` | kernel/userspace/elf_loader.c:64-71 | two one-byte segments on one page do not |
| `Elf.Loader.AllocPageAt` | kernel/userspace/elf_loader.c:44-49 | maps the next frame at that page, or fails with nothing changed exactly when none is left |
| `Elf.Loader.MapSegment` | kernel/userspace/elf_loader.c:64-71 | succeeds exactly when there are frames for all pages of the segment, which are then mapped in order; otherwise its first pages are mapped to the frames left |
| `Elf.Loader.Copy` | kernel/userspace/elf_loader.c:73-75 | the bytes from vaddr on are the data, all others unchanged |
| `Elf.Loader.Zero` | kernel/userspace/elf_loader.c:77-83 | the bytes of the rest of the segment are zero, all others unchanged |
| `Elf.Loader.LoadOne` | kernel/userspace/elf_loader.c:64-83 | one segment is loaded as FilledLoads says; or the frames ran out, and its first pages are mapped to those that were left |
| `Elf.Loader.LoadHeader` | kernel/userspace/elf_loader.c:61-85 | one program header: skipped unless loadable and not empty, otherwise its segment is loaded next, or the frames run out at it |
| `Elf.Loader.ElfLoad` | kernel/userspace/elf_loader.c:51-88 | returns the entry point exactly for an executable whose pages fit the frames left, 0 otherwise; then memory is at every address as FinalImage says, so every segment that shares no page with a later one is there and exactly the pages that meet a segment were mapped; if the frames run out, the segments before some segment are loaded and the first pages of that one are mapped to the frames left; a refused file changes nothing |
| `ElfFile.HeaderDecodes` | kernel/userspace/elf_loader.c:4-25 | for all field values: of a file header encoded field by field, little-endian, the loader reads entry, phoff, phentsize, phnum, and takes it for an executable exactly by its magic and type 2 |
| `ElfFile.ProgramDecodes` | kernel/userspace/elf_loader.c:27-36 | for all field values: of an encoded program header it reads offset, vaddr, filesz and memsz, and takes it for loadable exactly by type 1 and a memsz above 0 |
| `ElfFile.FileDecodes` | kernel/userspace/elf_loader.c:51-87 | for every file made of such headers the segments loaded are those its program headers of type 1 describe, in order, and the entry point is the one of its header |
| `ElfFile.BytesLoaded` | kernel/userspace/elf_loader.c:73-83 | after the load such a file has at vaddr + x the byte at offset + x of the file, and zero from filesz on, for every segment that shares no page with a later one |
| `Bits.RoundDown` | kernel/mem/allocator.rs:33-34 | clearing the low k bits of a word subtracts its remainder by 2^k |
| `Bits.FieldAt` | kernel/larch/paging.rs:102-105 | shift right and mask read the bit field: divide, then remainder |
| `Bits.OrSplits` | kernel/mem/vmm.rs:37-37 | an or can be taken on the upper and the lower bits separately |

## Left out

- Hardware effects: port I/O, the hardware cursor, CR3 and TLB operations, context switches, descriptor tables, timers and drivers.
- `init_paging`: its directory entries point at frames that are not tables, so it is no starting point for the walk.
- `switch_directory`: a run of the two-level tables stays on one directory.
- Aliasing between page tables and other users of a frame: a frame handed to a client is not written through that client.
- Frames given back to the allocator while they are tables or mapped pages: the kernel has no code that does so, and the runs of `Bridge` have no such step.
- `kernel/sched/process.c`, `kernel/larch/multiboot.c`, `security/auth/auth.rs`, the sandbox, the mixer, the mouse and keyboard tables, system-call dispatch and the VFS descriptor table: little state, or nothing to prove beyond their own lines.
- `kernel/shell/shell.c`, `kernel/shell/shell_keyboard.c`, `kernel/drivers/vga.c`: older variants of what is modelled.
- What the commands of the shell print, except for the hexdump: the shell takes it as a function of the command chosen, and the line editor asks that it end its line.
- Atomic operations of the frame allocator: it is modelled as used by one caller at a time.
- The alignment argument of the slab allocator, which the source ignores.
- SlabList.SlabAllocator.Dealloc: takes the header in front of the pointer and its place in the list; a pointer that no alloc returned is not modelled, nor is a header overwritten by a payload after the sizes have drifted.
- SlabList.SlabAllocator.Alloc: the fresh header of a split is a new list node at the computed address; that it may lie on memory in use once the sizes have drifted shows in the addresses of `Slab`, not in the list.
- Slab.TiledIffNeverMerged: says nothing of runs whose number of merges is a multiple of 2^30 other than 0, after which the drift is a whole number of words.
- Hexdump.FsRead: asks that offset plus len does not wrap where the offset is inside the file; by `ReadInsideIff` the source reads behind the file otherwise.
- Hexdump.CmdHexdump: asks that files have at most 2^32 - 16 bytes, because by `EndsIff` the loop does not end for longer ones.
- Elf.Loader.ElfLoad: asks that the file holds its headers and segments, that filesz is at most memsz as the "Program Header" section of chapter 5 of the System V gABI has it, and that no address wraps; the source checks none of this.
- Starting the loaded program (`exec_user_program`).
- History.CommandHistory.Add: strings are sequences without their NUL; that a command fits the 256 bytes of a slot is kept by the shell (`Shell.ShellMain`).
