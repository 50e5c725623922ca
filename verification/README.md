# Verified models of FEXOS kernel components

This project models five components of the FEXOS kernel in Dafny and proves what they are for.
Every routine with a loop or an update in place is a method over the same state, proved against a
specification; the properties that span routines and whole runs are lemmas about those specifications.

- **Memory manager** (`MemoryControl.c`). `FrameBitmap` is the physical frame allocator over 64-bit words,
  abstractly the set of free frames, and `FrameInit` its initialisation from the memory map. `HeapBlocks`,
  `KernelHeap` and `HeapRuns` are the kernel heap: headers in an address-keyed memory that holds those of the
  blocks and the old ones that nothing has overwritten, twelve doubly linked free lists, splitting, coalescing and growth. Abstractly the
  heap is a tiling of an address range; the live payloads are a map from addresses to sizes. A *seam* is an
  address that was the end of the heap at some growth: two free blocks can be neighbours only there.
  `PageEntries`, `EntryBits`, `PageTrees` and `PageTables` are the four-level page tables, abstractly a flat map from page
  numbers to entries. `HeapBacking` is the part of `km_expand` that maps new pages and undoes it on failure,
  `HeapPages` the frames behind the heap, and `HeapSystem` runs of heap, frames and page tables together.
  `HeapWords` goes below the headers to the words of memory that two headers can share.
- **Scheduler** (`Scheduler.c`). `RunHeap` and `RunQueue` are the indexed min-heap, `SchedState` the state,
  its invariant and what each critical section may do, `Scheduler` the routines, `SchedTime` what
  virtual time means, `SchedRuns` whole runs.
- **FAT volume** (`FAT32.c`). `FatEntries` are table entries as bytes, `FatVolume` the block device with table
  copies, write-back cache and clusters, `FatChains` and `FatClusters` the cluster chains, `FatContent`,
  `FatImages`, `FatFiles` and `FatFileBytes` the bytes of files, `FatNames` and `FatLongNames` the names,
  `FatFormat` what lies where, byte by byte.
- **PNG decoder** (`png.c`). `Bits` is the bit reader, `Huffman`, `HuffmanTables` and `HuffmanCodes` canonical
  codes, `Lz77` literals and matches, `Deflate` the decoder as functions on bit sequences, `DeflateEncoding`,
  `DeflateBlocks` and `DeflateStreams` the encoder's side and the proof that decoding inverts it (section 3.2
  of RFC 1951), `DeflateFormat` the format in numbers, `Inflate` the routines, `Unfilter` and `PackedSamples` rows and samples (RFC 2083), `PngImage`
  the way from compressed data to rows.
- **Rasterizer** (`Framebuffer.c`). `Raster` holds the line loop and the integer square root, `LineError` the range of
  the loop's error term.

`Common` holds small helpers, `NumberBits` the binary digits of numbers.

A definition that a routine and its specification share is characterised once more without its name: the bits of
page table entries, the charge of a switch, codewords and symbols, row filters, table entries, name fields and
long-name entries are stated bit by bit or byte by byte, as the standards and the source's tables give them.

## Where the code does not do what it is for

These are stated in the contracts; the conditions are exact.

- `pmm_init_from_efi` marks the frames of the bitmap itself free: the first frame allocated afterwards is the
  first frame of the bitmap (`FrameInit.PmmInit`, `FrameInit.BitmapIsFree`).
- `pmm_alloc_frames_above` returns frames below `min_phys` when rounding that up wraps at 2^64
  (`FrameBitmap.Pmm.AllocFramesAbove`). Its guard passes for more frames than there are when the sum of frame and
  count wraps at 2^64 to a number in range; if a frame is free there, it then tests a range that does not end
  within the bitmap (`FrameBitmap.GuardFails`).
- `kfree` of a pointer that was freed before is sure to return at once only while the old header is intact. When a
  header written since overlaps it, `kfree` reads part of that one instead (`HeapWords.LostFlag`), and goes on if it finds
  0 there: after `kmalloc(32)`, `kmalloc(16)`, two frees in the opposite order and `kmalloc(16)`, a second free of
  the second pointer takes 40 off `heap_used` once too often and overwrites a link of a free block
  (`HeapWords.HeaderLost`, `HeapWords.SecondFreeGoesOn`; `HeapRuns.RunDoubleFree` has the exact condition).
- `km_expand` that fails gives back none of the frames it took when they begin at frame 0, which is when all
  of the frames from 0 to the number of pages were free: `pmm_free_frames` ignores address 0
  (`HeapPages.GivenBack`, `HeapPages.FrameZeroLost`). `pmm_init_from_efi` can leave frame 0 free.
- `vmm_map` and `vmm_unmap` of an address under a 2 MiB entry report success and overwrite eight bytes of the first
  mapped frame. That changes no translation, unless this frame is itself a table; then the addresses that use the
  overwritten entry go where it now leads (`PageTables.Vmm.Map`, `PageTables.Vmm.Unmap`, `PageTables.OverwriteOk`).
- `sched_create_kthread` loses the new task, listed but never selected, when 1024 tasks are queued; identifiers
  repeat after 2^32 creations (`Scheduler.Scheduler.CreateKthread`).
- `sched_wake` of a task that has gone to sleep but is still current queues it while it runs; the next switch
  charges it where it stands, which breaks the heap order unless its children are no smaller
  (`Scheduler.Scheduler.Wake`, `SchedState.ChargeInQueue`).
- `rq_remove`, which nothing calls, removes another task when it is given one that is not queued and whose
  position lies in the queue (`RunQueue.RunQ.RqRemove`).
- `kmalloc` of a size above 2^64 - 16 rounds to 0 and is served as an empty request
  (`KernelHeap.RoundUpFacts`), and growth for a request within 4135 bytes of 2^64 wraps
  (`KernelHeap.GrownRoom`).
- `sched_init` does not clear the memory of the idle task: the list of all tasks is well formed only if the two link
  words of that memory happened to be 0 (`Scheduler.Scheduler.Init`).
- `update_min_vruntime` passes over a current task whose virtual runtime is 0, and leaves a minimum that is not 0 as it
  is while idle is current (`SchedTime.NewMinIs`).
- `fat_alloc_cluster` can return 0 although a cluster is free when the hint is so large that its sum wraps at
  2^32 and the number of clusters does not divide 2^32 (`FatClusters.SearchIsComplete`,
  `FatClusters.FreeButNotFound`). The hint 0xFFFFFFFF, which means "unknown", is taken over from FSInfo unchecked.
- `fat_node_read` of a range whose end wraps at 2^64 delivers bytes behind the end of the file
  (`FatFileBytes.SliceIsFileBytes`).
- `fat_node_truncate` says that it fills with zeros, but the rest of the old last cluster keeps its bytes
  (`FatFileBytes.LengthenedReads`).
- `fat_dir_add_entry` writes eleven blanks as the 8.3 field of every name that does not fit (`FatFormat.FieldFormat`),
  and 0xFFFF instead of the 0 that ends a long name in all but three places of a fragment (`FatFormat.UnitFormat`).
- `fat_dir_find` of a file's own name finds another file when one in front of it shows that name in its 8.3
  field: the field of "foo bar.txt" shows FOO.TXT (`FatLongNames.FindsOwn`, `FatLongNames.AliasShadows`).
- `fat_dir_find` writes 26 bytes in front of its buffer at a long-name entry of order 0 that begins a name, or
  that carries the checksum of the name under way (`FatLongNames.InBounds`, `FatLongNames.OrderZero`).
- `fb_line` overflows 32 bits for some long lines; `LineError.ErrorFitsExact` says for which.
- `isqrt32` divides by zero for 2^32 - 1 (`Raster.Isqrt`).

## Model

| member | source | states |
|---|---|---|
| FrameBitmap.Pmm.SetBit | MemoryControl.c:103 | marking a frame used takes it out of the set of free frames |
| FrameBitmap.Pmm.ClearBit | MemoryControl.c:104 | marking a frame free puts it into the set |
| FrameBitmap.TrailingZeros | MemoryControl.c:55-72 | the lowest set bit of a non-zero word, as the builtin computes it |
| FrameBitmap.Pmm.FindNextZero | MemoryControl.c:106-119 | the word-skipping search with mask and ctz returns the least free frame in [start, limit), and nothing only if there is none |
| FrameBitmap.Pmm.RangeClear | MemoryControl.c:121-139 | the candidate test holds exactly when every frame of the range is free |
| FrameBitmap.Pmm.FindContiguousZero | MemoryControl.c:121-139 | a range that is returned was free, is aligned and is now used; the range that starts at frame 0 is taken exactly when it is free; a single-frame request takes the lowest aligned free frame and fails only if there is none; a request for n frames fails only when no long run of free frames is left (2n - 2 of them without alignment); the search ends |
| FrameBitmap.Pmm.AllocFrames | MemoryControl.c:193-199 | as above for all counts and alignments; a zero count or an alignment that is no power of two fails and changes nothing; free_frames changes by the change in the number of free frames |
| FrameBitmap.Pmm.AllocFrame | MemoryControl.c:200 | the lowest free frame, counted; nothing only when none is free |
| FrameBitmap.Pmm.FindAbove | MemoryControl.c:210-244 | as FindContiguousZero, at or above a frame, for every alignment; the guard is the 64-bit sum |
| FrameBitmap.GuardFails | MemoryControl.c:220-231 | exactly when the wrapped sum lets a count beyond the bitmap pass with a frame to find, and that it does for 2^64 - 1 frames from frame 1 on |
| FrameBitmap.Pmm.AllocFramesAbove | MemoryControl.c:210-244 | the range lies at or above min_phys exactly when min_phys + 4095 does not wrap; completeness as for the search |
| FrameBitmap.Pmm.FreeFrames | MemoryControl.c:246-254 | exactly the given frames become free, each counted once even if it was free already; addresses 0 and -1 are ignored |
| FrameInit.FindBitmapRegion | MemoryControl.c:141-148 | the first usable region with room for the bitmap, or none if there is none |
| FrameInit.BitmapFits | MemoryControl.c:157-168 | the pages asked for hold the words of the bitmap, 64 frames each, and hardly more |
| FrameInit.PmmInit | MemoryControl.c:150-191 | free are exactly the frames of usable regions behind the bitmap and the frames of the bitmap itself; the counter leaves the latter out; -1 exactly when no region holds the bitmap |
| FrameInit.UsableIs | MemoryControl.c:173-189 | which frames the loop over the regions reaches |
| FrameInit.BitmapIsFree | MemoryControl.c:170 | the first frame that is allocated after initialisation is the first frame of the bitmap itself |
| HeapBlocks.SizeClassMonotone | MemoryControl.c:500-506 | a larger size never has a smaller class: searching from the class of the request up misses no block |
| HeapBlocks.ClassBounds | MemoryControl.c:465-506 | which of the twelve classes a size has: up to 16, 32, ... bytes, and whatever is larger |
| HeapBlocks.UnlinkKeepsLinks | MemoryControl.c:597-609 | taking an element out of a free list leaves a consistent doubly linked list of the others, in order |
| HeapBlocks.PushKeepsLinks | MemoryControl.c:582-595 | pushing a block gives a consistent doubly linked list with it in front |
| HeapBlocks.UnlinkOk | MemoryControl.c:597-609 | unlinking any listed free block keeps the heap well formed with that block loose |
| HeapBlocks.InsertOk | MemoryControl.c:582-595 | listing a loose free block under its class keeps the heap well formed |
| HeapBlocks.SplitTiled | MemoryControl.c:545-572 | cutting a block keeps the tiling of [heap start, heap_end), the left links and last_block |
| HeapBlocks.SplitOk | MemoryControl.c:545-572 | cutting a block keeps the whole heap well formed with both parts loose |
| HeapBlocks.MergeTiled | MemoryControl.c:710-741 | merging a block with its right neighbour keeps the tiling, the left links and last_block |
| HeapBlocks.MergeOk | MemoryControl.c:710-741 | merging two loose neighbours keeps the heap well formed |
| HeapBlocks.AppendTiled | MemoryControl.c:628-641 | a block made of new pages behind the old end keeps the tiling |
| HeapBlocks.AppendOk | MemoryControl.c:628-641 | growing the heap keeps it well formed and makes the old end a seam |
| KernelHeap.KHeap.constructor | MemoryControl.c:745-751 | an empty heap satisfies the invariant |
| KernelHeap.KHeap.FindSizeClass | MemoryControl.c:500-506 | the loop over the class sizes finds the least class that holds the size |
| KernelHeap.KHeap.RoundUpCompare | MemoryControl.c:500-506 | rounding up to 16 does not change how a size compares with a class size |
| KernelHeap.KHeap.ListUnlink | MemoryControl.c:597-609 | the stores are exactly the unlink step, for a block in front, inside or at the end of its list |
| KernelHeap.KHeap.InsertFree | MemoryControl.c:582-595 | the stores are exactly the insertion step |
| KernelHeap.KHeap.Search | MemoryControl.c:508-543 | best fit: the block found is a smallest free block that fits, and none is found only if none fits |
| KernelHeap.KHeap.SplitBest | MemoryControl.c:545-572 | the branch that cuts a large block is the split step followed by the insertion of the rest |
| KernelHeap.KHeap.FindBest | MemoryControl.c:508-580 | best fit, unlinked, cut and marked; nothing else of the heap changes owner or size |
| KernelHeap.KHeap.Expand | MemoryControl.c:611-641 | growth backs the new pages, appends one free block made of them, keeps everything else and both invariants; it fails only when the search finds no frames, and then changes nothing, or when the frames for tables run out, and then changes no translation and no heap state |
| KernelHeap.KHeap.Kmalloc | MemoryControl.c:644-697 | fails exactly when no free block fits and the heap did not grow enough; it asks for growth only when no free block fits, and what that does to frames and page tables is stated; otherwise a new payload of at least the rounded request, disjoint from every live one, taken from a smallest block that fits; every live payload keeps its place and size; both invariants hold again |
| KernelHeap.RoundUpFacts | MemoryControl.c:644-648 | rounding is exact up to 2^64 - 16 and gives 0 above |
| KernelHeap.GrownRoom | MemoryControl.c:660-675 | after growth the retry succeeds exactly when the size sum in km_expand did not wrap |
| KernelHeap.PagesForFacts | MemoryControl.c:611-612 | the heap grows by the least number of pages that hold the request and its header |
| KernelHeap.CutExact | MemoryControl.c:548 | a block is cut exactly when what is left holds a header of 40 bytes and at least 16 more |
| KernelHeap.NoRoom | MemoryControl.c:660-680 | the only ways for a request to fail |
| KernelHeap.AllocDone | MemoryControl.c:676-697 | the live payloads and heap_used after a request that succeeds |
| KernelHeap.CarvedSeamed | MemoryControl.c:545-572 | taking and cutting a block creates no two adjacent free blocks |
| KernelHeap.ExtendedInv | MemoryControl.c:611-641 | growth keeps the whole invariant |
| KernelHeap.KHeap.Coalesce | MemoryControl.c:710-741 | the stores of one merge are the unlink step and the merge step |
| KernelHeap.KHeap.MergeNext | MemoryControl.c:710-725 | after the first merge the right neighbour is used, or the boundary is a seam |
| KernelHeap.KHeap.MergePrev | MemoryControl.c:727-741 | after the second merge no two free blocks are adjacent but at seams |
| KernelHeap.KHeap.Kfree | MemoryControl.c:699-743 | exactly the freed payload stops being live, every other keeps its place and size, the block is coalesced on both sides within its expansion region, heap_used drops by its footprint, heap_end and the seams stay, the old headers of merged blocks stay marked free, and the invariant holds; NULL and a block that is already free change nothing, and neither does an old header that is intact |
| KernelHeap.LeftNeighbour | MemoryControl.c:727-741 | the only block that can end where a block starts is its phys_prev |
| KernelHeap.FreedOk | MemoryControl.c:699-743 | listing the coalesced block completes the invariant and the outcome of kfree |
| HeapRuns.WalkFrom | MemoryControl.c:468-498 | stepping by header and size from any block meets exactly the blocks from there on and stops exactly at heap_end |
| HeapRuns.HeapIsTiled | MemoryControl.c:468-498 | stepping over the heap tiles it exactly, phys_prev is the true left neighbour of every block, last_block is the last |
| HeapRuns.PayloadsApart | MemoryControl.c:644-697 | a live payload overlaps neither another one nor any header |
| HeapRuns.PayloadWritesKeepInv | MemoryControl.c:644-743 | whatever is written outside the headers, the invariant stays |
| HeapRuns.WriteKeepsInv | MemoryControl.c:644-743 | what the owner of a payload writes in it costs old headers at most |
| HeapRuns.EmptyHeapIsCoalesced | MemoryControl.c:710-741 | when nothing is allocated, a free block ends only at a seam or at heap_end |
| HeapRuns.UsedIsPayloadSum | MemoryControl.c:686-707 | heap_used is the sum of size and header over the live payloads |
| HeapRuns.FreeUndoesAlloc | MemoryControl.c:644-743 | freeing what was just allocated restores the live payloads and heap_used |
| HeapRuns.StepLive | MemoryControl.c:644-743 | one call changes the live payloads at one address only |
| HeapRuns.RunKeepsPayload | MemoryControl.c:644-743 | over a whole run a live block that is not freed keeps its place and size |
| HeapRuns.RunPayloadsApart | MemoryControl.c:644-743 | what a request returned and nobody freed is, at any later state of the run, still live, large enough and apart from every other live payload |
| HeapRuns.StepWritesNoPayload | MemoryControl.c:644-743 | no call writes a header inside a payload that is live, the one being freed included |
| HeapRuns.RunSeams | MemoryControl.c:611-641 | over a whole run the seams are exactly those at its start and the ends the heap had when it grew; heap_end never falls |
| HeapRuns.StepKeepsHeader | MemoryControl.c:540-563 | which old headers an event leaves: those that no new header and no written byte overlaps |
| HeapRuns.RunHeaders | MemoryControl.c:540-743 | over a run of calls and writes, the headers left are those of blocks and of former blocks not overwritten since; old ones say free and overlap no block's |
| HeapRuns.RunDoubleFree | MemoryControl.c:699-704 | when a pointer that kmalloc once returned may be freed again: exactly when no new header and no owner of a payload has overwritten its header since it was last a block's; unless its payload is live the call then changes nothing, even if its block was merged away |
| HeapWords.RunShows | MemoryControl.c:464-470 | over a run the words of memory show every header that is kept, so the test of kfree reads what the header says |
| HeapWords.LostFlag | MemoryControl.c:704 | what that test reads where a new header lies across an old one |
| HeapWords.HeaderLost | MemoryControl.c:540-563 | in a run of five calls the header of a merged block is intact until the last request writes the header of its rest across it |
| HeapWords.SecondFreeGoesOn | MemoryControl.c:699-708 | a second free of that block finds its flag cleared, sets a byte of a link and makes heap_used 16 with 56 in use |
| PageEntries.LinkEntry | MemoryControl.c:303-334 | the entry that links a table is present, not a 2 MiB entry, and holds the frame |
| PageEntries.HugeMakeHuge | MemoryControl.c:377-404 | the entry of vmm_map_2mb is a 2 MiB entry, present if the flags are |
| PageEntries.IndicesAreVpn | MemoryControl.c:303-334 | the four table indices are the digits of the 36-bit page number |
| PageEntries.SamePage | MemoryControl.c:303-334 | two addresses have the same four indices exactly when they lie in the same page |
| EntryBits.PteMakeBits | MemoryControl.c:284 | bit by bit, whatever the flags: bits 12 to 51 of the address, the bits of the flags, and the accessed bit |
| EntryBits.HugeMakeBits | MemoryControl.c:402 | bit by bit: bits 21 to 51 of the address, the bits of the flags, and the page size bit |
| EntryBits.EntryFixed | MemoryControl.c:284-402 | these bits fix the entry |
| PageTrees.AddLinkOk | MemoryControl.c:303-334 | linking a zeroed free frame keeps the tables a tree and changes no translation |
| PageTrees.WalksMeet | MemoryControl.c:303-334 | two walks that reach the same table came through the same indices: no table is shared |
| PageTrees.SetEntryResolve | MemoryControl.c:434-454 | what any walk finds after any entry of any table was written |
| PageTrees.SetLeafOk | MemoryControl.c:434-454 | writing a leaf keeps the tree and changes the translation of its region only |
| PageTrees.RegionMeets | MemoryControl.c:377-404 | two addresses use the same entry exactly when they lie in the same page or 2 MiB region |
| PageTables.Vmm.Descend | MemoryControl.c:303-334 | one level of the walk: follows or creates a table, keeps the tree and every translation |
| PageTables.Vmm.NewTable | MemoryControl.c:303-334 | a new table comes from the free frames, is marked used and changes no translation; fails only without free frames |
| PageTables.Vmm.WalkDirectory | MemoryControl.c:303-325 | the first two levels of either walk |
| PageTables.Vmm.WalkTable | MemoryControl.c:303-334 | the slot for the address, all four levels down; a walk that runs out of frames midway has changed no translation; under a 2 MiB entry the slot lies in the mapped frame, since the PS bit is not looked at |
| PageTables.Vmm.Map | MemoryControl.c:434-443 | a successful call changes the translation of that page only, to an entry whose bits are those of the address, those of the flags, and bit 5; bad arguments change nothing; running out of frames changes no translation; under a 2 MiB entry it returns 0 and overwrites one entry of the first mapped frame, which changes translations only if that frame is a table, as OverwriteOk says |
| PageTables.Vmm.Unmap | MemoryControl.c:445-454 | succeeds exactly for an aligned address that is mapped by a page, and removes that translation only; under a 2 MiB entry it clears eight bytes of the first mapped frame, if they look present |
| PageTables.Vmm.Map2mb | MemoryControl.c:377-404 | maps one 2 MiB region and changes no other translation |
| PageTables.Vmm.Init | MemoryControl.c:409-432 | the initial tables are the direct map and the kernel image and nothing else |
| PageTables.GrewTwice | MemoryControl.c:303-334 | tables added one after the other: no translation changed, all from free frames |
| PageTables.ResolveVia | MemoryControl.c:303-334 | the translation is decided from any table on the walk |
| PageTables.SlotWrite | MemoryControl.c:434-454 | a store through the slot of a walk changes the translation of its page only |
| PageTables.OverwriteOk | MemoryControl.c:434-454 | a store under a 2 MiB entry changes no translation when the frame is no table, and otherwise exactly those that use the entry; the tables stay a tree unless it makes a link |
| PageTables.InitialDirect | MemoryControl.c:409-432 | one more entry of the direct map |
| PageTables.InitialKernel | MemoryControl.c:409-432 | one more entry of the kernel image |
| PageTables.InitialBits | MemoryControl.c:417-432 | the direct map is present, writable, global and not executable, the kernel image executable, and neither open to user code |
| HeapBacking.MappedAddress | MemoryControl.c:284 | after vmm_map an address reaches the frame it was mapped to, whatever flags outside the address field were given |
| HeapBacking.HeapPageBits | MemoryControl.c:618-621 | heap pages are present, writable, accessed and not executable, and closed to user code |
| HeapBacking.InitialAddresses | MemoryControl.c:409-432 | the initial direct map is the identity on the first 4 GiB, the kernel image lies at its physical base |
| HeapBacking.MapPages | MemoryControl.c:613-626 | all pages are mapped to consecutive frames; or every translation is as before, and then no frame is free |
| HeapBacking.UndoPages | MemoryControl.c:619-626 | the undo loop removes exactly what was mapped |
| HeapBacking.BackPages | MemoryControl.c:611-626 | new heap pages are backed by consecutive frames that were free and stay apart from all tables; or it fails, only because the search found no frames, and then nothing changed, or because the frames for tables ran out, and then nothing is translated differently and every frame is free again but for new tables, and but for the whole range when that began at frame 0 |
| HeapPages.GivenBack | MemoryControl.c:246-247 | a failed growth gives back every frame that did not become a table if and only if no pages were asked for or the range from frame 0 on is not all free |
| HeapPages.FrameZeroLost | MemoryControl.c:246-247 | a state in which the frames are lost: only frame 0 is free; the call fails, maps nothing and leaves no free frame |
| HeapPages.GrowthSucceeds | MemoryControl.c:611-626 | growth by n pages succeeds when a run of 2n - 2 frames (1 for one page) and more than 4n frames are free |
| HeapPages.FramesLeft | MemoryControl.c:611-641 | heap pages and free frames together are no more than there are frames |
| HeapPages.OwnedFresh | MemoryControl.c:611-626 | where the next pages of the heap go nothing is mapped |
| HeapPages.OwnedGrows | MemoryControl.c:611-641 | growth, successful or not, leaves every heap page with a frame of its own that is marked used and is no table |
| HeapPages.BackHeap | MemoryControl.c:611-626 | the part of growth in front of the new block, with that invariant |
| HeapPages.HeapByte | MemoryControl.c:611-641 | a heap address reaches its byte of the frame of its page |
| HeapPages.HeapBytesApart | MemoryControl.c:611-641 | different heap addresses reach different bytes of physical memory, none in a table or a free frame |
| HeapPages.InitiallyOwned | MemoryControl.c:409-432 | the initial tables leave the heap's whole address range unmapped |
| HeapSystem.StepBacked | MemoryControl.c:611-743 | every call of kmalloc and kfree, every use of frames and every mapping elsewhere keeps the heap backed page by page, and pages once backed keep their frames |
| HeapSystem.AllocSucceeds | MemoryControl.c:644-697 | a request whose sizes do not wrap succeeds when a long run of frames is free and enough frames are left for tables |
| HeapSystem.RunBacked | MemoryControl.c:611-743 | over every run, at every state, each page of [heap start, heap_end) maps to a frame of its own that is marked used and is no table |
| HeapSystem.RunPayloadBytes | MemoryControl.c:611-743 | over every run, no two bytes of live payloads share a byte of physical memory |
| RunHeap.UpStep | Scheduler.c:104-112 | one step of the upward loop moves the only violation of the order one level up |
| RunHeap.DownStep | Scheduler.c:114-125 | one step of the downward loop moves the only violation of the order one level down |
| RunHeap.RootIsLeast | Scheduler.c:135-146 | the root of a heap has the least key |
| RunHeap.HeapHasNoHole | Scheduler.c:147-159 | in a heap every position is in order with its children |
| RunHeap.ReplaceHole | Scheduler.c:147-159 | replacing an element spoils the order at that position only |
| RunQueue.RunQ.HeapSwap | Scheduler.c:96-102 | two positions change places and both back pointers follow |
| RunQueue.RunQ.HeapUp | Scheduler.c:104-112 | the element moves up to where it belongs; same tasks, same keys, back pointers right |
| RunQueue.RunQ.HeapDown | Scheduler.c:114-125 | the element moves down to where it belongs and the heap is in order |
| RunQueue.RunQ.RqPush | Scheduler.c:127-133 | below capacity it joins, order and back pointers kept; at capacity nothing changes |
| RunQueue.RunQ.RqPop | Scheduler.c:135-146 | a task of least virtual runtime leaves and forgets its position; 0 only for an empty queue |
| RunQueue.RunQ.RqRemove | Scheduler.c:147-159 | a queued task leaves, order and back pointers kept; a task that is not queued is left alone unless its position lies in the queue, and then the task at that position leaves |
| SchedState.SwitchKeepsInv | Scheduler.c:433-474 | a switch keeps the scheduler invariant |
| SchedState.SwitchMembers | Scheduler.c:433-474 | who is queued after a switch; idle is chosen only when nothing else is runnable |
| SchedState.CreateKeepsInv | Scheduler.c:366-405 | creation keeps the invariant |
| SchedState.CreateBreaksInv | Scheduler.c:366-405 | the invariant breaks when there are 1024 tasks besides idle already or the identifiers run out |
| SchedState.ExitKeepsInv | Scheduler.c:538-558 | exit keeps the invariant |
| SchedState.SleepKeepsInv | Scheduler.c:563-574 | sleep keeps the invariant |
| SchedState.WakeKeepsInv | Scheduler.c:579-595 | waking a sleeper keeps the invariant |
| SchedState.WakeBreaksInv | Scheduler.c:579-595 | waking a task that is still current leaves it both current and queued |
| SchedState.ChargeInQueue | Scheduler.c:438-447 | charging a task where it stands in the queue keeps the heap order exactly when no child of it has a smaller virtual runtime |
| SchedState.QueueHasRoom | Scheduler.c:127-133 | with at most 1024 tasks besides idle the queue has room for any task that is to join it |
| SchedState.UnlinkAllLinks | Scheduler.c:538-558 | taking a task off the list of all tasks leaves a consistent list of the others |
| SchedState.PushAllLinks | Scheduler.c:390-396 | putting a task in front of the list of all tasks keeps it consistent |
| Scheduler.Scheduler.constructor | Scheduler.c:323-345 | before sched_init nothing is scheduled |
| Scheduler.Scheduler.Init | Scheduler.c:323-361 | the whole state afterwards, with what the memory of the idle task held before in the fields that are not set; the invariant holds exactly if the links among them were 0 |
| Scheduler.Scheduler.UpdateMinVruntime | Scheduler.c:211-228 | the new minimum is the one the specification names, never below the old |
| Scheduler.Scheduler.Charge | Scheduler.c:433-447 | the interrupted task, unless idle, is charged for the time since its slice began, weighted, in 64-bit arithmetic |
| Scheduler.Scheduler.Park | Scheduler.c:438-462 | the interrupted task keeps its stack pointer and is queued if it was running and is not idle |
| Scheduler.Scheduler.TakeNext | Scheduler.c:463-474 | the next task is one of least virtual runtime, or idle when none is queued |
| Scheduler.Scheduler.ContextSwitch | Scheduler.c:433-474 | the whole switch: the charge of the interrupted task, the new minimum and slice start, candidates, choice, saved and resumed stack pointers, run time and switch counters, and the invariant |
| SchedTime.SwitchCharges | Scheduler.c:437-446 | the interrupted task is charged v with v * weight <= 1024 * d < (v + 1) * weight in 64 bits, where d is a third of the counts since the slice began; idle and all others are charged nothing |
| SchedTime.NiceZeroCharge | Scheduler.c:443 | a task of nice 0 is charged the time itself |
| SchedTime.HeavierChargedLess | Scheduler.c:443 | of two tasks that used the same time the heavier is charged no more |
| SchedTime.WeightsFall | Scheduler.c:64-79 | weights fall with nice by a factor between 1.2 and 1.28 at each step, and nice 0 weighs 1024 |
| SchedTime.WeightsEnd | Scheduler.c:81-85 | a priority out of range weighs as the nearest one in range |
| SchedTime.NewMinIs | Scheduler.c:211-221 | the new minimum in every case: the smaller of the current task's and the queue head's virtual runtime if that is larger, and where the code departs from that |
| SchedTime.TickStays | Scheduler.c:497-513 | a tick does not switch exactly when less than 12 million counts of the slice are over, idle does not keep a queued task waiting, and no queued task is more than 4 million ns behind |
| SchedTime.InitialFrame | Scheduler.c:281-311 | a new task starts on a frame of 168 bytes at the top of its stack, which is rounded down to 16 |
| Scheduler.Scheduler.Tick | Scheduler.c:483-521 | a timer interrupt switches when the specification says so and otherwise changes nothing |
| Scheduler.Scheduler.CreateKthread | Scheduler.c:366-405 | a new runnable task at the head of the list, with the frame built on its stack and a 32-bit identifier; it is queued exactly when fewer than 1024 tasks are; the invariant holds again exactly when there were at most 1023 tasks besides idle and the identifiers do not wrap; failures change no list |
| Scheduler.Scheduler.Exit | Scheduler.c:538-558 | the current task becomes a zombie off the list and its slice start is 0 |
| Scheduler.Scheduler.Sleep | Scheduler.c:563-574 | the current task sleeps; nothing else changes |
| Scheduler.Scheduler.Yield | Scheduler.c:526-533 | only the slice start changes |
| Scheduler.Scheduler.Wake | Scheduler.c:579-595 | exactly the sleeper with the identifier is made runnable and queued once, its virtual runtime raised to the minimum if below; without one nothing changes; the invariant holds again exactly when the sleeper is not the current task |
| SchedRuns.StepZombie | Scheduler.c:433-474 | tasks stay, and one that has exited stays exited |
| SchedRuns.StepRsp | Scheduler.c:433-474 | a saved stack pointer changes only when its owner is interrupted |
| SchedRuns.RunMin | Scheduler.c:211-228 | min_vruntime never decreases over a run |
| SchedRuns.RunZombie | Scheduler.c:538-558 | an exited task that is not current is never selected again |
| SchedRuns.StepKeepsInv | Scheduler.c:367-595 | every critical section keeps the invariant |
| SchedRuns.RunInv | Scheduler.c:367-595 | a run from a state with the invariant has it at every state |
| SchedRuns.RunLosesNoTask | Scheduler.c:433-595 | at every state of a run from one with the invariant a task has exited, or is listed and asleep, current, idle or queued exactly once; queued exactly when runnable; running only when current |
| SchedRuns.RunRsp | Scheduler.c:433-474 | while a task is not current its saved stack pointer does not change |
| SchedRuns.RunResumesWhereLeft | Scheduler.c:281-318 | a task is always resumed with the stack pointer of its last interruption or of its creation |
| SchedRuns.ExitLeaves | Scheduler.c:538-558 | after sched_exit the first timer interrupt with a counter past one slice leaves the task, which never runs again |
| SchedRuns.SleepLeaves | Scheduler.c:563-574 | after sched_sleep_ns the task stays current until a timer interrupt, and leaves at one past one slice |
| FatEntries.GetSet | FAT32.c:306-405 | reading an entry that was set gives the class of the stored value, for 12, 16 and 32-bit tables |
| FatFormat.EntryFormat | FAT32.c:306-355 | which bytes an entry is read from, in each of the three formats |
| FatFormat.StoreFormat | FAT32.c:357-409 | every byte of the table after a store: those of the entry, and the neighbour's half byte as it was |
| FatFormat.ClusterOnDisk | FAT32.c:252-300 | where on the disk a cluster lies |
| FatFormat.CopyOnDisk | FAT32.c:411-427 | where on the disk the two copies of the table lie |
| FatEntries.NormStorable | FAT32.c:357-405 | cluster numbers, FREE and end-of-chain read back exactly |
| FatEntries.GetSetOther | FAT32.c:306-405 | setting an entry leaves every other entry as it was, 12-bit neighbours that share a byte included |
| FatEntries.DecodeEncode | FAT32.c:306-405 | the bits of one entry: decoding inverts encoding up to the classes |
| FatVolume.Volume.constructor | FAT32.c:1638-1715 | a mounted volume with or without cache satisfies the invariant |
| FatVolume.Volume.GetEntry | FAT32.c:306-355 | cached and uncached lookups return the entry of the table in force; out-of-range clusters and a failed read give end-of-chain |
| FatVolume.Volume.SetEntry | FAT32.c:357-405 | exactly one entry of the table in force changes, or nothing on a read-only volume or a failed transfer; no byte outside the first table copy changes |
| FatVolume.Volume.SetOnDisk | FAT32.c:370-405 | the uncached branch, entries that straddle two sectors included |
| FatVolume.Volume.Flush | FAT32.c:412-425 | a flush makes both copies on the disk equal the cache and changes no entry and no data |
| FatVolume.Volume.Look | FAT32.c:306-355 | lookup in terms of the sequence of entries |
| FatVolume.Volume.Store | FAT32.c:357-405 | update in terms of the sequence of entries: one entry, and no byte of any cluster |
| FatVolume.Volume.ReadCluster | FAT32.c:287-294 | reads the bytes of that cluster |
| FatVolume.Volume.WriteCluster | FAT32.c:296-300 | changes the bytes of that cluster, of no other, and no entry |
| FatVolume.EntriesSet | FAT32.c:306-405 | bytes refine entries: storing bytes is updating one element |
| FatVolume.ClusterPut | FAT32.c:252-255 | clusters do not overlap each other or the tables |
| FatChains.NewChain | FAT32.c:443-459 | a free cluster marked end-of-chain is a chain of its own; all chains stay disjoint, acyclic, terminated and account for every cluster |
| FatChains.JoinChains | FAT32.c:477-483 | linking the last cluster of one chain to the first of another keeps that |
| FatChains.CutChain | FAT32.c:1427-1442 | an end-of-chain mark inside a chain cuts it in two and keeps that |
| FatChains.FreeHead | FAT32.c:461-475 | freeing the first cluster of a chain leaves the rest of it as a chain and keeps that |
| FatChains.ChainBound | FAT32.c:486-494 | a chain is no longer than the volume: the loop guard of fat_chain_length never fires |
| FatClusters.SearchIsComplete | FAT32.c:443-459 | the search meets every cluster exactly when start - 2 + total_clusters does not exceed 2^32 or total_clusters divides 2^32 |
| FatClusters.ScanReaches | FAT32.c:447-449 | from such a hint, which cluster number is met in which round |
| FatClusters.ScanMisses | FAT32.c:447-449 | from any other hint, such as 0xFFFFFFFF from FSInfo, a cluster the search never looks at |
| FatClusters.FreeButNotFound | FAT32.c:443-459 | from any such hint, a table with a free cluster for which the search returns 0 |
| FatClusters.Fat.constructor | FAT32.c:1671-1687 | the counters of FSInfo are taken as they are, apart from a hint below 2; the free count is tracked rightly from then on if it was right or unknown |
| FatClusters.Fat.AllocCluster | FAT32.c:443-459 | the first free cluster in the order of the search becomes a chain of its own and the known free count follows; 0 exactly when none of the clusters that are looked at is free, which for every hint from which the search is complete means that nothing is free |
| FatClusters.FirstFrom | FAT32.c:443-459 | from a hint within the volume the search finds the first free cluster from the hint on, or else the first of all |
| FatClusters.Fat.FreeChain | FAT32.c:461-475 | exactly the clusters of the chain become free, the count and the hint follow, every other chain stays |
| FatClusters.Fat.ExtendChain | FAT32.c:477-483 | a free cluster is appended to the chain that ends there |
| FatClusters.Fat.Terminate | FAT32.c:1438 | the cut keeps the invariant and frees nothing |
| FatClusters.Fat.ChainLength | FAT32.c:486-494 | the length of the chain, or 0 for no chain |
| FatContent.ContentAt | FAT32.c:1145-1175 | where a cluster of a chain lies in the bytes of the file |
| FatContent.ContentWrite | FAT32.c:1232-1255 | a piece written into one cluster is that piece written into the file |
| FatContent.ContentAppend | FAT32.c:1216-1222 | a zeroed cluster appended to the chain appends zeros to the file |
| FatImages.WrittenPiece | FAT32.c:1232-1255 | one round of the write loop continues what was written so far |
| FatImages.WrittenExtend | FAT32.c:1258-1267 | extending the chain under way keeps what was written so far |
| FatImages.GrownUntouched | FAT32.c:1184-1289 | a change to one file leaves the chains and clusters of every other file alone |
| FatFiles.FatNode.Read | FAT32.c:1131-1182 | the bytes of the file in the range asked for, over any number of clusters; a directory is refused |
| FatFiles.FatNode.EnsureFirst | FAT32.c:1196-1205 | an empty file gets one zeroed cluster, or nothing changes |
| FatFiles.FatNode.Append | FAT32.c:1216-1222 | the chain gets one zeroed cluster that was free, or nothing changes and nothing is free |
| FatFiles.FatNode.Seek | FAT32.c:1207-1228 | the chain is followed and extended up to the cluster of the offset, no further |
| FatFiles.FatNode.PutPieces | FAT32.c:1232-1269 | the write loop: what is written is a prefix of the buffer at the offset, all of it unless clusters run out |
| FatFiles.FatNode.Write | FAT32.c:1184-1289 | with enough free clusters all bytes are written, the bytes at the offset are the buffer, every other old byte is as before, new clusters are zero elsewhere, the size becomes the maximum and no cluster is wasted; in every case, without room too, no other file is touched and the chains stay sound; refusals and a full volume change nothing |
| FatFiles.FatNode.Shorten | FAT32.c:1427-1443 | the chain keeps its first clusters and the others become free |
| FatFiles.FatNode.Lengthen | FAT32.c:1444-1466 | zeroed clusters are appended up to the number needed, or until none is free |
| FatFiles.FatNode.Clear | FAT32.c:1422-1426 | the whole chain becomes free |
| FatFiles.FatNode.Truncate | FAT32.c:1415-1478 | all three branches: nothing left; the first clusters as they are; or all clusters as they are with zeroed ones behind; no other file is touched |
| FatFiles.CeilFacts | FAT32.c:1421 | the number of clusters computed is right unless 64 or 32 bits do not hold it |
| FatFiles.RoomExact | FAT32.c:1207-1208 | with room for the write its end does not wrap and its cluster number is not truncated |
| FatFileBytes.SliceIsFileBytes | FAT32.c:1139-1141 | a read delivers exactly the bytes of its range if and only if its end is no wrapped sum, or it begins behind the file, or the clusters hold no byte behind the file |
| FatFileBytes.WriteThenRead | FAT32.c:1131-1289 | what was written is read back, other bytes are as before, a gap reads as zeros in new clusters |
| FatFileBytes.LengthenedReads | FAT32.c:1444-1468 | a lengthened file reads zeros in its new part exactly when the rest of its old last cluster was zero |
| FatFileBytes.ShortenedReads | FAT32.c:1427-1443 | a shortened file keeps its first bytes |
| FatFileBytes.OthersRead | FAT32.c:1131-1289 | a change to one file leaves every read of every other file as it was |
| FatNames.Make83 | FAT32.c:564-584 | whether the parts fit, and the padded upper-case field |
| FatFormat.FieldFormat | FAT32.c:564-584 | every byte of the field: up to eight in front of the last dot and three behind it, in capitals, and blanks |
| FatFormat.ShownFormat | FAT32.c:549-561 | what a field shows, byte by byte |
| FatFormat.UpperLetters | FAT32.c:70-72 | small letters become capitals and nothing else changes |
| FatNames.Parse83 | FAT32.c:549-561 | the name a field shows |
| FatNames.LfnChecksum | FAT32.c:587-592 | the sum of the field that ChecksumStep characterises |
| FatNames.RotateBits | FAT32.c:590 | the rotation moves every bit one place down and the lowest to the top |
| FatNames.ChecksumStep | FAT32.c:587-592 | one more byte is added in eight bits to the sum so far with its bits moved that way |
| FatFormat.FooBarChecksum | FAT32.c:587-592 | the field FOOBAR~1TXT has checksum 7 |
| FatNames.ChecksumDetects | FAT32.c:587-592 | two fields that differ in one byte have different checksums |
| FatNames.ShortIsEnough | FAT32.c:917-936 | no long name is written exactly when both parts fit, the name holds no space and no dot ends it |
| FatLongNames.MakeFragment | FAT32.c:1028-1053 | the 13 units of a fragment with their padding |
| FatFormat.WrittenFormat | FAT32.c:1036-1053 | every field of a long-name entry as it is written, byte by byte |
| FatFormat.ReadFormat | FAT32.c:765-770 | and as it is read |
| FatFormat.UnitFormat | FAT32.c:1024-1053 | what each unit of a fragment holds: a byte of the name, or the padding |
| FatFormat.GroupFormat | FAT32.c:1022-1077 | the entries of a name: fragments of 13, the last first and marked, each with the checksum, and the 8.3 entry |
| FatFormat.UnitDecodes | FAT32.c:520-541 | a unit becomes the one, two or three bytes of UTF-8 that stand for it |
| FatLongNames.AddEntry | FAT32.c:909-1079 | the entries written for a name: fragments from last to first, then the 8.3 entry |
| FatLongNames.SameName | FAT32.c:70-76 | equality up to case |
| FatLongNames.Utf16ToAscii | FAT32.c:521-539 | the decoding of units, two and three-byte forms and the buffer limit included |
| FatLongNames.CopyUnits | FAT32.c:764-771 | the units of a fragment in their place |
| FatLongNames.DirFind | FAT32.c:728-811 | the first entry that goes by the name or its 8.3 alias, with the reset rules of the long-name scan; it needs that no entry in front of it is copied outside the buffer |
| FatLongNames.FragmentRead | FAT32.c:1028-1055 | the fields of a written fragment as the scan reads them |
| FatLongNames.FragmentsRead | FAT32.c:749-773 | whatever was scanned before, the fragments of a name leave its units in the buffer |
| FatLongNames.GroupShows | FAT32.c:728-811 | every non-empty ASCII name of at most 255 characters reads back from the entries written for it, exactly with long-name entries, up to case without |
| FatLongNames.EveryNameHits | FAT32.c:728-811 | in a directory of written groups the 8.3 entry of each file is one that the look-up of its name would take; whether it is the first is FindsOwn |
| FatLongNames.HitIsName | FAT32.c:776-786 | the 8.3 entry of a written file is taken for a name exactly when the file has the name, up to case, or has a long name and shows the name in its 8.3 field |
| FatLongNames.HitIsFile | FAT32.c:728-811 | no entry but the 8.3 entries of the files is taken |
| FatLongNames.LookUp | FAT32.c:728-811 | a look-up in a directory of written groups, with deleted entries and volume labels between them, finds the first file that goes by the name, and nothing exactly when none does |
| FatLongNames.FindsOwn | FAT32.c:728-811 | the look-up of a file's own name finds that file if and only if no file in front of it has the same name, up to case, or shows it as the 8.3 alias of a longer one |
| FatLongNames.AliasShadows | FAT32.c:784-786 | in a directory of foo bar.txt and then foo.txt the look-up of foo.txt finds the first file |
| FatLongNames.NumberedInBounds | FAT32.c:749-773 | a scan over entries with order numbers from 1 on stays within its buffer |
| FatLongNames.OrderZero | FAT32.c:764-771 | an entry with order byte 0x40 makes the code write in front of its buffer |
| Bits.BitStream.GetBit | png.c:29-39 | one bit, least significant first, and the rest stays |
| Bits.BitStream.GetBits | png.c:42-50 | the number in the next n bits, or failure at the end of the input |
| Bits.BitStream.Align | png.c:53-56 | the bits up to the next byte boundary are dropped |
| Huffman.Huffman.Build | png.c:91-104 | codes are counted by length and symbols listed by length and then by number |
| Huffman.PlacesApart | png.c:103-106 | no two symbols get the same place |
| DeflateFormat.StreamBit | png.c:29-50 | bit k of byte i is bit 8 i + k of the stream |
| DeflateFormat.ValueBit | png.c:42-50 | a number's lowest bit comes first |
| DeflateFormat.CodeBit | png.c:73-88 | a codeword's highest bit comes first |
| DeflateFormat.CodesConsecutive | png.c:73-106 | codes of one length are consecutive in the order of their symbols |
| DeflateFormat.CodesFollow | png.c:73-106 | the first code of a length is one more than the last of the next shorter one, with zeros appended |
| DeflateFormat.ShortestIsZero | png.c:73-106 | the very first code is all zeros |
| DeflateFormat.FixedCodewords | png.c:187-195 | the fixed literal codewords as section 3.2.6 of RFC 1951 lists them |
| DeflateFormat.FixedDistanceCodewords | png.c:196-199 | the fixed distance codewords are the numbers of five bits |
| Huffman.Huffman.DecodeSymbol | png.c:73-88 | the loop over the lengths computes the decoding function and reads exactly its bits |
| HuffmanTables.BuiltIsSymbolOf | png.c:73-104 | every table built for the same lengths decodes alike |
| HuffmanTables.SymbolBelow | png.c:73-88 | a decoded symbol is one of the code |
| HuffmanCodes.KraftIsShare | png.c:91-104 | the codes up to a length take the share of the code space that the Kraft sum says |
| HuffmanCodes.KraftDecides | png.c:91-104 | every code fits its length if and only if the Kraft sum is at most 1 |
| HuffmanCodes.SymbolDecodes | png.c:73-104 | for every set of lengths with Kraft sum at most 1: the canonical code of a symbol, followed by any bits, decodes to it and nothing more is read |
| HuffmanCodes.PrefixFree | png.c:73-104 | no codeword begins another |
| Lz77.RepeatIsPeriodic | png.c:175-179 | a match that reaches into its own output repeats its last bytes |
| Lz77.LengthHasSymbol | png.c:109-114 | every length from 3 to 258 has a symbol and extra bits |
| DeflateFormat.LengthTable | png.c:109-114 | base and extra bits of every length symbol by a formula |
| DeflateFormat.DistanceTable | png.c:115-122 | base and extra bits of every distance symbol by a formula |
| DeflateFormat.LiteralSymbols | png.c:153-163 | what a symbol that is no length does |
| DeflateFormat.MatchSymbols | png.c:163-181 | what a length symbol, a distance symbol and their extra bits do: which bytes are appended, and when it fails |
| Lz77.DistanceHasSymbol | png.c:115-121 | every distance from 1 to 32768 has a symbol and extra bits |
| DeflateEncoding.MatchBack | png.c:162-171 | an encoded match decodes to its length and distance |
| DeflateEncoding.DataBack | png.c:153-182 | the encoded tokens of a block decode to exactly their expansion, and what follows the block is left |
| DeflateBlocks.StoredBack | png.c:139-151 | a stored block at any bit position decodes to its data |
| DeflateBlocks.FixedKraft | png.c:187-201 | the fixed codes: Kraft sums 1 and 30/32 |
| DeflateStreams.OpsBack | png.c:230-254 | run-length coded code lengths decode to the lengths they stand for |
| DeflateStreams.ClenBack | png.c:219-226 | the lengths of the code length code in their order |
| DeflateStreams.HeadBack | png.c:208-258 | the header of a dynamic block decodes to its two sets of lengths |
| DeflateStreams.BodyBack | png.c:276-281 | a block of any type decodes to its output |
| DeflateStreams.StreamBack | png.c:271-287 | a stream of blocks of any types decodes to the output of all its blocks |
| DeflateStreams.ZlibBack | png.c:263-289 | every zlib stream as an encoder writes it inflates to its data, when the buffer holds it |
| DeflateFormat.OrderTable | png.c:204-206 | the order of the code length code's lengths by a formula |
| DeflateFormat.ClenFormat | png.c:217-220 | which three bits are the length of which symbol |
| DeflateFormat.LengthSymbols | png.c:226-252 | what each symbol of the code length code does |
| DeflateFormat.HeaderFormat | png.c:208-256 | the fields of a dynamic header and the two sets of lengths |
| DeflateFormat.StoredBytes | png.c:139-151 | a stored block in bytes: two of length, two that are skipped, and the data |
| DeflateFormat.BlockFormat | png.c:270-290 | the last-block bit, the two type bits, and what each type stands for |
| DeflateFormat.LetterA | png.c:263-290 | the stream 0x73 0x04 0x00 is the letter A |
| Inflate.OutBuf.Put | png.c:132-136 | one byte appended, or failure in a full buffer |
| Inflate.OutBuf.CopyMatch | png.c:175-179 | the overlapping copy is the expansion of the match, fails exactly when the buffer is too small, and never alters a byte already written |
| Inflate.InflateStored | png.c:139-151 | computes the stored-block function |
| Inflate.InflateBlockData | png.c:153-182 | computes the block function, ends because every symbol consumes input, and never alters a byte already written |
| Inflate.ReadLengths | png.c:230-254 | the run-length loop, truncation of a run at the end included |
| Inflate.ReadHeader | png.c:208-258 | the two sets of code lengths |
| Inflate.InflateDynamic | png.c:208-259 | computes the dynamic-block function |
| Inflate.FixedTables | png.c:187-201 | builds the tables of the fixed codes, whose codewords FixedCodewords lists |
| Inflate.InflateZlib | png.c:263-289 | computes the stream function: success and output, or failure; never alters what was in the buffer |
| Unfilter.PaethIsNearest | png.c:306-314 | the predictor picks a nearest neighbour, left before upper before upper left |
| Unfilter.RowBack | png.c:468-485 | unfiltering a filtered row recovers it, for each filter and distance |
| Unfilter.ImageBack | png.c:463-556 | for every image and every choice of filter per row the rows are recovered |
| Unfilter.UnfilterInto | png.c:468-485 | the byte loop computes the row, every byte by the formula of its filter, whatever the buffer held before; an unknown filter fails |
| Unfilter.RowByFormula | png.c:468-485 | each byte from its filtered byte, the byte bpp before it, the one above, and the one above bpp before, by the formulas of section 6 of RFC 2083 |
| Unfilter.FormulaFixes | png.c:468-485 | the formulas fix the row |
| Unfilter.ImageByFormula | png.c:463-545 | every row of an image obeys the formulas of the filter in front of it, with the row above it, and zeros above the first |
| Unfilter.ImageFails | png.c:479-481 | decoding fails exactly when a filter is unknown |
| Unfilter.UnfilterImage | png.c:450-556 | the row loop with its two buffers that change places computes the rows |
| PackedSamples.SamplesBack | png.c:525-532 | packed samples of 1, 2 or 4 bits are read back in order |
| PackedSamples.SampleBits | png.c:525-532 | the bits of a sample are the next bits of the row, the high bit of each byte first |
| PackedSamples.UnpackRow | png.c:525-532 | the unpacking loop reads every sample |
| PngImage.DecodeRows | png.c:422-556 | inflating into a buffer of the image's size and unfiltering: the rows, or failure |
| PngImage.ImageDecodes | png.c:263-556 | every image, filtered row by row with any filters and compressed in blocks of any types as an encoder writes them, decodes to its rows |
| Raster.RoundKeepsNear | Framebuffer.c:534-540 | one round of the line loop: the longer axis advances and the next point is within half a step |
| Raster.LongerEnds | Framebuffer.c:534-540 | at the end on the longer axis the line is at the end on the other |
| Raster.Line | Framebuffer.c:527-541 | one point per step of the longer axis, from the first to the last end point, all in the bounding box and within half a step of the line; the loop ends; the error term is that of LineError |
| LineError.ErrIsRem | Framebuffer.c:532-540 | the error term is, up to sign and a constant, the remainder nearest to 0 of a multiple of the shorter extent by the longer |
| LineError.Occurs | Framebuffer.c:532-540 | every multiple of the extents' common divisor between minus and plus half of the longer is such a remainder |
| LineError.ErrorFitsExact | Framebuffer.c:527-540 | no value of the loop leaves 32 bits exactly when the extents meet a condition on their greatest common divisor |
| Raster.NewtonAbove | Framebuffer.c:1069-1074 | a Newton iterate is never below the root |
| Raster.Isqrt | Framebuffer.c:1069-1074 | the root rounded down for every n below 2^32 - 1; for 2^32 - 1 the sum wraps and the next step divides by zero |

## Left out

- Kmalloc: physical memory is taken to fit between the start of the heap and the kernel image (120 TiB); debug output is left out.
- TrailingZeros: the fallback without the compiler builtin (MemoryControl.c:65-72) is not modelled.
- Map: assumes physical frame numbers below 2^40 and that physical memory holds the frames that 2 MiB entries map; frames are reached by number, while the code's direct map reaches the first 4 GiB only; effective user permissions are not modelled, and tables are never freed, as in the code.
- Unmap: as Map.
- AllocFrames: whether a shorter run of free frames than the stated one is found is not claimed, since a failed candidate makes the code skip frames.
- FindAbove: begins in a state in which the guard does not pass by wrapping, as `GuardHolds` says; otherwise the code reads beyond the bitmap.
- AllocFramesAbove: as FindAbove.
- PmmInit: regions begin at a page and end within the address space; the descriptor sizes are left out.
- Kfree: a pointer that was never returned by `kmalloc` is left out, and of one whose old header has been overwritten only what the test reads and what follows at once is stated (`HeapWords`).
- RunBacked: the other users of frames and page tables give back no frame of the heap and map no address of its range.
- Interrupt masking, spinlocks, context-switch assembly, the layout of the frame on a new stack, and task names are left out; one acquire and release section is one step.
- RunLosesNoTask: runs are sequences of the critical sections of `Scheduler.Scheduler`; tasks are created with at most 1024 besides idle and fewer than 2^32 creations; calls are made by a running current task, and none wakes the current task.
- Fairness bounds, and the minimum virtual runtime as a lower bound on all tasks, are not claimed.
- GetEntry: the sector size is fixed at 512 bytes, and the geometry of the boot sector is taken to be consistent (the table holds every cluster, the areas do not overlap).
- AllocCluster: a device that fails in the middle of a chain or file operation is left out; `FatVolume` has failing transfers for single entries and flushes.
- Write: the update of the directory entry and of FSInfo, and a failing `kmalloc` of the cluster buffer, are left out; without enough free clusters the recorded size can exceed the chain, as in the code.
- Truncate: begins with a file whose size its clusters hold.
- AddEntry: the search for free directory slots, the placement of the entries in sectors and the iteration over a directory's clusters are left out; a directory is the sequence of its 32-byte entries.
- DirFind: the location results are left out.
- InflateDynamic: the arrays hold 320 code lengths and symbols, and the fixed literal code is given 288 lengths, where the code declares 316 and 286; an encoder's dynamic block has at most 286 and 30 code lengths.
- InflateZlib: the two header bytes and the checksum are skipped, as in the code.
- PNG chunks, palettes, transparency, colour conversion and checksums are left out.
- Line: extents for which an intermediate value overflows, and writing the pixels, are left out.
- All drawing but the line and the square root, drivers, system calls, the virtual file system layer and the ELF loader are left out.
