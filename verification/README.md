# A verified model of orange_os

This project models the hard core of orange_os, a single-CPU x86_64 kernel, and proves what that
core is for. To verify it with Dafny 4.11: `dafny verify dfyconfig.toml`.

The kernel runs its critical sections with interrupts off, so each call is one atomic step. Page
tables, lists, bitmaps and buffers are modelled with the operations the C code performs on them;
ghost state says what they stand for.

| modules | models |
|---|---|
| `Bits`, `Pmm` | the page bitmap, owners, mapping refcounts, E820 passes (`kernel/memory.c`) |
| `Layout`, `PageTree`, `Linkage`, `VirtualMemory` | the four-level tables of section 4.5 of the Intel SDM, volume 3A, their tie to the page allocator, map, unmap, copy-on-write, clone, destroy (`kernel/memory.c`, `kernel/process.c`) |
| `Hardware` | the processor's walk of these tables and its page faults, as sections 4.5 to 4.7 of that volume define them |
| `SharedPages` | the flat machine of PTEs and counted pages, and private memories |
| `UserCopy`, `AreaList`, `Process`, `System` | copy_to_user, page faults, areas, mmap, munmap, stack growth, fork, exit, and whole runs (`kernel/memory.c`, `kernel/process.c`, `kernel/idt.c`) |
| `BlockCache`, `DiskBits`, `CachedIndex` | the write-back block cache, and the one place that keeps a pointer into it while it allocates (`kernel/fs.c`) |
| `FileIndex`, `Allocation`, `Files`, `Directory` | block trees, the order in which blocks are taken, files and directories of MyFS (`kernel/fs.c`) |
| `DirNames`, `NameTree`, `FileService`, `Failures`, `FullDirectory` | directories as maps of names, the tree they form, whole runs of requests, and small disks on which things go wrong (`kernel/fs.c`) |
| `Geometry`, `OnDisk`, `Mkfs`, `Installed` | the layout, the bytes of the metadata, the image builder and its agreement with the kernel (`tools/mkfs.c`, `kernel/fs.c`) |
| `Heap` | the kernel heap on top of `Pmm` (`kernel/kalloc.c`) |
| `Futex`, `CondVar`, `UserMutex` | futex queues, condition variables, the user mutex (`kernel/futex.c`, `usr/thread_runtime.h`) |
| `Scheduler`, `Pipe` | the ring of threads (`kernel/thread.c`), pipes (`kernel/file.c`) |

How the parts fit: the page tables refine a flat map from page to PTE (`PageTree`, `VirtualMemory`), also as the processor
reads them (`Hardware`);
the flat map with its counted pages refines private memories (`SharedPages`); `System.Run` composes
both with area lists and failure paths over any number of processes, from the state `System.Start`
boots into. On the file side, the cache and
the disk refine a block array (`BlockCache`), block trees over that array refine byte arrays
(`Files`), records refine maps of names (`DirNames`) that form a tree (`NameTree`), and
`FileService.Run` composes them, full disks included, from any state that agrees with such a tree, of
which an image of mkfs is one (`Installed.Begin`).

Where the C code writes through a lost pointer or hands on a number that does not fit, the file model
sets a field `broken` and promises nothing more. Every contract says exactly, in terms of the state
before the call, when that happens; `CachedIndex` ties the part that comes from the cache to the
cache itself.

## What the code does not do

Where a property expected of the code fails, the model keeps the code and states the exact condition.

- A pointer into a cached index block survives an allocation if and only if the bitmap scan spans at
  most fourteen blocks (`BlockCache.PointerAcrossAlloc`); otherwise the new entry overwrites a word of
  another block (`CachedIndex.AddEntry`, and `CachedIndex.EntryLost` for a run of it). Disks up to
  1.75 GiB are safe (`Geometry.ScanSpan`); on larger ones `Files.MyFs.WriteInode` and
  `Directory.Create` say which calls are.
- dir_add loses a block exactly when the directory is full, the slot for its next block is empty, and
  some but too few blocks are free (`Directory.DirAdd`, `Directory.LostTop`,
  `FullDirectory.NameCostsBlock`).
- A data block number from 2^31 on passes through a C int and is leaked (`Files.MyFs.AllocDataBlock`,
  `FileIndex.LostBlock`, `Failures.NumberTooLarge`).
- A failed write may leave bytes behind the end of a file (`Files.MyFs.WriteInode`,
  `Files.FailedWriteTidy`), and a later write past them then shows them (`Files.WriteRefinesIff`,
  `Failures.ResidueShows`).
- Unlinking does not consult the inode bitmap, so through a record that names a freed inode it would
  free blocks again (`Directory.Remove`); no run makes such a record (`FileService.RemovableIff`).
- schedule halts the kernel by its own assertion when it reaps every thread but the running one
  (`Scheduler.Threads.Schedule`, `Scheduler.LastZombieHalts`).
- Of two inputs with the same name mkfs stores both and the kernel finds the first
  (`Mkfs.RoundTrip`).
- mkfs never finishes an input of 4 GiB or more (`Mkfs.Image.CopyInput`).
- A condition variable misses a broadcast exactly when the signals since the load number a multiple
  of 2^32 (`CondVar.StaleSleepIff`, `CondVar.MissedAfterWrap`).
- A lookup in the block cache can be refused although the block exists when every age has reached
  2^32 - 1 (`BlockCache.Buffers.Get`).
- user_mutex_lock acquires the mutex if and only if it is free at the first exchange
  (`UserMutex.LockEntersIff`): its comment says that only a 0 to 1 transition transfers ownership, and
  the retry loop has none (`UserMutex.RetryNeverEnters`).

## Model

| member | source | states |
|---|---|---|
| `Bits.PutTest` | kernel/memory.c:263-299 | Writing one bit of the packed page bitmaps changes that page's bit and no other page's, for every byte value and both bit values. |
| `Pmm.FindTop` | kernel/memory.c:153-164 | The result is the greatest of 0 and the ends of the usable records that do not wrap: no such end lies above it and, unless it is 0, it is one of them; wrapping and other records do not move it. |
| `Pmm.OneHighest` | kernel/memory.c:153-164 | Being that greatest end determines the top, so no other result would do. |
| `Pmm.PageMap.Boot` | kernel/memory.c:142-252 | For every list of E820 records: boot succeeds exactly when memory reaches far enough for the metadata, and then a page is allocatable if and only if it lies wholly in one usable record and touches no record of another type, no boot page and no metadata page; every byte of the two bitmaps, the owners and the counts, at the addresses where the code keeps them, is in a reserved page. |
| `Pmm.AllocatableBytes` | kernel/memory.c:142-252 | The same byte by byte: an allocatable page has all its 4096 bytes inside one usable record of type 1 that does not wrap, and none in a record of another type, in the boot area or in the metadata; and every such page is allocatable. |
| `Pmm.PageMap.FreeUsable` | kernel/memory.c:199-233 | The first pass opens exactly the pages that lie wholly inside some usable record. |
| `Pmm.PageMap.ReserveOthers` | kernel/memory.c:235-244 | The second pass closes exactly the pages touched by a record of another type, whatever the overlaps and the order. |
| `Pmm.PageMap.ReserveRange` | kernel/memory.c:35-63 | Every page the byte range touches, even partly, becomes reserved, and no other page changes. |
| `Pmm.PageMap.FindRun` | kernel/memory.c:314-333 | Returns the lowest start of a long enough run of available pages, or -1 if and only if there is none. |
| `Pmm.PageMap.AllocPages` | kernel/memory.c:308-362 | Fails exactly when the request is malformed, a failure is injected or no run fits; a success takes the lowest fitting run and changes no other page's owner, count, flags or bytes. |
| `Pmm.PageMap.FreePages` | kernel/memory.c:386-433 | All or nothing: accepted if and only if every page of the run is in use, unreserved, unmapped, of the expected owner and no live stack; then all of them come back unowned with every byte 0, otherwise nothing changes. |
| `Pmm.PageMap.Acquire` | kernel/memory.c:465-484 | Adds one reference exactly to an allocated USER page whose count is not at its limit, and is refused otherwise with nothing changed. |
| `Pmm.PageMap.Release` | kernel/memory.c:486-510 | Drops one reference; the page goes back to the allocator exactly when that was the last one. |
| `Layout.SplitMasked` | kernel/memory.c:540-551 | Every address inside a page has the table path of the page. |
| `Layout.RebuildSplit` | kernel/process.c:973-974 | The address rebuilt from the four indices during a clone is the address that was split. |
| `Layout.SplitRebuild` | kernel/process.c:973-974 | Splitting the rebuilt address gives the same four indices back: the other half of the bijection. |
| `Layout.SplitInjective` | kernel/memory.c:540-551 | Two pages below 2^47 share a table path only if they are the same page. |
| `SharedPages.MapFreshRefines` | kernel/process.c:522-526 | Mapping a fresh page with one reference keeps the counting invariant and adds exactly that page to what its process sees. |
| `SharedPages.UnmapRefines` | kernel/memory.c:750-811 | Unmapping drops exactly one reference, frees on the last, and no other page of any process is seen to change. |
| `SharedPages.MapThenUnmap` | kernel/process.c:527-532 | Mapping a page and unmapping it again restores the whole machine, counts included. |
| `SharedPages.CowFaultRefines` | kernel/memory.c:817-854 | Privatising a page is invisible: it keeps refcounts equal to the PTEs that point at a page, keeps a writable PTE the only one on its page, and changes nobody's bytes or rights. |
| `SharedPages.StoreRefines` | kernel/memory.c:817-854 | A store through a hardware-writable PTE is seen by its own process and by no other. |
| `SharedPages.ForkRefines` | kernel/process.c:954-1024 | Sealing the parent's pages and pointing the child at them is, to every process, an eager copy of the parent's memory. |
| `SharedPages.ExitRefines` | kernel/memory.c:1063-1211 | Tearing down a space drops one reference per PTE and removes exactly that process's memory from view. |
| `SharedPages.SharingIsInvisible` | kernel/process.c:954-1024 | Over every run of map, unmap, fault, store, fork and exit, the shared-page machine and private memories copied at fork agree at the end, and the counting invariant holds. |
| `PageTree.GrowKeeps` | kernel/memory.c:569-645 | Hanging a fresh table into an absent slot keeps the four-level tree in step with the flat map: no page's PTE changes, no table page is shared. |
| `PageTree.PruneKeeps` | kernel/memory.c:774-811 | Taking out an empty table keeps the tree in step with the flat map. |
| `PageTree.GrowThenPrune` | kernel/memory.c:667-681 | The undo path of a failed mapping restores every table, entry by entry. |
| `PageTree.SetLeafKeeps` | kernel/memory.c:656-664 | Writing one PTE changes the flat map at that page only. |
| `PageTree.ClearLeafKeeps` | kernel/memory.c:763-767 | Clearing one PTE removes that page from the flat map and no other. |
| `VirtualMemory.TreeDetermined` | kernel/memory.c:540-713 | Positions and PTEs determine the tables slot by slot, so equal flat maps over equal positions mean equal page tables. |
| `Hardware.TranslateIs` | kernel/memory.c:540-684 | On tables that are in order, the processor's walk of a user address, with the rights of all four entries on the way, does what the flat map says: it faults as not present if and only if the page is not mapped, faults as a protection violation if and only if a write meets a mapped page without RW, and else ends at the page's frame. |
| `Hardware.UserAccess` | kernel/memory.c:540-684 | So a user read goes through exactly if the page is in the process's private memory, and reads that memory's byte; a user write goes through without a fault exactly if the PTE is writable, and only where the private memory may be written; the kernel half is never reached. |
| `VirtualMemory.AddressSpaces.MapPage` | kernel/memory.c:540-684 | A success adds exactly one PTE and one reference, adds exactly the tables missing on the way and takes one page for each, and keeps every table non-empty; -2 exactly if the page is mapped; -1 exactly if the arguments are not aligned, the frame cannot be referenced once more, fewer frames are free than tables are missing on the path, or a table is missing while an allocation is set to fail; whichever allocation fails, tables, mappings, counts and the set of allocated pages are exactly as before. What the processor makes of the entries written is Hardware.UserAccess. |
| `VirtualMemory.AddressSpaces.Descend` | kernel/memory.c:569-645 | One level down: the next table is there or is made, and what remains to be had for the mapping is exactly what was missing before, less the table made. |
| `VirtualMemory.AddressSpaces.GetUserPte` | kernel/memory.c:687-713 | The walk finds the PTE if and only if the flat map has the page, and returns that entry. |
| `VirtualMemory.AddressSpaces.UnmapUserPage` | kernel/memory.c:750-811 | Removes exactly that page from the flat map, drops one reference, frees exactly the tables that became empty and leaves no empty one; refused exactly when the page is not mapped. |
| `VirtualMemory.AddressSpaces.PruneUp` | kernel/memory.c:774-811 | Frees PT, PD and PDPT upward only while empty; mappings stay and no empty table is left. |
| `VirtualMemory.AddressSpaces.HandleCow` | kernel/memory.c:817-854 | A success is the flat machine's copy-on-write step on that page, keeps all tables in place and takes one page exactly if the page was shared; it fails if and only if the page is not copy-on-write, or is shared and the next allocation fails, and then nothing changes. A sole owner never needs a page. |
| `VirtualMemory.AddressSpaces.CreatePageDir` | kernel/memory.c:512-536 | A new root has an empty user half and the boot kernel half; it fails if and only if an allocation is set to fail or no page is free, and then nothing changes. |
| `VirtualMemory.AddressSpaces.DestroyUserAddressSpace` | kernel/memory.c:1063-1211 | Every table page of the space goes back blank, every mapping drops its reference exactly once, no other space loses a table or a page, and the flat machine makes its exit step. |
| `VirtualMemory.AddressSpaces.CloneUserAddressSpace` | kernel/process.c:954-1024 | A success is the flat machine's fork; it fails if and only if an allocation is set to fail, fewer pages are free than the tables on the ways to the parent's pages plus the root, or some page would have more than 2^32 - 1 mappings with the parent's counted twice; a failure at any of its allocations leaves the parent's PTEs, every table, every count and the allocated set as they were. |
| `VirtualMemory.WaysRenamed` | kernel/process.c:954-1024 | The copies of any pages in another space need as many tables as the pages themselves, shared tables counted once in both. |
| `VirtualMemory.CloneAfforded` | kernel/process.c:954-1024 | The other half of the failure condition: a clone that copied every page could be paid for and counted beforehand. |
| `Process.TightWays` | kernel/process.c:954-1024 | Where no table is empty, the tables on the ways to a space's pages are all tables of the space, so the clone needs as many pages as the space has tables. |
| `Linkage.FreePages` | kernel/memory.c:308-362 | Which pages are free follows from the tables, the PTEs, the live stacks and the pages of other owners. |
| `UserCopy.RangeIsWritable` | kernel/memory.c:949-975 | True exactly when every byte of the range is in a mapped page that is writable or copy-on-write, for ranges that do not wrap and stay in the user half. |
| `UserCopy.PrivatiseRange` | kernel/memory.c:1021-1030 | Makes a writable range writable in hardware without any process seeing a byte or a right change, also when it stops half way; it stops if and only if some page of the range must be copied and an allocation is set to fail or the free pages are fewer than the copies due. |
| `UserCopy.CopiesStep` | kernel/memory.c:1021-1030 | What is due is known beforehand: making a page private pays for exactly that page and lowers the sharers of the rest, also where two pages of the range share one frame. |
| `UserCopy.CopyToUser` | kernel/memory.c:1009-1044 | All or nothing over any page-crossing range: exactly the destination bytes of that space change, or no user-visible byte changes anywhere even if some pages were already privatised; it is refused if and only if some byte of the range may not be written or the copies due cannot be had. |
| `UserCopy.StoreByte` | kernel/idt.c:90-107 | A store of one byte by the process, through the processor's own walk of the tables, to a page it has: afterwards exactly that byte of that space differs, and nobody saw the copy-on-write fault it may have taken; it fails if and only if the page may not be written, or is shared and a copy cannot be had, and then nothing changes. |
| `UserCopy.LoadByte` | kernel/idt.c:90-116 | A load by the process, through the processor's own walk, returns the byte its private memory has at that address, and faults exactly if the page is not there. |
| `UserCopy.WrittenMore` | kernel/memory.c:1034-1042 | Chunk-by-chunk copying composes to one write of the whole range. |
| `AreaList.FindOverlap` | kernel/process.c:90-99 | True exactly when some area of the list meets the interval. |
| `AreaList.InsertCovers` | kernel/process.c:101-125 | Inserting an area adds exactly its interval to the addresses covered. |
| `AreaList.InsertSorted` | kernel/process.c:120-123 | The insertion point keeps the list sorted and disjoint. |
| `AreaList.CutSorted` | kernel/process.c:572-606 | Trimming, splitting or deleting keeps the list sorted, disjoint, page-aligned and below 2^47. |
| `AreaList.CutCovers` | kernel/process.c:572-606 | munmap's edit removes exactly the interval from the addresses covered. |
| `AreaList.RemoveInserted` | kernel/process.c:533-539 | The undo path of mmap finds and removes the very area it had inserted. |
| `AreaList.InsertMarks` | kernel/process.c:101-125 | Inserting an area gives its interval that area's flags and every other address the flags it had. |
| `AreaList.CutMarks` | kernel/process.c:572-606 | munmap's edit takes the flags from the addresses cut out and leaves those of every other address as they were. |
| `AreaList.CutInserted` | kernel/process.c:465-609 | Cutting exactly the area just inserted gives the old list back. |
| `Process.MapNewPage` | kernel/process.c:522-527 | A fresh user page is mapped with one reference, or nothing at all has changed; it fails if and only if the address is mapped, an allocation is set to fail, or fewer pages are free than the page and the tables missing on its way. |
| `Process.Process.AddArea` | kernel/process.c:101-125 | Accepted exactly when the area is well formed, overlaps nothing and a list node is to be had; a refusal changes nothing. |
| `Process.Process.Place` | kernel/process.c:488-511 | Terminates; takes the hint or the first of base, base + n, base + 2n, ... that overlaps nothing, and fails only when every candidate that fits is blocked. |
| `Process.Process.Mmap` | kernel/process.c:465-548 | A success adds one area with exactly the start, the length rounded up and the rights asked for, anonymous and no stack, and backs every page of it with its own page; whatever fails, area list, mappings, counts, allocated set and the next base are exactly as before; it fails if and only if the request is bad, a list node is missing, there is no place, or at the place found a page is mapped already, an allocation is set to fail or fewer pages are free than the run with the tables missing on its ways, each counted once. |
| `Process.Process.MapRun` | kernel/process.c:522-543 | The page loop with its rollback succeeds if and only if the whole run could be paid for beforehand. |
| `Process.OnePlace` | kernel/process.c:488-511 | The place mmap finds is determined by the area list, the base, the hint and the length. |
| `Process.Process.Munmap` | kernel/process.c:550-609 | Succeeds exactly when the interval lies in one anonymous area that is not a stack, with a list node at hand for a cut out of its middle; removes exactly the requested interval from the list and exactly its pages from memory, one reference each; all other pages of all processes are as before. |
| `Process.Process.HandlePageFault` | kernel/process.c:611-644 | Grows the stack by exactly the faulting page with the rights of its area; it fails if and only if the address is not a user address, no stack area allows the access, the page is there, or the page and the tables missing on its way cannot be had, and then nothing changes. |
| `Process.Process.ForkProcess` | kernel/process.c:1026-1061 | The child gets the parent's areas and a copy of its memory; it fails if and only if the process object or a list node cannot be had or the space cannot be cloned; a failure anywhere, even after the clone, leaves what every process sees as it was. |
| `Process.Process.CopyAreas` | kernel/process.c:1051-1061 | Re-inserting the parent's areas one by one rebuilds the very same list, or fails exactly when list nodes run out. |
| `Process.Process.Release` | kernel/process.c:198-215 | Areas and space go together; no other process's memory changes. |
| `System.Step` | kernel/process.c:465-644 | One call by any of many processes keeps every process in order, acts on private memories and area lists as specified, and is refused if and only if Refusable says so: no such process, a request out of order, a missing list node, or too few free pages for what the call takes; injected failures are only used up, spaces come and go with their processes, and the pages of other owners and the reserved ones stay as they are. |
| `System.DoStore` | kernel/idt.c:90-116 | A process's own store lands in a page it may write, or in a stack page the store brings about, and in no other process's memory, through whatever copy-on-write or stack fault it takes; it is refused if and only if the page is there and may not be written or copied, or is absent and no stack page or cannot be had. |
| `System.DoLoad` | kernel/idt.c:90-116 | A process's own load returns the byte its private memory has there, or 0 of a fresh stack page the load brings about, and changes nothing else; it is refused if and only if the page is absent and no stack page or cannot be had. |
| `System.MmapThenMunmap` | kernel/process.c:465-609 | In any run, a munmap of any page-aligned part of what the mmap just before returned is not refused, given a list node for a cut out of the middle; if it is the whole, every process's memory and the area list are what they were before the mmap. |
| `System.Run` | kernel/process.c:465-1099 | Every run of fork, exit, mmap, munmap, stack faults, loads and stores by the processes with the faults they take, and kernel writes, failures included, is step for step a run of private memories copied at fork and of area lists cut and extended by their callers only; loads return what those memories hold; new pages have the right of their area, kernel writes need it; area lists stay sorted, disjoint and page-aligned; before every call tables, PTEs, counts and allocator agree with no table empty and no user page unmapped, the pages of other owners are as at the start, and the call is refused if and only if Refusable says so of that state. |
| `System.FreeFollows` | kernel/memory.c:308-362 | At every point of a run the free pages are those that no table, PTE, stack, reservation or other owner has, so nothing but the run makes pages short. |
| `System.Start` | kernel/process.c:304-320 | From the E820 records to the first process, in order, with an empty space: it fails if and only if the records cannot be booted or leave no allocatable page; runs start from here. |
| `BlockCache.StepGood` | kernel/fs.c:51-74 | A lookup never caches a block twice. |
| `BlockCache.SurvivesExactly` | kernel/fs.c:51-74 | A block just looked up keeps its very line through lookups of other blocks if and only if those name at most fifteen different ones. |
| `BlockCache.AllocDistinct` | kernel/fs.c:114-149 | An allocation looks up exactly the bitmap blocks of the bits tried plus the new block. |
| `BlockCache.PointerAcrossAlloc` | kernel/fs.c:180-185 | A pointer held across alloc_data_block still points at its block if and only if the bitmap scan stayed within fourteen bitmap blocks. |
| `BlockCache.Buffers.FlushEntry` | kernel/fs.c:43-49 | Writing back changes the disk but not what cache and disk stand for. |
| `BlockCache.Buffers.Get` | kernel/fs.c:51-74 | A lookup, hit or miss, leaves the logical block array and every other line unchanged and yields the block's bytes; it is refused exactly for a block past the end, or on a miss with every age at the end of the counter. |
| `BlockCache.Buffers.Store` | kernel/fs.c:51-74 | A store through a line changes exactly that block of the logical array. |
| `BlockCache.Buffers.Sync` | kernel/fs.c:76-81 | Afterwards the disk alone is the logical array, and nothing was evicted. |
| `BlockCache.Buffers.Drop` | kernel/fs.c:83-86 | After a sync, forgetting the cache loses nothing. |
| `DiskBits.WithBitBits` | kernel/fs.c:121-123 | Setting a bit of a bitmap block sets that bit and leaves every other bit of the block as it was. |
| `CachedIndex.Alloc` | kernel/fs.c:137-149 | alloc_data_block through the cache sets the first clear bit and zeroes that block of the logical array, and looks up exactly the bitmap blocks of the bits tried and the block. |
| `CachedIndex.AddEntry` | kernel/fs.c:180-187 | An entry added through the cache, lookups of the bitmap and all: success exactly when a block is free and its number fits an int; the array then holds the bitmap and data of the file model if and only if the block lies within fourteen bitmap blocks, and otherwise the entry is unchanged and the word went into another block. |
| `CachedIndex.EntryLost` | kernel/fs.c:180-187 | A concrete run from an empty cache: the search passes fifteen bitmap blocks, the call reports success, the entry is missing from the index block and a word of another block is overwritten. |
| `Allocation.ReachFirst` | kernel/fs.c:114-149 | The next block to be taken lies below a limit exactly if the lowest free one does. |
| `Allocation.ShiftedReach` | kernel/fs.c:114-149 | After the m lowest free blocks are taken, the next ones stay below a limit exactly if the blocks of those ranks did before. |
| `FileIndex.WordPut` | kernel/fs.c:182-187 | Writing one little-endian entry of an index block changes that entry only. |
| `FileIndex.PosOfIndex` | kernel/fs.c:151-260 | Each file block below the limit has its own slot, at level zero, in range; the slot determines the index. |
| `FileIndex.IndexOfPos` | kernel/fs.c:151-260 | Conversely every data slot of the four trees belongs to exactly one file block. |
| `FileIndex.PosOfInjective` | kernel/fs.c:151-260 | Two file blocks of any inodes share a slot only if they are the same block. |
| `FileIndex.AttachTopKeeps` | kernel/fs.c:162-178 | A new block behind an inode slot keeps the bitmap equal to the reachable blocks, each with one pointer. |
| `FileIndex.AttachEntryKeeps` | kernel/fs.c:182-259 | The same for a new block behind an index entry. |
| `FileIndex.DropSlotsKeeps` | kernel/fs.c:292-312 | Giving up whole slots with everything below keeps the bitmap equal to the reachable blocks. |
| `FileIndex.Explained` | kernel/fs.c:151-260 | The pointers on disk determine which block is where. |
| `FileIndex.LostBlock` | kernel/fs.c:137-149 | A block marked used for which no pointer is made leaves a bitmap that no reading of the pointers explains. |
| `Files.MyFs.AllocDataBlock` | kernel/fs.c:114-149 | Takes and zeroes the lowest free block; it fails exactly when none is free or the number is 2^31 or more, and in the second case the block is marked used all the same. |
| `Files.MyFs.Entry` | kernel/fs.c:180-187 | An entry is followed or added with its zeroed block; the promise breaks exactly when the block found does not fit an int or lies beyond fourteen bitmap blocks. |
| `Files.MyFs.Follow` | kernel/fs.c:191-259 | The walk succeeds if and only if the blocks missing on the path are not more than the free ones, adds exactly the lowest free ones for them, and changes no file's data; it loses a number or a cached pointer exactly when those blocks, by their rank among the free ones, lie out of reach. |
| `Files.MyFs.InodeDataBlock` | kernel/fs.c:151-260 | Creating index k yields the block a later lookup of k finds, leaves every other index of every inode mapped as before, and fails exactly when fewer blocks are free than are missing; what a failure added is reachable from the inode copy; all of this on every disk on which the blocks taken are in reach, and the call breaks exactly when they are not. |
| `Files.MyFs.ReadInode` | kernel/fs.c:555-574 | Returns exactly the file's bytes from the offset, clipped at its size, with absent blocks as zeros; the result is the number of bytes below 2^31 and that number less 2^32 from there on; refused exactly for what is not a file. |
| `Files.MyFs.FreeTree` | kernel/fs.c:262-290 | Clears the bit of every block at or below a pointer, each exactly once and while set, and of no other block. |
| `Files.MyFs.FreeInodeBlocks` | kernel/fs.c:292-301 | Releases exactly what the inode reaches. |
| `Files.MyFs.RollbackNewBlocks` | kernel/fs.c:319-368 | Releases exactly the trees behind slots that were empty before the write; trees that existed keep what was added below them. |
| `Files.MyFs.WriteChunk` | kernel/fs.c:585-597 | One chunk lands in its block and nowhere else; it fails exactly when the path needs more blocks than are free, and breaks exactly when those are out of reach. |
| `Files.MissingForCount` | kernel/fs.c:151-260 | What one walk has to add is the number of positions on its way that are not there; with NeededNext, walks over a range of blocks add up without counting a shared index block twice. |
| `Files.MyFs.WriteInode` | kernel/fs.c:576-603 | For every disk size: breaks exactly when some block it takes is out of reach; otherwise succeeds exactly when the range fits and the index and data blocks missing on the way to its blocks, each counted once, are not more than the free ones; a success sets exactly its range in exactly that file and the size to max(old, offset + length) and returns the length, less 2^32 from 2^31 on; a failure restores the inode, keeps the bitmap equal to the reachable blocks, stops at the last block boundary it can pay for, and leaves exactly those bytes up to there that fell into trees the file already had. |
| `Files.SignedIs` | kernel/fs.c:573 | The count returned is the one C int that equals the number of bytes modulo 2^32. |
| `Files.MyFs.Truncate` | kernel/fs.c:303-312 | The file becomes empty, all its blocks return, no other file changes; refused exactly for non-files. |
| `Files.MyFs.Release` | kernel/fs.c:634-646 | The last close of an unlinked file, and only that, returns inode and blocks. |
| `Files.MyFs.Unlink` | kernel/fs.c:622-631 | An open file keeps all its data and only loses its link; one that is not open returns every block. |
| `Files.WriteRefines` | kernel/fs.c:576-603 | On a file followed by zeros a successful write is a write to a byte array with zero-filled gaps, the file stays followed by zeros, and every other file reads as before. |
| `Files.WriteRefinesIff` | kernel/fs.c:576-603 | On any file a write agrees with the byte array if and only if the gap it jumps over reads as zero. |
| `Files.AffordsOne` | kernel/fs.c:585-597 | How far a write gets that lacks space is determined before the call: the last block boundary whose blocks can all be had. |
| `Files.TookTrans` | kernel/fs.c:151-260 | Two walks one after the other take together exactly what is missing for both. |
| `Files.FreeCount` | kernel/fs.c:114-149 | Free blocks and blocks reached by pointers together are all data blocks. |
| `Files.FailedWriteTidy` | kernel/fs.c:592-594 | A failed write leaves the space behind the end zero if and only if, of the bytes up to the last block boundary the disk can pay for, those behind the end in trees the file has are zero. |
| `Directory.PutRecordMatches` | kernel/fs.c:418-425 | A record filled in answers to its own name only, and no other record of the block changes its answer. |
| `Directory.RecordBytes` | kernel/fs.c:418-425 | A record is its number in four bytes, least first, the name and zeros up to byte 64; no other byte of the block changes. |
| `Directory.DirFind` | kernel/fs.c:374-396 | Finds the first record with the name, if and only if some record of the scanned blocks has it. |
| `Directory.ExtendDir` | kernel/fs.c:409-412 | Adds a block behind the directory; the one way to lose blocks is that a top pointer was filled and a block below it could not be had; it breaks exactly when the blocks it takes are out of reach. |
| `Directory.DirAdd` | kernel/fs.c:398-428 | Succeeds exactly when the name is new and a free record is there or can be added, and then fills exactly that one; the bitmap stays explained by the pointers on disk if and only if the call was not one of those the condition Leaks names; it breaks exactly when the blocks of an extension are out of reach. |
| `Directory.LostTop` | kernel/fs.c:410 | In that case no assignment of blocks to the pointers on disk explains the bitmap. |
| `Directory.FoundAfterAdd` | kernel/fs.c:398-428 | After an addition the new name is found in the record written, and every other name where it was. |
| `Directory.AllocInode` | kernel/fs.c:519-521 | The lowest free inode number above the root, or none exactly when none is free; one that does not fit a C int is marked used and reported as failure. |
| `Directory.Create` | kernel/fs.c:511-553 | Succeeds exactly when the name is new and an inode, a block for a directory and room in the parent can be had; a success allocates one inode, enters its name and counts the link of a new directory; whatever fails, no inode stays allocated and no other file's data changes; the bitmap stays explained if and only if the parent's extension does not leak; it breaks exactly when a number does not fit an int or a pointer is lost. |
| `Directory.DirPageNames` | kernel/fs.c:539-540 | The first block of a new directory answers to "." with itself, to ".." with its parent, and to no other name. |
| `Directory.DirEmpty` | kernel/fs.c:430-445 | True exactly when no record besides the two every directory has is in use. |
| `Directory.RemovedExactly` | kernel/fs.c:620-621 | Clearing a record silences that record, for every name, and no other. |
| `Directory.ClearedBytes` | kernel/fs.c:620-621 | Clearing a record makes exactly its 64 bytes zero. |
| `Directory.Remove` | kernel/fs.c:610-632 | For every directory contents: succeeds exactly when the first record of the name leads to a file or an empty directory; takes away that record and, unless the file is open, its inode and all its blocks, and one link of the parent for a directory; a refusal changes nothing; it breaks exactly when that record names an inode that is not allocated. |
| `DirNames.FoundIff` | kernel/fs.c:374-396 | A name is found by the scan exactly if the map has it. |
| `DirNames.AddedDir` | kernel/fs.c:398-428 | Filling a record adds exactly its name to the directory's map, whatever the directory's size and the record's place. |
| `DirNames.RemovedDir` | kernel/fs.c:620-621 | Clearing a record takes exactly its name out of the directory's map. |
| `DirNames.EmptyIff` | kernel/fs.c:430-445 | dir_empty tells exactly whether the directory has names besides the two. |
| `NameTree.AddedTree` | kernel/fs.c:511-553 | Creation keeps the names a tree: besides what names say of each other, every directory reaches the root by finitely many "..", a new one by one step more than its parent. |
| `NameTree.RemovedTree` | kernel/fs.c:610-632 | Removing a file's name or an empty directory keeps the names a tree: every name leads to something that exists, nothing has two names, every directory names itself and its parent, and climbs to the root as before. |
| `NameTree.Reached` | kernel/fs.c:511-646 | In such a tree everything that has a name is found from the root along names. |
| `NameTree.GoneTree` | kernel/fs.c:634-646 | The last close of an unlinked file leaves no name pointing at it. |
| `FileService.Run` | kernel/fs.c:303-646 | Over every run of create, remove, lookup, read, write, truncate, open and close by directory and name, full disks and failed writes included, the disk does what files of bytes and directories of names do: every read returns their bytes and the count as a C int, every lookup their inode, the names stay a tree, each request is refused exactly under the conditions of Refusable, a write reports a full disk exactly when its blocks cannot be had and then leaves exactly the bytes Torn says. At every point the bitmap is what the pointers reach; a write takes exactly the blocks missing on its way, a creation those of the inode and its record, truncation, last close and removal return exactly their inode's, and no other block moves. The run goes on exactly until a request EndsRun names: a write or creation out of reach, or a creation that leaks. |
| `FileService.Step` | kernel/fs.c:303-646 | One request does to the disk what it does to the files and names, and takes and returns exactly the blocks DiskStep says; it is refused exactly when Refusable says so, and stops the run exactly when EndsRun does. |
| `FileService.SpaceLeft` | kernel/fs.c:114-149 | At every point of a run the free blocks are the data blocks less the positions in use, so DiskStep also tells how much space is left. |
| `FileService.PlainWrite` | kernel/fs.c:576-603 | Along a run a write is a write to a byte array with zero-filled gaps if and only if the gap it jumps over is zero behind the old end; with zeros behind the end it always is, and leaves zeros. |
| `FileService.TornBehind` | kernel/fs.c:592-594 | Along a run a failed write keeps the zeros behind the end if and only if the bytes it leaves there are zero. |
| `FileService.CreatableIff` | kernel/fs.c:511-553 | A creation is possible on the disk exactly when the model has no such name and neither inode, block nor record is scarce. |
| `FileService.RemovableIff` | kernel/fs.c:610-632 | On a disk that agrees with the model no record dangles, and the disk allows a removal exactly when the model does. |
| `Failures.ResidueShows` | kernel/fs.c:576-603 | A concrete run: on a full disk a write of 4096 bytes from byte 1 of a one-byte file fails, a write of one byte at 100 succeeds, and byte 50, which no successful call wrote, reads as 1. |
| `Failures.NumberTooLarge` | kernel/fs.c:137-149 | A concrete run: on a disk whose data area starts at block 2^31 with that block the only free one, the allocation fails and the block is lost. |
| `FullDirectory.Mounted` | kernel/fs.c:398-428 | A disk with a root directory of eleven full blocks, 704 records for ".", ".." and 702 empty files, and one free block: it agrees with a tree of names. |
| `FullDirectory.EndsThere` | kernel/fs.c:511-553 | On that disk the creation of a file under any new name ends a run. |
| `FullDirectory.NameCostsBlock` | kernel/fs.c:398-428 | On that disk adding any new name fails, and the free block is taken and out of reach of every pointer. |
| `Geometry.PlanMounts` | tools/mkfs.c:336-390 | For every disk size and start sector mkfs accepts, the superblock passes the kernel's mount test (kernel/fs.c:722-739), fits 32 bits, and every sector of every block is within 48-bit addresses and on the disk. |
| `Geometry.PlanTight` | tools/mkfs.c:345-370 | The plan has as many blocks as the disk holds and one inode for sixteen of them within the two bounds; the areas follow each other without gaps, each with the fewest blocks that hold its bits or inodes. |
| `Geometry.PlanRefuses` | tools/mkfs.c:336-375 | mkfs refuses a disk if and only if it has fewer than 128 blocks, more than 32 bits can number, or a sector beyond 48 bits; the test for an empty data area never fails. |
| `Geometry.InodePlaces` | kernel/fs.c:88-112 | On a disk that mounts, inodes have disjoint bytes inside the table, apart from bitmaps and data, at the place mkfs computes (tools/mkfs.c:71-77). |
| `Geometry.BitPlaces` | kernel/fs.c:114-135 | Each bit of the data bitmap has its own place inside the bitmap's blocks. |
| `Geometry.InodeBitPlaces` | kernel/fs.c:114-135 | The same for the inode bitmap. |
| `Geometry.ScanSpan` | kernel/fs.c:114-127 | A disk of at most fourteen bitmap blocks never scans more than fourteen. |
| `OnDisk.PutGetInode` | kernel/fs.c:96-112 | An inode stored in its 72 bytes is read back field by field, and every other inode of the block reads as before. |
| `OnDisk.PutGetSuper` | tools/mkfs.c:494-495 | The superblock's words read back as the superblock. |
| `OnDisk.Save` | tools/mkfs.c:494-514 | What the kernel reads from the blocks mkfs writes last, at the places the superblock tells, are the inodes and both bitmaps mkfs had, although only the first block of the inode bitmap is written. |
| `OnDisk.Load` | kernel/fs.c:708-747 | Mounts exactly the disks that pass the test, and then every inode and every bit is the one at its place on disk. |
| `OnDisk.ReadsOnce` | kernel/fs.c:708-747 | A disk has only one reading. |
| `Mkfs.Image.AllocImageBlock` | tools/mkfs.c:142-152 | Handing blocks out in order picks the block the kernel's lowest-free rule would pick. |
| `Mkfs.Image.EnsureIndexEntry` | tools/mkfs.c:175-189 | Yields the entry's block, new or old, with bitmap and pointers in step and no data changed; fails exactly on a full image when the entry is missing. |
| `Mkfs.Image.InodeDataBlock` | tools/mkfs.c:191-260 | Puts file block k exactly where the kernel's walk looks for it. |
| `Mkfs.Image.CopyInput` | tools/mkfs.c:475-489 | Stores an input byte for byte and touches nothing else; never succeeds for 4 GiB or more, and below that succeeds exactly when its data and index blocks fit. |
| `Mkfs.Image.AddFile` | tools/mkfs.c:434-491 | One input gets its inode, its record and its bytes, exactly when name, tables, size and blocks allow it, and takes exactly the blocks its size needs. |
| `Mkfs.Build` | tools/mkfs.c:414-516 | An image is built exactly when all inputs, index blocks included, fit the disk; it holds every input under its own inode, a root block with exactly their names, nothing in the other inodes and nothing before the first data block. |
| `Mkfs.RootMatches` | tools/mkfs.c:427-473 | Which names the root block answers to, record by record. |
| `Mkfs.Install` | kernel/fs.c:708-764 | Every image mkfs builds mounts, and holds the inputs in the kernel's own inodes and bitmaps, read back from the bytes written. |
| `Mkfs.RoundTrip` | tools/mkfs.c:336-516 | For every disk and inputs, an image is built exactly when everything fits; written as bytes and mounted, the kernel finds every input by name and reads back exactly the first input of that name, so its own bytes if names do not repeat. |
| `Installed.Begin` | tools/mkfs.c:336-516 | The mounted image is a state in which runs of FileService can start: it agrees with the tree of exactly the inputs under their names. |
| `Heap.TakeSound` | kernel/kalloc.c:142-170 | Splitting and taking keeps blocks tiling the arena exactly, aligned, with no two free neighbours, and wastes less than a header and a unit. |
| `Heap.TakeLive` | kernel/kalloc.c:142-170 | Exactly one block joins those handed out; all others keep address and size. |
| `Heap.GiveSound` | kernel/kalloc.c:193-208 | Freeing with both merges keeps the tiling and leaves no two free neighbours, whatever the neighbours were. |
| `Heap.GiveLive` | kernel/kalloc.c:295-302 | Exactly one block leaves those handed out. |
| `Heap.EmptyArena` | kernel/kalloc.c:210-216 | With nothing live an arena is one free block of its whole size. |
| `Heap.LiveDisjoint` | kernel/kalloc.c:83-170 | No two blocks handed out overlap, headers included, within an arena or across arenas. |
| `Heap.PointersApart` | kernel/kalloc.c:230-262 | The bytes from a pointer handed out up to its size meet no other payload handed out, no block header and no arena header, and lie in pages of the heap. |
| `Heap.PagesLeast` | kernel/kalloc.c:80-137 | A new arena has the fewest pages that hold both headers and the request. |
| `Heap.KernelHeap.FindFit` | kernel/kalloc.c:246-261 | The first block in list order that is free and large enough, if and only if there is one. |
| `Heap.KernelHeap.CreateArena` | kernel/kalloc.c:83-140 | Fails exactly on overflow or when no page run fits; a success always holds a block that fits the request. |
| `Heap.KernelHeap.Kmalloc` | kernel/kalloc.c:234-270 | Returns NULL exactly when the stated conditions hold; otherwise an aligned pointer behind the header of a block, with the whole size asked for inside that block, less than a header and a unit over, new among those handed out and first fit; creates at most one arena, and one exactly when nothing fitted. |
| `Heap.KernelHeap.Kfree` | kernel/kalloc.c:272-307 | Accepts a non-null pointer if and only if it starts a payload handed out and not yet returned, takes exactly that one back, and gives the pages back exactly with the last block of an arena. |
| `Heap.KernelHeap.ReclaimArena` | kernel/kalloc.c:210-224 | Returning an empty arena's pages never fails and leaves all other arenas alone. |
| `Heap.NothingLeft` | kernel/kalloc.c:210-224 | When everything handed out has been returned, in whatever order, no page is owned by the heap. |
| `Futex.UnlinkKeepsTable` | kernel/futex.c:35-50 | Unlinking any waiter keeps all sixty-four lists well linked both ways, every waiter in its own bucket and listed once. |
| `Futex.PushKeepsTable` | kernel/futex.c:52-67 | The same for enqueueing. |
| `Futex.WokenFacts` | kernel/futex.c:137-149 | Waking removes at most the count, only waiters for the key, and leaves one behind only if the count ran out. |
| `Futex.WaitersInBucket` | kernel/futex.c:18-33 | Every waiter for a key is in the bucket its hash gives, so looking in that one bucket misses nobody. |
| `Futex.FutexTable.Wait` | kernel/futex.c:84-123 | Sleeps if and only if the address is valid and the word equals the expected value, at the front of the bucket that the 64-bit hash of process and address gives; otherwise nothing changes and the error says which. |
| `Futex.FutexTable.Wake` | kernel/futex.c:125-152 | Wakes exactly min(count, waiters for the key) threads, all of them waiters for the key and the first in list order, whatever else shares the bucket; the count returned is that number, and the count of waiters stays the total of the lists. |
| `Futex.FutexTable.CancelThread` | kernel/futex.c:154-167 | Takes exactly that thread out of its list, with the given result. |
| `Futex.FutexTable.CancelProcess` | kernel/futex.c:169-191 | Afterwards exactly the process's waiters are gone from all buckets, and all others keep their order. |
| `CondVar.NextInv` | usr/thread_runtime.h:79-99 | Every interleaved step keeps: a thread sleeps on the condition exactly when queued for it, in its key's bucket, and never on a load older than a finished broadcast. |
| `CondVar.NoLostWakeup` | usr/thread_runtime.h:79-99 | In every run, at any time after a broadcast has returned, whoever sleeps loaded the sequence at or after that broadcast's increment, given fewer than 2^32 signals between a load and its wait. |
| `CondVar.SignalWakes` | usr/thread_runtime.h:89-93 | With a thread asleep on the condition, a signal takes exactly one out of the queue, and a broadcast at least one. |
| `CondVar.WakeTakes` | usr/thread_runtime.h:89-99 | In every state of a run the wake of a signal lets exactly one of the sleepers go on if there is one, that of a broadcast all of them, and neither touches any other thread. |
| `CondVar.StaleSleepIff` | kernel/futex.c:109-117 | A wait sleeps although signals came since its load if and only if their number is a multiple of 2^32. |
| `CondVar.SleepsIff` | usr/thread_runtime.h:79-99 | In every run a wait goes to sleep if and only if the signals and broadcasts called since its load number a multiple of 2^32, and otherwise returns at once: a signal that finds nobody asleep is not lost on a thread that loaded before it. |
| `CondVar.MissedAfterWrap` | usr/thread_runtime.h:79-99 | A run from the initial state: a load, 2^32 broadcasts, then the wait, which sleeps although every broadcast has returned since. |
| `CondVar.Perform` | kernel/futex.c:84-167 | Each step of the machine, done on the kernel's table by futex_wait, futex_wake and futex_cancel_thread, leaves the table with exactly the machine's queues. |
| `CondVar.Play` | kernel/futex.c:84-167 | So does every run, so what is proved of the machine's queues holds of the kernel's lists. |
| `UserMutex.MutualExclusion` | usr/thread_runtime.h:33-71 | In every interleaving, wrong unlocks and nested locks included, at most one thread holds the mutex. |
| `UserMutex.UnlockIff` | usr/thread_runtime.h:60-71 | Unlock is accepted exactly from the thread inside. |
| `UserMutex.RetryNeverEnters` | usr/thread_runtime.h:43-57 | A thread in the retry loop stays in it in every run: the loop contains no way to take the mutex. |
| `UserMutex.LockEntersIff` | usr/thread_runtime.h:33-57 | In every run a call of lock ever gets the mutex if and only if the word is 0 at its first exchange, which is if and only if nobody holds the mutex then. |
| `Scheduler.GoesWell` | kernel/thread.c:197-324 | Every join, leave, block, unblock, exit, reap and switch keeps one ring without repetition in which only the current thread may be running. |
| `Scheduler.DueStep` | kernel/thread.c:286-324 | No step moves a waiting ready thread further away, and each switch brings it nearer or reaches it. |
| `Scheduler.ChosenWithin` | kernel/thread.c:286-324 | A ready thread at ring distance d is current by the d-th context switch, whichever other threads join, block, wake, exit or leave. |
| `Scheduler.DueMeansSwitch` | kernel/thread.c:297-302 | While a thread is ready behind the current one, schedule() switches. |
| `Scheduler.Threads.InRing` | kernel/thread.c:184-195 | Following the links decides membership of the ring. |
| `Scheduler.Threads.Append` | kernel/thread.c:197-216 | Accepted exactly for a ready thread not yet in the ring; it joins behind all others. |
| `Scheduler.Threads.Remove` | kernel/thread.c:218-231 | Takes out exactly that thread, never the current one, and keeps the links one cycle. |
| `Scheduler.Threads.ReapDetached` | kernel/thread.c:244-268 | Exactly the detached zombies behind the current thread leave and become dead; the others keep their order and state. |
| `Scheduler.Threads.ReapOrphans` | kernel/process.c:701-714 | Exactly the given orphans that are zombies and not current leave and become dead. |
| `Scheduler.Threads.CheckInvariants` | kernel/thread.c:270-284 | On a well-formed ring its assertions hold exactly if the ring has fewer than 4096 threads. |
| `Scheduler.Threads.Schedule` | kernel/thread.c:286-324 | The whole call: orphans and detached zombies leave, then it switches to the first ready thread behind the current one, does nothing exactly when there is none, and halts by assertion exactly when the ring is too long or all other threads were reaped while the current one runs. |
| `Scheduler.LastZombieHalts` | kernel/thread.c:286-324 | A running thread whose only neighbour is a detached zombie: the next schedule halts. |
| `Scheduler.CallNearer` | kernel/thread.c:286-324 | A whole call of schedule, reaping included, always switches while a thread is due, and chooses it or brings it nearer. |
| `Scheduler.ServedWithin` | kernel/thread.c:286-324 | A ready thread at distance d is chosen by the d-th call of schedule at the latest, whatever is reaped and whoever joins, blocks, wakes or exits between the calls. |
| `Scheduler.Threads.SetCurrent` | kernel/thread.c:378-460 | Blocking and exiting mark exactly the current thread and keep the ring. |
| `Scheduler.Threads.Unblock` | kernel/thread.c:417-422 | Wakes exactly a blocked thread; any other is left alone. |
| `Pipe.WindowTake` | kernel/file.c:38-42 | Advancing the head removes the first byte of the ring's contents, across the wrap. |
| `Pipe.WindowPut` | kernel/file.c:65-69 | Storing at the tail appends one byte and disturbs none, across the wrap. |
| `Pipe.PipeObject.Read` | kernel/file.c:31-55 | What is read followed by what is left is what was there; end of file, blocking and success are told apart exactly; nobody stays asleep who could go on. |
| `Pipe.PipeObject.Write` | kernel/file.c:57-80 | Appends as much as fits: all of the input, or as many bytes of it as fill the ring; refused exactly without readers, blocks exactly when full. |
| `Pipe.PipeObject.Retain` | kernel/file.c:107-118 | Reader and writer counts stay equal to the references of the two files. |
| `Pipe.PipeObject.Release` | kernel/file.c:120-154 | The file goes with its last reference; the pipe is freed at the last release of both ends and at no other. |
| `Pipe.Serve` | kernel/file.c:31-154 | Over every sequence of calls the ring is a plain list of at most 4096 bytes with the same references and sleepers; the bytes read are a prefix of the bytes written and the rest is in the ring; the pipe has been freed once if no reference is left, and else never. |

## Left out

- ATA port I/O and disk errors, the TLB and its flushes, instruction fetches, interrupts, boot and assembly code.
- User interface, shells, libc, IPC and TTY services, syscall dispatch, ELF loading.
- Physical memory: build_kernel_direct_map, remap_page, kernel-half and framebuffer mappings, large pages and the accessed, dirty and cache bits of a PTE; the table pages' bytes are kept as typed tables.
- Nested level-by-level loops of clone and destroy are one recursion over levels; doubly linked arena, block and area lists are sequences, so their link fields are not modelled (futex queues and the scheduler ring do keep theirs).
- Whether kmalloc has room for a list node or an object is a parameter of the calls that need one; heap contents are not modelled.
- process_create's own application stack, thread stacks, TLS pages and process_exit's reaping of children are not part of this model; the modelled fork ends before the child's files and thread are set up.
- Bitmaps and the inode table of MyFS are typed arrays in `Files` while the file system runs; `OnDisk` has their bytes, how they are written by mkfs and read at mount. Open counts and link counts are unbounded except where wrap-around is written out.
- The walks of the kernel and of mkfs use the same arithmetic for the slot and the path of a file block, which is written once.
- Paths: canonicalisation, path lookup and listing; the calls start from a parent inode and a name.
- Crash consistency: there is no journal to model.
- Join and detach of threads, timers, kernel mutexes; the wakeup of the parent by process_exit, which may reach a futex waiter, is not among the steps of `CondVar`.
- Liveness of the user mutex.
- Files.MyFs.WriteInode: the age counter of the block cache, which wraps after 2^32 lookups since the mount, is not part of the file model, so which pointers are lost is stated for lookups before that; the same holds of the other calls of Files and Directory that add index entries.
- CachedIndex.AddEntry: requires that the age counter does not wrap within the call, for the same reason.
- FileService.Run: requests name directories and inodes that a lookup, a creation or an open gave; numbers of inodes that are not allocated are refused without modelling what the code does with them.
- Process.Process.ForkProcess: ends before the child's files and thread are set up.
- Mkfs.RoundTrip: requires names that files can have, so not empty, without zero bytes, and neither "." nor "..".
- Installed.Begin: requires also that no two inputs have the same name, since a directory with two records of one name is no map of names.
- OnDisk.Load: takes room for the open counts for granted.
- CondVar.NoLostWakeup: requires fewer than 2^32 increments between a load and its wait; CondVar.StaleSleepIff says what happens otherwise.
- Scheduler.ChosenWithin: does not model preemption points, only the switches schedule() makes.
- System.Start: the table pages of the direct map are not built, and the loader's first mappings are left out.
- Failures.NumberTooLarge: the disk keeps the case small by its large first data block; a disk with a usual layout would need 2^31 blocks in use.
- System.DoStore: a refused store ends the process; its exit is the call Exit; the same holds of System.DoLoad.
