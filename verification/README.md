# A verified model of the kernel

A Dafny model of the parts of a small RISC-V kernel whose correctness is an
argument about state: page allocation, page tables, the buffer cache and the FAT32
file system on it, the disk ring, and sleeping, waking and dispatching on one hart.
`dafny verify dfyconfig.toml` checks all of it.

Code that changes things in place is modelled as classes and methods with loops,
each proved against a specification on values; what the kernel relies on is then
proved about the specification, for all inputs and all runs.

- **Pages** (`Arith`, `Bits`, `BuddySpec`, `BuddyLaws`, `Buddy`). Every cell of the buddy
  tree is one function of the set of live blocks. `BuddyLaws` draws the
  consequences for callers, over whole runs.
- **Objects** (`SlabSpec`, `SlabRuns`, `Slab`). kmalloc and kfree over that
  allocator: the set of issued pointers changes by exactly one pointer per call.
  `SlabRuns` says which free objects are ever handed out again.
- **Page tables** (`Pages`, `Pte`, `RadixTree`, `PageMap`, `TableNeed`,
  `PageTable`, `UserCopy`). The three-level tree stands for a map from page number
  to entry; mapping takes exactly the tables that were missing; the copy loops are
  proved against copies that translate each byte on its own. The standard is
  section 4.4 (Sv39) of the RISC-V Privileged Architecture, version 20211203.
- **Blocks and files** (`CacheSpec`, `BlockCache`, `CacheRuns`, `FatSpec`, `FatMirror`,
  `FatFile`, `FatOverlap`, `Fat`, `LongName`, `DirScan`, `Mount`). The write-back
  cache presents a plain disk; a file is the byte string of its cluster chain; a
  mounted image is a file of its parent. A volume has as many clusters as it has
  room for and table entries name; the rest of the table is spare.
- **Disk ring** (`VirtioRing`, `VirtioLaws`, `VirtioDisk`). Driver, device and
  interrupt in any order, after sections 2.6 and 5.2 of VIRTIO 1.1.
- **The hart** (`Interrupts`, `WaitQueue`, `Kernel`, `KernelLaws`, `KernelRuns`,
  `KernelHazards`, `KernelEffects`). Threads, scheduler, disk interrupt and ring as
  one machine of steps; what each step does to every thread, what holds in every
  run, and the runs in which it does not.

## Where the code and its intent differ

The model does what the code does. Where that is not what the names and comments
promise, the lemmas named say what happens instead, and, where the name ends in
Iff or IsExact, exactly when.

- Two threads that ask for one buffer: `read_block` lets a second thread request a
  buffer whose first read is under way. The first completion then wakes both, and
  one frees a chain the device still holds, or waits with interrupts off for a
  flag that only an interrupt clears. The machine is safe for exactly the requests
  whose buffer no other thread is waiting for (`KernelHazards.GuardIsExact`, with
  the run `KernelHazards.UnsafeRun`).
- A victim that is being written back still counts as unused: `get_block` lets the
  cache go while it sleeps in `flush_block`. A call that misses meanwhile takes the
  same buffer; both callers then work on it, it counts one of them, and it has the
  block of the one that finished last (`CacheRuns.TwoHoldOne`). A call that finds the
  block on its way out, or still on its way in, goes wrong too. `read_block` is
  harmless in exactly the other states (`CacheRuns.AskIsExact`, with the run
  `CacheRuns.UnsoundRun`); in runs of such calls the cache keeps its promise
  (`CacheRuns.EveryRunIsSound`).
- A third disk request spins forever under the disk lock; three threads reading
  three blocks reach it (`KernelHazards.ThirdRequestHangs`).
- A slab whose last object went out leaves its cache for good: an object is ever
  handed out again exactly when its slab is the current one
  (`SlabRuns.ReusedIff`, `SlabRuns.FreedIsNextIff`). With one object a slab, every
  kmalloc(2048) and kfree loses a page (`SlabRuns.EveryPairLosesPage`).
- `fresh_fat` puts the second write as far behind the first as the reserved area is
  long. Both tables follow a change exactly when that is the length of a table
  (`FatMirror.BothCopiesIff`); the first one, which the next mount loads, exactly
  when the write falls behind it or stores the bytes that belong there
  (`FatMirror.FirstCopyIff`, `FatMirror.FirstCopyDamaged`). It may fall into the
  data area: no file changes exactly when it does not, or stores what was there
  (`FatOverlap.EntryWriteIff`, `FatOverlap.ClusterReplaced`).
- `get_free_cluster` searches the spare entries at the end of the table too. What it
  returns is a cluster of the volume, or nothing, exactly when a zero entry lies
  below the spare ones or there is none at all (`FatSpec.FreeInsideIff`,
  `FatSpec.AllInsideIff`, `FatSpec.SpareEntryTaken`).
- Cluster addresses count hidden sectors and the root cluster number
  (`FatSpec.ClusterAddressIff`).
- An empty file whose first cluster is 0, the form the format gives it, cannot be
  written: the first cluster is linked to entry 2^32 - 1 of the table. The entry lies
  inside the table exactly when the file has a cluster (`Fat.EntryInsideIff`), and the
  write stores outside it exactly then, with a byte to store and a cluster free
  (`Fat.FatFs.WriteInode`). A file without a cluster that says it has a byte cannot be
  read either (`Fat.EmptyFileStoresOutside`).
- Reading at the end of a chain that the file fills answers -1
  (`Fat.ReadFailsIff`).
- A 64th name slot reads as the last one (`LongName.RoundTripIff`,
  `LongName.CutName`). Names from system calls are shorter.
- Behind the end of an image nested twice or deeper, the error is translated as if
  it were a block number (`Mount.BeyondImageIff`).
- `unmappages` may leave the last page of an unaligned range mapped
  (`PageMap.UnmapUndoesMap`), and `va2pa` of an unmapped address may be its bare
  offset (`PageTable.PageTable.Va2Pa`).
- A copy whose length is 2^32 - 1 modulo 2^32 answers -1 although it succeeded
  (`UserCopy.CopyFailsIff`, `UserCopy.LongCopyReportsFailure`). No system call asks
  for one.
- An entry keeps 43 bits of the frame number where the standard has 44
  (`Pte.PteRoundTrip`).
- A page that is not live is answered with twice the arena size
  (`BuddyLaws.FreeAnswer`), and a kmalloc of more pages than there are with the
  page before the arena (`Slab.SlabAllocator.Kmalloc`).
- Every wait queue releases all its waiters, whatever its type
  (`WaitQueue.WaitQueue.AwakeWaiters`).

## Model

| member | source | states |
|---|---|---|
| Bits.FixSize | kernel/pmm.c:63-71 | the smear computes the least power of two above its argument, and 0 when that is 2^64 |
| Bits.IsPow2Iff | kernel/pmm.c:58 | the IS_POW2 macro holds of a positive number exactly when it is a power of two |
| Bits.RoundUpByCases | kernel/pmm.c:101-103 | the size test and the smear together round up to the least power of two, on both branches |
| Bits.RoundUpLeast | kernel/pmm.c:101-103 | the rounded size is at least the request and no smaller power of two is |
| Buddy.BuddyAllocator.constructor | kernel/pmm.c:76-90 | the arena is the largest power of two not above the page index given, nothing is live, and every cell is the cell function of the empty live set |
| Buddy.BuddyAllocator.Alloc | kernel/pmm.c:93-129 | keeps every tree cell equal to the one cell function of the live set; live set and answer are those of the allocation specification |
| Buddy.BuddyAllocator.FindFit | kernel/pmm.c:109-117 | the descending loop ends at an untouched node of the wanted size, the one the leftmost descent names |
| Buddy.BuddyAllocator.ClimbMax | kernel/pmm.c:119-126 | the climbing loop repairs every cell above the node taken |
| Buddy.BuddyAllocator.Free | kernel/pmm.c:131-162 | keeps every tree cell right; live set and answer are those of the release specification, for any page of a block and for a page that is not live |
| Buddy.BuddyAllocator.FindLive | kernel/pmm.c:137-143 | the first zero cell above a leaf is the live block that holds the page; without one the answer is twice the arena |
| Buddy.BuddyAllocator.ClimbMerge | kernel/pmm.c:148-159 | the merging loop repairs every cell above the node released, merging exactly whole halves |
| BuddySpec.WantFull | kernel/pmm.c:93-162 | a cell holds its full size exactly when its node is not live and no live block meets it or it lies strictly beneath one |
| BuddyLaws.WellFormedIsLaidOut | kernel/pmm.c:93-162 | live blocks are inside the arena, aligned to their power-of-two size, and pairwise disjoint |
| BuddyLaws.AllocLowestFit | kernel/pmm.c:93-129 | -1 exactly when no aligned free block of the rounded size exists; otherwise the lowest such offset, taken as one new block |
| BuddyLaws.OwnerIsTheBlock | kernel/pmm.c:131-146 | whichever page of a live block is named, the block found is that one |
| BuddyLaws.FreeUndoesAlloc | kernel/pmm.c:93-162 | freeing any page of a fresh block answers its rounded size and restores the live set, hence the whole tree |
| BuddyLaws.FreeAnswer | kernel/pmm.c:138-146 | the answer is twice the arena exactly for a page that is not live; nothing else changes then |
| BuddyLaws.RunsAreSafe | kernel/pmm.c:76-162 | after any sequence of allocations and releases blocks are laid out properly and every cell is determined by them |
| BuddyLaws.DrainRestoresInit | kernel/pmm.c:76-162 | freeing every live block once, in any order and through any page, gives back the initial tree |
| Slab.SlabAllocator.constructor | kernel/pmm.c:204-212 | each of the nine caches gets a size, a count and an offset that fill the page behind the header; no slab, nothing live |
| Slab.SlabAllocator.CacheIndex | kernel/pmm.c:196-201 | the smallest class that holds the request; a class of the list for every size up to 2048 |
| Slab.SlabAllocator.AllocSlab | kernel/pmm.c:214-226 | a page that was no slab becomes one whose free list is all its objects in address order; every other slab is kept |
| Slab.SlabAllocator.ThreadObjects | kernel/pmm.c:219-222 | the loop threads exactly the objects of the page, ending in NULL, and writes nowhere else |
| Slab.SlabAllocator.KmallocObject | kernel/pmm.c:228-238 | the first free object of the current slab, or of one new page, goes out; free list and cache move on, and the slab leaves the cache with its last object; the object was not live, is aligned to its class and never page aligned |
| Slab.SlabAllocator.KfreeObject | kernel/pmm.c:240-249 | the object stops being live and heads its slab's free list; no cache changes |
| Slab.SlabAllocator.PallocN | kernel/pmm.c:45-50 | the address of a fresh block, and exactly that pointer more; the page before the arena, and nothing changed, when the allocator fails |
| Slab.SlabAllocator.Kmalloc | kernel/pmm.c:251-256 | exactly one pointer more is issued, one that was not issued, unless the buddy allocator fails for a large request; it is page aligned exactly for requests above 2048, then in the smallest block that holds the bytes, else the next object of the smallest class that holds them |
| Slab.LargeFits | kernel/pmm.c:251-254 | the block of a large request is the smallest power of two of pages that holds its bytes |
| Slab.SlabAllocator.Kfree | kernel/pmm.c:258-261 | for an issued pointer the address test picks the allocator that issued it: exactly that pointer is taken back |
| Slab.SlabAllocator.Pfree | kernel/pmm.c:31-39 | the block that starts at the address, and no other, is given back |
| Slab.SlabAllocator.ObjectsDisjoint | kernel/pmm.c:196-261 | live objects do not overlap |
| Slab.SlabAllocator.ObjectOffBlocks | kernel/pmm.c:251-261 | a live object lies outside every page block handed out |
| Slab.SlabAllocator.Conservation | kernel/pmm.c:214-249 | live objects plus free objects of a slab are all its objects: none is lost or doubled |
| SlabSpec.ClassTable | kernel/pmm.c:204-212 | in every class the objects start behind the header at a multiple of their size |
| SlabSpec.MostObjects | kernel/pmm.c:204-212 | a page holds exactly as many objects as fit beside its 24-byte header |
| SlabRuns.FreedIsNextIff | kernel/pmm.c:228-249 | an object just freed is the next one its class hands out exactly when its slab is the current one of the cache |
| SlabRuns.NeverAgain | kernel/pmm.c:228-249 | over every run, once a slab has left its cache no request is served from it, whatever is freed into it |
| SlabRuns.ReusedIff | kernel/pmm.c:228-249 | a free object is handed out in some run exactly when its slab is current |
| SlabRuns.EveryPairLosesPage | kernel/pmm.c:228-261 | n pairs of kmalloc(2048) and kfree take n different pages, all of them out of reach afterwards |
| Pte.SameIndices | kernel/include/vmm.h:39-40 | the three level indices determine the page number below the top of the address space |
| Pte.PteRoundTrip | kernel/include/vmm.h:42-46 | an entry keeps flags and frame apart; the frame comes back exactly below 2^55, the 43 bits of the mask |
| PageTable.PageTable.constructor | kernel/vmm.c:201-208 | a zeroed root stands for the empty map |
| PageTable.PageTable.Walk | kernel/vmm.c:31-62 | returns the level-0 table of the page; allocation changes no translation and takes from the pool exactly the tables that were missing |
| PageTable.PageTable.MapPages | kernel/vmm.c:134-156 | the map the tree stands for becomes that of the mapping specification; false exactly where the specification stops; a completed call takes exactly the tables missing for the range |
| PageTable.PageTable.UnmapPages | kernel/vmm.c:158-175 | the map loses what the unmapping specification removes, and the frames go back in order when asked |
| PageTable.PageTable.Va2Pa | kernel/vmm.c:98-107 | frame plus offset for a mapped page; for an unmapped one 0 exactly when the address is page aligned or has no level-0 table |
| PageTable.PageTable.WalkAndFree | kernel/vmm.c:81-96 | without leaf mappings every table page below, and the page itself, is freed exactly once, and none is read after it was freed |
| PageTable.PageTable.FreeUserPagetable | kernel/vmm.c:210-214 | on a tree that maps nothing, every table page of the tree comes back, each once; with the pool they are all the pages there were |
| RadixTree.EmptyHasNoLeaves | kernel/vmm.c:81-96 | a tree that maps nothing has no leaf entry for walk_and_free to follow |
| TableNeed.NeedBound | kernel/vmm.c:31-62 | mapping n pages takes at most n / 512 + n / 2^18 + 4 tables, whatever tables there are |
| TableNeed.KernelMemoryNeed | kernel/vmm.c:188-188 | the map of all memory takes at most 68 |
| RadixTree.LinkLeaf | kernel/vmm.c:44-56 | a table hung under a level-1 entry serves its 512 pages and no others |
| PageMap.MapSucceedsIff | kernel/vmm.c:134-156 | mapping completes exactly when the pages of the range are distinct and unmapped |
| PageMap.MapAddsRange | kernel/vmm.c:134-156 | exactly the pages of the range are added, page k on frame k; every other translation is untouched, also on the failing path |
| PageMap.UnmapRemovesRange | kernel/vmm.c:158-175 | exactly the page-aligned range is removed |
| PageMap.UnmapUndoesMap | kernel/vmm.c:134-175 | unmapping with the same address and size undoes mapping exactly when the bytes reach no page beyond a run of that size from a page start |
| RadixTree.LinkKeepsMap | kernel/vmm.c:44-56 | hanging a fresh zeroed table under an empty entry changes no translation |
| RadixTree.StoreLeaf | kernel/vmm.c:134-175 | writing one level-0 entry changes the translation of one page |
| UserCopy.AddressSpace.CopyToVa | kernel/vmm.c:257-278 | stores what a byte-by-byte store with a translation per byte stores, up to the first page without a frame |
| UserCopy.AddressSpace.CopyFromVa | kernel/vmm.c:223-242 | returns what a byte-by-byte load returns |
| UserCopy.CopyFailsIff | kernel/vmm.c:223-278 | -1 exactly when the range touches a page without a frame, or the 64-bit length reads as -1 in an int |
| UserCopy.IntOfLength | kernel/vmm.c:223-278 | the answer of a copy that succeeded is the length modulo 2^32 as an int: the length itself below 2^31 |
| UserCopy.LongCopyReportsFailure | kernel/vmm.c:223-278 | a mapped range of 2^32 - 1 bytes is copied whole and answered with -1 |
| UserCopy.CopyRoundTrip | kernel/vmm.c:223-278 | what is copied in comes back out, for any length and alignment, when the pages of the range have distinct frames |
| BlockCache.BlockCache.constructor | kernel/bio.c:22-42 | an empty cache presents the disk, its list threads every buffer |
| BlockCache.BlockCache.FindCached | kernel/bio.c:58-68 | a buffer with the block exactly when one exists |
| BlockCache.BlockCache.FindUnused | kernel/bio.c:70-101 | the least recently used buffer nobody holds; none exactly when all are held |
| BlockCache.BlockCache.ReadBlock | kernel/bio.c:48-118 | the buffer returned holds the last written contents; an eviction loses no write and takes, of the buffers nobody holds, the one whose last release is the oldest, or a buffer never used; failing exactly when all buffers are held and none has the block |
| BlockCache.BlockCache.WriteBlock | kernel/bio.c:121-127 | the abstract disk changes at exactly this block |
| BlockCache.BlockCache.FlushBlock | kernel/bio.c:130-135 | writing back changes the device, not what the cache presents |
| BlockCache.BlockCache.ReleaseBlock | kernel/bio.c:139-160 | the last holder moves the buffer to the front, adds it to the record of releases and keeps the list a circle through all buffers; contents are untouched |
| BlockCache.MovedLinks | kernel/bio.c:151-156 | the pointer changes of the unlink and relink move one node to the front and keep the rest in order |
| BlockCache.FrontAged | kernel/bio.c:150-157 | moving the buffer just released to the front keeps the list in the order of the last releases |
| BlockCache.LastFreeIsOldest | kernel/bio.c:70-75 | the last free buffer of a list in that order is the free one released longest ago |
| BlockCache.BlockCache.ReadBytes | kernel/bio.c:199-222 | returns exactly the byte range of the volume, across blocks, and releases what it held |
| BlockCache.BlockCache.WriteBytes | kernel/bio.c:224-247 | overwrites exactly the byte range of the volume and nothing else on the disk |
| BlockCache.BlockCache.ReadBlocks | kernel/bio.c:177-185 | returns exactly the bytes of the run of blocks |
| BlockCache.BlockCache.WriteBlocks | kernel/bio.c:188-197 | overwrites exactly the run of blocks |
| BlockCache.BlockCache.FlushCache | kernel/bio.c:249-264 | afterwards the device equals the abstract disk |
| CacheSpec.RecycleKeeps | kernel/bio.c:72-97 | giving a clean or written-back buffer to another block loses nothing |
| CacheSpec.CleanIsOnDisk | kernel/bio.c:121-135 | a clean valid buffer equals the device |
| CacheRuns.EveryRunIsSound | kernel/bio.c:48-118 | with calls that sleep in their transfers and run in between, over every run of guarded calls: every caller works on the block it asked for, as last written, counts are those of the callers, and no write is lost |
| CacheRuns.AskCompletes | kernel/bio.c:106-118 | a guarded call ends, after no transfer, one or two, with the last written contents of its block |
| CacheRuns.SameVictim | kernel/bio.c:72-97 | a miss while a victim is written back takes the same victim |
| CacheRuns.AskIsExact | kernel/bio.c:48-118 | whatever guarded calls follow, every caller keeps its block exactly when the call is guarded: its block is loaded and not on its way out, or no victim is being written back |
| CacheRuns.TwoHoldOne | kernel/bio.c:72-97 | after a miss during a write-back both callers hold one buffer, which has the block and the contents of the one that finished last and counts one |
| CacheRuns.UnsoundRun | kernel/bio.c:48-118 | with any number of buffers, two callers and two blocks more than buffers, a run from the start in which a caller loses its block |
| Fat.FatFs.GetFreeCluster | kernel/fat32.c:660-676 | the lowest free cluster, -1 exactly when none is free |
| Fat.FatFs.FreshFat | kernel/fat32.c:334-350 | the block of the table that holds the entry is written at both addresses the code uses; no cluster changes when the second address is clear of the data |
| Fat.FatFs.SetFat | kernel/fat32.c:328-332 | one entry changes; the little-endian word at its place in the first table on disk is the new value, wherever the second write falls; both tables on disk keep equal to the one in memory when the reserved area is as long as a table |
| FatMirror.WordIff | kernel/fat32.c:334-350 | four bytes on disk are a word as the machine stores it exactly when b0 + 256 b1 + 256^2 b2 + 256^3 b3 is the word |
| FatMirror.EntryOnDisk | kernel/fat32.c:328-350 | after the two writes the word of the entry in the first table is the value |
| Fat.FatFs.LoadTable | kernel/fat32.c:400-416 | mounting loads the words of the first table; they are the table in memory exactly when the copy is up to date |
| Fat.FatFs.AddCluster | kernel/fat32.c:714-724 | the table and the answer are those of the specification, spare entries included; every cluster keeps its bytes when the second address is clear of the data |
| FatSpec.AddClusterAppends | kernel/fat32.c:660-676 | a chain gains exactly one previously free cluster and the free count drops by one; -1 exactly when none is free, with nothing changed |
| FatSpec.OtherChainsKept | kernel/fat32.c:714-724 | every other chain stays a chain, apart from the one that grew |
| FatMirror.BothFollow | kernel/fat32.c:341-349 | written right behind the first table, as intended, the second copy follows every change |
| FatMirror.BothCopiesIff | kernel/fat32.c:342-348 | as coded, both copies follow a change exactly when the reserved area is as long as one table |
| FatMirror.SecondCopyMissed | kernel/fat32.c:347 | a volume on which the second copy is wrong after one change, whatever was on the disk |
| FatMirror.FirstCopyIff | kernel/fat32.c:341-349 | the first table follows a change exactly when the second write falls behind it, or stores the block that belongs there |
| FatMirror.LoadedIff | kernel/fat32.c:400-416 | a copy read as words is the table in memory exactly when the copy holds it |
| FatMirror.NextMountIff | kernel/fat32.c:328-416 | after a changed entry the next mount loads the table in memory exactly when the second write fell behind the first table, or on 128 words that are the same |
| FatMirror.FirstCopyDamaged | kernel/fat32.c:347 | a volume on which the second write replaces the other block of the first table |
| FatOverlap.EntryWriteIff | kernel/fat32.c:334-350 | the two writes for an entry keep every cluster exactly when the second one lands outside the data area, or on a block that holds these bytes |
| FatOverlap.ClusterReplaced | kernel/fat32.c:347 | a volume of 512 blocks on which changing entry 2 replaces all of cluster 26 |
| FatSpec.TablesBeforeData | kernel/fat32.c:552-556 | with one table at least, the first table ends before the data, so the first write of an entry meets no cluster |
| FatSpec.SecondClearIff | kernel/fat32.c:334-350 | the guard of the writing methods: no block of the second table meets a cluster |
| FatSpec.FreeInsideIff | kernel/fat32.c:660-676 | what is returned is a cluster of the volume, or nothing, exactly when a zero entry lies below the spare ones, or there is none at all |
| FatSpec.AllInsideIff | kernel/fat32.c:714-724 | growing a chain by k clusters stays inside the volume exactly when k are free below the spare entries, or no spare entry is zero |
| FatSpec.SpareEntryTaken | kernel/fat32.c:660-676 | a 64 MiB volume with 128 spare entries that hands out a cluster behind its end |
| FatSpec.ClusterAddressIff | kernel/fat32.c:393-393 | the address of a cluster is the prescribed one exactly without hidden sectors and with the root directory at cluster 2 |
| FatSpec.LimitIsExact | kernel/fat32.c:552-556 | the clusters below the limit are exactly those inside the volume |
| FatSpec.LimitIsGeometry | kernel/fat32.c:391-398 | on any volume with sane sizes they do not overlap |
| Fat.FatFs.ReadInode | kernel/fat32.c:200-258 | returns exactly the slice of the chain's bytes, cut at the file size; -1 exactly on a bad offset, when the chain is too short, or when it ends where the read begins; a file of size 0 without a cluster reads as empty; on any volume |
| Fat.ReadFailsIff | kernel/fat32.c:211-232 | on a file whose chain holds its size, a read fails exactly at the end of a chain that the offset fills, and never on a file of size 0 without a cluster |
| Fat.EntryInsideIff | kernel/fat32.c:277-294 | the entry a write links a new cluster to is one of the table exactly when the id of the file is a valid cluster; a write stores outside the table exactly when it is not, at least one byte is written and a cluster is free |
| Fat.EmptyFileStoresOutside | kernel/fat32.c:714-724 | the empty file with first cluster 0: writing one byte stores outside the table, its size then reads as -1, and before that it reads as empty |
| Fat.ReadAtEndFails | kernel/fat32.c:221-228 | a full one-cluster file read at its end answers -1, not 0 |
| Fat.FatFs.WriteInode | kernel/fat32.c:261-325 | replaces exactly the range, grows the chain by as many free clusters as needed, sets size and directory entry, leaves every other file alone; -1 exactly on a bad offset or too few clusters, with the bytes that fitted stored; a store outside the table exactly for a file without a cluster, at least one byte and a cluster to take; a write past the chain presumes clusters inside the volume and a clear second table |
| Fat.FatFs.WriteClusters | kernel/fat32.c:290-317 | the write loop stores all bytes exactly when chain and free clusters hold them |
| Fat.AcceptedIs | kernel/fat32.c:268-322 | byte k of a write is stored exactly when it lies inside the chain or the free clusters; -1 exactly for an offset that is negative, behind the size or behind the chain |
| Fat.FatFs.SeekEnd | kernel/fat32.c:279-289 | the position may be one cluster past the chain exactly when the offset is its length |
| Fat.FatFs.UpdateInode | kernel/fat32.c:678-711 | the four size bytes of one directory entry change, and the size read back from the entry is the one stored; nothing when the index is beyond the directory |
| Fat.SizeReadBack | kernel/fat32.c:629-633 | the word at byte 28 of the entry is the size stored; no other byte changes |
| FatFile.WrittenIsWrite | kernel/fat32.c:318-322 | the chain's bytes after a write, cut at the new size, are the flat file with the range replaced, cut behind it when cover is set |
| FatFile.ReadAfterWrite | kernel/fat32.c:200-325 | reading back gives the new bytes inside the written range and the old ones outside |
| FatFile.WritesCommute | kernel/fat32.c:318-322 | on the flat file, writes to disjoint ranges inside its size commute |
| Fat.ReadOfWrite | kernel/fat32.c:200-325 | a read of the chain after a write is a read of the flat file after that write, at any position and length |
| FatFile.StoreInChain | kernel/fat32.c:300-313 | a store inside cluster j of a chain is a store at j cluster sizes of its byte string |
| LongName.SlotWriter.Name2Lfn | kernel/fat32.c:116-138 | thirteen units at most go into the three fields, checksum and type are set, every other byte of the buffer is kept |
| LongName.SlotWriter.CreateSlots | kernel/fat32.c:843-854 | the slots of the name lie downwards from the short entry, numbered, the last one marked; nothing else changes |
| LongName.SlotLayout | kernel/fat32.c:46-57 | every byte of a slot is where the structure has it: number, units, type 0x0f, checksum, zeros |
| LongName.FindFirstEntry | kernel/fat32.c:480-549 | entry, name and length, or the two error answers, are those of the recursive reading |
| LongName.ShortFound | kernel/fat32.c:480-515 | a real slot behind no name slot, or a deleted one, is found with its own first 8 bytes as its name, and is over the size exactly below 9 bytes of room |
| LongName.LongFound | kernel/fat32.c:516-545 | a real slot behind a name slot is found with the text of the slots down to the first marked one, over the size exactly without room for it and a NUL; without a marked slot the loop leaves the buffer |
| LongName.NameReadBack | kernel/fat32.c:480-549 | a name written on creation is read back, cut after 64 slots |
| LongName.RoundTripIff | kernel/fat32.c:843-854 | a nonempty NUL-free name comes back unchanged exactly when it takes at most 64 slots, multiples of 13 included |
| LongName.CutName | kernel/fat32.c:843-854 | a name of 833 bytes takes 65 slots and comes back with 832 |
| DirScan.LookupEntry | kernel/fat32.c:564-627 | the growing buffer finds the entry, and its index, that one scan of the whole directory finds first; it ends on an acyclic chain and never overruns the buffer |
| DirScan.FindLonger | kernel/fat32.c:480-549 | an entry found in the part read so far is the one found in the whole, also when a name run crosses a cluster boundary |
| DirScan.Extend | kernel/fat32.c:584-612 | the next cluster lands behind the bytes read, in a buffer that has room for it |
| DirScan.CreatedIsFoundIff | kernel/fat32.c:564-627 | a created file is found under its name exactly up to 832 bytes, when no other entry bears it |
| DirScan.CreatedInBuffer | kernel/fat32.c:843-854 | the same of the bytes `fat32_create_inode` left in a directory buffer |
| DirScan.ShortIsFound | kernel/fat32.c:564-627 | a file with a short name only is found under its 8 bytes, in its own slot, when no other entry bears that name |
| DirScan.ShortInBuffer | kernel/fat32.c:564-627 | the same of entry i of a directory's bytes |
| Mount.GetBidFromSon | kernel/fat32.c:869-890 | the block of the file, -1 exactly behind its end |
| Mount.GetRealBid | kernel/fs.c:466-474 | the translation through every level |
| Mount.GetRealDev | kernel/fs.c:458-464 | the device of the file system below all the mounts, where the blocks of the volume are |
| Mount.RealVolume | kernel/fs.c:458-475 | block k of a file system on a device is block k of that device |
| Mount.ImageBlock | kernel/fs.c:466-474 | at any depth block k of an image is the real block that holds bytes 512k to 512k+511 of the image file read through its parent |
| Mount.TranslationInjective | kernel/fs.c:466-474 | different blocks of an image are different real blocks |
| Mount.ImageIsFile | kernel/fat32.c:869-890 | the blocks of an image end to end are its file |
| Mount.StoreIsFileStore | kernel/fs.c:466-474 | a store into the mounted volume is the same store into the image file, and no other file of the parent changes |
| Mount.BeyondImageIff | kernel/fs.c:466-474 | a block behind the end is reported as -1 exactly when the parent is on the device itself; deeper the -1 is translated again |
| VirtioDisk.Disk.AllocDesc | kernel/virtio_disk.c:148-159 | the lowest free descriptor, -1 exactly when there is none |
| VirtioDisk.Disk.Alloc3 | kernel/virtio_disk.c:193-206 | the three lowest free descriptors, or nothing changed |
| VirtioDisk.Disk.FreeChain | kernel/virtio_disk.c:177-189 | exactly the descriptors of the chain are freed, zeroed |
| VirtioDisk.Disk.PostRequest | kernel/virtio_disk.c:213-265 | the memory becomes that of the ring with one more posted chain |
| VirtioDisk.Disk.PublishRequest | kernel/virtio_disk.c:270-272 | the posted chain is offered to the device |
| VirtioDisk.Disk.Intr | kernel/virtio_disk.c:346-382 | every reported completion is taken once, in order, and its buffer released |
| VirtioDisk.Disk.Finish | kernel/virtio_disk.c:333-343 | record and descriptors are given back |
| VirtioRing.Wraparound | kernel/virtio_disk.c:265-272 | 16-bit index comparisons and slots modulo 8 agree with unbounded counters |
| VirtioLaws.PostInv | kernel/virtio_disk.c:213-265 | posting adds one chain, overwrites no slot the device has yet to read, and changes no outstanding request |
| VirtioLaws.DeviceParses | kernel/virtio_disk.c:230-257 | following the descriptors as the standard says, the device reads from every outstanding chain the command and the buffer it was made for |
| VirtioLaws.TakeInv | kernel/virtio_disk.c:346-382 | an id from the used ring heads an outstanding chain with its buffer recorded |
| VirtioLaws.EveryRunSafe | kernel/virtio_disk.c:148-382 | in every reachable ring chains are disjoint, and free descriptors plus three per chain make 8 |
| VirtioLaws.CompletesOnce | kernel/virtio_disk.c:346-382 | on every interleaving no request completes twice, and all published ones have completed once nothing is outstanding |
| Interrupts.NestingRestores | kernel/strap.c:21-42 | interrupts stay off from the first push to the last pop and are then as they were, at any depth |
| Interrupts.Cpu.IntrPush | kernel/strap.c:30-42 | counts up, interrupts off, the old state kept at depth 0 |
| Interrupts.Cpu.IntrPop | kernel/strap.c:21-28 | counts down; the last pop restores the kept state |
| Interrupts.Cpu.Acquire | kernel/spinlock.c:9-15 | a free lock is taken in the first round, under one more level; a held one in no round, with interrupts off |
| Interrupts.Cpu.Release | kernel/spinlock.c:17-21 | the lock is free again and the level back |
| Interrupts.Cpu.TryAcquire | kernel/spinlock.c:23-32 | the level grows exactly on success |
| WaitQueue.WaitQueue.PushBack | kernel/waitqueue.c:11-18 | the waiter joins at the end |
| WaitQueue.WaitQueue.Pop | kernel/waitqueue.c:20-26 | the first waiter leaves; the rest keep their order |
| WaitQueue.WaitQueue.AwakeWaiters | kernel/waitqueue.c:33-48 | every waiter asleep on the queue becomes ready and the queue ends empty, whatever its type |
| KernelLaws.UserTrapOk | kernel/strap.c:215-269 | entering the kernel keeps the invariant: nesting 2 after the push |
| KernelLaws.PopToUserOk | kernel/thread.c:94-114 | every way back to user mode finds nesting 1 |
| KernelLaws.SchedUnlockOk | kernel/thread.c:116-125 | sched finds nesting 0 after its two pops |
| KernelLaws.DispatchOk | kernel/coro.c:22-43 | the scheduler dispatches ready threads only, at nesting 0 between rounds and 1 at the switch |
| KernelLaws.RwSleepOk | kernel/virtio_disk.c:296-303 | a thread falls asleep only with its node queued and its request on the way |
| KernelLaws.ResumeDiskOk | kernel/virtio_disk.c:309-337 | a thread back from its disk sleep finds its buffer released and the disk lock free |
| KernelLaws.HandlerNeverSpins | kernel/virtio_disk.c:346-382 | every lock the handler takes is free: its thread is asleep, alone in the queue |
| KernelLaws.WakeupDelivered | kernel/waitqueue.c:33-48 | a reported completion makes its sleeping thread ready: no wakeup is lost |
| KernelLaws.ExitOk | kernel/thread.c:225-229 | sys_exit keeps the invariant of the whole hart |
| KernelLaws.WaitOk | kernel/thread.c:231-264 | the blocking part of sys_wait keeps it |
| KernelEffects.DiskTrapDelivers | kernel/strap.c:251-257 | a disk interrupt out of user mode takes every reported completion: its thread is ready and its buffer free, nothing else changes, and the thread it met gives up the hart |
| KernelEffects.KernelIntrDelivers | kernel/strap.c:272-295 | one taken inside the kernel does the same and changes nothing of the thread it met |
| KernelEffects.TimerTrapYields | kernel/strap.c:251-257 | a timer interrupt leaves its thread ready and changes no other thread, no buffer and nothing in the ring |
| KernelEffects.ExitWakes | kernel/thread.c:225-229 | exactly the named threads that sleep for a child become ready; the one that exits is unused; nothing else changes |
| KernelEffects.ReadyIffCalled | kernel/process.c:184-188 | over every run a parent parked by sys_wait becomes ready exactly when an exit names it, and stays as it was until then |
| KernelEffects.DispatchIff | kernel/coro.c:14-43 | the scheduler gives the hart to exactly the ready threads |
| KernelEffects.WaitParks | kernel/thread.c:231-264 | sys_wait leaves the thread asleep for a child and parked, the hart to the scheduler |
| KernelEffects.NamedComesBack | kernel/thread.c:225-264 | from an exit the hart goes to a parent it named, which goes on in its system call |
| KernelEffects.YieldedComesBack | kernel/strap.c:251-268 | a thread that yields comes back to user mode with everything as it was |
| KernelEffects.DiskComesBack | kernel/virtio_disk.c:309-343 | a ready thread whose request was taken back gets the hart and comes back to user mode, its chain gone and its three descriptors free, nothing else changed |
| KernelEffects.RequestComesBack | kernel/virtio_disk.c:207-343 | a request that is alone goes from the call through submission, sleep, device, interrupt and dispatch back to user mode: no chain is left, and every other thread, every buffer and the disk lock are as before |
| KernelRuns.PresumedHolds | kernel/coro.c:14-43 | whenever the code performs a step in a state within the invariant, its effect is the modelled one |
| KernelRuns.StepOk | kernel/coro.c:14-43 | every step keeps the invariant, a disk request when no other thread is waiting for its buffer |
| KernelRuns.EveryRunIsSafe | kernel/coro.c:14-43 | in every run without two threads asking for one buffer, after every event at most one thread is running, the one the current coroutine names, holding its own lock; nesting counts are right; sleepers have their request on the way; handlers never spin; chains are freed only after their completion was taken |
| KernelHazards.SecondRequestUnsafe | kernel/bio.c:106-118 | from any such state, a request for a buffer another thread is waiting for leads to an unsafe state, when there are descriptors for it |
| KernelHazards.GuardIsExact | kernel/bio.c:106-118 | whatever follows stays safe exactly when no other thread is waiting for the buffer |
| KernelHazards.ReclaimsEarly | kernel/virtio_disk.c:309-343 | one completion wakes both threads, and the second frees its chain although the device has not finished it |
| KernelHazards.WokenSpins | kernel/virtio_disk.c:309-320 | a thread already woken comes back to a buffer made busy again, with interrupts off |
| KernelHazards.EarlyReclaimBreaksRing | kernel/virtio_disk.c:340-372 | after such a release no buffer is recorded for the id the device will report, and the ring is out of order |
| KernelHazards.UnsafeRun | kernel/bio.c:106-118 | with two threads and one buffer at least, a run from boot in which this happens |
| KernelHazards.PostNeedsRoom | kernel/virtio_disk.c:219-227 | a request gets its descriptors exactly while fewer than two are outstanding |
| KernelHazards.HangsForever | kernel/virtio_disk.c:213-227 | with two outstanding requests, no sequence of events moves the thread in the allocation loop, or frees the disk lock |
| KernelHazards.ThirdRequestHangs | kernel/virtio_disk.c:213-227 | from boot, three threads that ask for three blocks reach that state, and stay there whatever follows |

## Left out

- Slab.SlabAllocator.Kmalloc: requires that a request which needs a new slab gets a page. `palloc_n` ignores the -1 of `buddy_alloc`, and the slab would lie before the arena. The fill pattern written there for a large request is not modelled.
- Slab.SlabAllocator.Kfree: requires a pointer that is issued; the fill patterns written into freed and allocated pages are not modelled.
- Buddy.BuddyAllocator.Alloc: requires a positive request; the code panics otherwise.
- Fat.FatFs.ReadInode: says nothing about the buffer after a failed read, which may hold a part.
- Fat.FatFs.WriteInode: requires a cluster of at most 4096 bytes, the page that `fat32_update_inode` reads a cluster into, and a file that is not its own directory; a negative size, which writes nothing, is not modelled. Nothing is said about the state after a store outside the table, nor about a file without a cluster whose entry gives it a cluster or more and that is written behind its first cluster: the code then follows a table entry that is not a cluster. The chains are passed as ghost arguments: a table with a broken or cyclic chain is outside the model.
- Fat.FatFs.FreshFat: requires that the table in memory has the length the boot sector announces, at least one table, and that the blocks of the second write exist; the same of `SetFat` and `AddCluster`.
- Fat.FatFs.AddCluster: may return a spare entry, which is no cluster; what a write to it overwrites, behind the volume, is not modelled.
- Mount.BeyondImageIff: requires a boot sector in front of the data of the outermost file system but one.
- DirScan.LookupEntry: requires a cluster size that divides 4096 and a directory in which every entry's name can be read; on a name run without a last slot the code moves two bytes backwards. The 32 bytes in front of the page, which the code inspects for the first entry, are a parameter.
- LongName.SlotWriter.CreateSlots: starts from a given run of cleared slots; the search for free slots, the short entry and the checksum value are not modelled.
- BlockCache.BlockCache.ReadBytes: requires a buffer that nobody holds, as do the other transfer loops; the code panics otherwise. Disk transfers are atomic here; calls that overlap are the subject of `CacheRuns`, requests that overlap that of the modules on the hart.
- CacheRuns.EveryRunIsSound: a transfer takes effect when it ends; the ring is not part of this machine. The panic without an unused buffer, the wrap of a count of zero and `flush_cache_to_disk`, which writes buffers back without the lock, are not events of it.
- Mount.GetRealBid: superblocks are values, whose tables do not change during the call.
- Slab.SlabAllocator.AllocSlab: headers and next pointers are maps from addresses, not bytes of the page.
- VirtioDisk.Disk.PostRequest: requires three free descriptors; `KernelHazards.HangsForever` says what happens otherwise.
- PageTable.PageTable.Walk: requires as many pages in the pool as tables are missing; `palloc` does not report an empty arena, so running out of memory is not modelled. Access rights are bits of the entry and are not interpreted.
- PageTable.PageTable.constructor: a root page at 2^38 or above, for which `walk` panics, is treated like any other.
- Interrupts.Cpu.Acquire: follows the loop for a given number of rounds.
- KernelRuns.EveryRunIsSafe: for runs in which no thread asks for a buffer another one is waiting for; `KernelHazards.GuardIsExact` shows that this is needed. The state of the ring after a chain was freed too early is not followed further. One hart; a second one could change what a thread reads between two of its steps. The steps are functions on values, so the order of assignments inside a step is not captured. System calls other than those named, timers and traps from inside system calls are not events of the machine.
- KernelLaws.ExitOk: the invariant only; `KernelEffects.ExitWakes` says what happens. The set of threads named by an exit is any set; which parents it names, and the locks taken on the way, are not modelled.
- KernelLaws.WaitOk: the step that falls asleep only; the wait lock, the queues of children and the order of exit and wait are not modelled.
- Fork copying (`alloc_vm_r`, `vmalloc_r`): it maps the parent's frames, so isolation does not hold.
- The process tree, zombie unlinking, and the path of `sys_wait` without a matching child, which returns holding its lock.
- The boot-time polling path of `virtio_disk_rw`, device registers, memory barriers and the coroutine switch in assembly: registers are device steps, a switch is one step.
- Mount-time reading of boot sector and table, reference counts of inodes, `fat32_get_inode_name`, `pin_block` and `unpin_block`.
- Path helpers, ELF loading, console, UART, PLIC, timer, system-call wrappers, user programs and the boot firmware.
