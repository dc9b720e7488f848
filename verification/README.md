# A verified model of the kernel's memory, files, scheduler and screen

A Dafny model of five parts of the kernel, with proofs of what they keep over whole runs:

* **Frames, page tables, demand paging** (`Bits`, `Frames`, `Paging`, `DemandPaging`, `HeapPages`, `Pager`).  Physical
  memory is one flat sequence of 2^30 words.  The frame bitmap lies in it, page tables are frames of it, and
  the walk of the processor ("32-Bit Paging", section 4.3 of Volume 3A of the Intel 64 and IA-32
  Architectures Software Developer's Manual) is a function of it.  That writing a table harms neither the
  bitmap nor another table is proved, not assumed.
* **The kernel heap** (`HeapList`, `HeapMemory`, `HeapRuns`, `HeapFailures`, `Heap`, `HeapValidate`), as a list of blocks, as
  words in the very memory that it hands out, and as the loops of `kmalloc`, `kfree` and `heap_validate`.
* **The line rasteriser** (`Rasteriser`), against the exactly rounded segment.
* **The file system stack** (`Paths`, `FileSystem`, `Descriptors`): path resolution on a growing forest with
  mounts, growable byte files, and descriptors with offsets.
* **Scheduler, terminal and numbers** (`Scheduler`, `Terminal`, `Numbers`).

`Machine` holds what they share.  Where the source updates state in place there is a class whose methods have
the source's loops and stores, proved against a specification function or relation; the lemmas are about that.

## The two layouts of the heap

The size arithmetic of `heap.c` (lines 92, 122, 207, 224) gives a block the footprint 20 + size + 4: header,
payload, tail sentinel.  Two placements leave the tail out: the end of the first block (line 56) and the
remainder of a split (lines 87-88).  The model takes the room for the tail there as a parameter, `reserve`:
0 is the code as written, 4 is the repair, which also unlinks the block that the trim of lines 246-247 cuts
off.  Everything about the heap is proved for both where it holds of both.

* Repaired: over every run of `kmalloc`, `kfree` and stores by the owners, whose requests do not wrap around
  32 bits, the blocks tile the heap range, every sentinel is intact, and a block in use keeps its place and
  contents until it is released.  What is handed out and not released is disjoint.
* As written: the same list properties hold over every such run whose releases are all `SafeRelease`, and one
  release leaves the list in memory, ordered, coalesced and with its highest block in use exactly when it is
  (`SafeReleaseIff`).  The three clauses of `SafeRelease`, each with a run that violates it:
  * a merge writes its tail into the next block's size field exactly when the two gaps give no room
    (`AbsorbedOrderedIff`, `TailOverwritesSize`, `CarvedRunFails`);
  * the merge into a free predecessor (lines 224-230) writes the tail before it last reads the links of the
    block that goes, and reads back its own sentinel exactly when the gap in front of that block is 8 or 12
    bytes more than its size (`PreviousIsAbsorbIff`, `CarvedRunFails`);
  * the trim lowers `heap_end` onto a block that it leaves linked exactly when the last of several blocks is
    free (`TrimmedSoundIff`), and the next append makes that block its own successor (`TrimLeavesLast`,
    `AppendOntoLast`).

Other places where the code does less than it seems to, each stated as an equivalence and with an input: line
46 refuses a request although a free block fits (`ServesFittingIff`, `GuardRefusesFit`); the tests of an
append accept a request that wraps around 32 bits in the last 24 bytes of the range (`AppendAcceptedIff`,
`WrapWitness`); a page table in frame 0 counts as missing, so that `map_page` is a map update only if its slot
maps nothing else (`MapUpdateIff`, `TableInFrameZero`); a task that yields and is picked again is left READY
although it runs (`SomeoneRunsIff`, `RunsOnReady`); a mount is not seen from its own path when that path was
redirected already or passes its own end (`MountedPath`, `MountOnOwnPath`).

## Model

| member | source | states |
|---|---|---|
| `Bits.SetBit` | src/kernel/mm/pmm.c:19-22 | or-ing a shifted one into a 32-bit word sets that bit and no other |
| `Bits.ClearBit` | src/kernel/mm/pmm.c:24-27 | and-ing with the complement of a shifted one clears that bit and no other |
| `Bits.TestBit` | src/kernel/mm/pmm.c:37-38 | and-ing with a shifted one is zero exactly when the bit is clear |
| `Bits.PageMask` | src/kernel/mm/paging.c:75-76 | the mask 0xFFFFF000 takes a 32-bit address to the start of its page |
| `Bits.IndexMask` | src/kernel/mm/paging.c:56 | the mask 0x3FF is the remainder modulo 1024 |
| `Bits.EntryFlags` | src/kernel/mm/paging.c:46 | or-ing PRESENT and WRITABLE into a page address adds 3 |
| `Frames.MarkedUses` | src/kernel/mm/pmm.c:19-22 | set_frame takes one frame from the free ones and leaves all others as they are |
| `Frames.ReleasedFrees` | src/kernel/mm/pmm.c:24-27 | clear_frame makes one frame free and leaves all others as they are |
| `Frames.LeastFreeIsLeast` | src/kernel/mm/pmm.c:29-44 | the reference search finds the least free frame below 32 * (total_frames / 32) |
| `Frames.AllocatedTakesLeast` | src/kernel/mm/pmm.c:134-143 | allocation removes exactly the least free frame, and the free count drops by one; without one below the limit the store stays |
| `Frames.AllocationFails` | src/kernel/mm/pmm.c:29-44 | the search fails exactly when no frame below the limit is free, and then at most 31 frames are still counted free |
| `Frames.ReleasedGivesBack` | src/kernel/mm/pmm.c:145-149 | freeing a frame in use adds exactly that frame to the free ones, and the free count grows by one |
| `Frames.StoreKeepsBitmap` | src/kernel/mm/pmm.c:72-83 | a store into a frame that is neither kernel nor bitmap leaves every bitmap word as it was |
| `Frames.StepIsSafe` | src/kernel/mm/pmm.c:133-149 | an allocation, a release of a held frame or a store into one keeps kernel and bitmap frames marked, and free and held together the same |
| `Frames.RunIsSafe` | src/kernel/mm/pmm.c:111-149 | over every run that frees only held frames no frame is lost, and none is both free and held, whatever the holders write |
| `Frames.RunAllocatesFresh` | src/kernel/mm/pmm.c:134-143 | no allocation of such a run hands out a held, kernel or bitmap frame |
| `Frames.CoversPlainly` | src/kernel/mm/pmm.c:96-97 | when a region ends within 32 bits the cuts to 32 bits change nothing |
| `Frames.HighestIsLargest` | src/kernel/mm/pmm.c:56-68 | the search for the highest address gives the largest region end, cut to 32 bits |
| `Frames.NoFrameCutOff` | src/kernel/mm/pmm.c:70-103 | when the usable regions end within 32 bits, total_frames cuts none of their frames off: those released are exactly those they cover |
| `Frames.UsualMap` | src/kernel/mm/pmm.c:61-70 | on the map of a machine with 128 MB the firmware region that ends at 4 GB counts as 0, and the memory decides |
| `Frames.ReservedIff` | src/kernel/mm/pmm.c:111-127 | the two reserving loops take exactly the frames that hold a byte of the kernel or of the bitmap |
| `Frames.KernelBelowBitmap` | src/kernel/mm/pmm.c:77-83 | when kernel and bitmap fit in memory, the rounded end of the bitmap neither wraps nor lies below the kernel |
| `Frames.FrameAllocator.SetFrame` | src/kernel/mm/pmm.c:19-22 | the store afterwards is the specified one |
| `Frames.FrameAllocator.ClearFrame` | src/kernel/mm/pmm.c:24-27 | the store afterwards is the specified one |
| `Frames.FrameAllocator.FirstClearBit` | src/kernel/mm/pmm.c:35-39 | the inner loop finds the first free frame of a bitmap word |
| `Frames.FrameAllocator.FirstFreeFrame` | src/kernel/mm/pmm.c:29-44 | the scan over words and bits returns the least free frame below the limit, or -1 |
| `Frames.FrameAllocator.AllocFrame` | src/kernel/mm/pmm.c:134-143 | the address of the least free frame, and the store with it marked; 0 on failure, and also for frame 0 |
| `Frames.FrameAllocator.FreeFrame` | src/kernel/mm/pmm.c:145-149 | the store with the frame of the address released |
| `Frames.FrameAllocator.GetFreeFrames` | src/kernel/mm/pmm.c:156-170 | the count is the size of the set of free frames |
| `Frames.FrameAllocator.Reserve` | src/kernel/mm/pmm.c:118-127 | exactly the given frames stop being free, and only the bitmap is written |
| `Frames.FrameAllocator.ReleaseRegion` | src/kernel/mm/pmm.c:96-103 | exactly the frames of the region below total_frames become free, and only the bitmap is written |
| `Frames.FrameAllocator.ReleaseUsable` | src/kernel/mm/pmm.c:90-108 | afterwards exactly the frames below total_frames that a usable region covers are free |
| `Frames.FrameAllocator.FindHighest` | src/kernel/mm/pmm.c:56-68 | at least every region end, cut to 32 bits, and one of them or 0 |
| `Frames.FrameAllocator.FillBitmap` | src/kernel/mm/pmm.c:86 | afterwards no frame is free, padding bits included |
| `Frames.FrameAllocator.Init` | src/kernel/mm/pmm.c:46-130 | total_frames is that of the highest region end; afterwards exactly the frames below it that a usable region covers and that are neither kernel nor bitmap are free, padding stays set, and nothing but the bitmap is written; 1 without a memory map |
| `Paging.PageParts` | src/kernel/mm/paging.c:55-56 | two addresses are on one page exactly when directory and table index agree |
| `Paging.WalkBySlot` | src/kernel/mm/paging.c:11-12 | the walk through the directory is the walk through the tracked table of the slot |
| `Paging.StoredSound` | src/kernel/mm/paging.c:75-76 | storing a page entry keeps bitmap, directory, tracked pointers and all tables as they are |
| `Paging.StoredWalk` | src/kernel/mm/paging.c:75-76 | it makes the page translate to its frame, and no other address translates differently |
| `Paging.WithTableAgrees` | src/kernel/mm/paging.c:61-73 | a new table changes only its own frame, its slot and the bitmap |
| `Paging.WithTableSound` | src/kernel/mm/paging.c:61-73 | afterwards directory entry and tracked pointer agree in every slot, and no two slots share a table |
| `Paging.NewSlotWalk` | src/kernel/mm/paging.c:65-72 | a new table maps nothing |
| `Paging.OtherSlotWalk` | src/kernel/mm/paging.c:61-73 | a new table leaves the translation of every other slot alone |
| `Paging.MappedPageSound` | src/kernel/mm/paging.c:53-77 | map_page keeps the tables sound and takes a frame exactly when it makes a table |
| `Paging.MappedPageSlots` | src/kernel/mm/paging.c:58-73 | map_page adds at most the one table, in a frame that no slot used |
| `Paging.MappedPageKeepsData` | src/kernel/mm/paging.c:53-77 | map_page writes into no frame in use that is not a table |
| `Paging.MappedPageWalk` | src/kernel/mm/paging.c:53-77 | the translation after map_page, for every address |
| `Paging.MapUpdateIff` | src/kernel/mm/paging.c:58-77 | map_page is a map update exactly when a table is tracked for the slot or the slot maps no other page |
| `Paging.NewTableIdentity` | src/kernel/mm/paging.c:61-76 | a new table can still be written at its own address exactly when it does not take over the slot that maps it |
| `Paging.DataKeepsWalk` | src/kernel/mm/paging.c:65-67 | clearing a frame that is no table yet changes no translation |
| `DemandPaging.InitialisedSound` | src/kernel/mm/paging.c:27-47 | after paging_init the tables are sound, slot 0 has the one table, and exactly its frame was taken |
| `DemandPaging.InitialisedWalk` | src/kernel/mm/paging.c:36-47 | after paging_init exactly pages 1 to 1023 are mapped, each to itself |
| `DemandPaging.AllocKeepsTables` | src/kernel/core/idt.c:73 | taking the frame for a page keeps every table, and the frame is none of them |
| `DemandPaging.FaultedSlots` | src/kernel/core/idt.c:73-78 | a served fault leaves the tables sound and adds at most the heap's table |
| `DemandPaging.FaultedFree` | src/kernel/core/idt.c:73-78 | a served fault takes one frame, and a second one only for the missing table |
| `DemandPaging.FaultedWalk` | src/kernel/core/idt.c:73-78 | a served fault maps its page to the least free frame and changes no other translation |
| `DemandPaging.StockServes` | src/kernel/core/idt.c:73-78 | with a frame for the page, and one for the table if it is missing, the fault can be served |
| `DemandPaging.FaultsAreServed` | src/kernel/core/idt.c:68-81 | n faults on distinct heap pages consume exactly n frames plus one for the single table the range needs |
| `DemandPaging.GivenStaysData` | src/kernel/core/idt.c:68-81 | the frame given to a page stays in use for data and never becomes a table |
| `DemandPaging.GivenApart` | src/kernel/core/idt.c:68-81 | distinct pages of a run get distinct frames |
| `DemandPaging.FaultsMap` | src/kernel/core/idt.c:68-81 | every page of a run keeps translating to the frame it was given |
| `DemandPaging.FaultsKeepOthers` | src/kernel/core/idt.c:68-81 | every other address translates as before the run |
| `DemandPaging.FaultsKeepData` | src/kernel/core/idt.c:68-81 | what was stored in a page survives every later fault |
| `DemandPaging.InitialisedReady` | src/kernel/mm/paging.c:27-47 | after paging_init frame 0 is in use and the heap's slot is empty: a run of faults can start |
| `DemandPaging.FaultsAfterInit` | src/kernel/core/idt.c:68-81 | n faults after paging_init consume n + 2 frames with its own table, and the identity map of pages 1 to 1023 stands |
| `DemandPaging.FaultsAreWritable` | src/kernel/core/idt.c:68-81 | when the heap's table lies below 4 MB, every fault after paging_init writes it at an address mapped to itself |
| `DemandPaging.TableInFrameZero` | src/kernel/mm/paging.c:37-77 | when paging_init takes frame 0 for its table, mapping page 1 drops page 2 |
| `HeapPages.HeapPageIff` | src/kernel/core/idt.c:68-71 | a fault is served exactly when its address is in the range of the heap |
| `HeapPages.BlockIsPaged` | src/kernel/core/idt.c:68-71 | every header, payload and sentinel address of an ordered heap lies on a page that a fault serves |
| `HeapPages.MappedPageStores` | src/kernel/mm/paging.c:69-76 | map_page makes its page writable at both levels of the walk, and keeps every other page so |
| `HeapPages.InitialisedStores` | src/kernel/mm/paging.c:42-46 | after paging_init every mapped page is writable |
| `HeapPages.FaultsAllowStores` | src/kernel/core/idt.c:68-81 | over a run of faults the pages that were writable stay so, and the given pages are |
| `HeapPages.GivenPageTakesStores` | src/kernel/core/idt.c:73-78 | a store to a page of the run reaches the frame that it was given |
| `Pager.PageTables.StoreThrough` | src/kernel/mm/paging.c:49-77 | with paging on, a store reaches the word at its address when the walk takes the address to itself |
| `Pager.PageTables.ClearTable` | src/kernel/mm/paging.c:65-67 | the loop clears exactly the frame of the table, through its own address |
| `Pager.PageTables.PutEntry` | src/kernel/mm/paging.c:75-76 | the entry goes into the table, through its own address |
| `Pager.PageTables.EnterTable` | src/kernel/mm/paging.c:69-72 | directory entry and tracked pointer of the table, and nothing else |
| `Pager.PageTables.MakeTable` | src/kernel/mm/paging.c:61-73 | the store afterwards is the specified one with the new table |
| `Pager.PageTables.MapPage` | src/kernel/mm/paging.c:53-80 | the store afterwards is the specified one, and the tables are sound |
| `Pager.PageTables.HandleFault` | src/kernel/core/idt.c:55-82 | a not-present kernel fault in the heap range is served, or panics exactly when the search finds no frame or finds frame 0; every other fault changes nothing |
| `Pager.PageTables.ClearArrays` | src/kernel/mm/paging.c:29-34 | both kernel arrays are cleared, nothing else |
| `Pager.PageTables.FillIdentity` | src/kernel/mm/paging.c:39-43 | the two loops leave entry 0 empty and map the other pages to themselves |
| `Pager.PageTables.Init` | src/kernel/mm/paging.c:27-47 | the store after paging_init is the specified one, and the tables are sound |
| `HeapList.Apart` | src/kernel/mm/heap.c:87-88 | in an ordered list every payload ends, with room, before every later header |
| `HeapList.AppendAcceptedIff` | src/kernel/mm/heap.c:122-128 | the tests of an append accept exactly the blocks that end below KERNEL_HEAP_END, and the requests that wrap |
| `HeapList.WrapWitness` | src/kernel/mm/heap.c:46-128 | as written, one request brings heap_end to 20 bytes below the end of the range, where a request that wraps is accepted |
| `HeapList.FirstFitIsFirst` | src/kernel/mm/heap.c:80-119 | the search finds i exactly when block i is free and large enough and no earlier block is |
| `HeapList.AlignedIsRoundedUp` | src/kernel/mm/heap.c:39-44 | the overflow test lets through exactly the sizes that can be rounded up to a multiple of 8, and rounds them up |
| `HeapList.ServesFittingIff` | src/kernel/mm/heap.c:46-113 | kmalloc serves the first free block that fits exactly when the guard of line 46 lets the request through |
| `HeapList.GuardRefusesFit` | src/kernel/mm/heap.c:46-47 | a run as written after which a request fails although a free block fits |
| `HeapList.AbsorbedOrderedIff` | src/kernel/mm/heap.c:207-211 | a merge keeps the list ordered exactly when the two gaps leave room for its tail |
| `HeapList.ServedSound` | src/kernel/mm/heap.c:82-113 | serving a free block, split or not, keeps the list ordered and coalesced with the highest block in use |
| `HeapList.AppendedSound` | src/kernel/mm/heap.c:122-142 | so does appending a block |
| `HeapList.FirstSound` | src/kernel/mm/heap.c:54-76 | and so does the first block |
| `HeapList.MallocSound` | src/kernel/mm/heap.c:34-148 | kmalloc keeps the heap sound and adds to the blocks in use exactly one of at least the requested size, or on failure changes nothing |
| `HeapList.MallocFresh` | src/kernel/mm/heap.c:46-146 | the block that kmalloc hands out was not in use, lies apart from every block that was, and exceeds the request by less than another smallest block |
| `HeapList.MallocFailsIff` | src/kernel/mm/heap.c:36-128 | kmalloc returns NULL exactly when the request is 0 or cannot be rounded up, the guard finds too little of the range left, or no free block is large enough and a new one would exceed the range |
| `HeapList.ServedConserves` | src/kernel/mm/heap.c:85-111 | splitting conserves the sum of size + 24 |
| `HeapList.ReleasedIsRun` | src/kernel/mm/heap.c:197-232 | coalescing replaces the maximal free run around the released block by one block with its address and total footprint |
| `HeapList.ReleasedConserves` | src/kernel/mm/heap.c:200-232 | merging conserves the sum of size + 24 |
| `HeapList.ReleasedOrderedIff` | src/kernel/mm/heap.c:200-232 | both merges of a release keep the order exactly when every tail that they write has room |
| `HeapList.ReleasedCoalesced` | src/kernel/mm/heap.c:200-232 | after a release no two adjacent blocks are free |
| `HeapList.TrimmedSoundIff` | src/kernel/mm/heap.c:234-248 | the trim leaves a sound heap always when it unlinks, and as written exactly when the highest block is in use or the only one |
| `HeapList.FreeSound` | src/kernel/mm/heap.c:197-248 | with room for its tails, kfree keeps the heap sound always when repaired, and as written exactly when the highest block stays in use or the heap empties |
| `HeapList.FreeTopRoom` | src/kernel/mm/heap.c:122-248 | such a kfree keeps the room behind the last block, which kmalloc gave it |
| `HeapList.FreeLive` | src/kernel/mm/heap.c:197-248 | kfree takes exactly the released block from the blocks in use |
| `HeapList.SplitThenFree` | src/kernel/mm/heap.c:85-232 | splitting a free block and releasing the served part gives the same heap back, sizes and links included |
| `HeapMemory.AbsorbCorrect` | src/kernel/mm/heap.c:207-215 | the stores of a merge do in memory what it does in the list: headers, links and sentinels |
| `HeapMemory.MarkCorrect` | src/kernel/mm/heap.c:111-197 | a store to a free mark changes that block of the list only |
| `HeapMemory.CutCorrect` | src/kernel/mm/heap.c:87-107 | the stores of a split link the remainder in behind the block, with both sentinels |
| `HeapMemory.ServeCorrect` | src/kernel/mm/heap.c:82-112 | serving a free block in memory is serving it in the list |
| `HeapMemory.AppendCorrect` | src/kernel/mm/heap.c:130-140 | appending in memory is appending in the list |
| `HeapMemory.FirstCorrect` | src/kernel/mm/heap.c:61-70 | the first block in memory is the first block of the list |
| `HeapMemory.TrimCorrect` | src/kernel/mm/heap.c:246-247 | the trim in memory is the trim in the list, with and without the unlinking |
| `HeapMemory.PreviousIsAbsorb` | src/kernel/mm/heap.c:224-230 | the merge into the predecessor, store by store in the source's order, is the merge exactly when its tail misses the two links still to be read |
| `HeapMemory.PreviousIsAbsorbIff` | src/kernel/mm/heap.c:218-232 | that is, exactly when the gap in front of the block is not its size plus 8 or plus 12 |
| `HeapMemory.ReleaseCorrect` | src/kernel/mm/heap.c:197-232 | mark and merges in memory are mark and merges in the list |
| `HeapMemory.FreeCorrect` | src/kernel/mm/heap.c:197-248 | kfree in memory is kfree in the list: headers, links and sentinels |
| `HeapMemory.FreeKeepsBlock` | src/kernel/mm/heap.c:197-248 | kfree leaves the payload of every other block in use alone |
| `HeapMemory.MallocCorrect` | src/kernel/mm/heap.c:34-148 | kmalloc in memory is kmalloc in the list: headers, links and sentinels |
| `HeapMemory.MallocKeepsBlock` | src/kernel/mm/heap.c:34-148 | kmalloc leaves the payload of every block in use alone |
| `HeapRuns.TiledFootprint` | src/kernel/mm/heap.c:122 | in a tiling heap_start plus all footprints is heap_end |
| `HeapRuns.TiledMergeable` | src/kernel/mm/heap.c:207-230 | in a tiling every merge has room for its tail, away from the links it still reads |
| `HeapRuns.RequestTiled` | src/kernel/mm/heap.c:85-142 | kmalloc keeps the exact tiling of the repaired layout |
| `HeapRuns.FreeTiled` | src/kernel/mm/heap.c:200-248 | kfree keeps the exact tiling of the repaired layout |
| `HeapRuns.InitGood` | src/kernel/mm/heap.c:27-31 | the empty heap has the invariant |
| `HeapRuns.StepGood` | src/kernel/mm/heap.c:34-251 | every call and every store by an owner keeps ordering, coalescing, links and sentinels, and in the repaired layout the tiling |
| `HeapRuns.RunGood` | src/kernel/mm/heap.c:34-251 | so does every run: as written when its releases are safe, repaired always |
| `HeapRuns.RunKeeps` | src/kernel/mm/heap.c:34-251 | over a whole run a block in use keeps its place and contents until it is released |
| `HeapRuns.PayloadsDisjoint` | src/kernel/mm/heap.c:85-109 | payloads of different blocks do not meet, nor any header between them, and lie within the heap range |
| `HeapRuns.HandedOutApart` | src/kernel/mm/heap.c:46-146 | whatever happens between two requests, while the block of the first is not released the second gets another one, apart from it |
| `HeapRuns.RunHolds` | src/kernel/mm/heap.c:34-251 | over every run the blocks in use are exactly those handed out and not released |
| `HeapRuns.HeldApart` | src/kernel/mm/heap.c:34-251 | from the empty heap on, any two blocks handed out and not released are disjoint |
| `HeapFailures.TailOverwritesSize` | src/kernel/mm/heap.c:207-211 | a merge without room stores the sentinel into the size of the next header, and only such a merge does |
| `HeapFailures.CarvedRunFails` | src/kernel/mm/heap.c:56-88 | a run as written reaches both failures of a merge |
| `HeapFailures.AppendOntoLast` | src/kernel/mm/heap.c:130-140 | an append onto the last block makes that block its own successor and predecessor |
| `HeapFailures.TrimLeavesLast` | src/kernel/mm/heap.c:246-247 | a run as written after which heap_end lies on a linked free block, the list is unsound, and the next append lands on that block |
| `HeapFailures.PreviousSpoils` | src/kernel/mm/heap.c:224-230 | a merge into the previous block without room, or with its tail on the links still to be read, leaves memory that does not hold the list |
| `HeapFailures.NextSpoils` | src/kernel/mm/heap.c:207-215 | so does a merge of the next block without room |
| `HeapFailures.SafeReleaseIff` | src/kernel/mm/heap.c:197-248 | kfree as written leaves the list in memory, ordered, coalesced and with its highest block in use exactly when the release is safe |
| `Heap.KernelHeap.constructor` | src/kernel/mm/heap.c:25-31 | heap_init: no blocks, and the invariant |
| `Heap.KernelHeap.Split` | src/kernel/mm/heap.c:87-107 | the memory afterwards is the specified one |
| `Heap.KernelHeap.Search` | src/kernel/mm/heap.c:80-119 | the walk along next stops at the first free block that fits, or at the last block |
| `Heap.KernelHeap.AllocateFirst` | src/kernel/mm/heap.c:54-76 | the first block, or NULL when it does not fit |
| `Heap.KernelHeap.AllocateLast` | src/kernel/mm/heap.c:122-146 | a new last block, or NULL when it does not fit |
| `Heap.KernelHeap.Kmalloc` | src/kernel/mm/heap.c:34-148 | NULL exactly when the request must be refused, and then nothing changes; otherwise the payload of a block that was not in use, large enough, and the only one that comes into use; list and memory are the specified ones, and the invariant holds |
| `Heap.KernelHeap.MergeNext` | src/kernel/mm/heap.c:201-216 | the memory afterwards is the specified one |
| `Heap.KernelHeap.MergePrevious` | src/kernel/mm/heap.c:219-232 | the memory afterwards is the specified one, in the source's order of stores |
| `Heap.KernelHeap.Last` | src/kernel/mm/heap.c:241-244 | the walk ends at the last block |
| `Heap.KernelHeap.Trim` | src/kernel/mm/heap.c:234-248 | list and memory afterwards are the specified ones |
| `Heap.KernelHeap.Check` | src/kernel/mm/heap.c:154-195 | which pointers are refused, and with which message; only a block in use with an intact sentinel passes |
| `Heap.KernelHeap.Kfree` | src/kernel/mm/heap.c:151-251 | a refused pointer changes nothing; otherwise list and memory are the specified ones; the invariant holds afterwards exactly when the heap is repaired, or the highest block stays in use or the heap empties |
| `Heap.PayloadIsAccepted` | src/kernel/mm/heap.c:75-191 | kfree accepts every pointer to the payload of a block in use with its sentinel intact, and releases that block |
| `Heap.ReturnedIsAccepted` | src/kernel/mm/heap.c:34-251 | kfree accepts what kmalloc returned, and the blocks in use are then what they were before |
| `Heap.JudgedIff` | src/kernel/mm/heap.c:154-195 | freed are exactly the payload pointers of blocks in use with an intact sentinel; each refusal, as an equivalence |
| `HeapValidate.CyclicIffEndless` | src/kernel/mm/heap.c:301-314 | a chain of headers is cyclic exactly when it never ends |
| `HeapValidate.Meets` | src/kernel/mm/heap.c:304-309 | on an endless chain the two pointers meet within as many steps as there are blocks |
| `HeapValidate.HasCycle` | src/kernel/mm/heap.c:301-314 | the two-pointer loop terminates on every set of headers and reports a cycle exactly when there is one |
| `HeapValidate.Validate` | src/kernel/mm/heap.c:298-347 | a cycle exactly when the chain is cyclic; valid exactly when it is not and every block passes the four tests; otherwise the first failure along the chain |
| `HeapValidate.SoundHeapIsValid` | src/kernel/mm/heap.c:298-347 | heap_validate finds nothing wrong with a heap that kmalloc and kfree keep |
| `HeapValidate.AllPassIff` | src/kernel/mm/heap.c:315-344 | the tests pass exactly when every block of the chain has its magic number, lies in the range and is the predecessor of its successor |
| `HeapValidate.SpoiledIsFoundIff` | src/kernel/mm/heap.c:298-347 | of a sound heap with one header overwritten, its next pointer aside, exactly a wrong magic number, a wrong back link and a size beyond heap_end are found |
| `HeapValidate.SelfLinkIsCyclic` | src/kernel/mm/heap.c:304-313 | a block that is its own successor makes the chain cyclic |
| `Rasteriser.WithinHalfPixel` | src/kernel/video/framebuffer.c:375-396 | every point is within half a pixel of the ideal segment along the shorter axis, in every octant |
| `Rasteriser.SegmentEnds` | src/kernel/video/framebuffer.c:383-385 | the first point is one end, the last is the other, and no earlier point is |
| `Rasteriser.InsideBox` | src/kernel/video/framebuffer.c:381-397 | every point stays in the box of the two ends |
| `Rasteriser.SegmentIsNearest` | src/kernel/video/framebuffer.c:375-397 | which pixels a line consists of, said without following it: those in the box of its ends within half a pixel of the ideal segment |
| `Rasteriser.PixelOfSegment` | src/kernel/video/framebuffer.c:383 | through the casts a line reaches exactly the pixels whose coordinates, read as ints, are its points: negative ones fall outside |
| `Rasteriser.Connected` | src/kernel/video/framebuffer.c:386-396 | each point is one step further along the longer axis and at most one along the shorter |
| `Rasteriser.NextRounded` | src/kernel/video/framebuffer.c:386-396 | one turn of the error accumulator is one step of exact rounding, with the error in a fixed window |
| `Rasteriser.TurnsFollowSegment` | src/kernel/video/framebuffer.c:375-396 | the accumulator visits exactly the rounded points |
| `Rasteriser.TurnsStop` | src/kernel/video/framebuffer.c:384-386 | the loop test holds at turn max(dx, dy) and not before, and twice the error stays within three spans |
| `Rasteriser.WalkIsSegment` | src/kernel/video/framebuffer.c:381-397 | what the loop sends is the rounded segment |
| `Rasteriser.Framebuffer.PutPixel` | src/kernel/video/framebuffer.c:282-292 | one pixel of the buffer changes if it is inside and the buffer can be drawn on; otherwise none |
| `Rasteriser.Framebuffer.Walk` | src/kernel/video/framebuffer.c:381-397 | the unbounded loop takes exactly n turns and sends what they say |
| `Rasteriser.Framebuffer.DrawLine` | src/kernel/video/framebuffer.c:370-398 | of the pixels of the buffer exactly the points of the rounded segment change, and the pixel sink receives them in order |
| `Paths.ComponentsAppend` | src/kernel/fs/vfs/path.c:9-21 | a path splits at any slash, so repeated, leading and trailing ones do not matter |
| `Paths.ComponentsOfJoined` | src/kernel/fs/vfs/path.c:9-21 | splitting a path written from names gives the names back |
| `Paths.ResolveJoined` | src/kernel/fs/vfs/path.c:4-34 | resolving p/q is resolving q from where p leads |
| `Paths.GrowthKeepsPaths` | src/kernel/fs/ramfs/ramfs.c:88-97 | a path that resolved resolves to the same node after any creation, across mounts |
| `Paths.NewChildFound` | src/kernel/fs/ramfs/ramfs.c:43-57 | the new node is found at its name exactly when the directory can be searched and no older sibling has the name |
| `Paths.NestedChildFound` | src/kernel/fs/ramfs/ramfs.c:88-97 | a new directory is searched like its parent: what is created in it is found below it |
| `Paths.MountRedirects` | src/kernel/fs/vfs/vfs.c:24-46 | a mount redirects exactly its mountpoint, and only if that was not one already |
| `Paths.MountStep` | src/kernel/fs/vfs/path.c:23-30 | a step is redirected by a new mount exactly when its lookup finds the mountpoint and no older mount is on that |
| `Paths.MountKeepsPaths` | src/kernel/fs/vfs/path.c:4-34 | paths that do not pass the mountpoint resolve as before the mount |
| `Paths.MountedPath` | src/kernel/fs/vfs/path.c:4-34 | the path of a mount leads to the mounted root exactly when its last lookup finds the mountpoint itself, unless it passes that on the way |
| `Paths.MountedBelow` | src/kernel/fs/vfs/path.c:4-34 | every longer path is then resolved in the mounted tree |
| `Paths.MountOnOwnPath` | src/kernel/fs/vfs/vfs.c:24-35 | a mount on a path that passes its own end hides that path |
| `Paths.CreatedThenMounted` | src/kernel/core/boot.c:202-204 | after creating a directory and mounting a root on it, its name leads to that root, and every longer path into its tree |
| `FileSystem.ReadBack` | src/kernel/fs/ramfs/ramfs.c:128-151 | what was written reads back |
| `FileSystem.WroteTwice` | src/kernel/fs/ramfs/ramfs.c:102-134 | two adjacent writes are one write of both |
| `FileSystem.WroteExactly` | src/kernel/fs/ramfs/ramfs.c:116-131 | a write that leaves no hole determines the file, its length included |
| `FileSystem.SliceIsClipped` | src/kernel/fs/ramfs/ramfs.c:143-151 | a read yields as many bytes as there are from the offset on, up to the number asked for, each from its place |
| `FileSystem.SliceTwice` | src/kernel/fs/ramfs/ramfs.c:136-152 | two adjacent reads are one read of both |
| `FileSystem.CopyBytes` | src/kernel/lib/string.c:75-84 | memcpy between two buffers replaces exactly the range |
| `FileSystem.Node.Write` | src/kernel/fs/ramfs/ramfs.c:102-134 | size equals capacity, the range is replaced, every other old byte survives the reallocation; -1 for a directory |
| `FileSystem.Node.Read` | src/kernel/fs/ramfs/ramfs.c:136-152 | as many bytes as there are from the offset on, up to the number asked for, each from its place, and the rest of the buffer as it was |
| `FileSystem.Vfs.Lookup` | src/kernel/fs/ramfs/ramfs.c:43-57 | the oldest child with the name |
| `FileSystem.Vfs.CheckMount` | src/kernel/fs/vfs/vfs.c:37-46 | the root of the oldest mount on the node, or the node |
| `FileSystem.Vfs.SkipSlashes` | src/kernel/fs/vfs/path.c:11-12 | leaves the components as they are |
| `FileSystem.Vfs.CopyPart` | src/kernel/fs/vfs/path.c:17-21 | the next component goes to the part array |
| `FileSystem.Vfs.PathResolve` | src/kernel/fs/vfs/path.c:4-34 | the loop is the fold of lookup-then-mount over the components |
| `FileSystem.Vfs.LookupPath` | src/kernel/fs/vfs/vfs.c:16-22 | where the path leads from the root, or nothing |
| `FileSystem.Vfs.MountAt` | src/kernel/fs/vfs/vfs.c:24-35 | the mount is added for the node that the path leads to; the path then leads to the mounted root exactly when its last lookup found the mountpoint itself, longer paths into the mounted tree, and paths that do not pass the mountpoint where they led before |
| `FileSystem.Vfs.Create` | src/kernel/fs/ramfs/ramfs.c:78-100 | a new last child, an empty file; -1 and no change for a full directory |
| `FileSystem.Vfs.CreateInstance` | src/kernel/fs/ramfs/ramfs.c:155-168 | a new empty root directory |
| `Descriptors.OwnCallsDecide` | src/kernel/fs/fd/fd.c:13-106 | however calls on several descriptors interleave, a descriptor keeps its file, and its own calls alone account for its offset |
| `Descriptors.FirstUnusedIsUnused` | src/kernel/fs/fd/fd.c:13-26 | fd_alloc's slot is the least one that is not in use |
| `Descriptors.AnswerOnByte` | src/kernel/fs/fd/fd.c:44-65 | a call changes a byte of a file only by writing it |
| `Descriptors.LastWriterWins` | src/kernel/fs/fd/fd.c:44-65 | every byte of every file is the one stored there last, through whichever descriptor |
| `Descriptors.WritesConcatenate` | src/kernel/fs/fd/fd.c:44-65 | a sequence of writes through one descriptor is one write of their concatenation |
| `Descriptors.WrittenIsRead` | src/kernel/fs/fd/fd.c:44-106 | seek, write any parts, seek back, read: the parts come back joined |
| `Descriptors.ReadsConcatenate` | src/kernel/fs/fd/fd.c:67-88 | a sequence of reads through one descriptor is one read of their total |
| `Descriptors.WholeFileRead` | src/kernel/fs/fd/fd.c:67-88 | reads from the start that together ask for enough deliver the whole file |
| `Descriptors.ClosedStays` | src/kernel/fs/fd/fd.c:90-94 | a closed descriptor stays closed until an open returns it |
| `Descriptors.ClosedFails` | src/kernel/fs/fd/fd.c:44-106 | until then every call on it answers -1 and changes nothing |
| `Descriptors.ClosedIsReused` | src/kernel/fs/fd/fd.c:13-42 | after a close the next open of a file succeeds, with a descriptor no higher, at offset 0 |
| `Descriptors.FdTable.constructor` | src/kernel/fs/fd/fd.c:7-11 | fd_init: no descriptor in use |
| `Descriptors.FdTable.Alloc` | src/kernel/fs/fd/fd.c:13-26 | the least slot not in use, with offset 0, or -1 |
| `Descriptors.FdTable.SysOpen` | src/kernel/fs/fd/fd.c:28-42 | answers as the abstract store does |
| `Descriptors.FdTable.SysWrite` | src/kernel/fs/fd/fd.c:44-65 | answers as the abstract store does, errors included |
| `Descriptors.FdTable.SysRead` | src/kernel/fs/fd/fd.c:67-88 | answers as the abstract store does, errors included: as many bytes as there are from the offset on, up to the number asked for, and the buffer behind them as it was |
| `Descriptors.FdTable.SysClose` | src/kernel/fs/fd/fd.c:90-94 | answers as the abstract store does |
| `Descriptors.FdTable.SysSeek` | src/kernel/fs/fd/fd.c:96-106 | answers as the abstract store does, errors included |
| `Scheduler.FirstReadyAt` | src/kernel/sched/sched.c:43-49 | the walk finds i exactly when task i is ready and none before it is |
| `Scheduler.YieldsKeep` | src/kernel/sched/sched.c:78-87 | over any run of yields the ring keeps its members and at most the current task is RUNNING |
| `Scheduler.YieldSwitches` | src/kernel/sched/sched.c:78-87 | a yield makes its task READY, goes on with the first READY one, which is RUNNING if it is another, and changes no other state |
| `Scheduler.SomeoneRunsIff` | src/kernel/sched/sched.c:80-86 | a yield leaves a RUNNING task exactly when it picks another task than the one that yields |
| `Scheduler.RunsOnReady` | src/kernel/sched/sched.c:80-86 | a task that is alone is current and READY after its first yield |
| `Scheduler.RoundRobin` | src/kernel/sched/sched.c:38-87 | with all tasks ready, each yield turns the ring by one |
| `Scheduler.TurnOf` | src/kernel/sched/sched.c:38-87 | so the k-th yield runs the k-th task |
| `Scheduler.FullCircle` | src/kernel/sched/sched.c:38-87 | and one yield per task restores the scheduler |
| `Scheduler.BoundedWaiting` | src/kernel/sched/sched.c:38-59 | a task that stays READY at position p is picked within p + 1 picks, whatever the others do and however many join |
| `Scheduler.StepsAreEvents` | src/kernel/sched/sched.c:19-59 | the picks and additions of the scheduler are the events of the waiting bound |
| `Scheduler.TaskQueue.AddTask` | src/kernel/sched/sched.c:19-36 | the circle of next pointers stays one circle, with the task last in the rotation |
| `Scheduler.TaskQueue.PickNext` | src/kernel/sched/sched.c:38-59 | the walk terminates, picks the first ready task and turns the ring to just after it; none when none is ready |
| `Scheduler.TaskQueue.SwitchTo` | src/kernel/sched/sched.c:61-76 | the task becomes current and RUNNING; NULL changes nothing |
| `Scheduler.TaskQueue.Yield` | src/kernel/sched/sched.c:78-87 | the circle follows the abstract yield, and stays well formed |
| `Terminal.PutText` | src/kernel/video/vga.c:140-180 | a character is added to the recorded text, and the lines stay wrapped at 80 |
| `Terminal.OpenedShown` | src/kernel/video/vga.c:81-105 | a new line shows nothing new while there are blank rows, and scrolls by one row otherwise |
| `Terminal.PrintText` | src/kernel/video/vga.c:182-188 | wrapping loses and adds nothing: the history is exactly the printed text |
| `Terminal.TextFixesLines` | src/kernel/video/vga.c:140-180 | the text fixes the wrapped lines: two histories with the same text have the same ones |
| `Terminal.PutIsTyped` | src/kernel/video/vga.c:81-180 | showing the last 25 lines is typing on 2000 cells: a character appears at the cursor in its colour, nothing else changes, and past the last cell everything moves up by a row |
| `Terminal.TextStands` | src/kernel/video/vga.c:128-188 | a text that fits on the cleared screen stands there, every character at its position, and blanks everywhere else |
| `Terminal.PrintAppend` | src/kernel/video/vga.c:182-188 | printing in pieces is printing the whole |
| `Terminal.TenDigits` | src/kernel/video/vga.c:109-120 | ten digits suffice, so the buffer of vga_print_dec does |
| `Terminal.Screen.Scroll` | src/kernel/video/vga.c:81-105 | past the last row everything moves up by one, the last row is blank, and the hardware copy agrees |
| `Terminal.Screen.Clear` | src/kernel/video/vga.c:128-138 | a blank screen, cursor at the start, hardware copy equal |
| `Terminal.Screen.PutChar` | src/kernel/video/vga.c:140-180 | both buffers show the last 25 lines of the history with the character added, and cell by cell what typing it does; a backspace erases one cell of the hardware copy only |
| `Terminal.Screen.Print` | src/kernel/video/vga.c:182-188 | both buffers show the last 25 wrapped lines of everything printed since the clearing |
| `Terminal.Screen.PrintColor` | src/kernel/video/vga.c:220-228 | the same in the given colour, and the default colour afterwards |
| `Terminal.Screen.PrintDec` | src/kernel/video/vga.c:108-126 | prints the same digits as utoa in base 10 |
| `Numbers.QuotientIsDivision` | src/kernel/lib/string.c:171-178 | the model's quotient and remainder are those of division |
| `Numbers.DigitsAreDigits` | src/kernel/lib/string.c:169-179 | the digits of a number denote it |
| `Numbers.PrintThenParse` | src/kernel/lib/string.c:109-192 | parsing a printed number gives it back, in base 10 and 16, whatever follows the terminator; the digits are never taken for a 0x mark |
| `Numbers.ParseThenPrint` | src/kernel/lib/string.c:109-192 | printing a parsed canonical numeral gives it back |
| `Numbers.DigitInTable` | src/kernel/lib/string.c:173-176 | the digits are the usual ones, letters in upper case |
| `Numbers.DigitsDenote` | src/kernel/lib/string.c:169-179 | in every base up to 36 the digits of a number denote it, without a leading zero |
| `Numbers.CaseIsIgnored` | src/kernel/lib/string.c:138-143 | the parsers read letters in either case |
| `Numbers.HexIsRead` | src/kernel/lib/string.c:125-152 | a printed hexadecimal number is read back with or without a 0x mark, in either case |
| `Numbers.WriteReversed` | src/kernel/lib/string.c:169-179 | the digits, least significant first |
| `Numbers.ReverseInPlace` | src/kernel/lib/string.c:184-189 | the buffer prefix is reversed, the rest stays |
| `Numbers.Utoa` | src/kernel/lib/string.c:155-192 | the numeral, a terminator, and the rest of the buffer as it was |
| `Numbers.Atoi` | src/kernel/lib/string.c:109-123 | the value of the longest decimal prefix |
| `Numbers.AtoiHex` | src/kernel/lib/string.c:125-152 | the value of the longest hexadecimal prefix after an optional 0x |

## Left out

- Heap.KernelHeap.Kmalloc: not for a request whose size plus footprint wraps around 32 bits while less than a footprint of the range is left; `AppendAcceptedIff` says exactly when that is, and the source then hands out a block larger than the range.
- Heap.KernelHeap.Kfree: pointers are 4-aligned, and one that is in range and has the magic number in front of it points behind a header; the source cannot tell a payload that imitates a header.
- Heap.KernelHeap.Kfree: as written, a release whose merges have no room or hit their own links is not followed further than `SafeReleaseIff` and the witnesses.
- HeapRuns.RunGood: runs do not contain requests that wrap, in either layout.
- HeapMemory.MallocCorrect: memory is a map from the addresses of aligned words to words; payload bytes are seen a word at a time.
- HeapValidate.Validate: headers are a finite map whose next pointers stay in the map; a pointer to unmapped memory faults in the machine and has no model here.
- Pager.PageTables.MapPage: the table must lie at an address that is mapped to itself (`Writable`), as the machine demands once paging is on; otherwise the source writes elsewhere or faults.
- Pager.PageTables.EnterTable: the directory and the pointer array are written directly, the kernel being mapped to itself.
- Pager.PageTables.MapPage: with no frame left for a table the source writes through NULL; the method requires one.
- Pager.PageTables.HandleFault: CR2 and the error code are parameters, the panic is an outcome; TLB flushes, CR0 and CR3 are hardware.
- Frames.FrameAllocator.Init: the memory map is a parsed list of regions, so entry sizes and strides, and a map that lies where the bitmap is written, are not modelled.
- Frames.FrameAllocator.FillBitmap: the byte-wise memset is a loop over words.
- Frames.FrameAllocator.FreeFrame: addresses are inside the memory; the source does not check.
- Rasteriser.Framebuffer.PutPixel: a pixel is its packed value; byte layouts and colour packing are not modelled.
- Rasteriser.Framebuffer.DrawLine: coordinates are near enough that twice the error fits an int.
- FileSystem.Node.Write: kmalloc succeeds, names have at most 63 characters, offset + size stays below 2^31, and the bytes of a hole past the old end are not determined.
- FileSystem.Vfs.MountAt: fewer than 8 mounts, and false for the panic; the source checks neither.
- FileSystem.Vfs.Create: the parent is a node; the panic on NULL is not modelled.
- Descriptors.FdTable.SysRead: the caller's buffer is no file's buffer.
- Scheduler.TaskQueue.SwitchTo: the task-state segment and the assembly switch are foreign; only `current_task` and `state` change.
- Scheduler.TaskQueue.AddTask: the task is not in the ring yet; the source does not check.
- Terminal.Screen.PutChar: a cell is a character and a colour instead of a packed 16-bit word, and the hardware cursor is not modelled.
- Numbers.Atoi: the value fits an int; signed overflow is undefined in C.
- Boot order, descriptor tables, interrupt controller, timer, keyboard, mouse and shell: outside the five parts.
- heap_dump, ramfs_list, vga_print_hex, fonts, gradients and blits: output without state of its own.
