# Verified model of goofy-os: memory, scheduling, hash map, VFS

A Dafny model of the core of the goofy-os kernel, with proofs about it. The
memory stack comes first: the buddy page allocator, the early bump allocator
that hands over to it, the four-level page tables, vmalloc on top of both, and
the slab allocator behind kmalloc. Three smaller cores follow: the multi-CPU
run queue, the chained hash map over linked lists, and path resolution in the
VFS with its in-memory file system.

`dafny verify dfyconfig.toml` checks everything.

## How it is built

Each component has the same two layers.

* A specification: pure functions that do what the C functions do to the whole
  state (`FreeSpec`, `MapWalk`, `FirstFit`, `Kmalloc`, `Schedule`, ...), an
  invariant, and lemmas about single calls and about runs of any length.
* The code: a class with the fields of the C structures, whose methods loop,
  recurse and write pointers as the C functions do. Each method's contract
  equates its new state with the specification function of the old one, so
  every lemma above applies to it.

| files | component |
|---|---|
| `Collections`, `Bits` | options, sequences without repetition; shifts, masks and XOR on digits |
| `IntrusiveList`, `DoublyLinked` | the two families of lists |
| `BuddySpec`, `BuddyTheorems`, `BuddyRuns`, `Buddy` | buddy allocator |
| `EarlyAlloc` | bump allocator and the seeding of the buddy |
| `PageTable`, `PageForest`, `PageRuns`, `Mapper` | page-table words and indices, the heap of tables, runs, the walker |
| `VmRanges`, `VmallocSpec`, `VmallocTheorems`, `VmallocRuns`, `VmallocMemory`, `VmallocChurn`, `Vmallocator` | vmalloc: ranges, single calls, runs with other users of the buddy, memory needed, fragmentation, the code |
| `Boot` | start-up of the memory stack, from the loader's tables |
| `SlabSpec`, `SlabTheorems`, `SlabRuns`, `SlabHeap` | kmalloc |
| `SchedSpec`, `SchedRuns`, `Scheduler` | run queue |
| `FifoMap`, `HashMap` | hash map |
| `VfsPath`, `VfsTree`, `VfsTheorems`, `Vfs` | path resolution, tmpfs |

Page frames and physical pages are frame numbers; frames are below 2^32, as the
buddy computes `buddy_pfn` in an `unsigned int`, and below 2^31 where
`virt_to_pfn` returns them in an `int`. Widths that can be reached are written
out: the size round-up of vmalloc wraps at 2^64, `virt_to_pfn` truncates to 32
bits, `bump_page` computes addresses in 32 bits.

The link words of a page share storage with the slab pointer of an allocated
page. They are separate fields here; `LinksKept`, in the contract of every buddy
method, says that the allocator writes the link words of free pages only, which
is what makes the union sound.

## Where the source fails, and the repairs

The code is modelled as written, and for each of these a lemma gives the exact
condition or a concrete run. A repaired variant stands beside it where the rest
of the kernel relies on the intended behaviour.

* `list_pop_front` and `list_push_front` leave a stale `prev`. The pop is sound
  only when it empties the list, the push only when the node's `prev` was null
  already; otherwise a later removal writes into a node that left the list.
  `ListPool` clears both words.
* `alloc_pages_nolock` does not clear the FREE flag of a block popped from its
  own order's list. Freeing the page's buddy then passes all guards and merges
  the page into a free block while its holder still uses it. `AllocPagesNolock`
  is the source's code and says when the flag survives; `AllocPages` clears it.
* `pop_task` does not reset `head` with the last task. One `schedule()` breaks
  the queue if and only if it pops the only task there is; from then on every
  CPU runs idle for ever. Ticks alone can bring this about if and only if there
  are tasks, but no more than CPUs. The
  flag `resetsHead` selects the source or the repair, and all lemmas cover both.
* `_vmalloc` maps pages from address 0 when no range fits. A call accounts for
  every page it takes if and only if some free range is large enough, and a run
  loses no frame if and only if all its requests are served.
* `_vfree` never merges ranges. After k pairs of vmalloc and vfree of m pages the
  arena lies in k + 1 pieces, all free; once no piece is larger than m pages, a
  request of m + 1 pages is not served although nothing is in use.
* `buddy_init` advances its index twice per iteration and so hands over every
  other page only; what it hands over is sound.
* `vfs_create` and `vfs_mkdir` refuse every path of one component, relative ones
  included, and accept names under a regular file.

## Model

| member | source | states |
|---|---|---|
| IntrusiveList.PopFrontAsWrittenIsSound | kernel/src/dsa/list.c:6-11 | the unrepaired pop leaves a well-formed list if and only if it empties the list |
| IntrusiveList.PushFrontAsWrittenIsSound | kernel/src/dsa/list.c:13-19 | the unrepaired push leaves a well-formed list if and only if the node's `prev` was null |
| IntrusiveList.StalePrevWritesDetachedNode | kernel/src/dsa/list.c:6-33 | a concrete run in which removal overwrites a word of a node no longer on the list |
| IntrusiveList.RemovingPoppedChangesNothing | kernel/src/dsa/list.c:21-33 | removing a node just popped, and on no list, changes no list |
| IntrusiveList.ListPool.ListPopFront | kernel/src/dsa/list.c:6-11 | repaired pop: returns the head, shortens that list, keeps every list of the pool linked both ways, touches no unlisted node |
| IntrusiveList.ListPool.ListPushFront | kernel/src/dsa/list.c:13-19 | repaired push, same guarantees |
| IntrusiveList.ListPool.ListRemoveNode | kernel/src/dsa/list.c:21-33 | removal from any position of a list, same guarantees; the node's own two words are null afterwards |
| BuddySpec.BuddyFacts | kernel/src/include/goofy-os/buddy.h:3 | the XOR names an aligned partner, is its own inverse, differs only in bit `order`, and the lower of the two is aligned one order up |
| BuddySpec.FreeKeepsInv | kernel/src/mm/buddy.c:60-94 | recursive free keeps blocks aligned, disjoint and coalesced, and adds exactly the freed pages and their count |
| BuddyTheorems.AllocKeepsInv | kernel/src/mm/buddy.c:105-135 | recursive alloc keeps the invariant, hands out an aligned block of formerly free pages, and leaves all lower lists as they were |
| BuddyTheorems.AllocTakesHead | kernel/src/mm/buddy.c:105-135 | alloc hands out the head of the first list from the order up that has a block; that list loses only its head, of every split the upper half becomes free, no other list changes |
| BuddyTheorems.FreeMergesUpTo | kernel/src/mm/buddy.c:60-94 | free merges exactly as far as buddies are free: each of those lists loses the buddy, the next gets the joined block as its head, no other list changes |
| BuddyTheorems.FreeBlocksAreMaximalRuns | kernel/src/mm/buddy.c:60-94 | a block is on the order-o list if and only if it is a maximal aligned run of free pages, capped at order 15 |
| BuddyTheorems.HistoryIndependence | kernel/src/mm/buddy.c:60-94 | equal sets of free pages have equal free blocks and counts at every order |
| BuddyTheorems.AllocFailsOnlyWhenItMust | kernel/src/mm/buddy.c:115-127 | alloc returns null if and only if no naturally aligned run of that many pages is free |
| BuddyTheorems.AllocThenFree | kernel/src/mm/buddy.c:60-135 | freeing a block just allocated restores all sixteen lists, list order included |
| BuddyTheorems.FailedAllocKeepsLists | kernel/src/mm/buddy.c:122-127 | a failed alloc changes no list |
| BuddyRuns.StepSafe | kernel/src/mm/buddy.c:51-135 | one operation keeps free and held blocks aligned, in the zones and disjoint, conserves pages, and moves the free count by exactly the block's size |
| BuddyRuns.RunsAreSafe | kernel/src/mm/buddy.c:51-135 | every run of seeding, allocs and matching frees stays in such states |
| BuddyRuns.RunsForgetHistory | kernel/src/mm/buddy.c:60-135 | two runs that end with the same free pages end with the same free blocks |
| BuddyRuns.ReachableAllocIsComplete | kernel/src/mm/buddy.c:105-135 | in every reachable state alloc fails exactly when it must |
| Buddy.MergeGuard | kernel/src/mm/buddy.c:66-77 | the four guards hold exactly when the buddy is a free block of the same order, or is the page with the surviving flag |
| Buddy.StaleFlagPassesGuards | kernel/src/mm/buddy.c:115-119 | a page popped with its flag set passes the guards although it is on no free list |
| Buddy.StaleFlagGivesPageAway | kernel/src/mm/buddy.c:60-119 | from the state the source's direct pop leaves, freeing the buddy merges the page handed out into a free block one order up |
| Buddy.BuddyAllocator.ValidBuddyPfn | kernel/src/mm/buddy.c:40-48 | true exactly for pages of a zone |
| Buddy.BuddyAllocator.RemoveFromFreelist | kernel/src/mm/buddy.c:51-58 | takes the page off the list its order names, with count and flag, and nothing else |
| Buddy.BuddyAllocator.DirectFree | kernel/src/mm/buddy.c:89-93 | pushes the block and sets order, flag and count |
| Buddy.BuddyAllocator.Mergeable | kernel/src/mm/buddy.c:63-77 | the guards decide membership of the buddy in the order's list, though they read only flags and orders |
| Buddy.BuddyAllocator.FreePagesNolock | kernel/src/mm/buddy.c:60-94 | the flags, orders, links and counts afterwards describe exactly the lists of the specification's free |
| Buddy.BuddyAllocator.FreePages | kernel/src/mm/buddy.c:96-101 | the same from a state without surviving flag; the free set grows by the block |
| Buddy.BuddyAllocator.AllocPagesNolock | kernel/src/mm/buddy.c:105-135 | result and lists are those of the specification; the FREE flag survives exactly on a direct pop |
| Buddy.BuddyAllocator.AllocPages | kernel/src/mm/buddy.c:137-154 | unknown flags are refused; repaired: FREE is set exactly on heads of free blocks, with the right order and counts |
| EarlyAlloc.BumpAllocator.BumpPage | kernel/src/mm/bump_alloc.c:9-28 | the n-th successful call returns the n-th page in region order, as its low 32 address bits name it, so exactly that page below 4 GiB; null once all are gone |
| EarlyAlloc.PageAtOrdinal | kernel/src/mm/bump_alloc.c:9-28 | page i of region z comes after all pages of the regions before it |
| EarlyAlloc.PageAtInjective | kernel/src/mm/bump_alloc.c:9-28 | disjoint regions make all those pages distinct |
| EarlyAlloc.Seed | kernel/src/mm/buddy.c:187-221 | the seeding loop frees exactly every other page past the bump allocator's, each once |
| EarlyAlloc.OrderFor | kernel/src/mm/buddy.c:207-210 | the order search always stays at 0 while pages are left |
| EarlyAlloc.SeedsAvoidBump | kernel/src/mm/buddy.c:190-216 | every seeded page lies in a zone and is none the bump allocator returned |
| PageTable.WordFacts | kernel/src/mm/mapper.c:49-60 | the frame and the present bit read back from a table word or leaf word |
| PageTable.WordBits | kernel/src/mm/mapper.c:53-60 | bit for bit: a leaf word carries the frame, the present bit and exactly the write, user, huge and no-execute flags asked for; a table word the frame, present and write |
| PageTable.GetIndexIsDigit | kernel/src/mm/mapper.c:16-19 | shift and mask give the base-512 digit of the page number |
| PageTable.IndicesDeterminePage | kernel/src/mm/mapper.c:16-19 | two addresses with equal four indices have the same 36-bit page number |
| PageForest.MapKeepsCore | kernel/src/mm/mapper.c:32-64 | a map keeps the tables a tree: no table shared or reused, new tables come from the free pages |
| PageForest.MapLookup | kernel/src/mm/mapper.c:32-64 | after a map, a lookup from any table gives the new word for that page and the old answer for every other |
| PageForest.UnmapKeepsCore | kernel/src/mm/mapper.c:66-91 | an unmap keeps the tree and frees no table |
| PageForest.UnmapLookup | kernel/src/mm/mapper.c:66-91 | after an unmap that page has no translation and every other keeps its own |
| PageForest.CopyCore | kernel/src/mm/mapper.c:21-30 | copying the kernel root keeps the forest invariant |
| PageForest.CopyLookup | kernel/src/mm/mapper.c:21-30 | copying the root changes no existing translation |
| PageRuns.MapTranslates | kernel/src/mm/mapper.c:32-64 | which root sees which page change after a map: those that share the space, at that page |
| PageRuns.MapStoresFlags | kernel/src/mm/mapper.c:32-64 | the word read back after a map, under every root of the space, has the frame and exactly the flags of the call; every other leaf word is as before |
| PageRuns.UnmapTranslates | kernel/src/mm/mapper.c:66-91 | the same for an unmap |
| PageRuns.NewTableTranslates | kernel/src/mm/mapper.c:21-30 | a new table starts with the kernel's translations |
| PageRuns.RunKeepsVm | kernel/src/mm/mapper.c:21-91 | every run of maps, unmaps and new tables keeps the invariant |
| PageRuns.RunRefines | kernel/src/mm/mapper.c:21-91 | a run of the tables refines the run of the partial maps, from any maps they refine |
| PageRuns.ForestRefinesMeaning | kernel/src/mm/mapper.c:138-165 | every forest of tables refines the partial maps read off it |
| PageRuns.RunsRefineMeaning | kernel/src/mm/mapper.c:21-91 | after any run from any state every root translates every page to the frame last mapped in its space, or to what the space held at the start |
| PageRuns.KernelHalfCoherent | kernel/src/mm/mapper.c:167-187 | after any run all tables translate all higher-half addresses as the kernel root does |
| PageRuns.LowerHalfIsPrivate | kernel/src/mm/mapper.c:21-64 | from the loader's root and a kernel root without lower slots, while the kernel maps no lower page itself, mapping one through a table is invisible in every other |
| PageRuns.TwoRootsArePrivate | kernel/src/mm/mapper.c:171-187 | two such roots share no lower space |
| PageRuns.PrivateSpacesStayPrivate | kernel/src/mm/mapper.c:21-64 | the same from any state in which no two roots share a lower space |
| Mapper.IsMappedIsTranslated | kernel/src/mm/mapper.c:93-126 | the `is_mapped` walk answers whether a translation exists |
| Mapper.VirtToPfnIsTranslation | kernel/src/mm/mapper.c:138-165 | the `virt_to_pfn` walk returns the frame of every mapped page that fits an `int` |
| Mapper.VirtToPfnOfLeaf | kernel/src/mm/mapper.c:138-165 | on every address: 0 where an upper level is absent, otherwise the leaf's frame truncated to an `int` |
| Mapper.UnmapClearsLeaf | kernel/src/mm/mapper.c:66-91 | an unmap stores 0 in the leaf, where there is one, of exactly that page of one space |
| Mapper.UnmapClearsPfn | kernel/src/mm/mapper.c:66-165 | `virt_to_pfn` then returns 0 for that page under every root of the space, and what it did for every other |
| Mapper.PageMapper.NextTable | kernel/src/mm/mapper.c:47-58 | one descent of the walk, allocating a zeroed table where there is none |
| Mapper.PageMapper.MapPage | kernel/src/mm/mapper.c:32-64 | memory, tables and buddy lists afterwards are those of one map step |
| Mapper.PageMapper.UnmapPage | kernel/src/mm/mapper.c:66-91 | the same for an unmap, including the early return |
| Mapper.PageMapper.IsMapped | kernel/src/mm/mapper.c:93-126 | true exactly for translated pages |
| Mapper.PageMapper.VirtToPfn | kernel/src/mm/mapper.c:138-165 | the same through CR3, for every address |
| Mapper.PageMapper.NewPageTable | kernel/src/mm/mapper.c:21-30 | a new root on a fresh page |
| Mapper.PageMapper.FillSlot | kernel/src/mm/mapper.c:174-181 | a missing upper slot gets a writable table of its own, a set one is kept, and no translation changes |
| Mapper.PageMapper.FillUpper | kernel/src/mm/mapper.c:174-181 | all upper slots present, the lower ones untouched, at most 256 pages taken |
| Mapper.PageMapper.KernelTopPgtInit | kernel/src/mm/mapper.c:171-187 | establishes the full upper half, for a kernel root that translates as the boot root did and has its lower slots |
| VmRanges.MapRangeGrants | kernel/src/mm/vmalloc.c:16-50 | a request fails if and only if every free range is smaller; otherwise exactly a free stretch becomes in use, the arena stays tiled, no boundary disappears |
| VmRanges.MapRangeServedIff | kernel/src/mm/vmalloc.c:16-50 | a request of any size is served if and only if it is a positive multiple of the page size and some free range is as large |
| Vmallocator.FirstFitAt | kernel/src/mm/vmalloc.c:23-47 | it is the first such range in address order that serves, whole or with its back part split off |
| VmRanges.ReleaseRangeFrees | kernel/src/mm/vmalloc.c:75-87 | release finds the size that was granted and frees exactly those addresses |
| VmallocSpec.BackPagesEffect | kernel/src/mm/vmalloc.c:101-104 | the mapping loop backs every page with its own frame and takes exactly those frames and the new tables |
| VmallocSpec.BackPagesFlags | kernel/src/mm/vmalloc.c:101-104 | every page of the range has a leaf word with exactly the flags asked for, and no other leaf word changes |
| VmallocSpec.Cr3SeesArena | kernel/src/mm/mapper.c:138-165 | the walk from any current root sees the arena as the kernel root does |
| VmallocSpec.ReleasePagesEffect | kernel/src/mm/vmalloc.c:63-73 | the release loop returns exactly the frames of the range and unmaps it |
| VmallocTheorems.VmallocConserves | kernel/src/mm/vmalloc.c:96-107 | served or not: the free pages lose exactly the frames of the pages mapped and the new tables, no other page of the arena changes, the arena's invariant is kept |
| VmallocTheorems.ServedCoversRequest | kernel/src/mm/vmalloc.c:96-107 | a served request of any size in bytes that does not wrap gets a new range at least as long and less than a page longer; every byte asked for lies in it, on a page mapped with the flags asked for |
| VmallocTheorems.NothingIffEmpty | kernel/src/include/goofy-os/vmalloc.h:11 | a call changes nothing and returns 0 if and only if the size is 0 or lies within a page of 2^64, where the rounding wraps |
| VmallocTheorems.SucceedsBelowArena | kernel/src/mm/vmalloc.c:96-107 | a call that finds a frame for every page asks for at most 2^31 pages, so an unserved one ends below the arena |
| VmallocTheorems.VfreeConserves | kernel/src/mm/vmalloc.c:75-87 | every frame of the range returns to the free pages, once, and nothing else |
| VmallocTheorems.VmallocThenVfree | kernel/src/mm/vmalloc.c:63-107 | the pair restores the free pages except for the tables the mapping made |
| VmallocTheorems.ExhaustedVmallocLeaks | kernel/src/mm/vmalloc.c:96-107 | with no fitting range the call returns 0, maps page 0 and loses its frame |
| VmallocTheorems.VmallocAccountsIffFits | kernel/src/mm/vmalloc.c:96-107 | a call accounts for every page it takes if and only if some free range is large enough or nothing is asked for |
| VmallocRuns.StepKeepsWorld | kernel/src/mm/vmalloc.c:63-107 | one vmalloc, vfree or table creation, or an alloc or free by another user of the buddy, keeps the arena sound and the ledger of pages balanced |
| VmallocRuns.RunKeepsWorld | kernel/src/mm/vmalloc.c:63-107 | over any run, unserved requests included, the mapped arena pages are exactly the pages in use, each backed by its own frame, and every page is exactly one of free, table, in use, held by others, lost |
| VmallocRuns.LosesNothingIffServed | kernel/src/mm/vmalloc.c:96-107 | a run loses no frame if and only if every request in it is served |
| VmallocRuns.InitialWorld | kernel/src/mm/vmalloc.c:132-139 | one free range over an unmapped arena starts such runs |
| VmallocRuns.RangesPersist | kernel/src/mm/vmalloc.c:16-50 | over any run boundaries stay and a range in use keeps address and size until freed |
| VmallocMemory.EnoughPages | kernel/src/mm/vmalloc.c:101-104 | four free pages per page asked for always suffice, at any address |
| VmallocMemory.ServedSucceeds | kernel/src/mm/vmalloc.c:96-107 | in the arena one page each suffices, and one for each page table the arena still lacks; the sum of free pages and arena tables falls by exactly one per page |
| VmallocMemory.VfreeReturns | kernel/src/mm/vmalloc.c:75-87 | vfree raises that sum by exactly one per page |
| VmallocChurn.ChurnFragments | kernel/src/mm/vmalloc.c:16-87 | for every size and number of pairs: what k pairs of map and release leave of the range list, piece by piece |
| VmallocChurn.FragmentsServe | kernel/src/mm/vmalloc.c:16-50 | nothing is in use then, and a request is served if and only if one piece is as large |
| VmallocChurn.PairsFragment | kernel/src/mm/vmalloc.c:63-107 | the pairs are a legal run of the kernel, every request in it served, none of its memory lost |
| VmallocChurn.FreeArenaServesNobody | kernel/src/mm/vmalloc.c:16-107 | and once no piece exceeds m pages, a request of m + 1 pages goes unserved in a reachable, wholly free arena and loses frames |
| VmallocChurn.TwoGiBPairs | kernel/src/mm/vmalloc.c:132-139 | 8191 pairs of 2 GiB lead there |
| Boot.MmInit | kernel/src/mm/init.c:39-52 | from one loader root without huge pages, its arena unmapped and its upper slots empty or tables, start-up ends in a state from which all those runs start; if the loader maps nothing low, no two roots share a lower space |
| Boot.KernelTables | kernel/src/mm/mapper.c:171-187 | the kernel root after start-up: the arena unmapped, lower slots as the loader left them, tables only from the loader and the bump allocator |
| Boot.BuddyInit | kernel/src/mm/buddy.c:177-225 | the seeded buddy owns no page-table page, whatever else was taken from the bump allocator before |
| Boot.BlankRootIsLoaderTables | kernel/src/mm/mapper.c:171-181 | a single empty root table is a legal start |
| Vmallocator.RangeList.MapRange | kernel/src/mm/vmalloc.c:16-50 | the walk along the nodes is the specified first fit |
| Vmallocator.RangeList.Split | kernel/src/mm/vmalloc.c:34-46 | the back of a node becomes a new node behind it |
| Vmallocator.RangeList.Release | kernel/src/mm/vmalloc.c:77-85 | the first node at the address is released, with its size |
| Vmallocator.Vmalloc.Alloc | kernel/src/mm/vmalloc.c:96-107 | ranges, tables and buddy lists afterwards are those of the specification |
| Vmallocator.Vmalloc.ReleaseAll | kernel/src/mm/vmalloc.c:63-73 | the same for the release loop |
| Vmallocator.Vmalloc.Free | kernel/src/mm/vmalloc.c:75-87 | the same for vfree of a range in use, or of an address where no range starts |
| SlabSpec.PageFindsSlab | kernel/src/mm/slab.c:104-107 | the page of every byte of a chunk, straddling ones included, leads to the slab it was carved from |
| SlabSpec.LiveChunksDisjoint | kernel/src/mm/slab.c:97-128 | live chunks of any caches share no byte |
| SlabTheorems.ClassTable | kernel/src/mm/slab.c:14-19 | chunk size, slab size and chunks per slab of the twelve caches |
| SlabTheorems.ListsByFreeChunks | kernel/src/mm/slab.c:40-61 | the full, partial and empty list of a cache hold exactly its slabs with no, some and only free chunks |
| SlabTheorems.NewFreelistAt | kernel/src/mm/slab.c:118-121 | a new slab hands its chunks out from the last address down |
| SlabTheorems.TakeChunkEffect | kernel/src/mm/slab.c:69-95 | taking a chunk makes one free chunk live and reclassifies its slab |
| SlabTheorems.CacheFreeEffect | kernel/src/mm/slab.c:150-172 | freeing a live chunk makes exactly it free and reclassifies its slab |
| SlabTheorems.NewSlabEffect | kernel/src/mm/slab.c:97-128 | a new slab is empty, on fresh pages, and changes no live chunk |
| SlabRuns.SizeClassIsTight | kernel/src/include/goofy-os/slab.h:53-67 | the smallest class that is large enough |
| SlabRuns.KmallocEffect | kernel/src/mm/slab.c:181-188 | one chunk nobody held, at least as large as asked, becomes live; too large requests fail |
| SlabRuns.ChunkChosen | kernel/src/mm/slab.c:130-140 | it is the next chunk of a partly free slab if there is one, else of a wholly free slab, else the last chunk of a new slab; no other slab changes |
| SlabRuns.KmallocFailsOnlyWhenItMust | kernel/src/mm/slab.c:130-140 | fails if and only if the cache has no free chunk and the buddy no aligned block |
| SlabRuns.KfreeFindsSlab | kernel/src/mm/slab.c:190-197 | the page of a live chunk names its slab |
| SlabRuns.KfreeEffect | kernel/src/mm/slab.c:190-197 | exactly that chunk stops being live |
| SlabRuns.KmallocThenKfree | kernel/src/mm/slab.c:40-172 | an alloc that made no slab, then a free of its result, restores all lists and freelists |
| SlabRuns.RunsAreSafe | kernel/src/mm/slab.c:130-197 | over any run, other users of the buddy included, slabs are on the list that matches their count and live chunks are disjoint |
| SlabRuns.OtherAllocKeepsSlabs | kernel/src/mm/buddy.c:105-135 | an alloc by another user of the buddy keeps the heap sound |
| SlabRuns.OtherFreeKeepsSlabs | kernel/src/mm/buddy.c:60-94 | a free of pages no slab holds does too |
| SlabRuns.SlabsMatchPeak | kernel/src/mm/slab.c:69-140 | over any run the number of slabs is the fewest that hold the peak of live chunks |
| SlabRuns.SlabsAreCeilingOfPeak | kernel/src/mm/slab.c:69-140 | that is the peak divided by the chunks per slab, rounded up |
| SlabHeap.SlabLists.InsertSlab | kernel/src/mm/slab.c:40-61 | list and counter by free count |
| SlabHeap.SlabLists.AllocFrom | kernel/src/mm/slab.c:63-95 | list, counters, descriptor and freelist as specified |
| SlabHeap.SlabLists.FreeInto | kernel/src/mm/slab.c:150-172 | the same for the free path |
| SlabHeap.SlabLists.BuildFreelist | kernel/src/mm/slab.c:118-121 | the loop threads all chunks, last address first |
| SlabHeap.SlabLists.AssociatePages | kernel/src/mm/slab.c:108-110 | all pages of the block point to the slab |
| SlabHeap.KmallocHeap.NewEmpty | kernel/src/mm/slab.c:97-128 | a new empty slab, or no change when the buddy has no block |
| SlabHeap.KmallocHeap.CacheAllocNolock | kernel/src/mm/slab.c:130-140 | partial first, then empty, then a new slab |
| SlabHeap.KmallocHeap.Kmalloc | kernel/src/mm/slab.c:181-188 | chunk and state of the specification |
| SlabHeap.KmallocHeap.Kfree | kernel/src/mm/slab.c:190-197 | state of the specification, the slab found through the page |
| SchedSpec.TickKeepsInv | kernel/src/smp/sched.c:77-85 | a `schedule()` keeps every task in at most one place and idle out of the queue |
| SchedSpec.TickKeepsTasks | kernel/src/smp/sched.c:77-85 | it loses and invents no task, unless the queue was already broken |
| SchedSpec.BreaksIff | kernel/src/smp/sched.c:52-66 | it breaks the queue if and only if it pops the only task and the head is not reset |
| SchedSpec.TickServes | kernel/src/smp/sched.c:77-85 | it dispatches the tail or moves every waiting task one place nearer |
| SchedSpec.TickSaves | kernel/src/smp/sched.c:68-85 | the registers go to the task the CPU ran, idle included, and nowhere else; no other CPU changes its task |
| SchedSpec.TickRestores | kernel/src/smp/sched.c:52-85 | which task a tick goes to and what it restores: the tail's saved registers, or the very registers given if nobody waits and the CPU keeps its task, idle included |
| SchedSpec.SpawnQueues | kernel/src/smp/sched.c:29-50 | a spawned task waits behind all others, or is swallowed by a broken queue |
| SchedRuns.RunKeepsTasks | kernel/src/smp/sched.c:29-85 | with more tasks than CPUs, or the repair, no run breaks the queue or loses a task |
| SchedRuns.RunsPlaceTasksOnce | kernel/src/smp/sched.c:29-85 | at every point of such a run each task is queued once or current on one CPU |
| SchedRuns.StillWaiting | kernel/src/smp/sched.c:29-85 | a waiting task keeps its place but for the ticks, and its registers |
| SchedRuns.BoundedWait | kernel/src/smp/sched.c:29-85 | with k tasks nearer the tail it is dispatched at exactly the (k+1)-th next tick, whatever is queued meanwhile |
| SchedRuns.ContextPreserved | kernel/src/smp/sched.c:68-85 | every preempted task, alone or not, is next dispatched on whichever CPU makes the tick that falls to it, with the registers saved then, and is queued until that tick |
| SchedRuns.StuckForever | kernel/src/smp/sched.c:29-66 | once broken, every CPU runs idle from its next tick on |
| SchedRuns.CanBreakIff | kernel/src/smp/sched.c:52-85 | some run of ticks breaks the source's queue if and only if there are tasks, but no more than CPUs |
| SchedRuns.OneTaskIsLost | kernel/src/smp/sched.c:52-66 | one task on one CPU is lost by the source and kept by the repair |
| Scheduler.RunQueue.SchedTask | kernel/src/smp/sched.c:29-43 | the pointer writes are a push at the head, on a broken queue no push at all |
| Scheduler.RunQueue.PopTask | kernel/src/smp/sched.c:52-66 | the pointer writes are a pop at the tail, or idle |
| Scheduler.RunQueue.SaveTask | kernel/src/smp/sched.c:68-75 | only the running task's block is written |
| Scheduler.RunQueue.Spawn | kernel/src/smp/sched.c:45-50 | one spawn step |
| Scheduler.RunQueue.Schedule | kernel/src/smp/sched.c:77-85 | one tick, restoring the registers of the task it switches to |
| DoublyLinked.DList.FrontPush | kernel/src/dsa/list.c:49-60 | prepends; head, tail, prev, next and count stay consistent |
| DoublyLinked.DList.FrontPop | kernel/src/dsa/list.c:62-81 | removes and returns the first value, or null |
| DoublyLinked.DList.BackPush | kernel/src/dsa/list.c:83-94 | appends |
| DoublyLinked.DList.BackPop | kernel/src/dsa/list.c:96-111 | removes and returns the last value |
| DoublyLinked.DList.RemoveItem | kernel/src/dsa/list.c:128-143 | removes the node at the head, the tail or between |
| FifoMap.AddAppends | kernel/src/dsa/hashmap.c:64-79 | add appends to the key's queue and to no other |
| FifoMap.LookupIsOldest | kernel/src/dsa/hashmap.c:81-100 | lookup returns the oldest value |
| FifoMap.RemoveDropsOldest | kernel/src/dsa/hashmap.c:102-123 | remove drops the oldest value of that key only |
| FifoMap.RunRefinesQueues | kernel/src/dsa/hashmap.c:64-123 | over any run and for any hash each key is a queue that sees only its own operations |
| FifoMap.HashIsInvisible | kernel/src/dsa/hashmap.c:64-123 | runs on maps with different hashes and sizes answer every lookup alike |
| HashMap.Table.Add | kernel/src/dsa/hashmap.c:64-79 | the buckets afterwards, on linked nodes, are those of the specification |
| HashMap.Table.Lookup | kernel/src/dsa/hashmap.c:81-100 | the walk finds what the specification finds |
| HashMap.Table.Remove | kernel/src/dsa/hashmap.c:102-123 | the same for removal |
| VfsPath.SplitIsUnique | kernel/src/fs/vfs.c:35-60 | the components are the only slash-free list that, joined, spells the path |
| VfsPath.JoinThenSplit | kernel/src/fs/vfs.c:44-58 | splitting undoes joining |
| VfsPath.ParseSpelled | kernel/src/fs/vfs.c:35-60 | what a spelled path parses to, with or without a slash at either end: a leading slash is the component "/", the spelled components follow |
| VfsPath.ParsePath | kernel/src/fs/vfs.c:35-60 | the loop over the component buffer yields those components and stays inside the buffer |
| VfsTree.ChildIff | kernel/src/fs/tmpfs.c:153-170 | looking up a name finds exactly the child with that name |
| VfsTree.AddChildKeepsInv | kernel/src/fs/tmpfs.c:83-107 | a create keeps the inodes a tree with distinct sibling names and unused numbers |
| VfsTree.AddsOneBinding | kernel/src/fs/tmpfs.c:83-107 | it adds exactly one binding |
| VfsTheorems.PathsAfterCreate | kernel/src/fs/vfs.c:126-173 | every path not going through the new name resolves or fails as before; one that does leads to the new inode or nowhere |
| VfsTheorems.CreateSucceedsIff | kernel/src/fs/vfs.c:175-221 | success and each error, exactly in terms of what the path and its parent open to; a failure changes nothing |
| VfsTheorems.CreateKeepsInv | kernel/src/fs/vfs.c:175-221 | the new inode gets the next number and existing inodes keep name, number and kind |
| VfsTheorems.CreateThenOpen | kernel/src/fs/vfs.c:199-236 | the same path then opens to the new inode, and any other path opens as before unless it opens to the new inode |
| VfsTheorems.WalkIff | kernel/src/fs/vfs.c:145-172 | the walk reaches an inode if and only if a trail of single steps does, each to a child of that name or, for ".", nowhere |
| VfsTheorems.OpenSpelled | kernel/src/fs/vfs.c:126-236 | opening a spelled path is the trail of its components from the root whatever `rel` is, without leading slash from `rel`; "/" opens to the root |
| VfsTheorems.CreateSpelled | kernel/src/fs/vfs.c:126-221 | creating a name below the end of a trail: EINVAL if it is alone and relative, EEXIST exactly if it is "." or taken, otherwise a new child to which the same path then opens |
| VfsTheorems.CreateNowhere | kernel/src/fs/vfs.c:126-221 | ENOENT and no change exactly when no trail leads to the directory |
| VfsTheorems.FreshMount | kernel/src/fs/vfs.c:199-236 | after mounting, "/" opens to the root and "/name" is created as inode 1 and then opens to it |
| VfsTheorems.RunKeepsPaths | kernel/src/fs/tmpfs.c:57-107 | over any run numbers are never reused and a path that resolves keeps its inode |
| VfsTheorems.UniquePath | kernel/src/fs/vfs.c:85-173 | two dot-free paths from the root to one inode are equal |
| VfsTheorems.PathExists | kernel/src/fs/vfs.c:85-173 | every inode has such a path |
| Vfs.CacheYieldsChild | kernel/src/fs/vfs.c:62-83 | the step from name to number to inode through the caches yields the child of that name |
| Vfs.CacheNext | kernel/src/fs/tmpfs.c:95-103 | caching a new inode under the next number keeps that so |
| Vfs.ModeOf | kernel/src/fs/tmpfs.c:83-96 | the permission bits of the flags under the type bits of the call |
| Vfs.FileSystem.constructor | kernel/src/fs/vfs.c:303-326 | mounting gives the root alone, with its caches |
| Vfs.FileSystem.TmpLookup | kernel/src/fs/tmpfs.c:153-170 | the number of the child with that name |
| Vfs.FileSystem.TmpCreate | kernel/src/fs/tmpfs.c:57-107 | one new child with that mode, or EEXIST and no change |
| Vfs.FileSystem.FindVnode | kernel/src/fs/vfs.c:62-83 | the inode behind a number, through both caches |
| Vfs.FileSystem.FindChild | kernel/src/fs/vfs.c:85-124 | a new dentry for the child with its vnode, for "." the same one |
| Vfs.FileSystem.FindDentry | kernel/src/fs/vfs.c:126-173 | the dentry of the path or of its parent, or the specified error |
| Vfs.FileSystem.Create | kernel/src/fs/vfs.c:175-221 | state and error of the specification |
| Vfs.FileSystem.OpenFile | kernel/src/fs/vfs.c:223-236 | the file: its entry is what the path resolves to, its flags those given, its position 0 |

## Left out

- The mempool of slab descriptors: a fresh descriptor is always at hand, named by its slab's first page; the error path of `kmem_cache_new_empty`, which returns no value, is modelled as the failure it is meant to report.
- Running out of memory inside `kzalloc`, and null pointers that follow from it; in the page mapper and in vmalloc the buddy is assumed not to run dry in mid-walk (`EnoughPages` says how much suffices).
- Double frees and frees of pointers an allocator never handed out: excluded by precondition.
- `hmap_resize`: the entry count is never incremented, so it is never called; the concrete FNV hash, because every result holds for any hash function.
- `dentry_resolve`, `tmpfs_read`, `tmpfs_write`, `vfs_pread` and file contents.
- VfsPath.ParsePath: path components of 256 characters or more, which do not fit the component buffer of `vfs_parse_path`.
- Vfs.FileSystem.FindDentry: the same bound on components.
- Vfs.FileSystem.Create: the same bound; child lists are sequences here, while the linked list itself is proved in `DoublyLinked`.
- Buddy.BuddyAllocator.FreePagesNolock: not the free, at the same order, of the buddy of a page whose FREE flag survived; `StaleFlagGivesPageAway` says what that does to the free lists, but not that the order's counter is then one too low.
- SlabHeap.KmallocHeap.NewEmpty: the path on which the descriptor pool is empty.
- Vfs.FileSystem.FindVnode: the null checks of `vfs_find_vnode` and the ENOSYS branches, which no caller reaches since tmpfs has every operation; mounting anything but the root.
- Huge pages: the tables are assumed free of the PG_PS bit above the leaves, and boot entries of the upper half to be zero or tables; TLB invalidation; the `struct page_table` wrapper that `new_page_table` gets from kmalloc.
- Boot.MmInit: the call of `vmalloc_init` stands in a comment of `mm_init` in the source; it is part of the start-up here; `sparse_init` is any number of bump allocations, without the pages it maps for the page array, and `slab_init` is left out.
- `vmap_contiguous`, `vunmap_contiguous`, `sparse_init`, address set-up at boot.
- Vmallocator.Vmalloc.Alloc: the loop counters are unbounded, where the source's `int` limits one request to 2 GiB.
- EarlyAlloc.BumpAllocator.BumpPage: regions are page-aligned, of fewer than 2^32 pages.
- Buddy.BuddyAllocator.AllocPages: the zeroing of the block.
- Locks and interrupts: an operation under a lock, and a `schedule()` through `go_to_task`, is one step.
- Drivers, printing, the console, ACPI, APIC, descriptor tables, assembly stubs, the initrd and the command line.
