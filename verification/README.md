# MIR-OS: verified models of the kernel's data structures and allocators

MIR-OS is a small i386 kernel. Below its drivers it consists of pointer structures, allocators and
small state machines. This project models those in Dafny, in the form the C code gives them (loops
over linked nodes, bitmaps, tables and counters), and proves what they promise.

| file | what it models |
|---|---|
| `RbShape.dfy`, `RbLinks.dfy`, `RbTree.dfy` | the red-black tree with parent pointers: tree shapes and contexts, their layout in linked nodes, rotations, insertion and erase fix-up, erase |
| `VmaTree.dfy` | the tree's users: sorted insertion and the bulk build along the right spine |
| `E820.dfy`, `E820Sweep.dfy`, `E820Sanitize.dfy`, `E820Copy.dfy` | the BIOS memory map: exchange sort of the change points, the sweep, the in-place normaliser, the copy that cuts out the hole below 1M |
| `PageAlloc.dfy` | the first-fit page bitmap with sub-page merging |
| `SlabLayout.dfy`, `SlabCaches.dfy` | slab geometry and the object caches |
| `KernelMemory.dfy` | an object cache on top of the page allocator, which others use at the same time |
| `PageTables.dfy`, `Vmalloc.dfy` | the page-table walk with its page cache, and the vmalloc regions |
| `BufferCache.dfy` | the buffer cache and the block read and write loops over a device |
| `Sem.dfy` | System V semaphores: atomic operation lists, undo entries, whole runs |
| `Sched.dfy` | process ids, the runqueue and the choice of the next task |
| `Timers.dfy` | the sorted timer list |
| `FdTable.dfy` | file descriptors |
| `Modules.dfy` | module loading and symbol use counts |
| `Printf.dfy`, `Format.dfy` | integer conversions and `atoi`; format strings |
| `DList.dfy`, `HashChain.dfy`, `QSort.dfy`, `Common.dfy` | the circular lists, the hash chains and the sort; notions the modules share |

How the models are built:

* A structure whose fields the source overwrites is a class with those fields. Pointers are object
  references, a fixed buffer is an array, and a list whose links are not the point is a sequence
  field. Ghost fields hold the abstract value, and `Valid()` ties the two together.
* Methods are proved against specification functions or state the new contents outright. The laws
  (round trips, conservation, what a whole run does) are lemmas about those functions.
* Arithmetic is unbounded except where the C code depends on a width. There wrap-around is written
  out: `unsigned long` sums in the page allocator and in vmalloc, 64-bit sums in the memory map,
  `short` undo entries and `int` semaphore values.
* Calls into code outside a model are parameters. Examples are memory that may run out, pages handed
  over by the page allocator, the present time, and whether `init_module` succeeds.

Where the code does not do what its comments say, the model follows the code. For each of these the
exact condition is a theorem. Where that takes more than a failed call, so is an input or a run that
meets it:

* `free_mem_allocator` clears the whole last page of an allocation even when a later request was
  merged into it. `PageAlloc.FreeSafe` says exactly when this is harmless, and
  `PageAlloc.SharedLastPage` is a run in which it is not.
* `alloc_mem_allocator` compares the request as an `int` when it merges. `PageAlloc.MemAlloc.Alloc`
  says exactly when a block is handed out without pages, and `PageAlloc.HugeMerge` is such a run.
* `alloc_mem_allocator` aligns a merged block to 32 bytes, whatever alignment is asked for.
  `PageAlloc.MemAlloc.Alloc` says exactly when a larger alignment is missed, and
  `PageAlloc.MisalignedBlock` is such a run.
* `init_mem_allocator` rounds the size of the bitmap down to pages. `PageAlloc.BitmapReserved` says
  exactly when the bitmap's end lies in a page that is not reserved.
* `sanitize_e820_map` never takes a zero-sized entry out of its overlap list.
  `E820Sanitize.ZeroSizeExact` says exactly for which maps the result is right everywhere.
  `E820Sanitize.UsableLost`, `E820Sanitize.UncoveredReserved` and `E820Sanitize.RegionSwallowed` are
  maps for which it is not.
* `copy_e820` reserves the hole below 1M only when usable memory ends inside it
  (`E820Copy.InTheHole`). Usable memory that runs through it leaves the hole unmentioned
  (`E820Copy.HoleUnmentioned`). Where an entry ends is computed modulo 2^64:
  `E820Copy.SameOutsideHole` and `E820Copy.NoRamInHole` say exactly which addresses that changes, and
  `E820Copy.WrapFails` has an entry for each.
* A slab object of 16 to 31 bytes under a power-of-two number of pages is not found by the page-mask
  macros (`SlabLayout.FirstPageIff`, `SlabLayout.SecondPage`).
* The undo entry of a semaphore can wrap past its range test, and an exit can meet a clamp
  (`Sem.StepLaw`, `Sem.UndoWraps`). The law also needs values no lower than -2^31 + 2^15, and below
  them an operation can wrap (`Sem.BelowRange`).
* `schedule` recalculates the time slices when the last task on the queue has used up its slice, not
  when all of them have (`Sched.Scheduler.Pick`, `Sched.EarlyRecalculation`).
* `get_file` returns a descriptor even when there is no memory for its file. That descriptor is then
  neither open nor closed for ever (`FdTable.FilesStruct.GetFile`).
* `install_module` reports success for a module whose `init_module` failed and which it has released
  again (`Modules.Loader.InstallModule`).
* A failed load undoes nothing: the uses it has counted stay, and without an `init_module` its symbols
  do as well (`Modules.Loader.LoadModule`). `Modules.Loader.Removable` says exactly which modules can
  then not be removed, and `Modules.StuckModule` is such a run. In `Modules.LeftoverDependency`
  another module comes to depend on a symbol left behind.
* A slab cache takes pages at address 0 for none at all and loses them.
  `KernelMemory.KernelCache.Alloc` says exactly when, and `KernelMemory.LostBlock` is such a run.
* A printed number is not always read back by `atoi`. `Printf.NumberReadBack` says exactly when, for
  all flags, widths and precisions: zeros in front of a decimal number of 8 or more make it octal
  (`Printf.ZeroPadFails`), and a plus or spaces behind it are not read.
* A field width or a precision given by `*` in a format takes its argument and then prints the star,
  with any flags and whatever follows (`Format.StarWidth`, `Format.StarPrecision`). In digits they are
  honoured (`Format.DirectiveRendered`).
* `get_vmalloc_addr` adds without looking for a wrap at 2^32, and tests the window's end only behind a
  region. `Vmalloc.Space.GetVmallocAddr` says exactly when it hands out a region beyond the window,
  and `Vmalloc.GuardOutside` and `Vmalloc.WrappedRegion` are runs for the two ways.
* Within a page of 2^32 bytes, the size of a `vmalloc` wraps to 0 and a region of one page is handed
  out (`Vmalloc.Aligned`, `Vmalloc.Space.Alloc`).

## Model

| member | source | states |
|---|---|---|
| RbShape.InOrderPlug | utils/rbtree.c:48-107 | replacing the subtree at a place of a tree replaces just its stretch of the in-order sequence |
| RbShape.OkPlug | utils/rbtree.c:48-107 | a subtree of the right black height completes its context to a red-black tree |
| RbShape.OkSplit | utils/rbtree.c:190-252 | at any place of a red-black tree the subtree and the context have matching black heights |
| RbShape.PathTo | utils/rbtree.c:190-252 | every node of a tree is the root of a subtree at some place |
| RbShape.HeightBound | utils/rbtree.c:48-107 | 2^height <= (n+1)^2, that is height <= 2 log2(n+1), for every red-black tree |
| RbLinks.TurnedAt | utils/rbtree.c:15-46 | the pointer writes of a rotation, and only those, lay out the rotated tree at the same place, with the same in-order sequence |
| RbLinks.Grandparent | utils/rbtree.c:48-60 | below a red parent there is always a black grandparent, and the pointers read are the nodes meant |
| RbLinks.Brother | utils/rbtree.c:109-130 | what the erase fix-up reads through parent and brother is what the tree holds there |
| RbLinks.UnlinkedAt | utils/rbtree.c:190-252 | taking a node with at most one child out of the links leaves the tree with that child in its place |
| RbLinks.SubstitutedAt | utils/rbtree.c:210-240 | putting a node in another's place, links and all, leaves the same tree with that one node exchanged |
| RbTree.RbRoot.RotateLeft | utils/rbtree.c:15-29 | the left rotation on linked nodes, including the root pointer |
| RbTree.RbRoot.RotateRight | utils/rbtree.c:30-46 | the mirror image |
| RbTree.RbRoot.InsertColour | utils/rbtree.c:48-107 | from a new red leaf anywhere, the loop ends in a valid red-black tree with the same in-order sequence; a node hung below the rightmost one stays right below it on the spine |
| RbTree.RbRoot.StepLeft | utils/rbtree.c:111-148 | one round of the erase fix-up on the left: order kept, shortage moved up or paid; the brother and nephews it dereferences exist |
| RbTree.RbRoot.StepRight | utils/rbtree.c:149-183 | the mirror image |
| RbTree.RbRoot.EraseColour | utils/rbtree.c:109-186 | from one missing black node anywhere, the loop ends in a red-black tree with the same sequence |
| RbTree.RbRoot.EraseDouble | utils/rbtree.c:190-252 | erasing a node with two children by splicing in its successor |
| RbTree.RbRoot.Erase | utils/rbtree.c:190-252 | for any valid tree and any node in it: the result is a valid red-black tree, its nodes are the others, and its in-order sequence is the old one with exactly that node cut out |
| VmaTree.LinkVma | kernel/sched.c:371-374 | writing a node through a link pointer and rebalancing inserts it at that place of the in-order sequence |
| VmaTree.InsertRbtree | kernel/sched.c:377-394 | the tree stays valid and sorted; the node goes after all equal keys and the rest of the sequence is unchanged |
| VmaTree.LinkStillLast | kernel/sched.c:402-407 | after rebalancing, the link kept from before still addresses the last node |
| VmaTree.AppendVma | kernel/sched.c:402-407 | one round of the bulk build appends the area at the end of the sequence and leaves the next link right |
| VmaTree.LinkVmas | kernel/sched.c:397-408 | building the tree from the area list gives a valid tree whose in-order sequence is that list |
| E820.ExchangeRemovesInversion | arch-i386/kernel/setup.c:572-589 | every exchange of the sort removes exactly one inversion, which is why it ends |
| E820.SortPoints | arch-i386/kernel/setup.c:570-589 | the exchange sort permutes the change points and orders them by address, starts before ends |
| E820.LevelCovers | arch-i386/kernel/setup.c:597-614 | between two change points an entry of positive size is in the overlap list exactly when it covers the addresses there |
| E820Sweep.TopIsType | arch-i386/kernel/setup.c:615-620 | the largest type in the overlap list is the type of the addresses up to the next change point |
| E820Sweep.RemoveEntry | arch-i386/kernel/setup.c:607-613 | the unordered removal takes exactly one occurrence out of the list |
| E820Sweep.MeaningStep | arch-i386/kernel/setup.c:621-637 | one change point extends by one stretch the addresses whose type the new map gets right |
| E820Sweep.ShapeStep | arch-i386/kernel/setup.c:621-637 | the finished regions stay sorted, disjoint and non-empty, and touching ones differ in type |
| E820Sweep.ListFits | arch-i386/kernel/setup.c:499-500 | the overlap list never outgrows its table |
| E820Sanitize.SweepOne | arch-i386/kernel/setup.c:597-638 | one round of the sweep on the arrays refines one step of the abstract sweep, or stops with a full table |
| E820Sanitize.BuildMap | arch-i386/kernel/setup.c:592-639 | the whole sweep: up to where it stops writing, the output gives every address the type in force there; a complete sweep stops writing at the least address from which that never changes again, and one that fills the table at the end of its last region |
| E820Sanitize.Sanitize | arch-i386/kernel/setup.c:491-646 | refuses exactly maps of fewer than two entries or with a wrapping entry, and then changes nothing; otherwise the rewritten map is regular, at most 2n-1 entries long and determined as for the sweep; unless the table filled up it gives every address the largest type of the old entries covering it if and only if the empty entries are harmless, and always for positive sizes |
| E820Sanitize.Exact | arch-i386/kernel/setup.c:491-646 | without empty entries the result is right at every address |
| E820Sanitize.SameRegular | arch-i386/kernel/setup.c:621-637 | a regular map is determined by the type it gives to every address |
| E820Sanitize.Determined | arch-i386/kernel/setup.c:491-646 | there is only one map that the routine can have written |
| E820Sanitize.OpenEnded | arch-i386/kernel/setup.c:621-639 | the type in force after the last change point is the greatest of an empty entry, 0 if there is none |
| E820Sanitize.ZeroSizeExact | arch-i386/kernel/setup.c:597-639 | the result is right everywhere if and only if no empty entry outranks the type of a covered address above it, the greatest of them is in force at the later of the first empty entry and the end of everything, and the type changes there |
| E820Sanitize.UsableLost | arch-i386/kernel/setup.c:600-613 | a map with an empty entry inside usable memory, and a usable address that the result does not mention |
| E820Sanitize.UncoveredReserved | arch-i386/kernel/setup.c:600-613 | a map with two empty entries, and an uncovered address between them that becomes reserved |
| E820Sanitize.RegionSwallowed | arch-i386/kernel/setup.c:621-637 | an empty entry right behind a region of its type, and a result that is empty |
| E820Sanitize.BeyondHarmless | arch-i386/kernel/setup.c:600-613 | adding an empty entry beyond everything to any map of positive sizes is harmless |
| E820Copy.SameOutsideHole | arch-i386/kernel/setup.c:188-227 | outside 640K-1M the copied map gives an address the type the BIOS map gives it, except exactly where only usable entries do that wrap at 2^64 from the hole back into it |
| E820Copy.InTheHole | arch-i386/kernel/setup.c:202-223 | inside it, an address has the type of the entries that do not meet the hole, and is at least reserved exactly if some usable entry ends in it |
| E820Copy.HoleUnmentioned | arch-i386/kernel/setup.c:202-223 | usable memory from 0 to 2M leaves 0xB0000 without a type |
| E820Copy.NoRamInHole | arch-i386/kernel/setup.c:202-223 | a usable entry of the copied map covers an address of the hole exactly if one of the BIOS map does that wraps to an end below the hole |
| E820Copy.WrapFails | arch-i386/kernel/setup.c:202-223 | an entry that wraps into the hole and an address above it that the copy says nothing of; one that wraps to below the hole and leaves it usable |
| E820Copy.KeptFirst | arch-i386/kernel/setup.c:174-186 | the map keeps the first 32 entries |
| E820Copy.E820Map.CopyE820 | arch-i386/kernel/setup.c:174-227 | the map gets the pieces of all entries in order, as many as its 32 places hold; all of them for up to 16 entries |
| PageAlloc.MemAlloc.UpdateFree | mm/page_alloc.c:61-77 | with true counts none of the four clamps changes a value; else each count ends between 0 and its limit |
| PageAlloc.CountPlaces | mm/page_alloc.c:177-218 | the counts are the numbers of clear and of set bits |
| PageAlloc.MemAlloc.Operate | mm/page_alloc.c:177-218 | sets or clears a range of pages and keeps both counts equal to the clear and set bits |
| PageAlloc.MemAlloc.Scan | mm/page_alloc.c:302-323 | the lowest start of a free run of the length asked for, and none only if there is none |
| PageAlloc.FreshApart | mm/page_alloc.c:346-350 | a block placed in free pages overlaps no block that lies in reserved ones |
| PageAlloc.TooFew | mm/page_alloc.c:397-399 | the early refusal by the free count never refuses a request for which a run exists |
| PageAlloc.PlaceInTail | mm/page_alloc.c:333-338 | a request merged into the last page overlaps no live block and lies in reserved pages |
| PageAlloc.PlaceSpill | mm/page_alloc.c:339-345 | a request that spills past the last page overlaps no live block, although the position kept is one page short |
| PageAlloc.MemAlloc.Alloc | mm/page_alloc.c:285-420 | the block handed out is new, and live blocks stay pairwise disjoint and in reserved pages if and only if it is not a request of 2^31 bytes or more that is merged into the last page; refused exactly for a bad alignment, no pages at all, or when no free run is long enough; whole pages go to the lowest free run; the block has the alignment asked for if and only if that is at most 32, or the block is not merged, or the next multiple of 32 has it |
| PageAlloc.LandsMerged | mm/page_alloc.c:288-296 | a merged block starts in the last page where the used bytes end if they have the alignment, and else at the next multiple of 32 |
| PageAlloc.LandsUpTo | mm/page_alloc.c:336-345 | the bytes remembered of it are those up to its end, and the page is the last one, or the one before when it spills |
| PageAlloc.LandsOnPage | mm/page_alloc.c:346-350 | any other block starts with a page, and its last page and the bytes used there are remembered |
| PageAlloc.ReservedPages | mm/page_alloc.c:352-358 | the pages that get reserved are those of the run that the block reaches into |
| PageAlloc.AlignedBlock | mm/page_alloc.c:291-295 | the exact condition for the alignment, from the place where the block is put |
| PageAlloc.MisalignedBlock | mm/page_alloc.c:291-295 | a run in which a block asked for at a multiple of 64 starts at byte 32 of a page |
| PageAlloc.LeastPages | mm/page_alloc.c:288 | the number of pages of a size is the least that holds it, and 0 within a page of 2^32 |
| PageAlloc.Overrun | mm/page_alloc.c:333-338 | such a request seems to fit the last page, and gets no page |
| PageAlloc.HugeMerge | mm/page_alloc.c:285-420 | a run in which that happens |
| PageAlloc.MemAlloc.FreeMem | mm/page_alloc.c:250-283 | which pages a free clears, the effect on the counts, and exactly when it is refused; a range from the start of memory whose rounded end wraps is accepted and clears nothing |
| PageAlloc.FreeSafe | mm/page_alloc.c:250-283 | freeing a whole block, also one that starts inside a page, keeps the other live blocks in reserved pages exactly when none of them reaches into its last page; always when it ends with a page |
| PageAlloc.MemAlloc.FreeBlock | mm/page_alloc.c:250-283 | the same on the allocator's state: exactly that block is no longer live, and a partly used first page stays reserved |
| PageAlloc.MemAlloc.ReserveMem | mm/page_alloc.c:221-248 | a range in memory gets reserved, no page is released, and every invariant stays; refused exactly for a range that starts below memory, wraps at 2^32, or ends beyond memory unless its rounded end wraps, and then nothing changes |
| PageAlloc.MemAlloc.Init | mm/page_alloc.c:117-166 | the initial state: nothing live, the bitmap's own pages reserved if they are in memory, true counts |
| PageAlloc.BitmapReserved | mm/page_alloc.c:151-154 | those are at least one page, hold no more than the bitmap unless they are one, and hold the whole bitmap if and only if it fits one page or fills whole ones |
| PageAlloc.MemAlloc.GetFreePages | mm/page_alloc.c:427-435 | 2^order pages that are nobody else's, at the lowest free run and on a page boundary when no page is left partly used; fails exactly when there is no such run; every invariant stays if and only if it is not an order of 19 that is merged into the last page |
| PageAlloc.SharedLastPage | mm/page_alloc.c:250-363 | a run of the allocator after which a live block lies in a free page |
| SlabLayout.GetOrder | include/asm-i386/page.h:121-129 | the least order whose block holds the size |
| SlabLayout.RoomBytes | include/asm-i386/page.h:121-129 | a block of order 0 is a page of 4096 bytes, and each order doubles it |
| SlabLayout.Estimate | mm/slab.c:162-178 | the number of objects n for which n of them with the pointers, the slab structure and the index buffer, in cache lines, fit the block, and n + 1 do not; and the exact waste |
| SlabLayout.TakenBytes | mm/slab.c:166-173 | below 512 bytes 32 and 4 for every object are set aside, rounded up to 32, and else 32 |
| SlabLayout.FinalSize | mm/slab.c:187-190 | the size is rounded up to the alignment, halved as often as an object fills less than half of it; for cache-line alignment the result is a multiple of 32 or small |
| SlabLayout.GetObjects | mm/slab.c:180-208 | the least order that holds an object, and no objects exactly when none of the orders does |
| SlabLayout.Fits | mm/slab.c:293-306 | wherever the structure is placed, the pointers, the structure with its index buffer and all the slots fit the block |
| SlabLayout.Placement | mm/slab.c:293-306 | the structure stays in the block for objects below 512 bytes, or if what is left over is more than it takes; the first slot is behind it, or in the second cache line |
| SlabLayout.Create | mm/slab.c:249-306 | creation succeeds with such a layout, and fails only for sizes beyond a block of order 5 |
| SlabLayout.SlotsApart | mm/slab.c:418-420 | slots lie in the block behind the header and do not overlap |
| SlabLayout.FirstPageIff | mm/slab.c:58-66 | every object starts in the first page exactly when the size is not 16 to 31 bytes under a block of some order below 5 |
| SlabLayout.AlignedFirstPage | mm/slab.c:58-66 | true for multiples of 32 and for sizes below an eighth of a page |
| SlabLayout.Recovered | mm/slab.c:58-66 | masking an object's address gives its slab's pages, and the division gives back its index |
| SlabLayout.SecondPage | mm/slab.c:58-66 | for objects of 4070 bytes masking finds the wrong page |
| SlabCaches.ChainedElsewhere | mm/slab.c:475-481 | a write to a slot outside the free chain leaves the chain alone |
| SlabCaches.ChainedFresh | mm/slab.c:361-364 | the buffer of a new slab chains all its slots in order and ends in the marker |
| SlabCaches.Slab.Counts | mm/slab.c:399-431 | the use count is between 0 and the number of slots, and full means exactly that the chain is at its end |
| SlabCaches.Slab.constructor | mm/slab.c:339-372 | a new slab: every slot on the chain, none used |
| SlabCaches.SlabCache.LiveApart | mm/slab.c:399-431 | no two objects handed out and not freed share a byte |
| SlabCaches.SlabCache.Taken | mm/slab.c:415-420 | taking a slot off its chain hands out exactly that address, which was not handed out before |
| SlabCaches.SlabCache.PutBack | mm/slab.c:479-482 | putting it back takes exactly that address out of use |
| SlabCaches.SlabCache.Grow | mm/slab.c:374-397 | a new empty slab on the free list, or no change |
| SlabCaches.SlabCache.AllocSlab | mm/slab.c:399-431 | hands out the slab's next free slot, new to everyone, moves the slab to the full list exactly when it has filled up, keeps every invariant |
| SlabCaches.SlabCache.Alloc | mm/slab.c:434-458 | hands out an address not in use, from the first partial slab, else the first free one, else a new one, and counts it; fails exactly when no slab has room and none can be added |
| SlabCaches.SlabCache.FreeSlab | mm/slab.c:475-496 | takes exactly that object out of use, makes its slot the next one, and moves the slab exactly when it has become empty or was full |
| SlabCaches.SlabCache.Free | mm/slab.c:506-513 | the same, with the slab found through the page mask for any object in use |
| SlabCaches.SlabCache.LessCore | mm/slab.c:518-527 | a slab with nothing in use can go: its pages hold no object in use |
| SlabCaches.SlabCache.Shrink | mm/slab.c:530-551 | destroys exactly the empty slabs, whose pages hold no object in use, and counts their pages |
| KernelMemory.KernelCache.ObjectsApart | mm/slab.c:313-336 | an object in use lies in reserved pages and shares no byte with pages handed out to any other part of the kernel |
| KernelMemory.KernelCache.NewRoom | mm/slab.c:317-327 | a block new from the page allocator overlaps no slab |
| KernelMemory.KernelCache.Alloc | mm/slab.c:374-458 | keeps every slab backed by a block of its own; takes one from the page allocator only when no slab has room, and gives it back when there is no slab structure for it; fails exactly when no slab has room and there is no free run of pages, no such structure, or the lowest run starts at address 0, and loses a block exactly in the last case |
| KernelMemory.LostBlock | mm/slab.c:374-397 | a run in which that happens |
| KernelMemory.KernelCache.Free | mm/slab.c:506-513 | the same state with that object no longer in use; no pages move |
| KernelMemory.KernelCache.Shrink | mm/slab.c:518-551 | exactly the blocks of the empty slabs go back to the page allocator |
| KernelMemory.BlocksAre | mm/slab.c:329-336 | the blocks of slabs are their pages |
| KernelMemory.KernelCache.TakePages | mm/page_alloc.c:427-435 | pages taken by other parts of the kernel leave the cache as it is; none only without a free run, and address 0 exactly when the lowest run starts there |
| KernelMemory.KernelCache.ReturnPages | mm/page_alloc.c:458-469 | and so do pages they give back |
| KernelMemory.KernelCache.TakePage | include/asm-i386/page.h:84 | one page leaves the set of free pages, as the page tables take it, and none only if the set is empty |
| KernelMemory.KernelCache.GivePage | include/asm-i386/page.h:89 | one page that is no slab's comes back to the set of free pages |
| PageTables.Tables.AllocPage | include/asm-i386/pgtable.h:175-186 | the page freed last, or a fresh one when none is cached |
| PageTables.Translated | include/asm-i386/pgtable.h:223-232 | page number 1024 d + i translates to what entry i of the table of directory entry d says, and to nothing without a table |
| PageTables.Tables.FreeCache | include/asm-i386/pgtable.h:234-245 | onto the cache while it has fewer than 256 pages, else back to the page allocator |
| PageTables.Tables.OnePlace | include/asm-i386/pgtable.h:175-271 | every page is free, cached, a table or mapped, in one of these places only, and mapped once |
| PageTables.Tables.PteFree | include/asm-i386/pgtable.h:258-271 | clears one entry, recovers its page, changes no other translation |
| PageTables.Tables.PteAlloc | include/asm-i386/pgtable.h:223-232 | a table for a directory entry; no translation changes |
| PageTables.Tables.SetupPte | arch-i386/kernel/vmalloc.c:137-165 | maps a page of its own behind every page of the range up to the end of the table, and nothing else changes |
| PageTables.Tables.FreePte | arch-i386/kernel/vmalloc.c:63-83 | unmaps them; empty entries are skipped |
| PageTables.Tables.SetupPgd | arch-i386/kernel/vmalloc.c:169-216 | the same across tables; fails only when the page allocator has run out of pages, and never if it had more than the range and its tables take; every page is mapped once, cached, free or a table |
| PageTables.Tables.FreePgd | arch-i386/kernel/vmalloc.c:85-133 | nothing in the range is mapped afterwards, no other translation differs, and no page is lost |
| PageTables.NextTable | arch-i386/kernel/vmalloc.c:201-213 | the address steps from table to table without a gap or an overlap |
| Vmalloc.Space.FindGap | arch-i386/kernel/vmalloc.c:228-236 | the first gap in the window that holds the size, and none only if no address would do; unless the search gets, past areas none of which leaves room before it or meets the window's end, to a place where the sum wraps at 2^32 or to the end of an empty list, and then that place |
| Vmalloc.Space.GetVmallocAddr | arch-i386/kernel/vmalloc.c:219-251 | inserts the region there, guard page included; the list stays sorted, disjoint and inside the window if and only if the search does not end in that way |
| Vmalloc.GuardOutside | arch-i386/kernel/vmalloc.c:219-251 | a request for the whole of an empty window is granted, with the guard page outside |
| Vmalloc.WrappedRegion | arch-i386/kernel/vmalloc.c:219-251 | a run of two requests after which a region ends beyond 2^32 |
| Vmalloc.InsertSorted | arch-i386/kernel/vmalloc.c:239-249 | putting a region where a gap starts keeps regions sorted and disjoint if and only if the gap holds it |
| Vmalloc.Space.SearchVmalloc | arch-i386/kernel/vmalloc.c:254-264 | unlinks the region that starts at the address, and fails only if there is none |
| Vmalloc.Space.Alloc | arch-i386/kernel/vmalloc.c:269-297 | exactly the payload pages of a new region at the lowest address that fits become mapped, one page if there is no payload; or no translation and no region changes, also when pages run out half-way; with pages to spare it fails only if no gap fits |
| Vmalloc.NewRegionIs | arch-i386/kernel/vmalloc.c:269-297 | one region more, at the lowest address that fits, its pages mapped, and no other translation different |
| Vmalloc.RegionMapped | arch-i386/kernel/vmalloc.c:269-297 | between calls, of a region of more than one page all pages are mapped but the guard, and one of a single page is mapped |
| Vmalloc.Aligned | include/asm-i386/page.h:31 | the page-aligned size is the least multiple that is not smaller, and 0 within a page of 2^32 |
| Vmalloc.Space.Free | arch-i386/kernel/vmalloc.c:301-320 | unmaps exactly the payload of the region at that address; afterwards mapped still means inside some region's payload |
| Vmalloc.FreedIs | arch-i386/kernel/vmalloc.c:301-320 | that region gone, its pages unmapped, and no other translation different |
| BufferCache.WriteElsewhere | drivers/block/idehd.c:146-152 | a write leaves the sectors outside its range as they were |
| BufferCache.ReadBytes | drivers/block/idehd.c:146-152 | the bytes of a read lie one behind the other in the sectors from the block on |
| BufferCache.WriteBytes | kernel/buffer_head.c:148-166 | a write stores its bytes there and fills the rest of its last sector with zeros |
| BufferCache.ZeroFilled | kernel/buffer_head.c:158-160 | behind the end of a write that stops inside a sector, that sector holds zeros |
| BufferCache.SectorBytes | drivers/block/idehd.c:146-152 | a sector never written reads as zeros |
| BufferCache.ReadAfterWrite | drivers/block/blockops.c:36-112 | reading back what was just written returns it |
| BufferCache.LinkIndexed | kernel/buffer_head.c:47-58 | linking keeps the hash exact: it finds the listed buffers and one per key |
| BufferCache.UnlinkIndexed | kernel/buffer_head.c:63-74 | so does unlinking |
| BufferCache.Cache.Lookup | kernel/buffer_head.c:83-92 | finds the buffer of a key if and only if there is one |
| BufferCache.Cache.Victim | kernel/buffer_head.c:172-182 | the buffer to recycle: the oldest clean one, or the oldest if none is clean |
| BufferCache.Cache.Release | kernel/buffer_head.c:186-210 | recycles that buffer of a full pool to the tail, written back first exactly if dirty, and none otherwise; the other buffers are untouched |
| BufferCache.Cache.AddBuffer | kernel/buffer_head.c:96-118 | a new buffer at the tail unless there are 256 |
| BufferCache.Cache.Read | kernel/buffer_head.c:129-142 | the buffer holds its sector, every buffer is clean and agrees with the disk, at most 256, first in first out |
| BufferCache.Cache.Write | kernel/buffer_head.c:148-166 | buffer and disk take the data zero-padded to a sector; the same invariants |
| BufferCache.Cache.BlockRead | drivers/block/blockops.c:36-72 | returns what direct sector reads return, for any size |
| BufferCache.Cache.BlockWrite | drivers/block/blockops.c:76-112 | leaves what direct zero-padded sector writes leave |
| BufferCache.Cache.Run | drivers/block/blockops.c:36-112 | any run of reads and writes replies and leaves what the plain disk would |
| BufferCache.RunBytes | drivers/block/blockops.c:36-112 | after any run every byte of the disk is the one written there last, the zeros behind the end of a write included |
| BufferCache.RunReads | drivers/block/blockops.c:36-112 | in any run every byte of a read is the one written there last before it |
| Sem.PerformSemop | ipc/sem.c:200-241 | all or nothing for any list, repeated semaphores included: a nonzero result or a trial restores every value and undo entry, zero applies all; 1 to wait and -1 to fail, decided as the next rows say |
| Sem.Decided | ipc/sem.c:203-228 | at each operation, by the value and the undo entry that the ones before have left: a zero operation on a value that is not zero, and an operation that would make the value negative, give 1 without IPC_NOWAIT and -1 with it; an undo entry that comes to 32767 gives -1 in any case; else the list goes on |
| Sem.WaitOrFail | ipc/sem.c:226-228 | with IPC_NOWAIT throughout a list never waits; with it nowhere a list fails only on a full undo entry |
| Sem.LockWaits | ipc/sem.c:609-612 | the kernel's lock waits on a taken semaphore and takes a free one |
| Sem.Rollback | ipc/sem.c:230-238 | taking the operations back in reverse order restores values and undo entries, wrap-around included |
| Sem.DoneSums | ipc/sem.c:203-219 | a list that goes through adds the sum of its operations to each value and takes the undo ones off the entry |
| Sem.DonePrefix | ipc/sem.c:203-219 | and on the way every value that has been operated on is non-negative |
| Sem.StepSound | ipc/sem.c:394-447 | every event keeps values and entries in their widths |
| Sem.ExitGivesBack | ipc/sem.c:515-552 | an exit gives back the adjustments to every value, stops at 0, and drops that process's entries alone |
| Sem.StepLaw | ipc/sem.c:200-241 | for values down to -2^31 + 2^15, one event changes value plus live undo entries as it is meant to if and only if the entry fits a short and an exit meets no clamp |
| Sem.RunLaw | ipc/sem.c:515-552 | over any such run the total moves only by operations without SEM_UNDO and by SETVAL, across exits too |
| Sem.BelowRange | ipc/sem.c:200-219 | for every value below that range there is an operation that wraps to a large value and goes through |
| Sem.UndoWraps | ipc/sem.c:210-214 | two releases of 20000 under SEM_UNDO break it |
| Sem.SemArray.SetVal | ipc/sem.c:321-330 | SETVAL as the event of the abstract machine, and its refusals |
| Sem.SemArray.Semop | ipc/sem.c:394-447 | semop up to blocking as the event of the abstract machine |
| Sem.SemArray.SemExit | ipc/sem.c:515-552 | a process exit as the event of the abstract machine, clamp included |
| Sched.GetPid | kernel/sched.c:120-150 | the least id above the last one that no task has, or else the least one; -1 exactly when all 32767 are taken |
| Sched.CandidateStep | kernel/sched.c:143-148 | the ids tried go round once before the start comes again |
| Sched.Scheduler.AddRunqueue | kernel/sched.c:154-159 | a task that is not queued goes to the end of the queue and is running; one that is stays as it is |
| Sched.WokenMember | kernel/sched.c:1044-1054 | the queue after the expired tasks have joined it begins with the old queue and has those tasks and no others besides |
| Sched.WokenOrder | kernel/sched.c:1044-1054 | and those stand behind it in the order of the task list |
| Sched.Scheduler.Scan | kernel/sched.c:1057-1067 | the first queued task of the greatest goodness, and the goodness of the last one |
| Sched.Scheduler.Recalculate | kernel/sched.c:1097-1106 | every slice becomes half of what is left plus the priority, which keeps 0 <= counter <= 2*priority and leaves no goodness at 0 |
| Sched.Scheduler.Leaving | kernel/sched.c:990-1040 | a running task goes on, as one does whose exit fails; a zombie, or one to be reaped that exits, leaves both lists; any other leaves the queue |
| Sched.Scheduler.Pick | kernel/sched.c:1056-1107 | the choice is maximal and positive; one recalculation at most, exactly when the last queued task is an ordinary one whose slice is used up |
| Sched.EarlyRecalculation | kernel/sched.c:1056-1107 | a run of task creation, ticks and schedule after which a task has 8 ticks left and all slices are recalculated |
| Sched.Scheduler.Retire | kernel/sched.c:983-1040 | which of the lists the current task leaves, its status, and the reset of its policy and mark when its exit fails, in every case; its request to reschedule is cleared, and no other status changes |
| Sched.Scheduler.Expire | kernel/sched.c:1044-1054 | exactly the tasks whose timeout has expired have it cleared and join the queue, in the order of the task list; no other status changes |
| Sched.Scheduler.Schedule | kernel/sched.c:966-1107 | afterwards: the current task is the first real-time one queued, or else the first with the most ticks; the lists are what retiring and expiry make of the old ones, and so are all timeouts and statuses; all slices are recalculated if the last task then queued is an ordinary one without slice, and else unchanged; the previous task sleeps if it is still queued, and its request to reschedule is cleared; counters and ids are in range |
| Sched.Scheduler.FirstChosen | kernel/sched.c:908-918 | the task of the greatest goodness is the first real-time task queued, and without one the first of those with the most ticks left |
| Sched.Scheduler.Sleep | kernel/sched.c:600-601 | the current task takes the status and the timeout it will be woken by |
| Sched.Scheduler.WakeUp | kernel/sched.c:167-169 | the task is queued, once, at the end |
| Sched.Scheduler.Tick | kernel/timer.c:104-112 | a tick keeps the counter in range and asks for rescheduling at 0 |
| Sched.Scheduler.Stint | kernel/timer.c:104-112 | a task that goes on after schedule is asked to reschedule exactly if its slice has run out since |
| Sched.Scheduler.KillTask | kernel/sched.c:1241-1268 | the task, unless it is the first, becomes real-time, marked for reaping, running and queued; no other task changes |
| Sched.Scheduler.CreateTask | kernel/sched.c:689-746 | a child with one tick, the parent's marks and a process id of its own at the end of the queue; refused exactly when every id is taken, and then both lists stay |
| Timers.InsertSorted | include/mir/data_str/dlist.h:80-93 | the new timer goes after all that do not expire later and before all that do |
| Timers.DuePrefix | kernel/timer.c:82-99 | on a sorted list the expired timers come first |
| Timers.TimerList.Add | kernel/timer.c:38-60 | sorted insertion with ties in order of arrival, refused beyond the largest timeout |
| Timers.TimerList.Run | kernel/timer.c:82-100 | fires exactly the timers whose timeout is reached, in the list's order, and keeps the others |
| Timers.RunFires | kernel/timer.c:82-100 | a run takes the expired timers off the front of the list and calls their handlers in that order, at that time |
| Timers.FiresOnce | kernel/timer.c:29-101 | over any run of additions, deletions and expiry runs that do not name it again, a listed timer fires exactly once, at the first run that reaches its timeout, and otherwise stays listed |
| FdTable.FilesStruct.GrowFds | fs/file.c:78-135 | both tables grow by 32 with their contents, or nothing changes |
| FdTable.FilesStruct.GetFreeFd | fs/file.c:138-169 | the lowest closed descriptor, else a fresh one; fails exactly when none is closed and the tables cannot grow |
| FdTable.FilesStruct.GetFile | fs/file.c:172-199 | never an open descriptor; without memory for the file it is lost; a clear bit still means issued and closed |
| FdTable.FilesStruct.ReleaseFile | fs/file.c:201-231 | closes exactly an open descriptor and touches no other |
| FdTable.FilesStruct.AllOpen | fs/file.c:149-152 | when none has been lost, the last failure means that 3 to 1023 are all open |
| Modules.RefsMember | kernel/elf.c:311-314 | a symbol has a dependency entry exactly if some loaded module depends on it |
| Modules.NewestFirst | kernel/elf.c:90-100 | a name that some symbol has resolves, to the symbol of that name added last |
| Modules.NewestAdded | kernel/elf.c:411-420 | after a load a name that the module exports resolves to its last symbol of that name, and any other as before |
| Modules.AllMarked | kernel/elf.c:295-315 | the loop counts one use for each name up to the first it cannot resolve or record, and for all of them exactly if the load gets past it |
| Modules.MarksAre | kernel/elf.c:295-315 | each entry is what its name resolves to, and the loop stops at the first name without a symbol or without memory for an entry |
| Modules.AddedThenGone | kernel/module.c:169-174 | releasing the symbols just added gives the symbol table back |
| Modules.Loader.LookupSymbol | kernel/elf.c:90-100 | the newest symbol of the name, none only if no symbol has it |
| Modules.LinkedWithout | kernel/module.c:144-185 | removing an unreferenced module leaves every other module's symbols and dependencies in the table |
| Modules.Loader.DropDeps | kernel/module.c:147-159 | one use less per entry; the guard against zero never matters |
| Modules.Loader.ReleaseModule | kernel/module.c:144-185 | exactly the module's entries and symbols go, and the counts follow |
| Modules.Loader.Removable | include/mir/module.h:150-162 | a module can be removed if and only if no symbol of it is in a loaded module's entries or among the uses that failed loads have counted |
| Modules.Loader.DeinstallModule | kernel/module.c:229-251 | goes through exactly under that condition; then exactly the module's symbols go and its dependencies count one less; else nothing changes |
| Modules.Loader.Resolve | kernel/elf.c:295-315 | each name resolves to the newest symbol of that name, which is counted once more; where it stops the marks stay |
| Modules.Loader.LoadModule | kernel/elf.c:240-444 | succeeds exactly when memory lasts, every name resolves and there is an init_module; then the module's entries are what its names resolved to and its symbols come before the old table. On failure the marks of the names resolved by then stay, each counted as such, and the table is the old one, with the module's own symbols left in front if only the init_module is missing |
| Modules.Loader.InstallModule | kernel/module.c:188-225 | a module whose init fails leaves the other modules, the symbol table and every use count as they were, and 0 is returned all the same; a load that fails leaves exactly the marks and symbols named above |
| Modules.Loader.SomeRemovable | include/mir/module.h:150-162 | the module loaded last can be removed if and only if no failed load has marked one of its symbols |
| Modules.Loader.DependencySafe | kernel/module.c:229-251 | what a loaded module depends on is still in the table and in use, and is the kernel's, left over from a failed load, or exported by a module loaded earlier, which cannot be removed; so dependencies have no cycle |
| Modules.StuckModule | kernel/elf.c:295-315 | a run after which a loaded module is refused removal although nothing depends on it |
| Modules.LeftoverDependency | kernel/elf.c:424-444 | a run after which a loaded module depends on a symbol that no loaded module exports |
| Printf.Collect | utils/vsprintf.c:67-71 | the digit buffer holds the digits, at most 32 of its 36 places |
| Printf.Number | utils/vsprintf.c:40-92 | the output is sign, prefix, zeros and digits, padded left, inside or right as the flags say; what they are is the next row |
| Printf.PrintedText | utils/vsprintf.c:40-92 | the sign of a signed negative number, or a plus or space that is asked for; the prefix of the base; digits of one case that write the number, read as unsigned if it is not signed, without zeros in front; zeros up to the precision; and up to the width spaces behind, zeros before the digits, or spaces in front |
| Printf.DigitText | utils/vsprintf.c:44-47 | digits are the decimal ones and then small or capital letters |
| Printf.PrintedLength | utils/vsprintf.c:40-92 | its length is max(width, sign + prefix + max(digits, precision)) |
| Printf.Atoi | utils/utils.c:70-103 | the loops compute the value and error the grammar assigns to the string |
| Printf.AtoiReads | utils/utils.c:70-103 | blanks, a minus or none, a prefix, and digits of its base, or none, are read as the number they write |
| Printf.AtoiAccepts | utils/utils.c:70-103 | every string that is read without an error has that form |
| Printf.Characters | utils/utils.c:74-96 | the characters taken for blanks and for digits, and the value of a digit |
| Printf.DigitsRead | utils/utils.c:90-96 | the digits of a number are read as that number in every base up to 16 |
| Printf.OtherBase | utils/utils.c:79-96 | digits written in one base are read in another as their number exactly if it is below both |
| Printf.ZerosBefore | utils/utils.c:79-96 | behind zeros, digits are read as their number exactly if they are octal or it is below 8 |
| Printf.NumberReadBack | utils/vsprintf.c:40-92 | in base 8, 10 or 16, with any flags, width and precision, reading back gives the number if and only if there is no plus in front, no padding behind, and the digits have their prefix, or have zeros in front and are octal or the number below 8, or have none in front and are decimal or the number below the base and 10 |
| Printf.DecimalRoundTrip | utils/vsprintf.c:210-216 | printing with `%d` and parsing gives the number back, any width, no flags but space and `#` |
| Printf.HexRoundTrip | utils/vsprintf.c:203-208 | the same for `%#x` and `%#X` |
| Printf.OctalRoundTrip | utils/vsprintf.c:188-191 | the same for `%#o` |
| Printf.ZeroPadFails | utils/utils.c:80-82 | `%05d` and `%.5d` of 8 are not read back |
| Format.SkipAtoi | utils/vsprintf.c:18-25 | the loop computes the number in front and what follows it |
| Format.SkippedDigits | utils/vsprintf.c:18-25 | the digits of a number are read back as that number |
| Format.DirectiveRead | utils/vsprintf.c:115-158 | any flag characters, a width and a precision in digits and a qualifier are read as what they say, whatever letter and text follow |
| Format.BareDot | utils/vsprintf.c:138-149 | a dot without digits is a precision of 0 |
| Format.FlagsMeant | utils/vsprintf.c:115-124 | each flag character sets its flag, in any order and number |
| Format.DirectiveRendered | utils/vsprintf.c:104-230 | and printed so |
| Format.NumberRendered | utils/vsprintf.c:187-217 | a number is printed in the base of its letter, signed for `d` and `i`, with small letters for `x`, and a pointer without a width with 8 places and zeros in front |
| Format.StringRendered | utils/vsprintf.c:172-186 | the first characters of a string, as many as the precision, padded with spaces up to the width, behind with `-` and else in front; the width never cuts |
| Format.CharRendered | utils/vsprintf.c:163-170 | the character modulo 256, padded in the same way |
| Format.OtherRendered | utils/vsprintf.c:219-231 | `%n` prints nothing, `%%` a percent sign, and any other letter is printed behind one |
| Format.PercentEnds | utils/vsprintf.c:222-231 | a percent sign that only flags follow is printed as it is |
| Format.Vsprintf | utils/vsprintf.c:94-235 | prints what the format means, conversion by conversion; the rows above say what that is for every letter |
| Format.FormatRoundTrip | utils/vsprintf.c:94-235 | printing a number through a format and reading it with atoi gives the number, for `%d`, `%#x`, `%#X` and `%#o`, any width and any flags among space and `#` |
| Format.FormatReadBack | utils/vsprintf.c:94-235 | a number printed through a format with any flags, width, precision, qualifier and letter of a number is read back by atoi exactly under the condition of Printf.NumberReadBack |
| Format.StarWidth | utils/vsprintf.c:129-136 | with any flags before it and any text after it, a `*` for the width takes an argument and is printed instead of a conversion |
| Format.StarPrecision | utils/vsprintf.c:138-149 | the same for the precision |
| DList.Between | include/mir/data_str/dlist.h:24-29 | linking between two neighbours inserts there and keeps the ring in both directions |
| DList.AddFirst | include/mir/data_str/dlist.h:45-48 | adds at the front |
| DList.AddBefore | include/mir/data_str/dlist.h:40-43 | adds before the head or an element |
| DList.Del | include/mir/data_str/dlist.h:50-55 | removes exactly that element |
| DList.Splice | include/mir/data_str/dlist.h:62-72 | moves all elements of one ring to the front of another |
| DList.WithoutAt | include/mir/data_str/dlist.h:50-55 | a deletion leaves what was before and after the element |
| HashChain.HashTable.Add | include/mir/data_str/myhash.h:49-68 | at the head of the key's chain; every node still points back at what points at it |
| HashChain.HashTable.Del | include/mir/data_str/myhash.h:70-75 | removes exactly that node, through its back-pointer alone |
| HashChain.HashTable.Search | include/mir/data_str/myhash.h:107-128 | the first matching node of the chain, none only if there is none |
| QSort.SiftStep | utils/utils.c:114-126 | one comparison with its exchange moves the doubtful place one to the left |
| QSort.QSort | utils/utils.c:110-131 | sorts any array for any comparison that is a total preorder, and permutes it |

## Left out

- PageAlloc.MemAlloc.Init: models `start` 0 and `end` at most `max_pfn`, the way the kernel calls it; the page count of the bitmap is rounded down as in the source, so it does not claim that the whole bitmap is reserved.
- PageAlloc.MemAlloc.FreeBlock: models frees of a whole allocation; partial frees, `free_mem_allocator_all` and stacks freed with another order than they were allocated with are not modelled.
- E820Sanitize.Sanitize: requires the overlap list to fit its 32 places, which maps of positive sizes always do; the if-and-only-if is stated for an output that does not fill the table.
- SlabLayout.Create: requires an alignment that is 0 or a power of two; the checks of the name and the allocation of the cache object itself are outside, so the failures they cause are not described.
- SlabLayout.FinalSize: the same alignments; the source does not check, and for others its mask is no rounding to a multiple.
- SlabLayout.GetObjects: the same.
- Sem.SemArray.SetVal: a negative semaphore number passes the source's check and reaches outside the array, and is excluded.
- PageAlloc.MemAlloc.GetFreePages: requires an order below 32, since a shift by more is undefined.
- SlabCaches.SlabCache.Alloc: the pages and the off-slab structure come from outside the model, as an address and a flag; the caches that keep off-slab structures are not nested.
- SlabCaches.SlabCache.Shrink: the branch for a slab on the free list that is in use is left out, because the invariant excludes it.
- Vmalloc.Space.Alloc: requires that the search for the region does not overrun, by the condition of `Vmalloc.Space.GetVmallocAddr`; the page tables of a region beyond the window are not modelled. On failure tables, cached pages and free pages may differ from before.
- PageTables.Tables.PteAlloc: the cache for table pages is not modelled, since nothing in the kernel ever fills it; page flags are left out of the entries.
- BufferCache.Cache.Write: requires at most one sector, which is all the block loops ask for; one device block size is used throughout and transfers always succeed.
- BufferCache.Cache.Release: the hash chains are sequences here; the pointer version is `HashChain`. A buffer's data is a value, so a caller that writes through a stale pointer to it is not modelled.
- Sem.StepLaw: the law is stated for values from -2^31 + 2^15 on, which SETVAL can go below; `Sem.BelowRange` shows that it fails there.
- Sem.SemArray.Semop: a negative semaphore number passes the source's check and reaches outside the array, and is excluded by the type; waiting, wake-up and the queue of waiters are not modelled, nor the history of process ids kept with a semaphore.
- Sched.Scheduler.Schedule: the early return for a task that is already dying is left out, because such a task is no longer current; the reaping timer, memory, wait queues and the process family tree are not modelled; the first task never exits or sleeps.
- Sched.Scheduler.CreateTask: memory for the child and its address space always suffices, and the limit on the number of tasks is not reached.
- Timers.TimerList.Run: handlers do not touch the list.
- FdTable.FilesStruct.GetFile: the branch that frees a file already in the slot is left out, because the slot is always empty.
- Modules.Loader.LoadModule: names are compared in full, also beyond 127 characters; relocation, section headers and module information are not modelled; symbols that a failed load leaves in the table stay there, as in the source, but their memory is not.
- Format.Vsprintf: field widths and precisions are unbounded; what `%n` stores is not modelled; arguments of the wrong kind are excluded.
- KernelMemory.KernelCache.Alloc: all users of the page allocator ask for whole pages, as the kernel's do; the structures of off-slab slabs come from outside, as a flag.
- KernelMemory.KernelCache.TakePages: requires an order below 32, since a shift by more is undefined.
- KernelMemory.KernelCache.TakePage: requires that page 0 is not free, as the page tables do; with it `TakePages` says what happens. The page tables keep the set of free pages that `TakePage` and `GivePage` implement, and do not refer to the allocator itself.
- Printf.Atoi: values are unbounded; the round trips are stated where the C `int` does not overflow.
- Device drivers, console, interrupt handling, assembly, the shell, the virtual file system and statistics displays are not modelled.
- `paging_init` and the loading of the kernel's own symbols at boot are out of scope: they fill tables in one pass, keep no state between calls and undo nothing, so that no other part of the model depends on how they do it.
