# FooNIX: verified models of the kernel's data structures

Dafny models of the self-contained algorithms of the FooNIX kernel, with proofs that they do what the kernel relies on
them for. `dafny verify dfyconfig.toml` checks everything.

| files | what they model |
|---|---|
| `avl_shape`, `avl_rotate`, `avl_walk`, `avl_contents`, `avl_tree` | the AVL tree with parent pointers, stored balance factors and a cached minimum (`work/AVLTree.h`) |
| `shared` | what several of the models use |
| `powers`, `page_math`, `buddy_node`, `buddy_buckets`, `buddy_model`, `buddy_allocator` | the buddy page-frame allocator and its size arithmetic (`work/PageFrameAllocator.*`, `work/math.h`) |
| `page_table_model`, `page_table`, `page_runs`, `page_walk` | mapping a page in the four-level tables, and the walk of section 5.3 of the AMD64 Architecture Programmer's Manual, Volume 2 (`page_table.cpp`) |
| `intrusive_list`, `bitmap`, `kalloc_hash`, `slab_model`, `small_bucket`, `kalloc_model`, `kalloc_runs`, `kalloc_pages`, `kalloc` | the slab allocator behind `kalloc` and `kfree`, with the i386 structure sizes |
| `boot_ranges`, `boot_arguments` | the boot memory map (`boot_args.cpp`, `memory_range.h`) |
| `locked_stack`, `locked_stack_calls` | the spin lock and the stack it guards, one memory access per step |
| `memchr` | the word-at-a-time `memchr` against the byte loop |
| `number_text`, `formatter`, `format_texts` | printing and reading numbers, the bounded append and the bounded formatter |

How the proofs are built:

- **AVL tree.** The nodes are heap objects with `left`, `right`, `parent` and `balance`. A tree value with a path into it
  (a zipper) describes what the heap holds. Rotations, the four repair methods and the two rebalancing loops are proved on
  the heap; `Gone` marks the node that `Remove` has condemned but not yet unlinked, so that the tree `Remove` walks up
  already counts without it. `Valid()` says: linked both ways, in search order, every stored factor right and in range,
  the count and the cached minimum right.
- **Buddy allocator.** Free sets of blocks are a value; `Take`, `Carve` and `Give` are what the three methods do to it. A
  coalesced free set is determined by the addresses it covers (`Canonical`), and most of the rest follows. The buckets are
  the AVL trees above, one for each order, with the nodes of the allocator as their data.
- **Page tables.** `MapFrom` is the descent from a table of some level. One induction on the level shows what it changes
  and, above all, what it does not. Every table is a page with one entry that points to it, so no two share a page. A
  second induction follows the tables on the way to any other address, and says after a whole run which request has made
  each of them and so which rights a page has. The walk is also written in plain arithmetic, apart from everything the
  mapping uses, and proved to be the same.
- **Slabs and the kernel heap.** A bucket is proved on values first; the class moves real list nodes and refines it. The
  heap adds that a page has one use only, from which `kfree` finds the issuing bucket by the page header alone. What the
  pages that are no slabs hold is an arbitrary function, and `kfree` reads it as the source does. Over whole runs every
  block keeps the size that was asked for, no two overlap, and no page is lost.
- **Boot memory map.** The specification is the set of covered addresses.
- **Locked stack.** An invariant over every step of every thread; the finished calls, in the order of unlocking, are
  those of a sequential stack. Every call ends with its own event, and one that is left alone does end.
- **Text.** `Format` is the whole output, `Output` what the formatter makes of it in a buffer of a given size; it writes
  exactly that, and nothing outside the buffer. The two are the same whenever the whole fits.

Where the code does less than its documentation or its callers expect, the exact condition is proved, with a concrete
input:

- **Rights of a mapping** (`RightsTakeEffect`, `NarrowNeighbour`). Table entries that already exist are never widened, so
  the rights asked for take effect exactly when every entry on the way grants them.
- **The kernel's last byte** (`KernelRemoved`, `LastByteLeft`). `EndAligned` rounds the last address itself up, so a
  kernel whose last byte is the first of a page leaves that byte in the map.
- **Ranges with a common end** (`AddedStaysSeparated`, `SharedEndLeft`). `Contiguous` is false for them, so they are not
  merged.
- **Huge requests** (`KallocHoldsSize`, `HugeRequest`). The page count wraps to zero for sizes within a page of 4 GiB, and
  such a request is answered with one page.
- **The last size class** (`KallocLaw`, `SmallButUnserved`). The loop over the classes stops before the last one, so sizes above 1920 and up
  to `MAX_ITEM_SIZE` get null.
- **Freeing an address that is no block** (`KfreeLaw`, `KfreeForeignLaw`, `ForeignOverwritten`). `kfree` takes the first
  bytes of any page for a slab header. Nothing changes exactly when the address is null or a page address, lies in a slab,
  or lies in a page whose bytes name a bucket that is out of range, or an existing one but no marked slot at the address.
  Freeing the record of a large block, or a list head, breaks the heap.
- **Rounding up to a power of two** (`ToPow2`, `Log2Ends`). Above 2^31 the result of the one is zero, and the other does
  not come to an end.
- **Nested mappings** (`KnockoutUsedMemory`, `NestedLeft`). The loop ends with the mapping that it splits, so that one
  inside it can be left over; the exact condition is that none behind it meets the kernel, in the order of the sort, which
  is stable, so that among mappings with the same start the order of entry decides (`OrderDecides`).
- **Padded fields that do not fit** (`EmitCut`, `PaddingLost`). The formatter narrows them to the room. An output too long
  for the buffer is the front part of the whole one exactly when every padded field on the way fits, or has a text that is
  all padding as far as there is room for it.
- **Signs and widths** (`WidthTexts`). The sign stands before the padding and does not count as part of the width.
- **Records of large blocks** (`KallocKfreePages`). A record is never given back, so that freeing a large block gives all
  pages back but one exactly when its record has made a slab of a free page.
- **Unsigned values without a size** (`Unsigned32`, `Unsigned32Broken`, `Pointer32ReadsBack`). With `%u`, `%o`, `%x`, `%X`
  and `%p` the 32-bit value is fetched with its sign carried on. The comment in `vsnprintf.c` calls 64-bit integers
  broken; with `%ju` and `%jp` they come out right (`Unsigned64ReadsBack`, `Pointer64ReadsBack`).

The comments `Right heavy` and `Left heavy` at the double rotations of `work/AVLTree.h` are exchanged; the model follows
the code.

## Model

| member | source | states |
|---|---|---|
| AvlTree.AVLTree.constructor | work/AVLTree.h:365-370 | an empty, valid tree |
| AvlTree.AVLTree.Insert | work/AVLTree.h:378-462 | the map gains or overwrites one key; order, parent links, exact balance factors, count and cached minimum stay right |
| AvlTree.AVLTree.Overwrite | work/AVLTree.h:388-393 | a duplicate key replaces the data alone |
| AvlTree.AVLTree.InsertAt | work/AVLTree.h:399-462 | a new leaf under the place the search ended, then rebalancing |
| AvlTree.AVLTree.RebalanceInsert | work/AVLTree.h:412-459 | the walk up after an insertion, with both early exits and all rotations, ends in a balanced tree with the same entries |
| AvlTree.AVLTree.Remove | work/AVLTree.h:470-566 | true exactly when the key was present; the map loses that key and nothing else; the tree stays valid |
| AvlTree.AVLTree.RebalanceRemove | work/AVLTree.h:497-549 | the walk up before the node is unlinked ends in a tree that is balanced once the condemned node no longer counts |
| AvlTree.AVLTree.SwapOut | work/AVLTree.h:487-495 | node and in-order successor exchange their payloads; shape, links and balance stay |
| AvlTree.AVLTree.TakeOut | work/AVLTree.h:551-563 | the condemned node, which has at most one child, leaves the tree |
| AvlTree.AVLTree.Successor | work/AVLTree.h:270-292 | the next entry in key order, down the right subtree or up the parents, or null |
| AvlTree.AVLTree.FindNode | work/AVLTree.h:253-268 | finds exactly the keys present, after a number of steps that is logarithmic in the count |
| AvlTree.AVLTree.Find | work/AVLTree.h:464-468 | the data of the key, or the default value |
| AvlTree.AVLTree.Min | work/AVLTree.h:568-568 | the cached minimum is the data of the least key |
| AvlTree.AVLTree.Count | work/AVLTree.h:376-376 | the number of keys |
| AvlTree.AVLTree.CheckHeight | work/AVLTree.h:339-362 | not negative exactly when the tree is balanced with right factors, and then its height |
| AvlTree.AVLTree.GetHeight | work/AVLTree.h:570-570 | the check accepts every valid tree |
| AvlContents.FibBound | work/AVLTree.h:339-362 | a tree accepted with height h has at least Fib(h + 2) - 1 entries |
| AvlContents.HeightBound | work/AVLTree.h:339-362 | the height is logarithmic in the number of entries |
| AvlShape.PlugAvl | work/AVLTree.h:412-459 | the tree is balanced exactly when what is in the hole is, and the path allows its height: why the early exits are sound |
| AvlShape.PlugEntries | work/AVLTree.h:378-566 | the entries of a tree around a hole, in order |
| AvlRotate.RotateLeft | work/AVLTree.h:48-68 | the pointer writes of the rotation, parent link included |
| AvlRotate.RotateRight | work/AVLTree.h:70-90 | the mirror image |
| AvlRotate.TurnLeft | work/AVLTree.h:48-68 | on a represented subtree the rotation yields the rotated one and touches nothing else |
| AvlRotate.TurnRight | work/AVLTree.h:70-90 | the mirror image |
| AvlRotate.RotLeftKeeps | work/AVLTree.h:48-68 | rotation keeps the entries, their order and the set of nodes |
| AvlRotate.FixInsertLeftImbalance | work/AVLTree.h:92-125 | the heap after the repair is the repaired subtree, single or double rotation |
| AvlRotate.InsertLeftRestores | work/AVLTree.h:92-125 | balance and the old height are back, entries unchanged |
| AvlRotate.FixInsertRightImbalance | work/AVLTree.h:127-160 | the mirror image |
| AvlRotate.InsertRightRestores | work/AVLTree.h:127-160 | the mirror image |
| AvlRotate.FixDeleteLeftImbalance | work/AVLTree.h:162-205 | the heap after the repair is the repaired subtree, all three cases |
| AvlRotate.DeleteLeftRestores | work/AVLTree.h:162-205 | balance is back, and the factor on top says whether the height is |
| AvlRotate.FixDeleteRightImbalance | work/AVLTree.h:207-251 | the mirror image |
| AvlRotate.DeleteRightRestores | work/AVLTree.h:207-251 | the mirror image |
| PageMath.HighBit | work/math.h:25-43 | the smearing shifts leave the highest set bit alone |
| PageMath.ToPow2 | work/math.h:45-54 | the least power of two that is not below the value, for every word; zero exactly for zero and above 2^31 |
| PageMath.Log2Ceiling | work/math.h:13-59 | the logarithm rounds up |
| PageMath.Log2Ends | work/math.h:13-16 | on machine words the doubling reaches the value exactly up to 2^31 |
| PageMath.GetOrderOfBlock | work/PageFrameAllocator.h:96-99 | the order of a block size is the bucket it came from |
| PageMath.OrderFits | work/PageFrameAllocator.cpp:201-226 | the order picked is the least whose blocks are big enough |
| BuddyModel.TakeLaw | work/PageFrameAllocator.cpp:130-161 | a block exactly when one large enough is free; the rest stays free, disjoint and coalesced |
| BuddyModel.TakeIs | work/PageFrameAllocator.cpp:130-161 | the block is the front part of the free block of least sufficient order and, among those, of least start; its upper halves and every other block stay free |
| BuddyModel.OneFit | work/PageFrameAllocator.cpp:130-161 | there is only one such block |
| BuddyModel.CarveLaw | work/PageFrameAllocator.cpp:89-126 | the block at exactly that address, if and only if one free block contains it; the rest stays free, disjoint and coalesced |
| BuddyModel.CarveFails | work/PageFrameAllocator.cpp:89-126 | in a coalesced free set nothing is returned exactly when some address asked for is not free |
| BuddyModel.GiveLaw | work/PageFrameAllocator.cpp:230-281 | the same memory is free, fully coalesced |
| BuddyModel.Canonical | work/PageFrameAllocator.cpp:230-281 | a coalesced free set is determined by the addresses it covers |
| BuddyModel.TakeThenGive | work/PageFrameAllocator.cpp:201-281 | releasing what was just allocated restores every bucket |
| BuddyModel.CarveThenGive | work/PageFrameAllocator.cpp:89-126 | releasing what was just carved out restores every bucket |
| BuddyModel.StepSound | work/PageFrameAllocator.cpp:89-281 | every operation keeps free and outstanding blocks aligned and disjoint, the free set coalesced and memory conserved |
| BuddyModel.RunSound | work/PageFrameAllocator.cpp:89-281 | the same over every run |
| BuddyModel.RunRestores | work/PageFrameAllocator.cpp:89-281 | a run that ends with the blocks outstanding it began with has restored every bucket, whatever the order |
| BuddyModel.BytesConserved | work/PageFrameAllocator.cpp:89-281 | free plus outstanding bytes are constant over every run |
| BuddyBuckets.BucketArray.constructor | work/PageFrameAllocator.h:63-73 | empty trees that share no node |
| BuddyBuckets.BucketArray.Find | work/PageFrameAllocator.cpp:91-91 | the node filed under a key of a bucket, or null |
| BuddyBuckets.BucketArray.Min | work/PageFrameAllocator.cpp:132-132 | the node of the least key of a bucket, or null |
| BuddyBuckets.BucketArray.Add | work/PageFrameAllocator.cpp:123-123 | one more node in one of the trees; the others hold what they held |
| BuddyBuckets.BucketArray.Drop | work/PageFrameAllocator.cpp:95-95 | one key less in one of the trees; the others hold what they held |
| BuddyAllocator.PageFrameAllocator.GetFreeNode | work/PageFrameAllocator.cpp:55-69 | a node that is in no bucket and no longer in the pool, taken from the pool or new |
| BuddyAllocator.PageFrameAllocator.ReleaseNode | work/PageFrameAllocator.cpp:73-85 | the node joins the pool; it is in no bucket |
| BuddyAllocator.PageFrameAllocator.GetAvailableNode | work/PageFrameAllocator.cpp:130-161 | refines `Take`: same block, same buckets |
| BuddyAllocator.PageFrameAllocator.GetExactFrame | work/PageFrameAllocator.cpp:89-126 | refines `Carve`: the block at exactly that address, or null with every bucket unchanged |
| BuddyAllocator.PageFrameAllocator.Allocate | work/PageFrameAllocator.cpp:201-226 | the least order that holds the request is served from the best fitting free block, which loses only that part, or nothing changes |
| BuddyAllocator.PageFrameAllocator.KeepHalf | work/PageFrameAllocator.cpp:111-125 | one half of a split block is kept, the other one filed |
| BuddyAllocator.PageFrameAllocator.FindBuddy | work/PageFrameAllocator.cpp:246-262 | the node of the buddy exactly when it is free |
| BuddyAllocator.PageFrameAllocator.Absorb | work/PageFrameAllocator.cpp:246-275 | one round of the coalescing is one step of `Give` |
| BuddyAllocator.PageFrameAllocator.Release | work/PageFrameAllocator.cpp:230-281 | refines `Give`: the iterative coalescing |
| PageTableModel.SlotInjective | src/sys/kernel/arch/x86_64/src/page_table.cpp:105-106 | entries of aligned tables are different words |
| PageTableModel.SamePageAgrees | src/sys/kernel/arch/x86_64/src/page_table.cpp:100-121 | two addresses agree in all four indices exactly when they lie in one page |
| PageTableModel.MapLaw | src/sys/kernel/arch/x86_64/src/page_table.cpp:98-124 | from any table down: the tables stay a tree of disjoint pages, only the path of the address is touched, its walk yields the page, every other walk stays |
| PageTableModel.MapOneLaw | src/sys/kernel/arch/x86_64/src/page_table.cpp:98-124 | mapping a page updates the translation of that page and of no other |
| PageTableModel.AttachMaps | src/sys/kernel/arch/x86_64/src/page_table.cpp:108-114 | attaching an empty table first changes no walk and withholds no right, so it makes no difference to the descent |
| PageTableModel.SupplyLaw | src/sys/kernel/arch/x86_64/src/page_table.cpp:108-114 | a call fails exactly when fewer pages are left than tables are missing, and takes exactly those |
| PageTableModel.RightsTakeEffect | src/sys/kernel/arch/x86_64/src/page_table.cpp:108-123 | the rights asked for take effect exactly when every entry already on the way grants them |
| PageTableModel.FirstMappingLimits | src/sys/kernel/arch/x86_64/src/page_table.cpp:113-123 | the first mapping under an entry of the root limits the rights of all later ones there |
| PageTableModel.NarrowNeighbour | src/sys/kernel/arch/x86_64/src/page_table.cpp:98-124 | a writable page beside a read-only one is not writable |
| PageRuns.PathLaw | src/sys/kernel/arch/x86_64/src/page_table.cpp:98-124 | what one call does to the tables on the way to every address: it makes those that were missing as far as the ways agree, with its own rights, and leaves the others alone |
| PageRuns.WalkRights | src/sys/kernel/arch/x86_64/src/page_table.cpp:98-124 | the rights of a page are those of its entry and of all entries above, together |
| PageRuns.RunLaw | src/sys/kernel/arch/x86_64/src/page_table.cpp:98-124 | after any run of mappings a page asked for has the frame and flags of the latest request, and the rights of that request met with those of the requests that made the entries above; a page never asked for is as before |
| HardwareWalk.WalkIs | src/sys/kernel/arch/x86_64/src/page_table.cpp:98-124 | the walk of the model is the walk in plain arithmetic: nine bits of the address for each level, entries of eight bytes, bits 12 to 51 for the next table |
| HardwareWalk.MapSeen | src/sys/kernel/arch/x86_64/src/page_table.cpp:98-124 | after mapping a page that walk finds its frame and flags there, and what it found before at every other page |
| HardwareWalk.FlagsAre | src/sys/kernel/arch/x86_64/src/page_table.cpp:98-124 | good flags have bit 0 set and bits 7 and 12 to 51 clear |
| PageTables.PageTable.AllocatePage | src/sys/kernel/arch/x86_64/src/page_table.cpp:76-79 | the next page of the supply, or zero |
| PageTables.PageTable.MapSinglePage | src/sys/kernel/arch/x86_64/src/page_table.cpp:98-124 | the loop refines the model; translation, rights and failure are stated outright, and what the walk in plain arithmetic finds |
| PageTables.PageTable.MapPage | src/sys/kernel/arch/x86_64/src/page_table.cpp:134-141 | maps with the entry flags of the page flags, present added |
| PageTables.MapToEntryFlags | src/sys/kernel/arch/x86_64/src/page_table.cpp:83-94 | bit 1 exactly for write or execute, bit 2 exactly without kernel, no other bit |
| BootRanges.MergeLaw | src/sys/include/kernel/memory_range.h:118-159 | merging gives the union; contiguity is exactly that the union is a range, common ends excepted |
| BootRanges.AliveLaw | src/sys/kernel/src/boot_args.cpp:59-74 | dropping empty mappings loses no address and keeps the order |
| BootRanges.CrunchCovers | src/sys/kernel/src/boot_args.cpp:93-110 | merging loses and adds no address |
| BootRanges.CrunchSorted | src/sys/kernel/src/boot_args.cpp:93-110 | merging keeps the order |
| BootRanges.CrunchSeparates | src/sys/kernel/src/boot_args.cpp:93-110 | the pass leaves gaps everywhere exactly when it meets no two ranges with a common end and different starts |
| BootRanges.DistinctEnds | src/sys/kernel/src/boot_args.cpp:93-110 | with distinct ends it meets none |
| BootRanges.AddedStaysSeparated | src/sys/kernel/src/boot_args.cpp:125-147 | a separated map stays separated exactly when no mapping of a different start has the end of the new range |
| BootRanges.SharedEndLeft | src/sys/include/kernel/memory_range.h:118-135 | two overlapping ranges with a common end stay apart |
| BootRanges.TrimLaw | src/sys/kernel/src/boot_args.cpp:180-215 | the remaining parts of a mapping hold exactly the addresses outside the removed range |
| BootRanges.TrimmedAll | src/sys/kernel/src/boot_args.cpp:167-220 | the loop may stop early because the list is sorted |
| BootRanges.TrimmedSplit | src/sys/kernel/src/boot_args.cpp:197-219 | stopping after a split loses nothing exactly when no mapping behind it meets the range |
| BootRanges.DisjointClear | src/sys/kernel/src/boot_args.cpp:197-219 | behind a split mapping no other one meets the range if the mappings are disjoint |
| BootRanges.NestedLeft | src/sys/kernel/src/boot_args.cpp:197-219 | of two nested mappings the loop leaves the inner one, and with it addresses of the range |
| BootRanges.SortStableLaw | src/sys/kernel/src/boot_args.cpp:34-51 | the order of the sort: by start, and among equal starts as entered |
| BootRanges.OrderDecides | src/sys/kernel/src/boot_args.cpp:167-220 | two mappings with the same start, whose order of entry decides |
| BootRanges.EndAlignedLaw | src/sys/include/kernel/memory_range.h:93-100 | the aligned end reaches the last byte exactly when that byte does not start a page |
| BootRanges.KernelRemoved | src/sys/kernel/src/boot_args.cpp:157-223 | no byte of the kernel stays in the map exactly when its last byte does not start a page, or was not in the map |
| BootRanges.LastByteLeft | src/sys/kernel/src/boot_args.cpp:157-223 | a concrete kernel whose last byte stays |
| BootArguments.Arguments.Bubble | src/sys/kernel/src/boot_args.cpp:36-48 | one round: one more entry in its place, the same entries with equal starts as before, and in order if nothing was exchanged |
| BootArguments.Arguments.SortMappings | src/sys/kernel/src/boot_args.cpp:23-53 | terminates with the stable order of the entries by start |
| BootArguments.Arguments.SlideEntries | src/sys/kernel/src/boot_args.cpp:115-121 | one entry is taken out |
| BootArguments.Arguments.RemoveDeadMappings | src/sys/kernel/src/boot_args.cpp:59-74 | exactly the empty mappings are taken out |
| BootArguments.Arguments.MergePass | src/sys/kernel/src/boot_args.cpp:93-110 | the loop that steps its index back terminates and refines the merging |
| BootArguments.Arguments.AddMemoryMap | src/sys/kernel/src/boot_args.cpp:125-147 | the map is the merged stable order of the old entries and the new one; covered addresses gain exactly the new range; in order, none empty; separated exactly under the condition above; full tables change nothing |
| BootArguments.Arguments.KnockoutUsedMemory | src/sys/kernel/src/boot_args.cpp:157-223 | covered addresses lose exactly the aligned range of the kernel if and only if no mapping meets it that comes behind a split one in the stable order by start, as for all disjoint mappings; stops exactly when a split finds no entry |
| IntrusiveList.List.Contains | src/sys/include/kernel/utils/list.h:196-205 | true exactly for nodes of the list |
| IntrusiveList.List.PushFront | src/sys/include/kernel/utils/list.h:217-229 | the node comes first; all links right |
| IntrusiveList.List.PushBack | src/sys/include/kernel/utils/list.h:235-247 | the node comes last; all links right |
| IntrusiveList.List.PopFront | src/sys/include/kernel/utils/list.h:254-270 | the first node leaves, if any |
| IntrusiveList.List.PopBack | src/sys/include/kernel/utils/list.h:277-293 | the last node leaves, if any |
| IntrusiveList.List.Remove | src/sys/include/kernel/utils/list.h:299-315 | the node leaves from anywhere |
| BitmapCells.Set | src/sys/include/kernel/utils/bitmap.h:252-259 | exactly one more bit is marked, none beyond the end |
| BitmapCells.Clear | src/sys/include/kernel/utils/bitmap.h:252-260 | exactly that bit is clear |
| BitmapCells.FirstClear | src/sys/include/kernel/utils/bitmap.h:135-154 | the first clear bit, cell by cell, or none |
| SmallItemHash.TightFit | src/sys/include/kernel/kalloc/hash.h:62-70 | the class of a size is the first whose items are large enough |
| SmallItemHash.ClassOfItemSize | src/sys/include/kernel/kalloc/hash.h:67-77 | the class of an item size is the class it belongs to |
| SmallItemHash.ItemCounts | src/sys/include/kernel/kalloc/hash.h:72-75 | between 2 and 253 items fit behind the header |
| SmallItemHash.ItemSizes | src/sys/include/kernel/kalloc/hash.h:34-77 | the 30 sizes, and as many items as fit into 4048 bytes |
| SlabModel.PointerIndex | src/sys/kernel/src/kalloc/small_bucket.cpp:67-80 | a slot is found exactly for the addresses of items, wrap-around included |
| SlabModel.AllocateLaw | src/sys/kernel/src/kalloc/small_bucket.cpp:116-142 | the block was not in use, lies behind the header inside its page, and nothing else changes hands |
| SlabModel.AllocateWhere | src/sys/kernel/src/kalloc/small_bucket.cpp:40-63 | the block is the lowest free slot of the first partial slab, else the first slot of the first empty one, and of a new page only if there is neither |
| SlabModel.ReturnLaw | src/sys/kernel/src/kalloc/small_bucket.cpp:146-180 | returning frees exactly the block; a pointer that is no slot in use changes nothing; each slab ends in the list its marks call for |
| SlabModel.ReturnWhere | src/sys/kernel/src/kalloc/small_bucket.cpp:161-178 | a full slab goes behind the partial ones, one that has lost its last block behind the empty ones, any other stays |
| SlabModel.CollectLaw | src/sys/kernel/src/kalloc/small_bucket.cpp:100-112 | collection keeps every block in use; up to four empty slabs all stay, of more exactly the first four |
| SlabModel.LiveApart | src/sys/kernel/src/kalloc/small_bucket.cpp:140-140 | blocks in use do not overlap |
| SlabModel.RunSound | src/sys/kernel/src/kalloc/small_bucket.cpp:116-180 | over every run the lists follow the marks, the free counts are right, and the marked slots are exactly the blocks held |
| SlabModel.RunFromNew | src/sys/include/kernel/kalloc/small_bucket.h:47-55 | from a new bucket on, blocks held never overlap |
| SlabModel.TakeThenGive | src/sys/kernel/src/kalloc/small_bucket.cpp:116-180 | taking a block and giving it back leaves the same blocks in use |
| SmallBucket.SmallItemBucket.GetAvailableSlab | src/sys/kernel/src/kalloc/small_bucket.cpp:40-63 | refines the model on real list nodes |
| SmallBucket.SmallItemBucket.Allocate | src/sys/kernel/src/kalloc/small_bucket.cpp:116-142 | refines the model; the blocks in use gain exactly the result |
| SmallBucket.SmallItemBucket.Return | src/sys/kernel/src/kalloc/small_bucket.cpp:146-180 | refines the model; the blocks in use lose exactly the block, or nothing changes |
| SmallBucket.SmallItemBucket.GC | src/sys/kernel/src/kalloc/small_bucket.cpp:100-112 | refines the model; no block in use is lost |
| KallocModel.KallocLaw | src/sys/kernel/src/kalloc/kalloc.cpp:135-220 | one block that was in no use before; null exactly for size zero and the last class; stops exactly for more than a page |
| KallocModel.KallocHoldsSize | src/sys/kernel/src/kalloc/kalloc.cpp:156-220 | the block is large enough exactly up to 4 GiB less a page |
| KallocModel.KallocClass | src/sys/kernel/src/kalloc/kalloc.cpp:135-152 | a small block is of the least class whose items are large enough |
| KallocModel.RecordSays | src/sys/kernel/src/kalloc/kalloc.cpp:156-204 | the record of a new large block has its page and its count of pages |
| KallocModel.RecordRow | src/sys/kernel/src/kalloc/kalloc.cpp:79-87 | the record of a large block is in the row of its page number modulo 32 |
| KallocModel.HugeRequest | src/sys/kernel/src/kalloc/kalloc.cpp:163-171 | a request for almost 4 GiB yields one page |
| KallocModel.SmallButUnserved | src/sys/kernel/src/kalloc/kalloc.cpp:145-149 | 1921 bytes are never served, though the largest small size is 2024 |
| KallocModel.KfreeLaw | src/sys/kernel/src/kalloc/kalloc.cpp:224-263 | exactly the given block is freed; unless the call runs wild, the heap stays sound exactly when the address is no record of a large block and no list head; an address that is no block changes nothing exactly when it is harmless |
| KallocModel.KfreeSlabLaw | src/sys/kernel/src/kalloc/small_bucket.cpp:146-180 | in a slab exactly the block at the address is freed, and nothing changes if there is none |
| KallocModel.KfreeForeignLaw | src/sys/kernel/src/kalloc/small_slab.cpp:49-77 | in a page that is no slab nothing changes exactly when its bytes name a bucket out of range, or an existing one but no marked slot at the address; and exactly when the call runs wild |
| KallocModel.ForeignOverwritten | src/sys/kernel/src/kalloc/small_bucket.cpp:146-163 | 48 bytes into a large block full of ones the bytes of the block are changed |
| KallocModel.KfreeSmallIs | src/sys/kernel/src/kalloc/small_slab.cpp:49-77 | the header of the page names the issuing bucket |
| KallocModel.KfreeLargeLaw | src/sys/kernel/src/kalloc/kalloc.cpp:234-255 | the hash of the page finds the issuing record, and the page goes back to the page allocator |
| KallocModel.KallocKfree | src/sys/kernel/src/kalloc/kalloc.cpp:208-263 | freeing what was just allocated leaves the callers' blocks as they were, whatever was written to memory in between |
| KallocModel.SmallApart | src/sys/kernel/src/kalloc/kalloc.cpp:135-220 | a small block ends before the next block begins |
| KallocModel.LargeApart | src/sys/kernel/src/kalloc/kalloc.cpp:135-220 | so does a large one |
| KallocModel.NewHeapGood | src/sys/kernel/src/kalloc/kalloc.cpp:92-131 | the new heap, with a list head in a small block for every place of the hash, is sound, keeps those blocks to itself and holds none of a caller |
| KallocRuns.KallocKeeps | src/sys/kernel/src/kalloc/kalloc.cpp:208-220 | every block stays of its class |
| KallocRuns.KfreeKeeps | src/sys/kernel/src/kalloc/kalloc.cpp:224-263 | so does every block but the one freed |
| KallocRuns.RunHolds | src/sys/kernel/src/kalloc/kalloc.cpp:208-263 | over every run of requests, frees and writes of the callers from the new heap on, the blocks in use are those outstanding, each holds the bytes asked for, and no two overlap |
| KallocPages.KallocSamePages | src/sys/kernel/src/kalloc/kalloc.cpp:208-220 | no page is lost: slabs, large blocks and the page allocator have the same pages together |
| KallocPages.KfreeSamePages | src/sys/kernel/src/kalloc/kalloc.cpp:224-263 | the same, unless the call runs wild |
| KallocPages.FreedToSupply | src/sys/kernel/src/kalloc/kalloc.cpp:242-252 | a large block that is freed goes back to the page allocator |
| KallocPages.FreePageIs | src/sys/kernel/src/kalloc/small_bucket.cpp:146-180 | a page is an empty slab or with the page allocator exactly when no block lies in it |
| KallocPages.KallocKfreePages | src/sys/kernel/src/kalloc/kalloc.cpp:208-263 | freeing what was just allocated gives the free pages back, all but one exactly when a new record has made a slab of a free page |
| KallocPages.RunPages | src/sys/kernel/src/kalloc/kalloc.cpp:208-263 | over every run every page is in one use and none is lost |
| KernelHeap.Allocator.constructor | src/sys/kernel/src/kalloc/kalloc.cpp:92-131 | sets the new heap up, list heads included |
| KernelHeap.Allocator.KallocSmall | src/sys/kernel/src/kalloc/kalloc.cpp:135-152 | the loop over the classes; null exactly for the last class |
| KernelHeap.Allocator.KallocLarge | src/sys/kernel/src/kalloc/kalloc.cpp:156-204 | refines the model |
| KernelHeap.Allocator.Allocate | src/sys/kernel/src/kalloc/kalloc.cpp:208-220 | all of the above for `kalloc` |
| KernelHeap.Allocator.RemoveMeta | src/sys/kernel/src/kalloc/kalloc.cpp:238-255 | the search through the row of the hash refines the model, succeeds exactly for large blocks, and gives the page back |
| KernelHeap.Allocator.FreeSmall | src/sys/kernel/src/kalloc/kalloc.cpp:256-262 | refines the model, foreign pages included |
| KernelHeap.Allocator.Free | src/sys/kernel/src/kalloc/kalloc.cpp:224-263 | all of the above for `kfree` |
| LockedStack.StepMutex | src/sys/include/kernel/thread/spinlock.h:32-48 | every step keeps the lock byte in step with the one thread inside |
| LockedStack.StepKeeps | src/sys/include/kernel/utils/stack.h:64-108 | every step of every thread keeps the invariant |
| LockedStack.StepConserves | src/sys/include/kernel/utils/stack.h:64-108 | no step loses or makes a node |
| LockedStack.Linearizable | src/sys/include/kernel/utils/stack.h:64-108 | under every schedule: at most one thread inside, each pop yields the most recently pushed node in lock order, every node in one place |
| StackCalls.CallStarts | src/sys/include/kernel/utils/stack.h:64-108 | a push of a node begins with the node leaving the hand of the caller, and one of null is over at once |
| StackCalls.CallGoesOn | src/sys/include/kernel/utils/stack.h:64-108 | a call is over exactly when it has logged its own event |
| StackCalls.CallEnds | src/sys/include/kernel/utils/stack.h:64-108 | under every schedule the first event a thread in a call logs is that of the call, and until then it stays in the call |
| StackCalls.PushCompletes | src/sys/include/kernel/utils/stack.h:95-108 | a push that finds the lock free is over after five steps of its thread: the node is the head and linked to the old one, everything else is as before |
| StackCalls.PopCompletes | src/sys/include/kernel/utils/stack.h:64-77 | a pop that finds the lock free is over after at most eight: the newest node is out, its link cleared, in the hand of the caller; null from an empty stack |
| LockedStack.FreeLockIsTaken | src/sys/include/kernel/thread/spinlock.h:32-42 | a try succeeds exactly when nobody is inside |
| Memchr.ByteLoop | src/sys/libs/libk/string/memchr.c:10-21 | the first match, or null |
| Memchr.NeverMisses | src/sys/libs/libk/arch/i386/string/memchr.S:45-51 | the word test never misses a word that holds the byte |
| Memchr.WhenItFires | src/sys/libs/libk/arch/i386/string/memchr.S:45-51 | it fires exactly for words with the byte, or with a byte that differs from it by more than the highest bit |
| Memchr.FalseAlarm | src/sys/libs/libk/arch/i386/string/memchr.S:45-51 | it does fire for words that do not hold the byte |
| Memchr.Words | src/sys/libs/libk/arch/i386/string/memchr.S:42-92 | the word loop, false alarms included, skips no match |
| Memchr.WordLoop | src/sys/libs/libk/arch/i386/string/memchr.S:12-109 | the same result as the byte loop for all buffers, lengths, alignments and bytes |
| NumberText.BaseToAscii | src/sys/libs/libk/stdio/vsnprintf.c:54-82 | the digits, as many as fit, end right before the terminator; nothing before them is written |
| NumberText.TextValue | src/sys/libs/libk/stdio/vsnprintf.c:64-79 | the digits denote the value |
| NumberText.DigitChars | src/sys/libs/libk/stdio/vsnprintf.c:69-74 | digits and letters in order, in the case asked for |
| NumberText.TextShape | src/sys/libs/libk/stdio/vsnprintf.c:64-79 | no leading zero, and zero is one digit |
| NumberText.DecimalCharacter | src/sys/kernel/src/parse.cpp:14-53 | in decimal text digits, underscores and quotes count, everything else is refused |
| NumberText.HexCharacter | src/sys/kernel/src/parse.cpp:14-53 | in hexadecimal text letters up to f in either case as well |
| NumberText.NoNumbers | src/sys/kernel/src/parse.cpp:14-53 | which error empty and malformed texts give |
| NumberText.OddNumbers | src/sys/kernel/src/parse.cpp:14-53 | a lone dollar sign or separator is zero |
| NumberText.ParseInt | src/sys/kernel/src/parse.cpp:14-53 | the number that the digits denote, as a machine word; errors exactly for empty text and foreign characters |
| NumberText.DecimalReadsBack | src/sys/kernel/src/parse.cpp:14-53 | every 64-bit value printed in decimal reads back |
| NumberText.HexReadsBack | src/sys/kernel/src/parse.cpp:21-42 | every 64-bit value printed in hexadecimal, in either case, reads back behind `0x`, `0X` or `$` |
| NumberText.SeparatorsIgnored | src/sys/kernel/src/parse.cpp:43-44 | separators may stand anywhere |
| Formatter.StrnCat | src/sys/libs/libk/string/_s_strncat.c:11-33 | appends what fits and ends the text; fails exactly without a terminator, then changing nothing |
| Formatter.Append | src/sys/libs/libk/stdio/vsnprintf.c:288-291 | the append of the formatter never fails: its assertions hold |
| Formatter.PutString | src/sys/libs/libk/stdio/vsnprintf.c:274-293 | the field narrowed to the room, and as much of it as fits |
| Formatter.Vsnprintf | src/sys/libs/libk/stdio/vsnprintf.c:123-305 | for every format, arguments and size: writes inside the buffer, returns the length of the whole output or of what there is room for, with a terminator there and exactly the output into that room in front; the whole output whenever it fits |
| FormatTexts.UnsignedTexts | src/sys/libs/libk/stdio/vsnprintf.c:199-260 | `%x`, `%X`, `%o` and `%u` print a value below 2^31 in base 16, 16, 8 and 10, in lower and upper case |
| FormatTexts.SignedTexts | src/sys/libs/libk/stdio/vsnprintf.c:210-272 | `%d` and `%i` print every 32-bit value in decimal, with a minus exactly before negative ones and a plus exactly if asked for |
| FormatTexts.WideTexts | src/sys/libs/libk/stdio/vsnprintf.c:184-246 | with `j` or `ll` the same for 64-bit values |
| FormatTexts.WideSignedTexts | src/sys/libs/libk/stdio/vsnprintf.c:184-272 | so for signed ones |
| FormatTexts.OtherTexts | src/sys/libs/libk/stdio/vsnprintf.c:188-304 | `%s` prints the text, `%c` the character, `%p` eight digits in upper case and `%jp` sixteen |
| FormatTexts.WidthTexts | src/sys/libs/libk/stdio/vsnprintf.c:164-179 | a width fills up the digits on the left, with spaces or after a `0` with zeros; the sign comes before that |
| FormatTexts.WidthString | src/sys/libs/libk/stdio/vsnprintf.c:269-286 | strings are filled up with spaces in any case |
| FormatTexts.TextCopied | src/sys/libs/libk/stdio/vsnprintf.c:136-143 | text without a percent sign is copied |
| FormatTexts.DirectiveThen | src/sys/libs/libk/stdio/vsnprintf.c:131-300 | a directive takes one argument and the rest of the format the others |
| Formatter.PutNumber | src/sys/libs/libk/stdio/vsnprintf.c:220-293 | prefix, sign and digits of a number, narrowed to the room |
| Formatter.EmitLength | src/sys/libs/libk/stdio/vsnprintf.c:274-305 | the room is used up whenever the whole output does not fit |
| Formatter.NarrowedPrefix | src/sys/libs/libk/stdio/vsnprintf.c:278-286 | a field too wide for the room begins like the narrowed one exactly when what there is room for of its text is padding |
| Formatter.EmitCut | src/sys/libs/libk/stdio/vsnprintf.c:274-293 | the text is the front part of the whole output exactly when each padded field fits, or is all padding as far as there is room |
| Formatter.PaddingLost | src/sys/libs/libk/stdio/vsnprintf.c:278-286 | a padded field that is cut loses padding, not text: once it is no front part, once it is |
| Formatter.Unsigned32 | src/sys/libs/libk/stdio/vsnprintf.c:207-260 | without a 64-bit flag `%u`, `%o`, `%x`, `%X` and `%p` print the digits of a 32-bit value exactly when its highest bit is clear |
| Formatter.Pointer32ReadsBack | src/sys/libs/libk/stdio/vsnprintf.c:220-262 | a 32-bit address printed with `%p` reads back exactly when its highest bit is clear |
| Formatter.Unsigned32Broken | src/sys/libs/libk/stdio/vsnprintf.c:207-260 | `%u` does not print the largest 32-bit value |
| Formatter.Unsigned64ReadsBack | src/sys/libs/libk/stdio/vsnprintf.c:181-262 | a 64-bit value printed with `%ju` reads back |
| Formatter.Pointer64ReadsBack | src/sys/libs/libk/stdio/vsnprintf.c:220-262 | an address printed with `%jp` reads back |

## Left out

- `PageFrameAllocator` constructor loop and `Acquire`: the constructor files one shared node under several keys and
  `Acquire` releases one node repeatedly; the model starts from any well-formed free set and proves `GetExactFrame`.
- BuddyAllocator.PageFrameAllocator.constructor: sets up the members without filing any memory, for the reason above.
- The page-frame allocator: `m_maxSize` is at most 2^31, and a word has 32 bits.
- The eight-bit width of `Balance` and the template parameters of the tree: keys are integers, and the data are the nodes of
  the page-frame allocator, which the tree only stores; `DataType()` is null.
- `CheckNode` and the printing functions of the tree.
- `Insert`, `Remove`, `MapSinglePage`, `MergeContiguousMappings`, `KnockoutUsedMemory`, `vsnprintf` and the word loop are
  each split into several methods; the order of writes is that of the source, except that the rotations' balance updates
  are grouped.
- Physical memory as seen by the page tables is a function from word addresses; large pages, caches, unmapping, the dump
  and the construction of a root table are not modelled. `AllocatePage` is a stub in the source; here it hands out fresh,
  zeroed, aligned pages or zero. A failed assertion or panic of the kernel is a result `false`, after which nothing is claimed.
- PageTables.PageTable.MapSinglePage: flags must be present, not large, and clear of the address bits, as all flags built by the callers are.
- BootArguments.Arguments.KnockoutUsedMemory: no empty mapping lies at address 0, where its last address would wrap around; no
  claim about the type of a mapping, which merging ignores and a split does not set. Ranges end below the top of the address
  space, and the kernel does not end at address 0.
- Out-of-memory paths of the slab allocator and the page counter: a page is always available. The page that `InitKalloc` takes for
  the buckets themselves is not counted. `MALLOC_CHECK_LEVEL` is 0, its default.
- KernelHeap.Allocator.Free: nothing is said of the heap after a wild write, that is after a header in a foreign page that
  names the bucket behind the last one or calls for a change of lists. Pages that hold the allocator's own variables count
  as foreign, and what a write there does to those variables is not modelled.
- The bitmap and the slab header are values embedded in the list node; only `Bitmap<256>` with 32-bit cells is modelled. `kalloc`
  works on bucket values, which `SmallItemBucket` is proved to refine.
- The locks of the slab allocator: the locked stack shows what they give.
- Weak memory orderings and fairness of the spin lock: each access is one atomic step, and a spinning thread may spin on.
- Signed characters and locales in `memchr` and `parseInt`; a buffer of length 1 for `base_to_ascii`,
  where the source writes outside, and bases above 36.
- Formatter.Vsnprintf: the count of characters is not wrapped at 32 bits. Arguments that were never passed read as nothing.
- Devices, console, boot code, interrupt handling, the cached-page stack, `BootPageAllocator`, `string_view` and plain string helpers.
