# Verified models of the yeli-os memory and storage core

This Dafny project models four parts of yeli-os, a RISC-V kernel with a small file system, and
proves what they keep over all inputs and runs:

* **Buddy frame allocator.** `Dyadic` has the arithmetic of power-of-two blocks, `BuddySpec` the
  allocator as a pure step function on lists of block indices, `BuddyRuns` the theorems about single
  steps and whole runs, and `BuddyAllocator` the class with head pointers and `next` words in memory,
  each method proved equal to its step. The free lists are a canonical form of the set of free pages.
* **Slab caches and the global allocator.** `SlabSpec` has slabs and chains as values,
  `SlabAllocator` the class `MemCache` with headers and object links in memory over the buddy class,
  `Dispatch` the heap made of the frames and thirteen caches, `HeapAlign` when its results are aligned,
  `HeapRuns` what callers may rely on over whole runs, `HeapReach` which results some run gives,
  `HeapChoice` which piece is given, when there is none, and how giving and taking back undo each other,
  `HeapWrites` what is written where, and `GlobalAllocator` the class in front of them.
* **File system.** `Codec` and `Bitmap` are the on-disk formats, `BlockCache` the write-back cache that
  refines a plain array of blocks, `FsSpec`, `FsData`, `FsMeta`, `FsGrow` and `FsFree` the disk as owned
  and free blocks, `FsLayout` where its parts are in the bytes of the device, `FsView` the disk seen as
  numbered nodes with bytes, `Tree` the operations on those
  nodes and what every run of them keeps, `Path` path walking, `FileSystem` the class over both caches,
  `Mkfs` formatting and opening, and `FsClients` sequences of calls from a blank device on.
* **Sv39 page tables.** `PageTable` has entries, walking, mapping, and translation by the process of
  section 4.3.2 of the RISC-V Privileged Architecture (version 20211203); `KernelSpace` builds the
  kernel's address space.

The pattern is the same throughout. A pure function says what a step does to a simple state. A class
in the source's own shape (heads, links, words, cached blocks, page-table entries) refines it: its
methods' postconditions equate the abstraction of the new state with that function of the old one.
Theorems about steps and runs are then proved of the functions. A pointer is an address with 0 for
`None`. Integers are unbounded; the widths that matter (bytes, 64-bit words on disk, 54-bit page-table
addresses) are explicit.

Where a promised property is false of the code, the code is modelled as it is and the exact condition
under which the property holds is proved. Where it takes a run to get there, such a run is given:

* Frees of counts that are not powers of two never merge (`BuddyRuns.FreeCanonicalIff`). Allocating and
  freeing three of eight pages leaves eight free pages that cannot be allocated together
  (`BuddyRuns.OddCountStrandsPages`).
* `free_slab` takes an emptied slab off the chain only at the head (`SlabSpec.FreeOwnedIff`,
  `SlabSpec.IntendedIff`, `Dispatch.DeallocSafeIff`). Two allocations of a page and the return of the
  first break every new heap (`HeapRuns.StaleSlabWitness`).
* The alignment assertion of the global allocator fails in some run from initialisation on exactly if a
  condition on size, alignment, and start and length of the managed range does not hold
  (`HeapReach.FailsIff`). Objects are aligned up to their size, or 8; a page-sized object lies a page into
  its slab and may be aligned to more. Larger results are aligned up to their size where the start of the
  range is. In a range with room for one slab or block its address decides (`HeapAlign.AlignedFor`). The
  first 8 bytes of a new heap are not aligned to 16 (`HeapRuns.SmallMisaligned`), and two pages are not
  aligned to their size where the range starts at an odd page (`HeapRuns.LargeMisaligned`).
* All files share index block 0, so at most one file can reach into the indirect range
  (`FsGrow.GrowByOneIff`, `FsGrow.SecondIndirectFileClobbers`, `FileSystem.FileSystem.ResizeInode`). From
  a blank device, a file of 29 blocks and a second one growing past 28 break the disk although every call
  succeeds (`FsClients.SecondBigFile`). A read that reaches into the indirect range blocks on the cache
  lock it already holds (`FileSystem.FileSystem.ReadInode`), and with it look-up, listing and path walking
  in directories of more than 3584 entries.
* A name with a NUL byte is cut when it is stored, which can give a directory two entries with the same
  name (`Tree.LinkKeepsIff`, `Tree.NulNameBreaks`; from a new image, `Mkfs.NulNameWitness`). A name of more
  than 24 bytes panics after the directory has grown (`FileSystem.FileSystem.CreateInode`).
* The inode cache drops copies that are in use, so a handle can go stale
  (`FileSystem.FileSystem.HandleStays`, and as a run `FsClients.StaleHandle`). Its `get` accepts the inode
  number one past the last, whose slot lies in the data bitmap (`FileSystem.LastSlotIsBitmap`).
* `map` computes the end of the range from the rounded-down start (`PageTable.MapCoversIff`). With enough
  frames, `kvm_make` meets the remap panic exactly when the end of the text is not page-aligned
  (`KernelSpace.KvmMake`).
* `create` panics exactly when the areas leave no room for data or there are no inode blocks
  (`Mkfs.Create`). Its inode bitmap has a bit for every inode exactly for up to 2048 inode blocks, or 4096
  (`Mkfs.InodeBitsIff`).

## Model

| member | source | states |
|---|---|---|
| `Bits.OrderIsLeast` | kernel/src/mem/allocator/mod.rs:99-101 | `order(n)` is the least exponent whose power of two is at least `n` |
| `Bits.XorShl` | kernel/src/mem/allocator/buddy_allocator.rs:152-153 | exclusive or commutes with shifting both operands, so the address trick works on block indices |
| `Bits.XorOne` | kernel/src/mem/allocator/buddy_allocator.rs:152-153 | flipping the lowest bit of an index gives the other half of the parent |
| `Dyadic.HoldsIsRange` | kernel/src/mem/allocator/buddy_allocator.rs:50-69 | the pages of a block of order o are a run of 2^o pages at a multiple of 2^o from the start |
| `Dyadic.TilesMerge` | kernel/src/mem/allocator/buddy_allocator.rs:146-192 | two buddies tile a range together with other blocks exactly when their parent does in their place |
| `Dyadic.CanonicalForm` | kernel/src/mem/allocator/buddy_allocator.rs:146-198 | two coalesced sets of disjoint blocks that cover the same pages are equal |
| `BuddySpec.SplitDownKeeps` | kernel/src/mem/allocator/buddy_allocator.rs:77-102 | halving down to an order leaves a block of that order and tiles the same pages |
| `BuddySpec.SplitDownCoalesced` | kernel/src/mem/allocator/buddy_allocator.rs:77-102 | splitting the smallest sufficient block leaves no two free buddies |
| `BuddySpec.CoalesceKeeps` | kernel/src/mem/allocator/buddy_allocator.rs:146-198 | merging upward keeps the tiling for any lists, and keeps the lists coalesced |
| `BuddyRuns.FreeOrLive` | kernel/src/mem/allocator/buddy_allocator.rs:40-75 | every managed page is either free or handed out, never both |
| `BuddyRuns.AllocSafe` | kernel/src/mem/allocator/buddy_allocator.rs:106-132 | an allocation hands out one new block of the order of the count, all of whose pages were free, and exactly those pages stop being free; a failed one changes nothing |
| `BuddyRuns.AllocCanonical` | kernel/src/mem/allocator/buddy_allocator.rs:106-132 | allocation keeps the free blocks coalesced |
| `BuddyRuns.AllocComplete` | kernel/src/mem/allocator/buddy_allocator.rs:106-132 | in coalesced states an allocation fails exactly when no aligned run of free pages of the rounded-up size exists |
| `BuddyRuns.AllocTakes` | kernel/src/mem/allocator/buddy_allocator.rs:77-132 | an allocation takes the head of the first list with a block that is large enough and keeps its first part; a free block of the exact order is taken as it is; the rest goes in front of the lists in between, one block each; it fails exactly for zero pages or when no such list has a block, and then nothing changes |
| `BuddyRuns.TakenBlocks` | kernel/src/mem/allocator/buddy_allocator.rs:77-132 | of the free blocks exactly the one taken goes, and it is of the smallest order that is enough; the ones that come are its later parts, one of each order in between |
| `BuddyRuns.FreeSafe` | kernel/src/mem/allocator/buddy_allocator.rs:134-199 | a free of any count makes exactly the pages of the block free and keeps the tiling; a bad count changes nothing |
| `BuddyRuns.FreeMerges` | kernel/src/mem/allocator/buddy_allocator.rs:134-199 | a power-of-two count merges the block with its buddies as far as they are free and puts the result in front of its list; any other count puts the block itself there; zero and counts past the largest list change nothing |
| `BuddyRuns.AllocThenFree` | kernel/src/mem/allocator/buddy_allocator.rs:106-199 | on coalesced lists, freeing what was just allocated restores every list in its order |
| `BuddyRuns.LastFreedFirst` | kernel/src/mem/allocator/buddy_allocator.rs:106-199 | a block that was freed without merging is the next one allocated of its order |
| `BuddyRuns.FreeCanonicalIff` | kernel/src/mem/allocator/buddy_allocator.rs:134-153 | a free keeps the lists coalesced exactly when the count is a power of two, the block is of the top order, or its buddy is not free |
| `BuddyRuns.RunSafe` | kernel/src/mem/allocator/buddy_allocator.rs:106-199 | after every run, whatever the counts, free and handed-out blocks tile the range and no two blocks in use share a page |
| `BuddyRuns.RunCanonical` | kernel/src/mem/allocator/buddy_allocator.rs:106-199 | a run whose frees pass powers of two stays coalesced |
| `BuddyRuns.FreeBlocksForgetHistory` | kernel/src/mem/allocator/buddy_allocator.rs:106-199 | after any two such runs with the same free pages the free blocks are the same |
| `BuddyRuns.GivingBackRestores` | kernel/src/mem/allocator/buddy_allocator.rs:50-69 | giving everything back restores exactly the free blocks that initialisation built |
| `BuddyRuns.OddCountStrandsPages` | kernel/src/mem/allocator/buddy_allocator.rs:134-153 | a run of one allocation and one free of three pages after which all eight pages are free but eight cannot be allocated |
| `BuddyAllocator.PushLinks` | kernel/src/mem/allocator/buddy_allocator.rs:194-198 | writing one word and one head puts a block in front of its list and leaves every list linked |
| `BuddyAllocator.UnlinkMiddle` | kernel/src/mem/allocator/buddy_allocator.rs:156-178 | redirecting one `next` word removes exactly the found block and leaves every list linked |
| `BuddyAllocator.BuddyAddrOfPow2` | kernel/src/mem/allocator/buddy_allocator.rs:152-153 | for a power-of-two count the exclusive-or address is that of the buddy |
| `BuddyAllocator.BuddyAddrOfOther` | kernel/src/mem/allocator/buddy_allocator.rs:152-153 | for any other count it is the address of no block of that order, so no wrong buddy is ever matched |
| `BuddyAllocator.BuddyAllocator.Search` | kernel/src/mem/allocator/buddy_allocator.rs:156-178 | the list walk ends, finds the block at an address if it is there with the block before it, and otherwise shows it is absent |
| `BuddyAllocator.BuddyAllocator.UnlinkFound` | kernel/src/mem/allocator/buddy_allocator.rs:164-178 | unlinking at the head or in the middle removes exactly that block and writes into no block outside the lists |
| `BuddyAllocator.BuddyAllocator.SplitBlock` | kernel/src/mem/allocator/buddy_allocator.rs:77-102 | the loop over the halves equals splitting on values and writes into no block in use |
| `BuddyAllocator.BuddyAllocator.AllocPages` | kernel/src/mem/allocator/buddy_allocator.rs:106-132 | the method equals the allocation step for every count, bad ones included, keeps the lists linked, and writes into no block in use, and outside the blocks only the first words of pages; a failed one writes nothing |
| `BuddyAllocator.BuddyAllocator.TakeBuddy` | kernel/src/mem/allocator/buddy_allocator.rs:150-192 | the buddy is taken off its list exactly when the count is a power of two and it is free, and the smaller address is the parent's |
| `BuddyAllocator.BuddyAllocator.FreePages` | kernel/src/mem/allocator/buddy_allocator.rs:134-199 | the method equals the free step; bad counts and addresses outside the range write nothing; no block still in use is written |
| `BuddyAllocator.BuddyAllocator.TileRange` | kernel/src/mem/allocator/buddy_allocator.rs:50-69 | the greedy loop tiles any number of pages with coalesced free blocks, later ones in front |
| `BuddyAllocator.BuddyAllocator.Init` | kernel/src/mem/allocator/buddy_allocator.rs:40-75 | after initialisation the whole range, from the first page boundary in it to the last, is free, tiled and coalesced, with later blocks in front |
| `SlabSpec.ObjectsFit` | kernel/src/mem/allocator/slab_allocator.rs:88-108 | every object lies between the header and the end of the two pages |
| `SlabSpec.ObjectsDisjoint` | kernel/src/mem/allocator/slab_allocator.rs:30-45 | different objects of a slab do not overlap |
| `SlabSpec.SlabIsFilled` | kernel/src/mem/allocator/slab_allocator.rs:88-108 | the first object is at the first aligned place behind the header, and as many follow as fit |
| `SlabSpec.AlignedIff` | kernel/src/mem/allocator/slab_allocator.rs:88-108 | all objects are aligned exactly when there is one or the size is a multiple of the alignment |
| `SlabSpec.ActiveIsLive` | kernel/src/mem/allocator/slab_allocator.rs:47-62 | the count of active objects is zero exactly when nothing of the slab is handed out |
| `SlabSpec.TakeOk` | kernel/src/mem/allocator/slab_allocator.rs:47-53 | taking hands out one object that was not in use and keeps free plus active equal to the total |
| `SlabSpec.GiveOk` | kernel/src/mem/allocator/slab_allocator.rs:55-62 | giving back makes exactly that object free again and keeps the total |
| `SlabSpec.TakeUndoesGive` | kernel/src/mem/allocator/slab_allocator.rs:47-62 | taking after giving back gives the same object and the same slab, so the object freed last is the next to go |
| `SlabSpec.AllocOk` | kernel/src/mem/allocator/slab_allocator.rs:110-130 | an allocation takes a new slab only if all slabs are full, and at most one, keeps the chain in order, and fails only without a frame |
| `SlabSpec.FreeOwnedIff` | kernel/src/mem/allocator/slab_allocator.rs:132-159 | after a free the chain consists of frames still held exactly when no slab behind the head was emptied |
| `SlabSpec.FreeOk` | kernel/src/mem/allocator/slab_allocator.rs:161-178 | a slab is given back only when the freed object was its last one in use |
| `SlabSpec.IntendedIff` | kernel/src/mem/allocator/slab_allocator.rs:146-157 | the code removes the emptied slab, as it is meant to, exactly when that slab is the head |
| `SlabAllocator.PushObject` | kernel/src/mem/allocator/slab_allocator.rs:33-38 | writing an object's `next` word puts it in front of the linked free list |
| `SlabAllocator.ReplaceSlab` | kernel/src/mem/allocator/slab_allocator.rs:47-62 | changing one slab's header and its objects' words leaves every other slab and the chain linked |
| `SlabAllocator.FirstObjectOffset` | kernel/src/mem/allocator/slab_allocator.rs:92-103 | rounding the header end up at a page-aligned slab gives the same offset in every slab and room for the counted objects |
| `SlabAllocator.MemCache.constructor` | kernel/src/mem/allocator/slab_allocator.rs:76-86 | a new cache has an empty chain |
| `SlabAllocator.MemCache.InitObjects` | kernel/src/mem/allocator/slab_allocator.rs:30-45 | the loop links all objects, last one first, and writes only between the bounds of the slab |
| `SlabAllocator.MemCache.AllocSlab` | kernel/src/mem/allocator/slab_allocator.rs:88-108 | either two pages leave the frame allocator and become a new slab at the head, or nothing changes |
| `SlabAllocator.MemCache.TakeObject` | kernel/src/mem/allocator/slab_allocator.rs:47-53 | equals taking on values, or returns nothing from a full slab |
| `SlabAllocator.MemCache.ScanSlabs` | kernel/src/mem/allocator/slab_allocator.rs:112-122 | the walk ends at the first slab with a free object, if any |
| `SlabAllocator.MemCache.Alloc` | kernel/src/mem/allocator/slab_allocator.rs:110-130 | the loop ends after at most one new slab and equals the allocation step on frames, chain and blocks together; it writes words of a new slab, headers on the chain, and no word of a block in use; a failed one writes nothing |
| `SlabAllocator.MemCache.GiveObject` | kernel/src/mem/allocator/slab_allocator.rs:55-62 | equals giving back on values and keeps every list linked |
| `SlabAllocator.MemCache.FreeSlab` | kernel/src/mem/allocator/slab_allocator.rs:132-159 | the two pages go back to the frame allocator; the head is unlinked; a slab behind it stays on the chain although its pages are free, the head pointer stays and every other slab stays linked |
| `SlabAllocator.MemCache.FindSlab` | kernel/src/mem/allocator/slab_allocator.rs:161-178 | the walk finds the one slab between whose bounds the object lies |
| `SlabAllocator.MemCache.Free` | kernel/src/mem/allocator/slab_allocator.rs:161-178 | equals the free step on frames, chain and blocks; an address in no slab writes nothing; it writes the word of the object, the header of its slab, and no word of a block still in use; the cache stays in order unless a slab behind the head was emptied, and then every other slab stays linked and the head pointer stays |
| `Dispatch.Conf` | kernel/src/mem/allocator/slab_allocator.rs:187-206 | the thirteen caches serve 8 bytes up to order 3 and 2^order bytes above, aligned to their size |
| `Dispatch.PiecesDisjoint` | kernel/src/mem/allocator/mod.rs:34-59 | any two pieces of memory in use, objects or page blocks, occupy disjoint addresses |
| `Dispatch.AllocSafe` | kernel/src/mem/allocator/mod.rs:34-59 | an allocation of any size adds one new piece of the layer and order of that size and changes no other; a failed one changes nothing |
| `Dispatch.DeallocSafe` | kernel/src/mem/allocator/mod.rs:61-71 | a free that empties no slab behind the head removes exactly that piece |
| `Dispatch.DeallocSafeIff` | kernel/src/mem/allocator/slab_allocator.rs:132-159 | a free keeps the heap in order exactly when it empties no slab behind the head of its chain |
| `Dispatch.RoomFor` | kernel/src/mem/allocator/mod.rs:34-46 | the order and page count computed from a size give a piece with room for it, less than twice as large unless it is one of 8 bytes; the page count is the least with room |
| `HeapAlign.AlignIff` | kernel/src/mem/allocator/mod.rs:54-56 | all objects of a cache are aligned to a power of two up to a page exactly when it is at most the size of the cache, or 8 |
| `HeapAlign.BlockAlignIff` | kernel/src/mem/allocator/buddy_allocator.rs:50-69 | the address of a page block is a multiple of a power of two up to the size of the block exactly when the start of the range is |
| `HeapAlign.PossibleAligned` | kernel/src/mem/allocator/mod.rs:54-56 | every result for a size within the range is aligned where the condition on size, alignment, and start and length of the range holds |
| `HeapAlign.AlignedIffAll` | kernel/src/mem/allocator/mod.rs:54-56 | for every size, every power-of-two alignment, every page-aligned start and every length of the range: all results possible in it are aligned exactly when the condition holds |
| `HeapRuns.FreshHeap` | kernel/src/mem/allocator/slab_allocator.rs:187-206 | free frames with thirteen empty caches are where runs start |
| `HeapRuns.RunSafe` | kernel/src/mem/allocator/mod.rs:34-71 | in every run that empties only head slabs, each deallocation matches its allocation, and all memory in use is in range, aligned where the condition holds, and pairwise disjoint over the sizes asked for |
| `HeapRuns.RunTidy` | kernel/src/mem/allocator/mod.rs:34-71 | such a run with power-of-two page counts keeps the frames coalesced and no slab without an object in use |
| `HeapRuns.GivingBackRestores` | kernel/src/mem/allocator/mod.rs:34-71 | once such a run has returned everything, all caches are empty and the free blocks are exactly those of initialisation |
| `HeapReach.Comes` | kernel/src/mem/allocator/mod.rs:34-59 | asking a heap that serves only one size for it again and again gives every piece of that size within the range |
| `HeapReach.FailsIff` | kernel/src/mem/allocator/mod.rs:54-56 | the alignment assertion fails after some run on a new heap exactly if the condition does not hold |
| `HeapChoice.AllocFailsIff` | kernel/src/mem/allocator/mod.rs:34-59 | an allocation fails exactly when no object of the size is free and no free block is large enough, of two pages for a slab or of the order of the page count; on coalesced frames exactly when no aligned run of free pages is long enough |
| `HeapChoice.AllocChoice` | kernel/src/mem/allocator/mod.rs:34-59 | which piece it is: a block taken as the frame allocator does; the object freed last of the first slab that has one; only if none has, the last object of a new slab in front |
| `HeapChoice.GetThenReturn` | kernel/src/mem/allocator/mod.rs:34-71 | with coalesced frames, no slab without an object in use and a power-of-two page count, returning what was just allocated restores the frames and all chains in their order |
| `HeapChoice.ReturnThenGet` | kernel/src/mem/allocator/slab_allocator.rs:110-178 | a block returned without merging, or an object returned without emptying its slab while no slab before it has a free one, is what the next allocation of the size gives, and the heap is as before |
| `HeapRuns.StaleSlabWitness` | kernel/src/mem/allocator/slab_allocator.rs:132-159 | on every new heap of four pages or more, two callers get a page each and the return of the first leaves a chain with a slab whose pages are free |
| `HeapRuns.SmallMisaligned` | kernel/src/mem/allocator/mod.rs:54-56 | on every new heap the first allocation of 8 bytes is object 1018 of its slab, at 8 modulo 16 |
| `HeapRuns.LargeMisaligned` | kernel/src/mem/allocator/mod.rs:54-56 | on a new heap whose range starts at an odd page, an allocation of two pages is not aligned to its size |
| `HeapWrites.BlockSpared` | kernel/src/mem/allocator/buddy_allocator.rs:106-199 | what the frame allocator writes lies in no piece whose block stays in use |
| `HeapWrites.HeaderApart` | kernel/src/mem/allocator/slab_allocator.rs:30-45 | the header of a slab reaches into no piece in use |
| `HeapWrites.OthersStayInUse` | kernel/src/mem/allocator/mod.rs:61-71 | returning a piece keeps the block of every other piece in use, even if a slab behind the head is emptied |
| `GlobalAllocator.GlobalAllocator.constructor` | kernel/src/mem/allocator/slab_allocator.rs:187-206 | cache o is configured for order o and all caches share one frame allocator |
| `GlobalAllocator.GlobalAllocator.Init` | kernel/src/mem/allocator/mod.rs:77-79 | after initialisation the heap is empty over the range from the first page boundary to the last, with later blocks in front of the lists |
| `GlobalAllocator.GlobalAllocator.Alloc` | kernel/src/mem/allocator/mod.rs:34-59 | the result is the address of the piece the heap step hands out; it is null exactly when the heap is exhausted for the size, on coalesced frames exactly when no aligned run of free pages is long enough, and then nothing is written; no word or header inside a piece in use changes; the alignment assertion fails exactly on an unaligned result, and never where the condition on size, alignment and range holds |
| `GlobalAllocator.GlobalAllocator.Dealloc` | kernel/src/mem/allocator/mod.rs:61-71 | equals the heap step for the piece at that address, changes no word or header inside any other piece in use, and keeps the heap in order unless a slab behind the head is emptied; then every slab but that one stays linked |
| `Codec.PutWordAt` | fs/src/block_dev.rs:287-308 | writing one index word changes that word only |
| `Codec.DecodeEncodeInode` | fs/src/block_dev.rs:218-258 | an inode is read back as it was written |
| `Codec.DecodeZeroInode` | fs/src/block_dev.rs:218-258 | a zeroed slot is an unused inode of size 0 |
| `Codec.PutSlotGet` | fs/src/block_dev.rs:131-135 | writing one inode slot of a block changes that slot only |
| `Codec.PutSuperGet` | fs/src/block_dev.rs:83-130 | the super block is read back as it was written |
| `Codec.DecodeEncodeEntry` | fs/src/block_dev.rs:181-208 | a directory entry is read back with its name cut at the first NUL, and unchanged exactly when the name has none |
| `Codec.InodeFields` | fs/src/block_dev.rs:218-258 | an inode is its kind in the first byte and 31 little-endian words from byte 8 on: index block, links, size, and the direct blocks |
| `Codec.SuperFields` | fs/src/block_dev.rs:83-130 | the super block is eight little-endian words in the order of its fields |
| `Codec.EntryFields` | fs/src/block_dev.rs:181-208 | a directory entry is the inode number as a little-endian word, then the name up to a NUL byte or the end |
| `Bitmap.ByteIsFull` | fs/src/block_dev.rs:145-158 | a byte is 0xff exactly when all eight of its bits are set |
| `Bitmap.SetBitExact` | fs/src/block_dev.rs:145-158 | setting a bit changes no other |
| `Bitmap.Allocate` | fs/src/block_dev.rs:145-158 | the least clear bit is found and set; nothing is returned exactly when all bits are set |
| `Bitmap.Free` | fs/src/block_dev.rs:160-170 | exactly the given bit is cleared |
| `BlockCache.BlockCache.Sync` | fs/src/block_cache.rs:72-79 | a modified copy is written to its block, an unmodified one is not |
| `BlockCache.BlockCacheBuffer.FindUnpinned` | fs/src/block_cache.rs:115-121 | the first copy without a handle is the one to evict |
| `BlockCache.BlockCacheBuffer.Evict` | fs/src/block_cache.rs:113-123 | evicting writes to the device exactly the evicted copy, if it was modified, and keeps the logical disk |
| `BlockCache.BlockCacheBuffer.Get` | fs/src/block_cache.rs:105-139 | the one copy of the block with the logical contents; it fails exactly when the block is not cached and every copy is pinned in a full buffer; a hit does not reorder, a miss drops the first unpinned copy of a full buffer and appends; the logical disk is unchanged; the device is written only when a copy is dropped, with exactly that copy |
| `BlockCache.BlockCacheBuffer.Store` | fs/src/block_cache.rs:51-69 | writing through a live handle updates exactly that block of the logical disk, and marks the copy modified |
| `BlockCache.BlockCacheBuffer.SyncOne` | fs/src/block_cache.rs:72-79 | after a sync the device holds the logical contents of that block, no other block of it is written, and the copy is unmodified |
| `BlockCache.BlockCacheBuffer.Flush` | fs/src/block_cache.rs:141-145 | after a flush the device equals the logical disk, and a cache with nothing modified leaves the device alone |
| `FsData.WritePiece` | fs/src/block_dev.rs:352-386 | overwriting part of one owned block splices that file's bytes, keeps zeros past its end, and changes no other file |
| `FsSpec.BlocksForIsLeast` | fs/src/lib.rs:447-464 | the blocks of a size are the least number with room for it |
| `FsLayout.InodeOnDisk` | fs/src/block_dev.rs:131-135 | inode i is in block i / 16 of the inode area at byte 256 * (i % 16), its fields in the bytes from there on |
| `FsLayout.FileOnDisk` | fs/src/block_dev.rs:265-284 | byte k of a file is byte k % 4096 of the block whose number is entry k / 4096 of the 28 in the inode, or past them of the index block it names |
| `FsLayout.BitOnDisk` | fs/src/block_dev.rs:145-158 | bit g of a bitmap is bit g % 8, counted from the lowest, of byte g / 8 |
| `FsMeta.MarkDataBit` | fs/src/lib.rs:243-257 | setting a data bitmap bit changes no file and marks exactly that block |
| `FsMeta.ClearUnowned` | fs/src/lib.rs:536-543 | zeroing a block no file owns changes no file |
| `FsMeta.PutInodeAtGet` | fs/src/lib.rs:282-301 | writing one inode changes that inode only, across blocks and slots |
| `FsMeta.PutSize` | fs/src/lib.rs:303-307 | raising the size within the owned blocks appends zeros to that file and changes no other |
| `FsMeta.PutFresh` | fs/src/block_dev.rs:250-258 | initialising an inode empties that file and changes no other |
| `FsGrow.GrowByOne` | fs/src/lib.rs:463-482 | entering a spare zeroed block keeps all contents, keeps blocks unshared, and changes no other file |
| `FsGrow.GrowByOneIff` | fs/src/block_dev.rs:287-308 | that holds exactly in the direct range or when no other file reaches into the indirect range |
| `FsGrow.SecondIndirectFileClobbers` | fs/src/block_dev.rs:287-308 | otherwise the other file's bytes behind the shared index read as zero |
| `FsFree.MarkFree` | fs/src/lib.rs:223-257 | setting a bit of the data bitmap takes exactly that block from the free ones, and none if the bit is past the data blocks |
| `FsFree.TwoBigFilesShare` | fs/src/block_dev.rs:265-308 | a disk with two files past the direct range is never in order |
| `FsView.WrittenView` | fs/src/block_dev.rs:352-386 | a series of piecewise writes is one splice of the file as users see it |
| `FsView.MarkInodeBit` | fs/src/lib.rs:193-220 | setting an inode bitmap bit marks exactly that inode used and changes no file |
| `FileSystem.FileSystem.AllocateBmap` | fs/src/lib.rs:243-257 | over a run of bitmap blocks the least clear bit is set; nothing is returned exactly when all are set |
| `FileSystem.FileSystem.GetInode` | fs/src/inode.rs:32-78 | the one cached copy of the inode, equal to the inode on disk and new exactly when no kept copy has the number, moves to the front; a full cache first drops its last copy, even on a hit; at most one copy per number; a number greater than the count of inodes is refused |
| `FileSystem.FileSystem.HandleStays` | fs/src/inode.rs:32-78 | after `get` a handle held before is still the one copy of its inode exactly if another number was asked for or its copy was kept |
| `FileSystem.LastSlotIsBitmap` | fs/src/inode.rs:32-78 | the slot of inode number `max_inode_num`, which `get` accepts, is in the data bitmap |
| `FileSystem.FileSystem.UpdateDInode` | fs/src/lib.rs:282-301 | the inode on disk and its cached copy change together and every other inode stays as it was |
| `FileSystem.FileSystem.GetBid` | fs/src/block_dev.rs:265-284 | the block number the inode or its index block holds |
| `FileSystem.FileSystem.WriteInode` | fs/src/block_dev.rs:352-386 | the file is spliced at the offset with as much of the buffer as fits before its end, nothing else a user sees changes and no block is taken; the subtraction overflows exactly for offsets past the end, and then nothing changes |
| `FileSystem.FileSystem.ReadInode` | fs/src/block_dev.rs:313-347 | the bytes from the offset clipped to the size; the subtraction overflows exactly for offsets past the end, and the call blocks on its own lock exactly when the bytes reach into the indirect range |
| `FileSystem.FileSystem.AllocateDataBlock` | fs/src/lib.rs:223-241 | the least data block not in use is marked and returned; nothing is returned only when all are in use |
| `FileSystem.FileSystem.ClearBlock` | fs/src/lib.rs:536-543 | the block is zeroed in the cache and on the device |
| `FileSystem.FileSystem.GrabBlock` | fs/src/lib.rs:463-475 | the least free block is taken and zeroed without changing any inode, or there is none exactly when no block is free |
| `FileSystem.FileSystem.AddBlock` | fs/src/lib.rs:463-482 | one more block for the file, the least free one, exactly if one is free; every file stays as it was while blocks are unshared |
| `FileSystem.FileSystem.ResizeInode` | fs/src/lib.rs:432-491 | each result exactly characterised, full meaning fewer free blocks than the size needs; success uses exactly as many, the least free ones; a size too large or smaller changes nothing; in the direct range, or for the only file past it, success appends only zeros and failure changes no file; for any other file past it, success breaks the disk |
| `FileSystem.ResizeBlocks` | fs/src/lib.rs:447-462 | the three cases of the block count add exactly the blocks the new size needs |
| `FileSystem.FileSystem.AllocateInode` | fs/src/lib.rs:193-220 | the least inode number not in use becomes an empty node of the kind; it fails exactly when all inodes with a bit are in use, and then at most a bit past the inode table is set; handles of inodes in use stay usable |
| `FileSystem.FileSystem.LookUp` | fs/src/lib.rs:309-341 | the node of the first entry with the name, or nothing exactly when there is none; it blocks exactly when the scan has to read past 3584 entries; handles of other nodes stay usable |
| `FileSystem.FileSystem.ListChildren` | fs/src/lib.rs:343-365 | the names in creation order; it blocks exactly with more than 3584 entries |
| `FileSystem.FileSystem.CreateInode` | fs/src/lib.rs:368-412 | each of seven results exactly characterised before the call: success enters one fresh empty node of the kind with one link, the least number not in use, at the end of the directory, takes exactly the block the entry needs, and keeps the tree in order exactly when the directory lacked the name as stored; failures leave the tree, leak one inode, or panic after growing the directory; handles of other nodes stay usable |
| `FileSystem.FileSystem.GetInodeFromPath` | fs/src/lib.rs:493-517 | equals folding look-up over the components of the path; an empty path gives the start, a path of slashes nothing; it blocks exactly when a look-up on the way does; handles of nodes not on the way stay usable |
| `Tree.AppendEntry` | fs/src/lib.rs:396-404 | appending an encoded entry to a directory's bytes appends exactly that entry, its name cut at a NUL |
| `Tree.Find` | fs/src/lib.rs:309-341 | the first entry with the name, or nothing exactly when no entry has it |
| `Tree.LinkRefers` | fs/src/lib.rs:392-407 | entering a node adds one entry at the end of that directory and no other reference anywhere |
| `Tree.LinkKeepsIff` | fs/src/lib.rs:368-412 | entering a node keeps names unique and the tree in order exactly when the directory lacks the name as stored |
| `Tree.NulNameBreaks` | fs/src/lib.rs:368-412 | whenever a directory holds a name, creating it with a NUL and more behind it passes the check for an existing entry and breaks the tree |
| `Tree.RunKeeps` | fs/src/lib.rs:368-491 | every run of writes, growths, allocations and creations keeps the directories a forest with unique names, at most one reference per node, and link counts equal to references |
| `Tree.RunExtends` | fs/src/lib.rs:343-412 | after every run a directory holds what it held before followed by exactly what the run created in it, in order |
| `Tree.FoundIffCreated` | fs/src/lib.rs:309-412 | after every run a name is found exactly if it was there before or was created in the run; a name found once is found at the same entry ever after; the names list in creation order |
| `Path.Skip` | fs/src/lib.rs:560-582 | splits off the first non-empty component; nothing exactly when there is none; the rest is shorter and starts with no slash |
| `Path.TargetStep` | fs/src/lib.rs:493-517 | resolving a path is looking up its first component in a directory and resolving the rest from there |
| `Path.WalkGoesDown` | fs/src/lib.rs:493-517 | in a tree in order every component leads to a larger inode number, so no path returns to where it was |
| `Path.VisitedAbove` | fs/src/lib.rs:493-517 | a walk asks only for nodes with larger numbers than its start, so handles of the start and of nodes before it stay usable |
| `Path.EnteredIsFound` | fs/src/lib.rs:368-517 | a node entered under a good name without a slash is what the path of that name leads to, unless the directory has 3584 entries or more |
| `Mkfs.LayoutOfCreate` | fs/src/lib.rs:76-114 | `create` accepts exactly the sizes for which there is a layout without gaps that ends at the total, with the shortest bitmaps of more bits than blocks and of more bytes than inode blocks, and computes the only one |
| `Mkfs.InodeBitsIff` | fs/src/lib.rs:82-83 | the inode bitmap has a bit for every inode exactly for up to 2048 inode blocks, or 4096 |
| `Mkfs.FindInodeInjective` | fs/src/block_dev.rs:131-135 | different inode numbers have different places |
| `Mkfs.Open` | fs/src/lib.rs:122-141 | reads the super block without changing the device and fails exactly on a wrong magic number when asked to check; both caches are empty, of 64 entries |
| `Mkfs.Format` | fs/src/lib.rs:149-172 | everything between super block and data is zero, the super block is written, and the cache that did it has nothing left to write |
| `Mkfs.InitFs` | fs/src/lib.rs:149-190 | the device holds exactly the empty root at inode 0 and a zero data bitmap although two caches write back when dropped; data blocks are untouched |
| `Mkfs.Create` | fs/src/lib.rs:54-120 | the opened file system is in order, has an empty root directory and no data block in use; it panics exactly when the areas leave no room for data or there are no inode blocks |
| `Mkfs.Reopen` | fs/src/lib.rs:122-141 | after whatever calls, flushing and opening the device again gives the same super block and the same disk |
| `Mkfs.NulNameWitness` | fs/src/lib.rs:368-412 | on every new image, creating "a" and then "a", NUL, "b" is let through and gives two entries of one name |
| `Mkfs.AllocateInOrder` | fs/tests/fs_test.rs:21-30 | successive allocations on a new image give all data blocks in order and then nothing ever after |
| `FsClients.AllFree` | fs/src/lib.rs:54-120 | on a new image as many blocks are free as there are data blocks |
| `FsClients.CreateAndFind` | fs/src/lib.rs:368-517 | creating under a good name without a slash and walking the path of that name gives the node just created; walking blocks exactly if the directory had filled its direct range |
| `FsClients.FirstFile` | fs/tests/fs_test.rs:33-43 | from a blank device with a data block, formatting, opening, creating and walking all succeed and end at the new node |
| `FsClients.WriteReadBack` | fs/tests/fs_test.rs:58-64 | reading a range just written gives the bytes written; it blocks exactly if some are past the direct range |
| `FsClients.TwoOpenFiles` | fs/tests/fs_test.rs:45-64 | two files created in a directory, filled and read while both are open give back their bytes, exactly if the names are new and differ and there are inodes and blocks for all of it |
| `FsClients.Persist` | fs/src/lib.rs:122-141 | a file created and filled is found by its path with its bytes after flushing and opening the device again, exactly if the name is new and there is room |
| `FsClients.SecondBigFile` | fs/src/lib.rs:432-491 | from a blank device of 58 data blocks or more, growing a second file past 28 blocks succeeds and leaves a disk that is not in order |
| `FsClients.StaleHandle` | fs/src/inode.rs:32-78 | with an empty cache, asking for one inode, for as many others as the cache holds, and for the first again gives a second copy, and the first handle is stale |
| `PageTable.PteRoundTrip` | kernel/src/mem/page/page_table.rs:71-82 | address, rounded down to a page, and flags are read back from an entry |
| `PageTable.TranslateIsLeaf` | kernel/src/mem/page/page_table.rs:192-226 | translation by the architecture's process is decided by the level-0 entry of the page |
| `PageTable.GrowTree` | kernel/src/mem/page/page_table.rs:211-216 | hanging an empty table under an empty entry keeps the tree and every leaf |
| `PageTable.GrowHung` | kernel/src/mem/page/page_table.rs:211-216 | hanging a table keeps every other table reached from the root where its place says, so no table is lost |
| `PageTable.LeafWrite` | kernel/src/mem/page/page_table.rs:178-189 | writing one leaf changes the entry of that page only |
| `PageTable.AddressSpace.Walk` | kernel/src/mem/page/page_table.rs:192-226 | returns the level-0 entry of the page, with or without allocating, and changes no leaf; allocating adds exactly the missing ones of the two tables the page needs, each in a frame from the front of the pool, and fails only when none is left and one is missing |
| `PageTable.AddressSpace.Map` | kernel/src/mem/page/page_table.rs:156-190 | the pages up to where it stops are mapped to consecutive frames with the flags and no other entry changes; it stops at the first page that was mapped, the remap panic, or at the first for whose tables the pool has too few frames; new tables lie exactly in the frames taken from the front of the pool |
| `PageTable.NeedRangeIs` | kernel/src/mem/page/page_table.rs:192-226 | the tables a range of pages needs are one per 512 pages it meets and one per 262144 |
| `PageTable.MapCoversIff` | kernel/src/mem/page/page_table.rs:174-176 | the mapped pages cover the requested bytes exactly when start offset and length fit, as they do for page-aligned starts |
| `PageTable.MappedTranslates` | kernel/src/mem/page/page_table.rs:156-190 | an address of a mapped page translates to its frame plus offset with the flags, if they are leaf flags the architecture allows, and to nothing otherwise |
| `PageTable.SameLeafSameTranslation` | kernel/src/mem/page/page_table.rs:156-226 | pages with the same entry translate the same, so walking and mapping elsewhere change no translation |
| `KernelSpace.MappingsDisjoint` | kernel/src/mem/mod.rs:62-106 | with page-aligned text the five mapped ranges do not overlap |
| `KernelSpace.AllTables` | kernel/src/mem/mod.rs:62-106 | wherever the text ends and the trampoline lies, the five mappings need the same tables |
| `KernelSpace.HundredTables` | kernel/src/mem/mod.rs:62-106 | these are one hundred besides the root |
| `KernelSpace.TextTablesAre` | kernel/src/mem/mod.rs:62-106 | the text needs one middle table and one per 2 MiB it meets |
| `KernelSpace.KvmMake` | kernel/src/mem/mod.rs:62-106 | with page-aligned text the five mappings build exactly the kernel table if and only if there are a hundred frames for tables; otherwise the remap panic is met if and only if there are frames for the tables of the text; the root is the given one, and the other tables lie exactly in the frames taken from the pool |
| `KernelSpace.KernelTranslates` | kernel/src/mem/mod.rs:62-106 | translation is the identity on text, memory, VirtIO and PLIC with their flags, plus the trampoline page, and undefined elsewhere |

## Left out

- Drivers, PLIC, timer, traps, SBI calls and assembly: they are device and CPU behaviour.
- Locks, interrupts and parallelism: the steps are sequential; the self-deadlock of a read in the indirect range is a result of `ReadInode`.
- Task list, context switch, `OnceCell`, logging, console, the `mkfs` command line and the user crate: plumbing with little state.
- `user_vm_init`, `make_satp` and the raw memory macros of kernel/src/mem/address.rs: they would add only single-expression members.
- Device errors: the block cache ignores them, so the device is total.
- Address wrap-around: addresses are unbounded; nothing wraps as long as the managed range ends below 2^64 - 2^27.
- Memory words: the buddy allocator and the slab caches keep their link words in separate maps. `GlobalAllocator.Alloc` and `Dealloc` prove that neither writes into a piece in use; the buddy allocator writes into no block in use, slabs included, and the caches write only into slabs. The word a slab cache reads of a frame it has just given back (`next`, at offset 32) is not the first word of a page, and `BuddyAllocator.Untouched` says that the buddy allocator writes only those.
- Blocks, bitmap bytes and read buffers: they are values that methods return, so aliasing of buffers is not modelled. A block that is read, changed and written back is fetched from the cache twice instead of held by one handle.
- Non-ASCII paths: paths and names are byte sequences.
- BuddyAllocator.BuddyAllocator.Init: start address 0 is excluded because a pointer 0 is `None`, and a range without a whole page is left out.
- SlabAllocator.MemCache.FreeSlab: a slab given back from behind the head stays on the chain, but its free list is not claimed to be in memory any more, because the frame allocator may overwrite it.
- SlabAllocator.MemCache.Free: for the same reason only the other slabs are claimed to be linked after such a free.
- Codec.InodeFields: the seven bytes between the kind and the next field are written as zeros; in the source they are padding.
- HeapRuns.RunSafe: runs that empty a slab behind the head are excluded; after one the heap is not in order, see `Dispatch.DeallocSafeIff`.
- FileSystem.FileSystem.CreateInode: a directory of exactly 28 full blocks must be the only file that goes past the direct range; with another one there its growth breaks the disk, see `FileSystem.FileSystem.ResizeInode`.
- FileSystem.FileSystem.GetInode: a cached copy with the inode number one past the last is not claimed to stay equal to its slot, which is part of the data bitmap.
- FileSystem.FileSystem.ResizeInode: what the files hold after a second one has gone past the direct range is stated only by `FsGrow.SecondIndirectFileClobbers`.
- Tree.RunKeeps: raw writes into and resizes of directories by users are excluded; the source does not prevent them, and they can break any entry.
- FileSystem.FileSystem.AllocateDataBlock: a bit past the data blocks may be set when it fails, as in the source; which one is a ghost result.
- Path.Skip: works on bytes, not on `str` slices.
- PageTable.TranslateFrom: leaves out the check of the access type and the A and D bits, which `map` never sets; the flags are part of the result instead.
- KernelSpace.KvmMake: frames for tables come from a given pool of distinct page-aligned addresses instead of the global allocator.
