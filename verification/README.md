# Memory managers, data structures and library code of a small ARM kernel, in Dafny

The repository is a teaching kernel for 32-bit ARM together with a small user C library. This project models the parts of it
whose correctness is hard to see from the code, and proves what they promise.

* **Physical memory manager and page tables** (`SliceLists.dfy`, `Pmm.dfy`, `PmmRegions.dfy`, `Mmu.dfy`, `Vm2.dfy`,
  `Vm2Runs.dfy`, `Vm2Spaces.dfy`).
  `pmm.c` hands out 8 KiB, 4 KiB and 1 KiB blocks from 8 KiB slices. Records of the slices live in the managed memory itself, on four
  doubly linked lists, and are found again by pointer arithmetic. A memory map from addresses to records is the model's memory; a
  record's `prev` and `next` are addresses. `vm2.c` builds two-level page tables from such blocks; `Mmu.dfy` reads them as
  the processor does.
* **Boundary-tag heap** (`HeapMemory.dfy`, `HeapBins.dfy`, `HeapLayout.dfy`, `Heap.dfy`, `KernelAlloc.dfy`,
  `KernelRuns.dfy`). Memory is a sequence of bytes; headers, footers and list links are words in it, and every store of the source
  is a store of the model.
* **Fast forms of simple functions** (`Words.dfy`, `Memcpy.dfy`, `Memset.dfy`, `Memchr.dfy`, `FmtFp.dfy`). Word-at-a-time string
  functions with their alignments, and the exact base-10^9 arithmetic of floating-point printing.
* **Data structures** (`HashMap.dfy`, `Prq.dfy`, `Timer.dfy`, `TimerRuns.dfy`, `Qstr.dfy`, `Asid.dfy`), **text** (`Printf.dfy`,
  `Strtol.dfy`, `PrintfLaws.dfy`), and what they share (`Common.dfy`, `Arith.dfy`).

Each stateful component is a class with the source's fields. Its invariant is `Valid()`, and what its operations do is stated in terms
of an abstract value (live blocks, chunk tags, entries of a key, nodes, history). `Run` methods put arbitrary sequences of
operations together. `dafny verify dfyconfig.toml` checks everything.

## Findings

Where the code does not do what one would expect of it, the code is modelled as it is, and the exact condition is proved.

* The record lookup of `pmm.c` is right for every pointer exactly when the slice expected to hold the bucket's records is usable.
  The peripherals of the one supported board, a tail of managed memory, guarantee this; a reserved slice in the middle need not
  (`PmmRegions.LookupMisses`).
* `heap_free` never coalesces the first chunk, so two holes can become neighbours, in that case only (`Heap.AdjacentHoles`).
* `HASHMAP_APPEND`: the header says that find returns the last entry inserted; every grow reverses the entries of a
  key (`HashMap.FindsOldest`).
* `prq_remove` of a node that is in no queue destroys the index of the last node, unless the queue is empty
  (`Prq.RemovedTwice`).
* A periodic timer is queued again under its old count. Once it has caught up it ends the handler's loop under that count and hides
  the due timers behind it until its own next turn. Which ones is decided exactly, but for equal keys (`Timer.DueTimerLeftWaiting`).
* The ASID check cannot tell 256 stamps from none.
* The comment above `os_vsnprintf` warns of a buffer overflow; for well-formed formats there is none.

## Assumptions

* `pmm_init`: memory is zero, `start` and `end` are slice aligned, the region does not wrap, and there are enough slices before the
  reserved ones to hold the records (`EnoughSpares`). `pmm_allocate_l2_pagetable` and `pmm_allocate_page` are called when a slice can
  serve them, since they pop the unused list unchecked.
* A block that is freed is live, and its record can be found; a freed heap chunk is not the last one unless it is the first.
* Heap addresses stay below 2^32. A request that finds no memory, or a heap that asks for `expand`, ends a run.
* The hash function respects the equality, an equivalence. A hash map never has to grow beyond 2^29 buckets, since the entries this takes
  do not fit the address space. On a map without buckets `hash_bits` shifts a 32-bit word by 32, which C leaves undefined; the model
  takes 0, and the result is not used.
* A first-level page table is an array of its own. That of a process is an L1 block of the manager with 0x800 entries, the lower half of
  the model's table, whose upper half stays empty; `Vm2Spaces` proves that no map or unmap touches such a block.
* A node handed to the priority queue starts with index -1. `prq_create_node` leaves the index unset, and the condition under which
  `prq_remove` of a node in no queue does no harm relies on the -1.
* Timer callbacks leave the queue alone. A failed `assert` and `FATAL` halt.
* Format strings end after a complete conversion and their arguments match. `%d` of INT_MIN negates with wrap-around.
* `kstrtol` is given digits that fit a `long`. Qstr data contains no NUL.

## Model

| member | source | states |
|---|---|---|
| `Pmm.FirstFreeIsLeastClearBit` | src/kernel/src/vm/pmm.c:350-354 | the bit trick returns the least clear bit of every bitmap that is not full: that bit is clear and all lower ones are set |
| `SliceLists.PushChain` | src/kernel/src/vm/pmm.c:320-324 | pushing a record whose prev is NULL puts it before the whole doubly linked list, both directions of links right |
| `SliceLists.PopChain` | src/kernel/src/vm/pmm.c:326-335 | popping takes the first record and leaves a well-formed list of the rest |
| `SliceLists.RemoveChain` | src/kernel/src/vm/pmm.c:337-348 | removing the k-th record leaves a well-formed list of the others and clears that record's links |
| `SliceLists.PushLists` | src/kernel/src/vm/pmm.c:320-324 | a push onto one of the four lists keeps all four well formed, disjoint and complete |
| `SliceLists.PopLists` | src/kernel/src/vm/pmm.c:326-335 | the same for a pop |
| `SliceLists.RemoveLists` | src/kernel/src/vm/pmm.c:337-348 | the same for the removal of any record from the list it is on |
| `Pmm.LookupExactWhen` | src/kernel/src/vm/pmm.c:101-145 | for every pointer into a slice, however unaligned, the pointer arithmetic gives the slice's record if and only if the records of its bucket sit in the slice the arithmetic expects |
| `Pmm.LookupCorrect` | src/kernel/src/vm/pmm.c:101-145 | in every state of a run, across all bucket boundaries and the first-bucket exception, the address computed is that of the only record whose slice field is that slice, if and only if the expected slice is usable |
| `Pmm.InfoAddrInjective` | src/kernel/src/vm/pmm.c:19-84 | different slices have different records |
| `Pmm.RecordsApart` | src/kernel/src/vm/pmm.c:19-84 | a record is 16 bytes inside the slice of its bucket, and no two records overlap |
| `Pmm.LookupInNumbers` | src/kernel/src/vm/pmm.c:101-145 | the lookup is 16 bytes a slice into the 8 KiB before the 4 MiB bucket, or into the first slice of the first bucket |
| `Pmm.ReservedTailFindable` | src/kernel/src/vm/pmm.c:101-145 | if the reserved slices are the last ones of managed memory, every pointer into an unreserved slice can be looked up |
| `PmmRegions.BoardFindable` | src/kernel/src/common/hardwareinfo.c:81-84 | on the one supported board the bounded peripheral interval meets that condition, wherever the kernel ends |
| `PmmRegions.BoardReservedInNumbers` | src/kernel/src/common/hardwareinfo.c:81-84 | the reserved addresses are the 21 MiB of peripherals, from 0xbf000000 on as the kernel sees them |
| `PmmRegions.BoardSpares` | src/kernel/src/common/hardwareinfo.c:29-46 | there initialisation succeeds if and only if the slices before the peripherals outnumber the buckets of records |
| `PmmRegions.Board` | src/kernel/src/vm/pmm.c:19-84 | with 1 GiB and a kernel of 1 MiB the manager comes up with every usable slice in reach of the lookup |
| `PmmRegions.LookupMisses` | src/kernel/src/vm/pmm.c:113-145 | 1024 slices with slice 511 reserved: initialisation succeeds, and every pointer into slice 512 is looked up wrongly |
| `Pmm.ReservedTailSpares` | src/kernel/src/vm/pmm.c:86-99 | with a reserved tail, initialisation never pops the empty unused list if and only if the slices before the tail outnumber the buckets of records |
| `Pmm.Manager.constructor` | src/kernel/src/vm/pmm.c:19-84 | pmm_init: one record for every slice, each on a list that agrees with it, records kept in slices marked as such, nothing handed out, and the exact number of unused slices |
| `Pmm.Manager.IndexNext` | src/kernel/src/vm/pmm.c:55-83 | one round of the initialisation loop keeps the record of every earlier slice in place, across the start of a new bucket |
| `Pmm.Manager.NewSliceInfoSlice` | src/kernel/src/vm/pmm.c:86-99 | takes the first unused slice to hold the next bucket's records |
| `Pmm.Manager.GetSliceInfo` | src/kernel/src/vm/pmm.c:101-145 | returns the one record that describes the slice, or the reserved error exactly when the slice is reserved |
| `Pmm.Manager.PushToList` | src/kernel/src/vm/pmm.c:320-324 | the list becomes the record followed by the old list; no record's type or bitmap changes |
| `Pmm.Manager.PopFromList` | src/kernel/src/vm/pmm.c:326-335 | the old list is the popped record followed by the new one |
| `Pmm.Manager.RemoveFromList` | src/kernel/src/vm/pmm.c:337-348 | the record is on no list afterwards and every other record stays where it was |
| `Pmm.Manager.AllocateL1` | src/kernel/src/vm/pmm.c:165-181 | NULL exactly when no slice is unused; otherwise a zeroed 8 KiB block that was not live becomes live and nothing else changes |
| `Pmm.Manager.AllocateL2` | src/kernel/src/vm/pmm.c:183-220 | a zeroed 1 KiB block that was not live becomes live and nothing else changes; a slice leaves the unused list only when no partly filled one is left |
| `Pmm.Manager.AllocatePage` | src/kernel/src/vm/pmm.c:222-260 | the same for 4 KiB pages |
| `Pmm.Manager.FreeL1` | src/kernel/src/vm/pmm.c:147-163 | exactly the given block stops being live; NULL is ignored |
| `Pmm.Manager.FreePart` | src/kernel/src/vm/pmm.c:262-318 | exactly the given page or L2 table stops being live, found through its slice's record and bit |
| `Pmm.ClaimPart` | src/kernel/src/vm/pmm.c:183-260 | setting one bitmap bit makes exactly the block at that offset live |
| `Pmm.ReleasePart` | src/kernel/src/vm/pmm.c:262-318 | clearing one bitmap bit makes exactly that block dead |
| `Pmm.LiveBlocksDisjoint` | src/kernel/src/vm/pmm.c:147-318 | any two different live blocks of any kinds are disjoint |
| `Pmm.LiveBlocksUsable` | src/kernel/src/vm/pmm.c:147-318 | a live block lies inside the managed region and never overlaps a slice of records or a reserved slice |
| `Pmm.OneListEach` | src/kernel/src/vm/pmm.c:147-348 | every slice's record is on exactly one of the four lists, and its type and bitmap agree with that list |
| `Pmm.Manager.Run` | src/kernel/src/vm/pmm.c:147-348 | every run of allocations and frees is answered request by request up to the first that no slice can serve: an allocation gives a block not held, a free takes exactly a held one; what is live is exactly what the answers leave held, pairwise disjoint, inside the region and clear of records and reserved slices |
| `Vm2.OffsetIsItsOwnInverse` | src/kernel/src/vm/include/vm2.h:353-354 | adding and subtracting 0x80000000 agree modulo 2^32, so the two address conversions are each other and their own inverses |
| `Vm2.CoarseRoundTrip` | src/kernel/src/vm/vm2.c:31-37 | find_l2pt of the coarse entry written for a table gives that table back |
| `Vm2.SmallRoundTrip` | src/kernel/src/vm/vm2.c:191-234 | type, access, extended bit and frame come back out of the entry, and the address that vm2_free_page computes from it is the page allocated |
| `Vm2.PermissionsSeparate` | src/kernel/src/vm/vm2.c:191-234 | different permissions give different entries |
| `Vm2.EntryGrants` | src/kernel/src/vm/vm2.c:191-234 | the processor reads the entry as what was asked for: kernel-only pages are global and read-only or not, user pages can be written by the kernel and by the user only if asked, the page is executable exactly if asked, and all caching and sharing bits are off |
| `Vm2.AddressSpace.AddTable` | src/kernel/src/vm/vm2.c:165-177 | a fresh table is hooked into an empty slot without changing the mapping of any page; exactly that table becomes live |
| `Vm2.AddressSpace.MapPage` | src/kernel/src/vm/vm2.c:156-247 | the two-level walk changes at the target page only, to the entry of a page that was not live; exactly that page, and a table if the slot was empty, become live; an occupied entry is fatal unless remapping; a section is refused; as the processor translates, every address of the page comes to the new frame with exactly the rights asked for, and every other address to what it came to before |
| `Vm2.AddressSpace.UnmapPage` | src/kernel/src/vm/vm2.c:135-154 | the walk changes at the target page only, and exactly the frame that was mapped there stops being live; as the processor translates, exactly that page faults afterwards |
| `Vm2.AddressSpace.MapThenUnmap` | src/kernel/src/vm/vm2.c:135-247 | mapping and unmapping restores every mapping, and everything live before, plus at most the table made |
| `Vm2.NoAliasing` | src/kernel/src/vm/vm2.c:135-247 | no two mapped virtual pages share a frame, and no frame overlaps a page table |
| `Vm2Runs.Run` | src/kernel/src/vm/vm2.c:135-247 | every run of maps, with or without remapping, and unmaps up to a fatal overwrite or a shortage: each request has the one outcome that the finite map before it and the first sections decide; the walk is that finite map afterwards; live are exactly the blocks live at first, the second-level tables, one frame for each mapped page and the frames that remapping lost; no two pages share a frame and no frame overlaps a table; every virtual address translates to the frame of the last map of its page with the rights then asked for, or faults |
| `Vm2Spaces.MapInOne` | src/kernel/src/vm/vm2.c:156-247 | of two address spaces over one manager, mapping in one changes no mapping of the other, they go on sharing no frame and no table, and every first-level table handed out stays live and is not written to |
| `Vm2Spaces.UnmapInOne` | src/kernel/src/vm/vm2.c:135-154 | the same for unmapping |
| `Vm2Spaces.FirstLevelAlone` | src/kernel/src/vm/vas2.c:10-21 | no frame and no second-level table of a space overlaps a first-level table that the manager has handed out |
| `HeapBins.AddNode` | src/kernel/src/allocator/llist.c:4-41 | the list becomes the old one with the node after every node that is not larger and before the first that is; only link words of the list's nodes are written |
| `HeapBins.RemoveNode` | src/kernel/src/allocator/llist.c:43-64 | the list becomes the old one without the node; only link words of its nodes are written |
| `HeapBins.GetBestFit` | src/kernel/src/allocator/llist.c:66-78 | the first node that is large enough, or NULL when none is |
| `HeapLayout.GetBinIndex` | src/kernel/src/allocator/allocator.c:204-214 | the shifting loop computes the bin index, for every size |
| `HeapLayout.BinInNumbers` | src/kernel/src/allocator/allocator.c:204-214 | sizes below 8 belong to bin 0, each power of two up to 1024 has a bin, and from there on all are in bin 8 |
| `HeapLayout.BinMonotone` | src/kernel/src/allocator/allocator.c:204-214 | a larger size never has a smaller bin index |
| `HeapLayout.Conservation` | src/kernel/src/allocator/allocator.c:20-173 | payload sizes plus overhead of all chunks add up to the whole heap |
| `HeapLayout.SplitTiles` | src/kernel/src/allocator/allocator.c:67-82 | cutting a chunk leaves chunks that tile the heap without gap or overlap |
| `HeapLayout.MergeTiles` | src/kernel/src/allocator/allocator.c:145-169 | so does merging a chunk with its neighbour |
| `HeapLayout.UsedBytesChange` | src/kernel/src/allocator/allocator.c:107-133 | changing one chunk's use changes the total in use by exactly its size |
| `Heap.Heap.constructor` | src/kernel/src/allocator/allocator.c:20-38 | one hole of 65516 bytes covers everything between start and start + 65536, with header, footer and bin in memory |
| `Heap.Heap.FindHole` | src/kernel/src/allocator/allocator.c:47-62 | a globally smallest hole that fits, although only bins from the size's own upwards are searched; NULL exactly when no hole in any bin fits |
| `Heap.Heap.Claim` | src/kernel/src/allocator/allocator.c:64-86 | a hole with more than 24 bytes to spare is cut to exactly the size asked for, with a hole of all the rest but 20 bytes behind it, and any other hole is taken whole; tiling, tags, footers, bins and the bytes of every chunk in use are kept |
| `Heap.Heap.Alloc` | src/kernel/src/allocator/allocator.c:47-113 | NULL exactly when no hole fits, and then nothing changes; otherwise the block of a smallest fitting hole, at most 24 bytes larger than asked for, with everything else left over a hole again, the heap invariant and every byte of every used chunk kept and the count of bytes in use exact; expand is asked for exactly when the last chunk has become smaller than 0x2000 |
| `Heap.Heap.AbsorbIntoPrev` | src/kernel/src/allocator/allocator.c:145-154 | the hole before swallows the freed chunk, with all words in memory right |
| `Heap.Heap.AbsorbNext` | src/kernel/src/allocator/allocator.c:156-169 | the freed chunk swallows the hole after it, with all words in memory right |
| `Heap.Heap.Release` | src/kernel/src/allocator/allocator.c:171-172 | the chunk becomes a hole listed in its bin |
| `Heap.Heap.Free` | src/kernel/src/allocator/allocator.c:121-173 | the heap invariant holds again, the chunk is merged with the holes around it except when it is the first, the count is exact, and every other used chunk keeps every byte; NULL is ignored |
| `Heap.BlocksDisjoint` | src/kernel/src/allocator/allocator.c:47-173 | no byte belongs to two live payloads, or to a live payload and any header, footer or link |
| `Heap.ClaimedAdjacency` | src/kernel/src/allocator/allocator.c:64-86 | allocation never makes two adjacent holes |
| `Heap.CoalescedAdjacency` | src/kernel/src/allocator/allocator.c:135-172 | freeing keeps the absence of adjacent holes if and only if it does not free the first chunk with a hole behind it |
| `Heap.AdjacentHoles` | src/kernel/src/allocator/allocator.c:135-139 | one allocation and one free on a fresh heap end in two adjacent holes |
| `Heap.LastChunkCanBeInUse` | src/kernel/src/allocator/allocator.c:141-143 | two allocations put the last chunk in use without asking for expand, so the condition that heap_free needs is not idle |
| `Heap.ClientWrite` | src/kernel/src/allocator/allocator.c:100-112 | a client that writes anywhere in its own block disturbs neither the heap invariant nor any other block |
| `KernelAlloc.Realloc` | src/kernel/src/klibc/alloc.c:35-60 | the result holds the old block's first bytes, as many as both have room for; every other block keeps its size and bytes; the set of blocks changes exactly by the old and the new one; a size within the old block's changes nothing; failure, exactly when no hole fits, changes nothing; size 0 frees; expand is asked for only when a smallest fitting hole was taken and that left the last chunk too small; a block that was moved is at most 24 bytes larger than asked for |
| `KernelAlloc.Calloc` | src/kernel/src/klibc/alloc.c:17-27 | a zeroed new block of the product reduced to 32 bits, at most 24 bytes larger, NULL exactly when no hole fits; every other block is kept; expand exactly when taking a smallest fitting hole left the last chunk too small |
| `KernelAlloc.Malloc` | src/kernel/src/klibc/alloc.c:10-13 | NULL exactly when no hole fits, and then nothing changes; otherwise one new block, large enough and at most 24 bytes larger; expand exactly when taking a smallest fitting hole left the last chunk too small; in every case every other block keeps its size and bytes |
| `KernelAlloc.Kfree` | src/kernel/src/klibc/alloc.c:6-8 | exactly the given block is gone and every other one keeps its size and bytes; NULL is ignored |
| `KernelRuns.Run` | src/kernel/src/klibc/alloc.c:6-60 | every run of malloc, calloc, realloc, free and clients' writes, up to the first request that finds no hole or asks for expand, is answered as contents decide: a free or a resize in place has one outcome, an allocation gives a block not held, at most 24 bytes larger than asked for, with the bytes it must have; the blocks in use are exactly those held, and each holds what its client last wrote; expand is asked for only when this request was cut from a smallest fitting hole and left the last chunk too small, and even then every block holds what it held |
| `FmtFp.FillLimbs` | src/user/libc/stdio/vfprintf.c:299-302 | the loop ends and the limbs are exactly the mantissa, each below 10^9; for every double each product on the way has at most 53 bits, so the multiplications of doubles are exact |
| `FmtFp.MultiplyPass` | src/user/libc/stdio/vfprintf.c:307-311 | one upward pass multiplies the number by exactly 2^sh; limbs stay below 10^9 and the carry below 2^sh |
| `FmtFp.UpPass` | src/user/libc/stdio/vfprintf.c:304-315 | a whole round, with the trailing limb dropped and the carry put in front, scales by exactly 2^sh |
| `FmtFp.ScaleUp` | src/user/libc/stdio/vfprintf.c:304-315 | the loop scales by exactly 2^e2 and never runs off the front of the array |
| `FmtFp.DividePass` | src/user/libc/stdio/vfprintf.c:319-323 | one downward pass divides by exactly 2^sh, the remainder being the next limb |
| `FmtFp.DownPass` | src/user/libc/stdio/vfprintf.c:316-325 | a whole round without the cut loses nothing |
| `FmtFp.ScaleDown` | src/user/libc/stdio/vfprintf.c:316-330 | the loop divides by 2^e, cutting behind the limb `need` places on in every round; with %f the result is the quotient rounded down to whole units of that limb, and so exact if and only if the number at the start is a multiple of 2^e units; otherwise it is exact at least then, and always too small by less than two units, and by a small part of the number if its first limb is not 0 |
| `FmtFp.EveryDouble` | src/user/libc/stdio/vfprintf.c:239-294 | every finite double, subnormals included, is normalised to a mantissa in [2^28, 2^29) and an exponent in the range for which the array is sized, with its value unchanged |
| `FmtFp.ConvertUp` | src/user/libc/stdio/vfprintf.c:294-315 | for every double with a non-negative exponent the limb array is never overrun and holds the number exactly |
| `FmtFp.ConvertDown` | src/user/libc/stdio/vfprintf.c:294-330 | for every double with a negative exponent, down to the smallest subnormal, the array is never overrun; with %f the limbs are the double rounded down to 9 * (need - 1) decimal places, exact if and only if it has no more; otherwise exact at least then, and too small by less than two units; nothing is cut when the precision covers every digit; in any case every decimal place up to the 17th beyond the precision is that of the double with %f, where none is kept from the 26th on, and otherwise the error is below two units of that place and below 123 units of the 17th digit beyond the precision |
| `FmtFp.FmtU` | src/user/libc/stdio/vfprintf.c:194-200 | the decimal numeral of x, without leading zeros, ending at the given place; nothing else is written |
| `FmtFp.FmtLimb` | src/user/libc/stdio/vfprintf.c:407-407 | the nine places given to a limb are enough for every limb, whose digits they then hold |
| `Memcpy.MergeShifts` | src/user/libc/string/memcpy.c:50-99 | two neighbouring words shifted together are the word one, two or three bytes further on |
| `Memcpy.CopyAligned` | src/user/libc/string/memcpy.c:25-48 | the aligned path and its tail copy every byte |
| `Memcpy.CopyShifted` | src/user/libc/string/memcpy.c:50-99 | each of the three shifted-word loops copies a prefix and leaves fewer than 32 bytes |
| `Memcpy.CopyTail` | src/user/libc/string/memcpy.c:100-118 | the bits of n account for every remaining byte |
| `Memcpy.Memcpy` | src/user/libc/string/memcpy.c:5-124 | for every length and every pair of alignments the byte-by-byte copy; all loads and stores are word aligned and inside the two n-byte ranges |
| `Memset.FillBlocks` | src/user/libc/string/memset.c:73-79 | the 32-byte loop may ignore its remainder because 28 tail bytes are done |
| `Memset.FillFrom` | src/user/libc/string/memset.c:44-79 | the overlapping word stores and the loop fill the aligned part for every n |
| `Memset.Memset` | src/user/libc/string/memset.c:4-86 | for every length and alignment every byte of the n-byte range is c, and nothing outside it is written |
| `Memchr.HasZeroExact` | src/user/libc/string/memchr.c:9-9 | the borrow trick is non-zero if and only if one of the four bytes is zero |
| `Memchr.WordHolds` | src/user/libc/string/memchr.c:17-20 | the word test is true if and only if one of the four bytes is the one sought |
| `Memchr.Memchr` | src/user/libc/string/memchr.c:11-23 | the first index holding c, or none exactly when no byte does; only the n bytes are read |
| `HashMap.HashBits` | src/kernel/src/ds/bpf/include/HashMap.h:17-20 | the bucket index is always within the capacity |
| `HashMap.UpperBits` | src/kernel/src/ds/bpf/include/HashMap.h:17-20 | it is the upper bits of the 32-bit product |
| `HashMap.MatchFlatten` | src/kernel/src/ds/bpf/HashMap.c:123-142 | with every entry in the bucket of its hash, one chain holds all entries of a key |
| `HashMap.Table.constructor` | src/kernel/src/ds/bpf/HashMap.c:32-48 | an empty map with no buckets |
| `HashMap.Table.NeedsToGrow` | src/kernel/src/ds/bpf/HashMap.c:91-94 | the load test never overflows 32 bits |
| `HashMap.Table.Rehash` | src/kernel/src/ds/bpf/HashMap.c:110-113 | every entry lands in the bucket of its new hash, none is lost, and the entries of every key come out reversed |
| `HashMap.Table.Grow` | src/kernel/src/ds/bpf/HashMap.c:96-121 | doubles the capacity, keeps size and load bound, and reverses the entries of every key; a failed allocation changes nothing |
| `HashMap.Table.FindEntry` | src/kernel/src/ds/bpf/HashMap.c:123-142 | the first entry of the key in the whole map, or nothing exactly when there is none |
| `HashMap.Table.Find` | src/kernel/src/ds/bpf/HashMap.c:193-202 | the value of the key's first entry, or none exactly when there is none |
| `HashMap.Table.Insert` | src/kernel/src/ds/bpf/HashMap.c:144-191 | for each strategy: the result, the old entry returned, the size, and the entries of every key afterwards, including failed allocations before and after growing |
| `HashMap.Table.Delete` | src/kernel/src/ds/bpf/HashMap.c:204-222 | removes the first entry of the key and no other; the load bound is kept |
| `HashMap.Table.Put` | src/kernel/src/ds/bpf/HashMap.c:144-191 | without APPEND the map is a finite map and growing does not show: exactly the given key changes, if the insertion succeeds |
| `HashMap.Table.Remove` | src/kernel/src/ds/bpf/HashMap.c:204-222 | removal from the finite map |
| `HashMap.Run` | src/kernel/src/ds/bpf/HashMap.c:91-222 | every sequence of ADD, SET, UPDATE, delete and find is answered as a finite map answers it, through any number of grows and allocation failures |
| `HashMap.AppendThen` | src/kernel/src/ds/bpf/include/HashMap.h:80-84 | after APPEND and any insertions, deletions and searches of other keys, find returns the new entry when the table has grown an even number of times since, and the oldest one otherwise, so the header's promise holds until the next grow |
| `HashMap.FindsOldest` | src/kernel/src/ds/bpf/HashMap.c:144-191 | two appends to a key and two insertions of other keys: the fourth insertion grows the table and find returns the entry appended first |
| `Prq.StepUp` | src/kernel/src/ds/priority_queue.c:13-25 | swapping a node with a larger parent moves the only disorder one level up |
| `Prq.StepDown` | src/kernel/src/ds/priority_queue.c:27-52 | swapping a node with its smaller child moves the only disorder down to that child |
| `Prq.RootLeast` | src/kernel/src/ds/priority_queue.c:64-71 | in a heap the root is least |
| `Prq.Queue.ShiftUp` | src/kernel/src/ds/priority_queue.c:13-25 | mends upward disorder; nodes and their indices stay in step; also for the place past the end that prq_remove passes |
| `Prq.Queue.ShiftDown` | src/kernel/src/ds/priority_queue.c:27-52 | mends downward disorder at any place |
| `Prq.Queue.constructor` | src/kernel/src/ds/priority_queue.c:139-147 | an empty queue with room for one more node |
| `Prq.Queue.Peek` | src/kernel/src/ds/priority_queue.c:64-71 | a node of least priority, NULL exactly when the queue is empty |
| `Prq.Queue.Amortize` | src/kernel/src/ds/priority_queue.c:79-83 | twice the room, every node where it was |
| `Prq.Queue.Enqueue` | src/kernel/src/ds/priority_queue.c:85-97 | heap order, indices and spare room are kept and exactly the node is added |
| `Prq.Queue.Dequeue` | src/kernel/src/ds/priority_queue.c:121-137 | removes exactly one node, of least priority, and marks it as out |
| `Prq.Queue.Remove` | src/kernel/src/ds/priority_queue.c:99-119 | removes exactly the given node from anywhere; the queue stays valid if and only if the node is there or the queue is empty; otherwise the last node is left with index -1 |
| `Prq.RemovedTwice` | src/kernel/src/ds/priority_queue.c:107-111 | removing a node a second time from a queue that is not empty destroys the queue |
| `Prq.Drain` | src/kernel/src/ds/priority_queue.c:121-137 | draining yields every node exactly once, priorities ascending |
| `Timer.Timers.constructor` | src/kernel/src/drivers/chipset/bcm2836/timer.c:98-109 | no timers, interrupt masked |
| `Timer.Timers.FireFirst` | src/kernel/src/drivers/chipset/bcm2836/timer.c:122-141 | a one-shot timer leaves the queue; a periodic one returns with its next count under its old count as key, or halts if that exceeds INT32_MAX |
| `Timer.Timers.Process` | src/kernel/src/drivers/chipset/bcm2836/timer.c:118-144 | the loop ends for every mix of one-shot and periodic timers; only due timers fire, and the timer left first is not due |
| `Timer.Timers.HandleInterrupt` | src/kernel/src/drivers/chipset/bcm2836/timer.c:111-157 | in every state a run can reach: a due timer is left waiting if the key of its last due firing is above some stopping key, and is not if it is below all others; the rest fire at all their due counts, each once; the next interrupt asked for lies in the future. With exact keys: they stay exact if and only if all due timers are one-shot, and then exactly the due ones fire, in nondecreasing order, and the registers announce the earliest one left or mask; after any interrupt the register announces the timer in front |
| `Timer.Timers.Decide` | src/kernel/src/drivers/chipset/bcm2836/timer.c:118-144 | which timers have fired when the loop ends, from the keys it started with |
| `Timer.Timers.NoneWaitingWhen` | src/kernel/src/drivers/chipset/bcm2836/timer.c:118-144 | without ties no due timer is left waiting if and only if each makes its last firing before any other timer stops the loop |
| `Timer.Timers.Schedule` | src/kernel/src/drivers/chipset/bcm2836/timer.c:159-194 | the count and period in 32- and 64-bit arithmetic, the new node queued, and the registers announcing the earliest timer; if nothing overflows the timer is due frequency / 1000 * delay counts after the present one, which is also the period of a periodic timer |
| `Timer.Timers.Deschedule` | src/kernel/src/drivers/chipset/bcm2836/timer.c:204-221 | exactly that timer is gone and the registers announce the earliest of the others |
| `Timer.DueTimerLeftWaiting` | src/kernel/src/drivers/chipset/bcm2836/timer.c:133-141 | a timer every 10 counts and a one-shot at 15: the interrupt at 18 leaves the one-shot waiting and asks for none before 20 |
| `TimerRuns.Run` | src/kernel/src/drivers/chipset/bcm2836/timer.c:111-221 | in every run, one-shot and periodic timers mixed, up to a failing assert, each event does what the timers and keys before it decide: a scheduling queues its timer, an interrupt fires and leaves what HandleInterrupt decides, a cancellation takes exactly a queued timer; what is queued is exactly what the log leaves waiting, and the register announces the timer in front |
| `TimerRuns.EveryTimer` | src/kernel/src/drivers/chipset/bcm2836/timer.c:111-221 | after every run each scheduled timer is waiting, cancelled, or a one-shot timer that has fired; a one-shot timer has fired at its count or not at all, a periodic one at every due count before the one it has reached and at no other; nothing else has fired |
| `TimerRuns.NoTurnTwice` | src/kernel/src/drivers/chipset/bcm2836/timer.c:118-144 | in no run does a timer fire twice at the same count |
| `TimerRuns.NotBefore` | src/kernel/src/drivers/chipset/bcm2836/timer.c:111-194 | in no run does a timer fire earlier than its delay after it was scheduled: a one-shot timer fires at just that count, a periodic one at whole multiples of the delay |
| `TimerRuns.OneShotRuns` | src/kernel/src/drivers/chipset/bcm2836/timer.c:111-221 | with one-shot timers only, every interrupt of a run fires exactly the waiting timers due, in order, leaves the others as they were, and the registers announce the earliest |
| `Printf.DigitsDenote` | src/kernel/src/klibc/printf.c:34-44 | the digits printed are the numeral of the value in every base from 2 to 16, without leading zeros |
| `Printf.CollectDigits` | src/kernel/src/klibc/printf.c:34-44 | the digit loop fills at most 32 of the 64 places, least significant first |
| `Printf.PrintInt` | src/kernel/src/klibc/printf.c:9-72 | writes exactly the first buflen characters of the padded, signed numeral, and returns how many |
| `Printf.ReadWidth` | src/kernel/src/klibc/printf.c:95-105 | the decimal value and the length of the width option |
| `Printf.Strncpy` | src/kernel/src/klibc/string.c:10-16 | copies the string up to n characters, and touches at most n + 1 places |
| `Printf.ConvertInto` | src/kernel/src/klibc/printf.c:94-139 | each conversion writes its text cut off at the room left |
| `Printf.Vsnprintf` | src/kernel/src/klibc/printf.c:76-159 | for every well-formed format and every buflen the first buflen - 1 characters of the unbounded rendering and a NUL; nothing at or after buflen is written |
| `PrintfLaws.RenderShows` | src/kernel/src/klibc/printf.c:9-72 | the text of an int is a '-' if it is negative, then digits of the base that stand for its magnitude, at least the width in all, with a leading zero only where the width asks for it |
| `PrintfLaws.ShowsOnce` | src/kernel/src/klibc/printf.c:9-72 | there is only one such text |
| `PrintfLaws.PrintsSigned` | src/kernel/src/klibc/printf.c:115-119 | %d and %i print such a text of the int in decimal, which read as a number is the int again |
| `PrintfLaws.PrintsUnsigned` | src/kernel/src/klibc/printf.c:120-123 | %u prints such a text of the argument modulo 2^32 in decimal |
| `PrintfLaws.PrintsHex` | src/kernel/src/klibc/printf.c:107-114 | %x and %X print such a text of the argument modulo 2^32 in hexadecimal, in small and in capital letters |
| `PrintfLaws.PrintsText` | src/kernel/src/klibc/printf.c:124-138 | %c prints the character, %s the string, %% a '%', and an unknown conversion nothing |
| `PrintfLaws.RenderPlain` | src/kernel/src/klibc/printf.c:142-145 | text without conversions prints itself, before whatever follows |
| `PrintfLaws.RenderConversion` | src/kernel/src/klibc/printf.c:90-141 | a conversion with a width or none prints its text at its place in the format, takes its argument, and leaves the rest of the format and of the arguments to what follows |
| `Strtol.Kstrtol` | src/kernel/src/klibc/klibc.c:304-332 | the signed value of the leading digits and the place after them, with no intermediate overflow |
| `PrintfLaws.NumberReads` | src/kernel/src/klibc/klibc.c:304-332 | digits with a plus sign, a minus sign or none, and anything that is no digit behind them, are read as the decimal number they stand for, with its sign |
| `Strtol.PrintedReads` | src/kernel/src/klibc/printf.c:9-72 | for every int and every zero padding, the printed text denotes that int and is read to its end |
| `Strtol.RoundTrip` | src/kernel/src/klibc/klibc.c:304-332 | print_int, a NUL, and kstrtol of the buffer: the int printed comes back and reading stops at the NUL |
| `Asid.Allocator.Request` | src/kernel/src/vm/asid_allocator.c:12-24 | ASIDs are handed out in turn, the new descriptor is the latest stamped, and the flag is set exactly from the 256th request on |
| `Asid.Allocator.Check` | src/kernel/src/vm/asid_allocator.c:27-34 | false if and only if the stamps of the ASID since the descriptor's own number a multiple of 256; if true it is stamped again |
| `Asid.NoneSince` | src/kernel/src/vm/asid_allocator.c:27-34 | no stamp since its own means exactly that it holds the latest stamp of its ASID |
| `Asid.OneCurrent` | src/kernel/src/vm/asid_allocator.c:12-34 | at most one descriptor of an ASID is current |
| `Asid.Run` | src/kernel/src/vm/asid_allocator.c:12-34 | every interleaving of requests and checks is answered event by event: a check of an issued descriptor is false if and only if the stamps of its ASID since its own number a multiple of 256, which with fewer than 256 means that no other one was stamped last; what is stamped is exactly what these answers say; at most one descriptor of an ASID is current |
| `Asid.WrapsUnnoticed` | src/kernel/src/vm/asid_allocator.c:27-34 | after 256 further stamps of the ASID the check answers false although another descriptor was stamped last |
| `Qstr.Scan` | src/kernel/src/ds/qstr.c:38-52 | the hash of the left string, 5381 times 33^n plus each character times its power of 33, modulo 2^32 and 42 instead of 0; and whether the right string starts with the left one |
| `Qstr.Eq` | src/kernel/src/ds/qstr.c:27-62 | content equality whatever has been cached, and cached hashes stay right |
| `Qstr.Hash` | src/kernel/src/ds/qstr.c:64-66 | that hash is cached |
| `Qstr.Run` | src/kernel/src/ds/qstr.c:27-66 | in every sequence of compares and hashes each compare answers content equality and a cached hash is 0 or the adjusted hash of its data |

## Left out

- The heap's `expand` maps one page and moves the end of the heap without making a chunk there; the model stops where it is called. `contract` needs a last chunk of more than 16 MiB, which a heap of 64 KiB does not have.
- `vm2_start`, `vm2_map_peripheral` and section mapping: simple loops over the first-level table.
- Assembly, cache and TLB flushes, memory-mapped devices, interrupt vectors. The timer's compare and mask registers are plain fields.
- `vas2.c`, `path.c`, `tmpfs.c`, `vfs.c`, `inode.c`, `file.c`, array lists and the singly linked list: unfinished or only easy members.
- `qstr_eq_null_terminated`, which accepts a left string that is a prefix of the right one; `katoi`, `katof`.
- Of `vfprintf.c`, everything but the exact limb loops and `fmt_u`: rounding, layout, emission, variable arguments.
- `hashmap__clear`, which leaves `buckets` dangling, and the iteration macros other than the loop of `hashmap_grow`.
- `created_l2pt` of `vm2_allocate_page`: line 239 clears it on every path that set it.
- The NULL argument of `kstrtol`, which returns 0.
- Vm2.AddressSpace.MapPage: after a fatal overwrite nothing is said about the page already taken.
- Vm2.AddressSpace.UnmapPage: an entry that is 0 in an existing table is excluded; there the source frees whatever the lookup finds for address 0x80000000.
- Heap.Heap.Free: a last chunk that is in use and is not the first is excluded; there the source reads a header past the end of the heap.
- KernelRuns.Run: a block for which `heap_free` would read past the end of the heap is neither freed nor grown.
- KernelAlloc.Realloc: such a block is not freed, and is grown only where no hole fits, so that the source returns NULL before it frees.
- Vm2Runs.Run: a map is attempted only while the slices can serve both its allocations, so that neither pops an empty list.
- Timer.Timers.HandleInterrupt: when the last key of one timer equals the stopping key of another, which of the two comes first depends on the shape of the heap and is left open.
- HashMap.Run: that a new key is accepted when memory is granted is stated for the first 0x18000000 operations; more entries than that do not fit 32-bit memory.
- Memcpy.Memcpy: each range is an array of its own, at any address; overlapping ranges are excluded, as section 7.24.2.1 of ISO/IEC 9899:2011 does.
- Memset.Memset: the n-byte range is an array of its own, at any address, so that no other byte is written is a matter of its bounds.
- Prq.Queue.Amortize: a failing `krealloc` is not modelled, as the source does not handle it.
- Counters, priorities and addresses are integers; 32-bit wrap-around is written out only where the source relies on it (address offset, hashes, products, ASID stamps, printed numbers).
