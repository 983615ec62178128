# Verified model of µC/LIB memory management and the µC/CPU core

This project models the parts of µC/LIB and µC/CPU on which a whole application relies, and proves what they
promise over all inputs, all runs and all interleavings:

- **Segments** (`Segments`, `SegmentList`): bump allocation inside an address range, in 32-bit arithmetic with
  power-of-two rounding, and the list of segments that must never overlap.
- **Static pools** (`StaticPool`): a last-in first-out table of free block addresses.
- **Dynamic pools** (`ByteMemory`, `DynPool`, `DynPoolCalls`, `DynPoolBound`): a free list whose links are stored in
  the free blocks themselves, growing out of a segment under a quantity limit. Every critical section of get and free
  is one atomic step of a state machine with any number of tasks, whose users also write into the blocks they hold and
  allocate from the same segment. One invariant covers the layout, the link chain in byte memory, ownership and the
  counters; the sequential calls are runs of this machine.
- **Buffer operations** (`BufferOps`): the word-at-a-time `Mem_Set`, `Mem_Copy`, `Mem_Move` and `Mem_Cmp` against
  specifications on octets.
- **Random numbers** (`Lcg`): the full-period theorem of the linear congruential generator, bit by bit.
- **CPU core** (`Timestamp`, `IntDisMeas`, `BitCount`): timestamp widening, interrupts-disabled time measurement, and
  the bit-counting algorithms.
- **Encodings** (`BitField`, `Endian`): the bit-field macros on every contiguous mask, and the octet-reversing copy.

`Bits` and `Rounding` hold what the others share: masks and shifts of unsigned words defined digit by digit, and the
meaning of `MATH_ROUND_INC_UP_PWR2` on wrapped words.

Each class (`MemSeg`, `SegMgr`, `MemPool`, `MemDynPool`, `MathRand`, `CpuTs`, `Measurement`) has the fields of the C
structure or the globals, and its methods are proved equal to a function of the old state; the lemmas are about those
functions. In the buffer operations memory is one array of octets and addresses are its indices, so every pair of
buffers, overlapping or not and at any alignment, is covered; every word access goes through a method that demands an
aligned address (`BufferOps.LoadAligned`, `BufferOps.StoreAligned`).

The model fixes the target of `UCOSII/uC-CPU/ARM-Cortex-M4/RealView/cpu.h:173-206`: 32-bit addresses and sizes,
`sizeof(CPU_ALIGN) == sizeof(void *) == 4`, little endian. Argument checks are on, debug information is off and
`Mem_Copy` is the C version; `UCOSII/uCOS-CONFIG/lib_cfg.h:72`, `:86` and `:112` ship the opposite for the first and
the last and keep debug information off, so in that configuration the argument checks become obligations of the
caller. Timer widths, accumulator widths and bit-field word widths are parameters.

Where the code and its documentation part, the model follows the code:

- The fit test of a segment is done modulo 2^32. A request whose true total reaches 2^32 can be granted although it
  does not fit; `Segments.FitTestExact` says exactly when the test is right.
- The documentation of `p_bytes_reqd` promises 0 when there is enough memory; the code writes it only on overflow,
  so on success the caller's variable keeps its old content.
- `Mem_SegRemSizeGet` reports a size near 2^32 when rounding passes the end of the segment;
  `Segments.ReportAgreesIff` says exactly when the report can be trusted.
- Blocks that a dynamic pool carves later have the raw block size, not the one enlarged to hold a pointer. The link
  written into a block stays inside it exactly when the block size is at least the size of a pointer
  (`DynPoolCalls.LinkFitsIff`), which is what the interface documentation demands.
- A growth that fails after its reservation is never given back to `BlkAllocCnt`, so the number reported as available
  falls short of the maximum minus the held blocks from then on. It happens exactly when nothing is free and the next
  block does not fit the segment (`DynPoolCalls.LeakIff`, `DynPool.NbrAvailIff`).
- `Mem_SegCreate` accepts the base address 0, which is the null pointer: the first block of a dynamic pool there is
  lost (`DynPoolCalls.InitListIff`).
- Because get is several critical sections, N tasks can carve up to N - 1 blocks more than the maximum, although the
  number of blocks in use never exceeds it. The excess is reached for every N, so the maximum bounds the blocks carved
  exactly when a single task uses the pool (`DynPoolBound.NeverOverIff`).
- Creation multiplies block size and quantity modulo 2^32 without a check. A creation that succeeds has put its blocks
  inside their segment exactly when the true total is below 2^32 (`StaticPool.CreationSoundIff`,
  `DynPoolCalls.InitBlksInsideIff`).
- `Mem_PoolCreate` does not check that the given range stays inside the address space, as `Mem_SegCreate` does; the
  overlap test is right exactly for ranges that do (`SegmentList.OverlapTestIff`).
- Resetting the current interrupts-disabled maximum reads and clears in two steps; `IntDisMeas.ResetExact` says what is
  lost between them. Nesting is measured correctly up to exactly 2^16 sections (`IntDisMeas.DepthBoundIff`).

## Model

| member | source | states |
|---|---|---|
| Bits.PowerTest | UCOSII/uC-LIB/lib_math.h:221 | for every x > 0, `x & (x - 1)` is zero exactly for the powers of two |
| Rounding.RoundExact | UCOSII/uC-LIB/lib_math.h:242 | rounding up a wrapped number with the two masks gives the wrapped least multiple at or above the true number, even when the sum overflows |
| Rounding.CeilIsMultiple | UCOSII/uC-LIB/lib_math.h:242 | the rounded number is a multiple of the increment |
| Rounding.CeilIsLeast | UCOSII/uC-LIB/lib_math.h:242 | no smaller multiple is at or above the number |
| Segments.IntermediateValues | UCOSII/uC-LIB/lib_mem.c:2565-2569 | each intermediate 32-bit value of an allocation is its true value modulo 2^32, and the remaining size is exact even for a full segment that ends at 0xFFFFFFFF |
| Segments.AllocExact | UCOSII/uC-LIB/lib_mem.c:2551-2585 | when the true total (gap, size and padding) is below 2^32: granted exactly when the block fits in unbounded arithmetic, at the aligned address, moving the next address to the padded limit; otherwise the segment is unchanged and the overflow is exactly the number of missing bytes |
| Segments.FitTestExact | UCOSII/uC-LIB/lib_mem.c:2569-2579 | for every request, the wrapped fit test agrees with the true one if and only if the true total is below 2^32 or its wrapped value still exceeds what remains |
| Segments.WrappedRequestGranted | UCOSII/uC-LIB/lib_mem.c:2569-2579 | a concrete request of nearly 2^32 bytes that a segment of 96 bytes grants, and whose block is not inside it |
| Segments.AllocAlways | UCOSII/uC-LIB/lib_mem.c:2551-2585 | the answer to every request, wrapping totals included: granted exactly when the wrapped total fits, where, and with which next address; otherwise exactly what is missing, and nothing changes |
| Segments.AllocErrors | UCOSII/uC-LIB/lib_mem.c:2475-2483 | for any arguments: invalid size exactly for 0, invalid alignment exactly for a positive size and an alignment that is not a power of two, and no failed call changes the segment |
| Segments.BytesRequiredIsLeast | UCOSII/uC-LIB/lib_mem.c:2571-2577 | after any overflow, lengthening the segment makes the same call succeed if and only if it is lengthened by at least the reported number of bytes |
| Segments.RemSizeExact | UCOSII/uC-LIB/lib_mem.c:1057-1070 | used, total and remaining size, base and next address in unbounded arithmetic, with the wrap of the remainder made explicit |
| Segments.SizesAddUp | UCOSII/uC-LIB/lib_mem.c:1057-1070 | used + remaining = total if and only if the rounded next address does not pass the end (or is a full turn past the base) |
| Segments.ReportAgreesIff | UCOSII/uC-LIB/lib_mem.c:1057-1070 | Mem_SegAllocExt grants exactly the sizes up to the reported remainder if and only if the rounded next address does not pass the end |
| Segments.ReportPromisesTooMuch | UCOSII/uC-LIB/lib_mem.c:1057-1070 | a concrete segment whose report promises nearly 2^32 bytes while a request for a single byte is 3 bytes too large |
| Segments.AllocKeeps | UCOSII/uC-LIB/lib_mem.c:2458-2513 | whatever is asked for, and even where the fit test errs, the segment stays sound and its next address does not move back |
| Segments.BlksInsideIff | UCOSII/uC-LIB/lib_mem.c:2565-2584 | when an allocation for n blocks is granted, every block as the code addresses it lies inside the segment if and only if the true total, gap included, is below 2^32 |
| Segments.StepSafeIff | UCOSII/uC-LIB/lib_mem.c:2458-2513 | one allocation or clear, with any arguments, keeps the live blocks disjoint, inside the segment and aligned if and only if it is not a request whose true total reaches 2^32 and whose wrapped total passes for one that fits |
| Segments.RunSafeIff | UCOSII/uC-LIB/lib_mem.c:2458-2513 | over every sequence of calls with any arguments, all states are safe if and only if no call is such a request |
| Segments.RunForward | UCOSII/uC-LIB/lib_mem.c:2458-2513 | over every such sequence, wrong grants included, no block is withdrawn and the next address does not move back, except by a clear |
| Segments.WrongBlk | UCOSII/uC-LIB/lib_mem.c:2565-2584 | a block granted wrongly reaches beyond the used part of the segment or starts at address 0 |
| Segments.StepForward | UCOSII/uC-LIB/lib_mem.c:2458-2513 | a call that fails changes nothing |
| Segments.SafeBlocks | UCOSII/uC-LIB/lib_mem.c:2551-2585 | two live blocks share no address, every owned address is between AddrBase and AddrEnd, and block addresses are multiples of both alignment and padding |
| Segments.MemSeg.constructor | UCOSII/uC-LIB/lib_mem.c:2327-2345 | a new segment covers base to base + size - 1, modulo 2^32, and is empty; it is sound if and only if the range does not wrap and the padding is a power of two |
| Segments.MemSeg.SegClr | UCOSII/uC-LIB/lib_mem.c:969-990 | the next address returns to the base and nothing else changes |
| Segments.MemSeg.SegRemSizeGet | UCOSII/uC-LIB/lib_mem.c:1025-1072 | remaining size and all four fields of the caller's structure are those of the specification functions; for an alignment that is not a power of two the result is 0 and the structure is untouched |
| Segments.MemSeg.SegAllocExtCritical | UCOSII/uC-LIB/lib_mem.c:2551-2585 | the whole new state and the result, for any wrapped values; the caller's p_bytes_reqd variable changes on overflow only |
| Segments.MemSeg.SegAllocInternal | UCOSII/uC-LIB/lib_mem.c:2458-2513 | the same with the size and alignment checks in front, each error with its exact condition |
| Segments.MemSeg.SegAlloc | UCOSII/uC-LIB/lib_mem.c:1114-1140 | word alignment, no padding |
| Segments.MemSeg.SegAllocExt | UCOSII/uC-LIB/lib_mem.c:1181-1209 | given alignment, no padding |
| Segments.MemSeg.SegAllocHW | UCOSII/uC-LIB/lib_mem.c:1251-1279 | given alignment and the segment's own padding |
| SegmentList.OverlapTestExact | UCOSII/uC-LIB/lib_mem.c:2386-2407 | the four comparisons hold exactly when the new range and the segment share an address |
| SegmentList.OverlapTestIff | UCOSII/uC-LIB/lib_mem.c:2386-2407 | the test is right for every possible segment if and only if the new range does not wrap around the address space |
| SegmentList.ScanDecides | UCOSII/uC-LIB/lib_mem.c:2386-2407 | on a disjoint list the scan says "exists" only for the very same range, "overlap" only for a segment that shares an address, and "none" only when no segment does |
| SegmentList.VerdictIgnoresOrder | UCOSII/uC-LIB/lib_mem.c:2386-2407 | two orders of the same disjoint segments give the same verdict, and the same segment when it exists |
| SegmentList.CreateExact | UCOSII/uC-LIB/lib_mem.c:885-940 | a segment is created if and only if it is non-empty, does not wrap, has a power-of-two padding and shares no address with any other; otherwise the list is unchanged |
| SegmentList.CreateErrors | UCOSII/uC-LIB/lib_mem.c:885-940 | each of the five answers has its own exact condition in terms of the ranges on the list: size, padding, exactly that range listed, an address shared with a range not equal to it, or none of these |
| SegmentList.ScanMeans | UCOSII/uC-LIB/lib_mem.c:2386-2407 | the three verdicts as three exact conditions on the ranges of the list |
| SegmentList.CreateAllDisjoint | UCOSII/uC-LIB/lib_mem.c:885-940 | after any sequence of requests the list is disjoint and every earlier segment is still there |
| SegmentList.SegMgr.SegOverlapChkCritical | UCOSII/uC-LIB/lib_mem.c:2376-2412 | walking the linked list returns the verdict of the scan and the segment it is about |
| SegmentList.SegMgr.SegCreateCritical | UCOSII/uC-LIB/lib_mem.c:2327-2345 | the new segment is at the head of the list, which otherwise keeps its segments in order; a sound list stays sound if and only if the new range does not wrap and meets no segment |
| SegmentList.SegMgr.SegCreate | UCOSII/uC-LIB/lib_mem.c:885-940 | list and result are those of the specification function; the new segment is empty, covers exactly the range and has the given padding; on any error the list of objects is untouched; a sound list stays sound |
| StaticPool.ValidAddrIff | UCOSII/uC-LIB/lib_mem.c:2824-2841 | an address is accepted exactly when it is start + k * block size with k below the number of blocks |
| StaticPool.GetExact | UCOSII/uC-LIB/lib_mem.c:1598-1647 | when each error occurs; a block handed out was not held, and the held set grows by exactly it |
| StaticPool.FreeExact | UCOSII/uC-LIB/lib_mem.c:1681-1738 | a free succeeds exactly for a held block, each error has its exact condition (a double free is always reported), and the pool-full branch is unreachable |
| StaticPool.GetUndoesFree | UCOSII/uC-LIB/lib_mem.c:1631-1735 | a get right after a free returns the freed block and restores the whole table |
| StaticPool.HeldMembers | UCOSII/uC-LIB/lib_mem.h:303-310 | the table entries below the index are the free blocks, all others are held, and the numbers add up |
| StaticPool.RunPartition | UCOSII/uC-LIB/lib_mem.c:1598-1738 | after any sequence of gets and frees, valid or not, free and held blocks partition the pool and their numbers add up to the number of blocks |
| StaticPool.CreationSoundIff | UCOSII/uC-LIB/lib_mem.c:1464-1486 | when a creation succeeds, every block lies inside its segment and every table entry inside the heap if and only if the true totals of blocks and table, computed from the arguments and the two next addresses, are below 2^32; the products are never checked |
| StaticPool.CreationMeans | UCOSII/uC-LIB/lib_mem.c:1409-1506 | on a sound list, in unbounded arithmetic: the overlap error exactly when the given range meets a segment without being one; no memory when a new segment has no room for its descriptor; otherwise, if the totals stay below 2^32, success exactly when the blocks end inside their segment and the table after them inside the heap |
| StaticPool.PlaceExact | UCOSII/uC-LIB/lib_mem.c:1409-1458 | the heap without a base address; the segment of exactly the given range; an overlap error; or a new empty segment if the heap has room for the descriptor, and otherwise the number of bytes missing |
| StaticPool.CarvedExact | UCOSII/uC-LIB/lib_mem.c:1464-1486 | which of the two allocations fails, with the number of missing bytes, and where blocks and table end |
| StaticPool.WrappedPoolAccepted | UCOSII/uC-LIB/lib_mem.c:1464-1475 | two blocks of 0x80000001 bytes are accepted in a segment of 96 bytes, and the first already leaves it |
| StaticPool.WrappedPoolRefused | UCOSII/uC-LIB/lib_mem.c:1464-1475 | 65536 blocks of 65536 bytes wrap to 0 and are refused |
| StaticPool.WrappedRangeAccepted | UCOSII/uC-LIB/lib_mem.c:1409-1475 | a concrete range that wraps is taken for free although it covers part of an existing segment, and a pool is created there with a block on that segment |
| StaticPool.SoundStart | UCOSII/uC-LIB/lib_mem.c:1464-1475 | with room the block distance and pool size are computed without loss and the blocks start aligned inside the segment |
| StaticPool.ChooseSeg | UCOSII/uC-LIB/lib_mem.c:1409-1458 | which segment the pool goes into, in terms of the ranges on the list: the heap without a base address, the existing segment of exactly the given range, or a new empty one without padding at the head of the list; the overlap and memory errors with their exact conditions; a sound list stays sound if and only if no segment is created or its range does not wrap |
| StaticPool.MemPool.constructor | UCOSII/uC-LIB/lib_mem.c:1542-1568 | a cleared pool has no blocks and an empty table |
| StaticPool.MemPool.PoolCreate | UCOSII/uC-LIB/lib_mem.c:1351-1506 | for every argument: each error has its exact condition; on a sound list the home of the pool, the new list and success are given by the ranges on the list and by unbounded sizes; on any list heap, segment, error, table and pool data are exactly those of the allocations in 32-bit arithmetic; if the blocks have room in a sound segment, success gives a pool in its invariant, nothing held, blocks aligned and inside |
| StaticPool.MemPool.CheckArgs | UCOSII/uC-LIB/lib_mem.c:1381-1401 | the four argument errors, in this order, each with its exact condition |
| StaticPool.MemPool.AllocPool | UCOSII/uC-LIB/lib_mem.c:1409-1506 | the rest of the call in 32-bit arithmetic, on any list |
| StaticPool.NewSeg | UCOSII/uC-LIB/lib_mem.c:1421-1449 | the descriptor is paid for by the heap and the new segment is at the head of the list, empty and without padding |
| StaticPool.MemPool.CarvePool | UCOSII/uC-LIB/lib_mem.c:1464-1506 | blocks come from the chosen segment and the table from the heap, also when the two are the same; what each failure leaves behind |
| StaticPool.MemPool.InitPool | UCOSII/uC-LIB/lib_mem.c:1491-1506 | table entry i is block i and every block is free, in 32-bit arithmetic |
| StaticPool.MemPool.StartsFull | UCOSII/uC-LIB/lib_mem.c:1491-1506 | a filled pool whose blocks do not wrap satisfies the invariant with nothing held |
| StaticPool.MemPool.PoolBlkGet | UCOSII/uC-LIB/lib_mem.c:1598-1647 | whole new state and result |
| StaticPool.MemPool.PoolBlkFree | UCOSII/uC-LIB/lib_mem.c:1681-1738 | whole new state and result, with the search loop for the block among the free ones |
| StaticPool.MemPool.PoolBlkGetNbrAvail | UCOSII/uC-LIB/lib_mem.c:1765-1791 | the number of free blocks, which is the number of blocks minus those held |
| ByteMemory.StoreLoad | UCOSII/uC-LIB/lib_mem.c:2100 | a link written into a block is the one read back |
| DynPool.NextInv | UCOSII/uC-LIB/lib_mem.c:1992-2102 | every enabled step of every task, and every allocation of another user of the segment with any arguments, keeps the invariant: blocks disjoint, aligned and inside the segment; the links visit exactly the free blocks and end in null; owners, free list and transit agree; BlkAllocCnt = held + reservations + failed growths |
| DynPool.RunInv | UCOSII/uC-LIB/lib_mem.c:1992-2102 | the invariant holds in every state that any interleaving of any number of tasks reaches |
| DynPool.NoDoubleHandOut | UCOSII/uC-LIB/lib_mem.c:2005-2035 | a block handed out was free or new, is aligned, belongs to its task afterwards, and shares no byte with any block that is held or on its way back |
| DynPool.HeldBytesKept | UCOSII/uC-LIB/lib_mem.c:2099-2102 | no step of any pool call changes a byte of a held block |
| DynPool.HeldUntilFreed | UCOSII/uC-LIB/lib_mem.c:1992-2102 | over every run, a block stays with its holder, and each byte keeps its value, until the block is freed or the byte's block is stored into |
| DynPool.ExactlyOnePlace | UCOSII/uC-LIB/lib_mem.c:2086-2102 | every carved block is in exactly one of: free list, held, between release and push of one single task |
| DynPool.Quantities | UCOSII/uC-LIB/lib_mem.c:1992-2003 | held blocks never exceed the maximum less the failed growths; N tasks carve at most N - 1 more; with no get in progress BlkAllocCnt = held + failed growths |
| DynPool.NbrAvailExact | UCOSII/uC-LIB/lib_mem.c:2151-2160 | between calls the reported number is never negative and equals the maximum minus the held blocks if and only if no growth failed |
| DynPool.RunLeaks | UCOSII/uC-LIB/lib_mem.c:2024-2031 | over every run the failed growths are exactly the steps that grow the pool while its next block does not fit the segment; the number never falls, and the blocks held stay within the maximum less it |
| DynPool.NbrAvailIff | UCOSII/uC-LIB/lib_mem.c:2151-2160 | after a run from a state without failed growths the reported number is the maximum minus the held blocks if and only if no such step occurred |
| DynPoolCalls.LeakIff | UCOSII/uC-LIB/lib_mem.c:1992-2031 | a get of a limited pool fails to grow, and so takes one off the reported number, if and only if the counter is below the maximum, nothing is free, and the next block does not fit the segment; the cause is the number of bytes missing |
| DynPoolCalls.LeakedForGood | UCOSII/uC-LIB/lib_mem.c:1992-2031 | on a concrete full segment a pool of one block fails once, then reports 0 and answers every get that it is empty, whatever segment it is given |
| DynPoolCalls.AllLeaked | UCOSII/uC-LIB/lib_mem.c:1992-2031 | once as many growths have failed as the maximum, nothing is held and every get after any run answers that the pool is empty |
| DynPoolBound.BoundIsReached | UCOSII/uC-LIB/lib_mem.c:1992-2035 | for every number N of idle tasks and every maximum, with room in the segment, there is a legal run after which exactly N - 1 blocks more than the maximum have been carved |
| DynPoolBound.NeverOverIff | UCOSII/uC-LIB/lib_mem.c:1992-2035 | from such a state the blocks carved stay within the maximum on all runs if and only if N is 1 |
| DynPoolBound.CreatedBoundIff | UCOSII/uC-LIB/lib_mem.c:1992-2035 | both hold of the state that creation leaves |
| DynPoolBound.RoomBySize | UCOSII/uC-LIB/lib_mem.c:2024-2031 | the segment grants k more blocks when k times size, alignment and padding fit |
| DynPoolCalls.GetIsRun | UCOSII/uC-LIB/lib_mem.c:1972-2035 | a get that is not interrupted is a run of the machine; its exact effect on memory, owners, free list and failed growths, and exactly when the pool is reported empty |
| DynPoolCalls.FreeIsRun | UCOSII/uC-LIB/lib_mem.c:2063-2105 | an uninterrupted free of a held block is a run that always succeeds and puts the block on top of the free list |
| DynPoolCalls.FreeExact | UCOSII/uC-LIB/lib_mem.c:2063-2105 | what a free answers in any state: null first, then full exactly for a limited pool whose counter is 0, both without any change; otherwise the exact new memory, list and counter |
| DynPoolCalls.FullIff | UCOSII/uC-LIB/lib_mem.c:2086-2094 | between calls a limited pool refuses a free as full if and only if nothing is held and no growth has failed |
| DynPoolCalls.GetUndoesFree | UCOSII/uC-LIB/lib_mem.c:2099-2102 | a get after a free returns that block and restores list and counter; only the link word in the block has changed |
| DynPoolCalls.SequentialBound | UCOSII/uC-LIB/lib_mem.c:1992-2035 | with one task the blocks ever carved never exceed the maximum |
| DynPoolCalls.LinkFitsIff | UCOSII/uC-LIB/lib_mem.c:2772 | pushing a block keeps all memory outside the block if and only if the block size is at least the size of a pointer |
| DynPoolCalls.SmallBlockCorrupts | UCOSII/uC-LIB/lib_mem.c:1992-2102 | a pool created with any block size below that of a pointer hands out two neighbouring blocks, and freeing the first changes a byte of the second, which is still held |
| DynPoolCalls.LinkBlksLinks | UCOSII/uC-LIB/lib_mem.c:2782-2787 | the initial links visit the carved blocks in order and end in null, and nothing outside those blocks changes |
| DynPoolCalls.CarveExact | UCOSII/uC-LIB/lib_mem.c:2748-2767 | with room the distance between initial blocks is the least aligned size that holds both the block and a pointer, and the blocks fill the newly allocated part of the segment |
| DynPoolCalls.CarveIffFits | UCOSII/uC-LIB/lib_mem.c:2748-2767 | with the total below 2^32 the initial blocks are granted exactly when they end inside the segment, at the first aligned address; otherwise the missing bytes are reported |
| DynPoolCalls.InitBlksInsideIff | UCOSII/uC-LIB/lib_mem.c:2748-2767 | when the initial blocks are granted, all of them lie inside the segment, with room for their links, if and only if their true total is below 2^32 |
| DynPoolCalls.WrappedLinksEscape | UCOSII/uC-LIB/lib_mem.c:2756-2787 | two initial blocks of 0x80000001 bytes are accepted in a segment of 96 bytes, and the second link overwrites memory far outside it |
| DynPoolCalls.InitListIff | UCOSII/uC-LIB/lib_mem.c:2782-2787 | the list of the initial blocks can be read back if and only if the first block is not at address 0, that is, unless the segment starts there and is empty |
| DynPoolCalls.NullBlkLost | UCOSII/uC-LIB/lib_mem.c:2005-2031 | with two blocks created at address 0, the first get finds nothing and carves a third |
| DynPoolCalls.LinkAllExact | UCOSII/uC-LIB/lib_mem.c:2782-2787 | the link loop's 32-bit arithmetic is exact while the links do not pass the end of the address space |
| DynPoolCalls.CreatedAll | UCOSII/uC-LIB/lib_mem.c:2748-2790 | the state creation builds satisfies the machine's invariant for any set of idle tasks |
| DynPoolCalls.MemDynPool.DynPoolCreateInternal | UCOSII/uC-LIB/lib_mem.c:2706-2796 | for every argument: each argument error has its exact condition; with totals below 2^32 creation succeeds exactly when the initial blocks end inside the segment; a failure leaves memory, segment and pool data alone; memory is exactly that of the link loop in 32-bit arithmetic; if the blocks have room, only newly allocated bytes change, and the machine starts soundly when the documented block size is respected |
| DynPoolCalls.MemDynPool.InitLinks | UCOSII/uC-LIB/lib_mem.c:2782-2787 | the pointer-writing loop leaves exactly the specified memory |
| DynPoolCalls.MemDynPool.DynPoolBlkGet | UCOSII/uC-LIB/lib_mem.c:1972-2035 | whole new state and result |
| DynPoolCalls.MemDynPool.DynPoolBlkFree | UCOSII/uC-LIB/lib_mem.c:2063-2105 | whole new state and result; null and full each have their exact condition and change nothing |
| DynPoolCalls.MemDynPool.DynPoolBlkNbrAvailGet | UCOSII/uC-LIB/lib_mem.c:2133-2162 | 0 for an unlimited pool, otherwise the number NbrAvailExact speaks about |
| BufferOps.MemCopy | UCOSII/uC-LIB/lib_mem.c:411-485 | for every two buffers, overlapping or not and at any alignment, memory ends exactly as after the octet-by-octet forward copy, with every word access aligned; null pointers and empty sizes change nothing |
| BufferOps.FwdCopyIsMoveIff | UCOSII/uC-LIB/lib_mem.c:440-482 | the forward copy moves the old source octets, whatever memory holds, if and only if the buffers are disjoint or the source is not below the destination |
| BufferOps.FwdCopyRepeats | UCOSII/uC-LIB/lib_mem.c:440-482 | otherwise it repeats the leading octets with the period of the gap |
| BufferOps.MemMove | UCOSII/uC-LIB/lib_mem.c:522-605 | for every two buffers the destination ends with the old source octets and nothing else changes, including the delegation to Mem_Copy |
| BufferOps.BwdCopyIsMove | UCOSII/uC-LIB/lib_mem.c:555-603 | the backward copy moves the old source octets when the source is not above the destination |
| BufferOps.BwdCopyWord | UCOSII/uC-LIB/lib_mem.c:586-590 | a word step of the backward copy equals four octet steps when the buffers are a word apart |
| BufferOps.FwdCopyWord | UCOSII/uC-LIB/lib_mem.c:468-472 | the same for the forward copy |
| BufferOps.MemSet | UCOSII/uC-LIB/lib_mem.c:303-356 | exactly the octets of the buffer take the value, through aligned words |
| BufferOps.FilledAt | UCOSII/uC-LIB/lib_mem.c:303-356 | each octet of the filled memory: the value inside the buffer, the old octet outside |
| BufferOps.MemClr | UCOSII/uC-LIB/lib_mem.c:262-268 | the same with zero |
| BufferOps.DataWord | UCOSII/uC-LIB/lib_mem.c:325-329 | the shift-and-or loop builds the word of four equal octets |
| BufferOps.MemCmp | UCOSII/uC-LIB/lib_mem.c:646-735 | for non-null buffers at any alignments the answer is yes if and only if all octets agree; null pointers give no, and an empty size gives yes before they are looked at |
| Lcg.WrapHarmless | UCOSII/uC-LIB/lib_math.c:277 | computing the product and sum modulo 2^32 does not change the result modulo 2^31 |
| Lcg.OutIsIter | UCOSII/uC-LIB/lib_math.c:272-280 | the n-th output is n + 1 steps of the unbounded recurrence, reduced once at the end |
| Lcg.IterIsAffine | UCOSII/uC-LIB/lib_math.c:277 | 2^k steps are one affine step with multiplier 1 mod 4 * 2^k and an odd multiple of 2^k as increment |
| Lcg.StepDoubled | UCOSII/uC-LIB/lib_math.c:277 | 2^k steps add 2^k modulo 2^(k+1), for every k |
| Lcg.ReturnsIff | UCOSII/uC-LIB/lib_math.c:277 | modulo 2^k the sequence repeats exactly after multiples of 2^k |
| Lcg.DrawsEqualIff | UCOSII/uC-LIB/lib_math.c:272-280 | from every seed two outputs are equal if and only if they are a multiple of 2^31 apart |
| Lcg.FullPeriod | UCOSII/uC-LIB/lib_math.h:159-172 | from every seed, 2^31 consecutive outputs visit every value of [0, 2^31) exactly once |
| Lcg.FirstDraws | UCOSII/uC-LIB/lib_math.h:168-172 | the first two numbers of the sequence that starts with the initial seed 1 |
| Lcg.BitPeriodIff | UCOSII/uC-LIB/lib_math.c:272-280 | d is a period of output bit k (0 to 30) if and only if d is a multiple of 2^(k+1) |
| Lcg.MathRand.constructor | UCOSII/uC-LIB/lib_math.c:147-152 | the generator starts as if seeded with 1 |
| Lcg.MathRand.RandSetSeed | UCOSII/uC-LIB/lib_math.c:175-188 | the seed of the following outputs |
| Lcg.MathRand.Rand | UCOSII/uC-LIB/lib_math.c:215-236 | each call returns the next output of the sequence, for every seed that leads to the current state |
| Timestamp.AccumExact | UCOSII/uC-CPU/cpu_core.c:474-482 | over every sequence of reads the accumulator is the true elapsed time less whole timer turns, modulo its own width |
| Timestamp.LostIffLate | UCOSII/uC-CPU/cpu_core.c:555-563 | no turn is lost if and only if every gap between reads is shorter than a turn |
| Timestamp.ExactIffTimely | UCOSII/uC-CPU/cpu_core.c:542-565 | before its own overflow the accumulator equals the true elapsed time if and only if every gap is shorter than a turn, and what is missing is a multiple of the turn |
| Timestamp.CpuTs.constructor | UCOSII/uC-CPU/cpu_core.c:2178-2196 | starts with zero time at the current timer value |
| Timestamp.CpuTs.TsGet | UCOSII/uC-CPU/cpu_core.c:461-484 | one read as a step on the accumulated state, whatever true time the timer value stands for |
| IntDisMeas.RunAgrees | UCOSII/uC-CPU/cpu_core.c:1024-1043 | on every properly nested run of depth up to 2^16 the maximum is that of the lengths of all outermost sections, the current maximum that of the sections finished since the last clearing, and current never exceeds overall |
| IntDisMeas.CountsEnters | UCOSII/uC-CPU/cpu_core.c:840-847 | over every run the measurement counter is the number of sections entered modulo 2^16, and the overhead never changes |
| IntDisMeas.LastTimes | UCOSII/uC-CPU/cpu_core.c:1024-1034 | over every run the start and stop counts are the timer values at the last start and the last stop |
| IntDisMeas.MaxOfIsMax | UCOSII/uC-CPU/cpu_core.c:1036-1041 | the running comparison yields an element of the history that no element exceeds |
| IntDisMeas.LengthExactIff | UCOSII/uC-CPU/cpu_core.c:1029-1041 | when the outermost section of a run ends, both maxima take its true length into account if and only if it is shorter than a turn of the timer |
| IntDisMeas.DepthBoundIff | UCOSII/uC-CPU/cpu_core.c:840-847 | the maximum is right on all runs of depth up to d if and only if d is at most 2^16 (or the timer shows a single value) |
| IntDisMeas.OverrunMisses | UCOSII/uC-CPU/cpu_core.c:840-847 | a run of 2^16 + 1 starts and as many stops ends with maximum 0 where the longest section lasted 1 |
| IntDisMeas.OverheadExact | UCOSII/uC-CPU/cpu_core.c:2264-2265 | the overhead is the mean rounded to nearest if neither the sum nor the rounding addition, at the width of unsigned int or more, wraps; and only then if the timer shows more values than there are measurements |
| IntDisMeas.ResetExact | UCOSII/uC-CPU/cpu_core.c:726-731 | sections that end between the two halves of a reset are in neither the returned maximum nor the new period: the returned maximum is the one at the clearing if and only if none of them is longer, and none is lost if and only if no outermost section ends in between |
| IntDisMeas.Measurement.constructor | UCOSII/uC-CPU/cpu_core.c:2239-2268 | initialisation ends with cleared maxima, no nesting, no history, the number of overhead measurements counted, their last start and stop times, and an overhead that is the rounded mean under exactly those conditions |
| IntDisMeas.Measurement.MeasOverhead | UCOSII/uC-CPU/cpu_core.c:2255-2262 | the loop's total is the sum of the individual measurements modulo the timer width |
| IntDisMeas.Measurement.MeasStart | UCOSII/uC-CPU/cpu_core.c:840-848 | whole new state, and one more event in the history |
| IntDisMeas.Measurement.MeasStop | UCOSII/uC-CPU/cpu_core.c:1024-1043 | whole new state, and one more event in the history |
| IntDisMeas.Measurement.MaxCurReset | UCOSII/uC-CPU/cpu_core.c:720-732 | returns the longest section since the last clearing, less the overhead, as of its first interrupt-disabled part, and clears in its second, with any events in between |
| IntDisMeas.Measurement.MaxCurGet | UCOSII/uC-CPU/cpu_core.c:761-774 | the result is the longest outermost section since the last clearing less the overhead: every such section is at most overhead + result, and a positive result is attained |
| IntDisMeas.Measurement.MaxGet | UCOSII/uC-CPU/cpu_core.c:803-816 | the same for all outermost sections since initialisation |
| IntDisMeas.Measurement.MaxCalc | UCOSII/uC-CPU/cpu_core.c:2372-2386 | the least number that together with the overhead covers the time |
| BitCount.TableExact | UCOSII/uC-CPU/cpu_core.c:109-127 | every one of the 256 table entries is 8 minus the bit length of its index |
| BitCount.LeadZerosExact | UCOSII/uC-CPU/cpu_core.c:1208-1502 | at each of the four widths the decision tree counts width minus bit length, for every value |
| BitCount.IsolatesLowest | UCOSII/uC-CPU/cpu_core.c:2046 | `x & (~x + 1)` is the power of two of the lowest set bit, at any width |
| BitCount.TrailZerosExact | UCOSII/uC-CPU/cpu_core.c:1714-2049 | at each of the four widths the count is the exponent of the largest power of two dividing the value, and the width for zero |
| BitCount.StageExact | UCOSII/uC-CPU/cpu_core.c:2085-2091 | masking and adding neighbouring lanes is lane-wise addition: no carry leaves a lane |
| BitCount.CollectBytes | UCOSII/uC-CPU/cpu_core.c:2093 | the wrapping multiplication leaves the sum of the four bytes in the top byte |
| BitCount.PopCntExact | UCOSII/uC-CPU/cpu_core.c:2075-2096 | for every 32-bit value the result is the number of ones |
| BitField.UnitIsLowestBit | UCOSII/uC-LIB/lib_def.h:878 | the divisor of the macros is the mask's lowest bit, even when the shift drops the top bit of the word |
| BitField.ReadExact | UCOSII/uC-LIB/lib_def.h:878 | reading yields the bits of the field |
| BitField.EncodeExact | UCOSII/uC-LIB/lib_def.h:901 | encoding puts the low bits of the value into the field, for any value and in spite of wrapping |
| BitField.WriteExact | UCOSII/uC-LIB/lib_def.h:926 | writing replaces the field and keeps every bit above and below |
| BitField.FieldRoundTrip | UCOSII/uC-LIB/lib_def.h:878-926 | reading after writing gives the value modulo 2^len, other bits are kept, and writing back what was read changes nothing; for every contiguous mask of every width |
| Endian.CopyGetIntuBig | UCOSII/uC-LIB/lib_mem.h:957-968 | the two-index loop, whose second index wraps past zero, leaves exactly the specified memory for every size; the little-endian value of the destination is the big-endian value of the source |
| Endian.CopyReversesIff | UCOSII/uC-LIB/lib_mem.h:957-968 | the copy reverses the octets and changes nothing else, whatever memory holds, if and only if the buffers share at most one octet |
| Endian.ReversedValue | UCOSII/uC-LIB/lib_mem.h:957-968 | reversing the octets turns a big-endian value of any size into the little-endian one |
| Endian.CopyDecodes | UCOSII/uC-LIB/lib_mem.h:957-968 | copying decodes the value, and copying twice restores the octets |

## Left out

- Null-pointer error branches of the pool and segment calls, and the replacement of a null segment by the heap: one branch each.
- `Mem_HeapAlloc`, `Mem_HeapGetSizeRem`, `Mem_Init`: a call on the heap segment each.
- `Mem_OutputUsage`, `Mem_SegAllocTrackCritical` and all debug information: optional tracking and printing.
- `Mem_DynPoolCreate`, `Mem_DynPoolCreateHW`: they only choose the padding passed to the modelled function.
- Assembly versions of `Mem_Copy` and of the bit counts: their code is not part of this model.
- `CPU_CntLeadZeros`, `CPU_CntTrailZeros`: they dispatch on the configured word size to the modelled functions.
- `CPU_TS_Get32`/`CPU_TS_Get64` with a timer at least as wide as the timestamp: a plain read of the timer.
- `CPU_Name*`, `CPU_SW_Exception`, cache functions, the HAL, board and application code: string functions, hardware registers and vendor code.
- Real interrupts: each critical section is one atomic step; the pool descriptor read outside a critical section does not change after creation.
- Alignment of link accesses in dynamic pools: links may be read at any address, because the pool does not demand pointer-aligned blocks; the word accesses of the buffer operations are all proved aligned.
- The other value macros of lib_mem.h (fixed sizes of 8, 16 and 32 bits): instances of the general copy without a loop.
- `MATH_ROUND_INC_UP`: rounding by division, not used by the modelled code.
- StaticPool.MemPool.PoolCreate: the segment descriptor and the block table are objects of the model, not bytes of the heap, so what a table that does not fit would overwrite is not modelled (`StaticPool.CreationSoundIff` says when it fits).
- Segments.StepSafeIff, RunSafeIff, BlksInsideIff: a segment that starts at address 0 is not covered, since a block there is the null pointer.
- DynPool.RunInv: assumes that block size, alignment and padding of a pool are below 2^32 together, and DynPoolCalls.MemDynPool.DynPoolCreateInternal the same with the coarser alignment twice; larger values concern single blocks of nearly 4 GiB, and `Segments.StepSafeIff` says what the segment does with them.
- DynPool.NextInv: does not cover frees of blocks the caller does not hold nor stores into freed blocks; dynamic pools have no check against either. Blocks smaller than a pointer, which the documentation forbids, are covered by `DynPoolCalls.LinkFitsIff` and `DynPoolCalls.SmallBlockCorrupts` only.
