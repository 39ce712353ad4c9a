# Pintos, verified in Dafny

This project models the hard parts of the Pintos kernel (a 32-bit x86 teaching
kernel) and proves what they are for.  It has five groups of modules.

- **Indexed files** (`Bitmap`, `Sectors`, `FileSys`, `Files`, `Inodes`).  A file
  is ten direct sectors, a single-indirect and a double-indirect block on a disk
  of 512-byte sectors.  Allocation, lookup and chunked reading and writing are
  proved to agree with "a file is a sequence of bytes", and the packed free map
  to mark exactly what live files own.
- **Threads and processes** (`Scheduling`, `Kernel`, `Donation`, `Timer`,
  `Processes`, `Process`, `ProcessRuns`).  A region with interrupts off is one
  step, so the ready list, semaphores, locks, priority donation, the alarm clock
  and the exec/wait/exit protocol are machines whose invariants hold in every
  interleaving of their steps; for exec/wait/exit the promises are also stated
  over whole runs.
- **Data structures and allocators** (`Lists`, `Hash`, `Arenas`, `ArenaSteps`,
  `Malloc`).  Natural merge sort by splicing linked nodes, a resizing hash
  table, and the block allocator on the page allocator.
- **Words and addresses** (`Division`, `PageTables`, `PageDir`).  64-bit division
  from a 64/32-bit divide that may trap, and a two-level page directory that
  refines a partial map.
- **Printers and parsers** (`Stdio`, `Strings`, `Ustar`, `ArgStack`, `HeapSort`).
  Integer conversions, ustar headers ("ustar Interchange Format" of the pax
  utility in SUSv3, POSIX.1-2001), command-line splitting and the initial user
  stack, heapsort and binary search.

`dafny verify dfyconfig.toml` checks everything.  Code that updates state in
place is a class or a method over arrays, proved against specification
functions; facts about those functions are lemmas.  `Seqs`, `Options` and `Sets` are
shared helpers.

## What turned out to differ

Where the code and what it promises disagree, the model follows the code and a
theorem says exactly when the promise holds.

- `umod64` and `smod64` return 32-bit results: exact for every dividend if and
  only if the divisor is at most 2^32, respectively 2^31 in magnitude
  (`Division.Umod64Exact`, `Division.Smod64Exact`).
- `byte_to_sector` promises -1 where the file has no byte, but looks an entry up
  at an offset equal to the length.  It gives -1 if and only if the offset is
  beyond the length (`Files.ByteToSector`; `Files.LookupInEmptyFile` is an
  example), with two exceptions at the end of a file of full sectors: 138 of them,
  where the answer is the first word of the sector that sector 0 names, and the
  sizes whose next entry is not one of the first 32 of its index block, where
  nobody wrote that entry.
- Growing a file from strictly inside the single-indirect range to beyond it,
  and no other growth, would overrun the index block
  (`FileSystem.FileSys.SectorAllocate`, `FileSystem.SingleShareFits`;
  `FileSystem.SingleShareOverruns` is an example).
- A new index block has only its first 32 entries cleared
  (`FileSystem.ClearedExactly`).  `sector_allocate` follows an entry that nobody
  cleared if and only if the growth does not overrun and ends beyond 4234 sectors
  (`FileSystem.FileSys.SectorAllocate`; `FileSystem.GrowPastCleared` and
  `FileSystem.SlotNotCleared` are examples).
- A sleep ends when it should if and only if its wake-up tick fits `int64_t`;
  otherwise it ends at the next tick (`Timer.WokenExactly`,
  `Timer.OverflowWakesEarly`).
- A big block from `malloc` holds the request if and only if the request is
  below 2^32 - 11 bytes; from there on the page count wraps
  (`Malloc.PageCountFits`, `Malloc.ShortBlock`).
- A donation to a READY thread leaves `ready_list` sorted if and only if no
  thread ahead of it is below the donor (`Priorities.RaisedReady`,
  `Priorities.RaisedReadyBreaks`).
- A donation raises the whole chain if and only if no low thread stands behind a
  high one without also standing before it (`Donation.WholeChainRaised`,
  `Donation.GapIsShielded`).
- An exiting thread that no parent will wait for any more is freed if and only if
  exec made it and its load did not fail; all others wait for ever in
  `thread_exit` (`ProcessRuns.RunFreedExactly`, `ProcessRuns.LostForever`,
  `ProcessRuns.FailedLoad`).
- An integer conversion fills its field exactly, unless the flag 0 without the
  flag - meets a negative `*` width wider than the content: then zeros and blanks
  both pad it (`Stdio.RenderedLength`, `Stdio.WrittenLength`,
  `Stdio.ExceedsField`).
- A made ustar header parses back for directories only if their size is 0, and
  for regular files only if their size is not negative (`Ustar.RoundTrip`).

Two comments describe other code than the one that is there: the largest block
that shares an arena is 1 kB and not 2 kB (`threads/malloc.c`), and
`compare_priorities` returns true for the higher priority, not the lower one.

## Model

| member | source | states |
|---|---|---|
| `Division.Divl` | pintos/src/lib/arithmetic.c:26-37 | the quotient brackets n; the precondition n < d * 2^32 is exactly the no-trap condition |
| `Division.Nlz` | pintos/src/lib/arithmetic.c:41-73 | shifting a nonzero word left by the result puts its top bit at bit 31 |
| `Division.Udiv64` | pintos/src/lib/arithmetic.c:77-127 | equals floor(n / d) for all 64-bit n and d > 0; each divl on the way meets its no-trap precondition |
| `Division.UdivLow` | pintos/src/lib/arithmetic.c:80-112 | the branch for a 32-bit divisor gives the bracketing quotient without a trap |
| `Division.UdivHigh` | pintos/src/lib/arithmetic.c:113-126 | the branch for a larger divisor gives the bracketing quotient without a trap |
| `Division.LowFits` | pintos/src/lib/arithmetic.c:97-105 | the remainder-and-low-word dividend is below d * 2^32, so the first branch cannot trap |
| `Division.HighDivisor` | pintos/src/lib/arithmetic.c:121-124 | the estimate from the normalized divisor is the true quotient or one more, whatever n and d |
| `Division.Umod64` | pintos/src/lib/arithmetic.c:131-135 | the 32-bit result is the remainder modulo 2^32 |
| `Division.Umod64Exact` | pintos/src/lib/arithmetic.c:131-135 | the result is the exact remainder for every n if and only if d <= 2^32 |
| `Division.Sdiv64` | pintos/src/lib/arithmetic.c:139-146 | the quotient truncated toward zero, wrapped to int64_t |
| `Division.Sdiv64Exact` | pintos/src/lib/arithmetic.c:139-146 | truncation toward zero is exact if and only if the operands are not INT64_MIN and -1 |
| `Division.Smod64` | pintos/src/lib/arithmetic.c:150-154 | the truncated remainder wrapped to int32_t |
| `Division.Smod64Exact` | pintos/src/lib/arithmetic.c:150-154 | the result is the exact remainder for every n if and only if the divisor's magnitude is at most 2^31 |
| `Bitmaps.UnpackInjective` | pintos/src/lib/kernel/bitmap.c:33-62 | equal bits mean equal words, so a statement about all bits is one about the stored words |
| `Bitmaps.Bitmap.constructor` | pintos/src/lib/kernel/bitmap.c:78-95 | all bits are off; the padding of the last word is not constrained |
| `Bitmaps.Bitmap.Mark` | pintos/src/lib/kernel/bitmap.c:156-166 | exactly one bit of the packed words becomes 1 |
| `Bitmaps.Bitmap.Reset` | pintos/src/lib/kernel/bitmap.c:169-179 | exactly one bit of the packed words becomes 0 |
| `Bitmaps.Bitmap.Set` | pintos/src/lib/kernel/bitmap.c:144-153 | exactly one bit takes the given value |
| `Bitmaps.Bitmap.Test` | pintos/src/lib/kernel/bitmap.c:197-202 | the bit's value |
| `Bitmaps.Bitmap.SetMultiple` | pintos/src/lib/kernel/bitmap.c:217-228 | the bits of the range take the value, all others stay |
| `Bitmaps.Bitmap.Contains` | pintos/src/lib/kernel/bitmap.c:250-263 | true exactly if some bit of the range has the value |
| `Bitmaps.Bitmap.Scan` | pintos/src/lib/kernel/bitmap.c:295-311 | the first group of cnt bits with the value, or an error exactly if there is none |
| `Bitmaps.Bitmap.ScanAndFlip` | pintos/src/lib/kernel/bitmap.c:319-326 | the first such group, and exactly its bits are flipped |
| `FileSystem.FileSys.constructor` | pintos/src/filesys/free-map.c:12-23 | only the two system sectors are in use |
| `FileSystem.FileSys.FreeMapAllocate` | pintos/src/filesys/free-map.c:27-41 | the lowest free sector is marked, never sector 0 or 1; failure exactly when the disk is full |
| `FileSystem.FileSys.FreeMapRelease` | pintos/src/filesys/free-map.c:44-50 | exactly that sector becomes free |
| `FileSystem.FileSys.AllocSector` | pintos/src/filesys/free-map.c:27-41 | as FreeMapAllocate, with the new sector's role recorded |
| `FileSystem.FileSys.AllocData` | pintos/src/filesys/inode.c:236-240 | a fresh sector, written with zeros, becomes the next data sector of the file |
| `FileSystem.FileSys.OpenBlock` | pintos/src/filesys/inode.c:122-133 | an existing index block is read; a new one has its first 32 entries cleared and the rest arbitrary |
| `FileSystem.FileSys.FillSlots` | pintos/src/filesys/inode.c:135-145 | the entries of an index block continue the list of data sectors |
| `FileSystem.FileSys.IndirectBlockAllocate` | pintos/src/filesys/inode.c:119-150 | the block's entries are the data sectors from its base on, all new sectors are the file's, nothing else changes |
| `FileSystem.FileSys.OuterRound` | pintos/src/filesys/inode.c:183-201 | one round fills one inner block as far as it has room |
| `FileSystem.FileSys.FillOuter` | pintos/src/filesys/inode.c:183-201 | the loop adds exactly the requested sectors through the inner blocks |
| `FileSystem.FileSys.DoubleIndirectBlockAllocate` | pintos/src/filesys/inode.c:163-206 | the double index leads to exactly the data sectors past the single range |
| `FileSystem.FileSys.AllocDirect` | pintos/src/filesys/inode.c:234-243 | direct entries continue the list of data sectors and take exactly their share |
| `FileSystem.FileSys.AllocSingle` | pintos/src/filesys/inode.c:245-260 | the single-indirect block continues it in exactly the slots of its share; an overrun of its 128 slots happens exactly if the share goes past them |
| `FileSystem.FileSys.AllocDouble` | pintos/src/filesys/inode.c:262-270 | what is left goes through the double-indirect block, the other levels staying as they are |
| `FileSystem.FileSys.AllocIndexed` | pintos/src/filesys/inode.c:245-270 | both indirect levels together extend the one flat list of data sectors; an uncleared entry is followed exactly if the growth fits the single block and ends beyond 4234 sectors |
| `FileSystem.FileSys.SectorAllocate` | pintos/src/filesys/inode.c:217-272 | all three index levels agree with one flat list of data sectors, extended by exactly the requested number; refusal exactly beyond the maximum; an overrun of the index block exactly for growth that starts strictly inside the single range and ends beyond it; otherwise an uncleared entry is followed exactly if the file grows beyond 4234 sectors, with all sectors up to then indexed |
| `FileSystem.SingleShareFits` | pintos/src/filesys/inode.c:245-255 | the single-indirect share stays inside the block if and only if the growth does not start strictly inside the single range and end beyond it |
| `FileSystem.SingleShareOverruns` | pintos/src/filesys/inode.c:249-251 | a file of 11 sectors that grows by 128 would write slot 128 of the 128 |
| `FileSystem.ClearedExactly` | pintos/src/filesys/inode.c:122-133 | an entry of a new index block is sure to be 0 if and only if it is one of the first 32 |
| `FileSystem.LimitIsCleared` | pintos/src/filesys/inode.c:183-201 | the last double-indirect slot a file needs is one of those 32 if and only if the file has at most 4234 sectors |
| `FileSystem.SlotNotCleared` | pintos/src/filesys/inode.c:167-197 | a new double-indirect block whose entry for sector number 4235 is not zero |
| `FileSystem.GrowPastCleared` | pintos/src/filesys/inode.c:163-272 | on every device with room, growing a new file to 4235 sectors follows an uncleared entry |
| `Sectors.DecodeEncode` | pintos/src/filesys/inode.c:22-38 | an inode written to its sector reads back unchanged |
| `Sectors.WordsPack` | pintos/src/filesys/inode.c:132-148 | an index block written as 128 words reads back unchanged |
| `Files.ByteToSector` | pintos/src/filesys/inode.c:64-94 | below the length, the lookup through three levels equals the flat list at pos / 512; at the length, where there is no byte, still an entry: of the last sector if the length is no multiple of 512, else a cleared one, 0, or one found through sector 0 where the index block is missing, as long as the entry was written at all; -1 if and only if pos is beyond the length, except at the end of a file of 138 full sectors or where the entry was never written |
| `Files.LookupInEmptyFile` | pintos/src/filesys/inode.c:64-94 | in a new empty file, position 0 gives sector 0 and not -1 |
| `Files.LookupDouble` | pintos/src/filesys/inode.c:81-90 | the two reads of the double index stay on the disk and end at the right data sector, or just past the last one at a zero entry |
| `Files.DataSectorsApart` | pintos/src/filesys/inode.c:64-94 | data sectors are injective in file and position, never sector 0 or 1, and differ from every inode and index sector |
| `Files.InodeReadAt` | pintos/src/filesys/inode.c:457-507 | the bytes read are exactly the slice of the file's contents below its end |
| `Files.ReadLoop` | pintos/src/filesys/inode.c:464-503 | chunk by chunk, the bytes read so far are the slice so far |
| `Files.Extend` | pintos/src/filesys/inode.c:537-557 | growing keeps the contents and makes the new bytes zero |
| `Files.WriteRound` | pintos/src/filesys/inode.c:566-609 | one chunk is spliced into the raw bytes of the file and nothing else |
| `Files.WriteLoop` | pintos/src/filesys/inode.c:564-610 | the chunks together are one splice |
| `Files.InodeWriteAt` | pintos/src/filesys/inode.c:514-623 | the contents become the old ones overwritten at the offset, a gap reads as zeros, the length is max(length, offset + size), other sectors in use are untouched |
| `Files.OtherFile` | pintos/src/filesys/inode.c:514-623 | an operation on one file leaves every other file's index and contents alone |
| `Files.InodeCreate` | pintos/src/filesys/inode.c:279-312 | a new file of the given number of zero bytes; refusal exactly beyond the maximum size |
| `Inodes.InodeTable.constructor` | pintos/src/filesys/inode.c:101-106 | no inode is open and no file is live |
| `Inodes.InodeTable.Create` | pintos/src/filesys/inode.c:279-312 | one more live file of zero bytes, every other file with the index and contents it had |
| `Inodes.InodeTable.InodeOpen` | pintos/src/filesys/inode.c:317-349 | an open sector is opened again as the same inode, a closed one as a new inode with count 1; no sector changes hands |
| `Inodes.InodeTable.InodeReopen` | pintos/src/filesys/inode.c:352-358 | the open count grows by one |
| `Inodes.InodeTable.InodeRemove` | pintos/src/filesys/inode.c:447-452 | the file is only marked |
| `Inodes.InodeTable.Write` | pintos/src/filesys/inode.c:514-623 | a write to a file of direct blocks overwrites this file's contents and keeps index and contents of every other live file |
| `Inodes.InodeTable.ReleaseDirect` | pintos/src/filesys/inode.c:392-396 | exactly the file's data sectors become free |
| `Inodes.InodeTable.ReleaseFile` | pintos/src/filesys/inode.c:388-396 | the inode sector and all data sectors of the removed file become free |
| `Inodes.InodeTable.InodeClose` | pintos/src/filesys/inode.c:370-436 | nothing is released before the last close, nor for a file not removed; the last close of a removed file releases exactly it |
| `Inodes.MarkedAreOwned` | pintos/src/filesys/free-map.c:27-50 | the free map marks exactly sectors 0 and 1, the inode sectors and the data sectors of live files |
| `Inodes.MapFromLive` | pintos/src/filesys/free-map.c:27-50 | the map is a function of the live files |
| `Inodes.MapRestored` | pintos/src/filesys/inode.c:370-436 | when the live files are again what they were, the packed map is the same bit for bit |
| `Lists.ListInsert` | pintos/src/lib/kernel/list.c:168-178 | the element is linked in before the given one |
| `Lists.ListRemove` | pintos/src/lib/kernel/list.c:248-255 | the element is unlinked and its successor returned |
| `Lists.ListSplice` | pintos/src/lib/kernel/list.c:183-204 | the range is moved in one well-formed list; an empty range changes nothing |
| `Lists.FindEndOfRun` | pintos/src/lib/kernel/list.c:357-372 | the end of the maximal nondecreasing run below any given end |
| `Lists.InplaceMerge` | pintos/src/lib/kernel/list.c:379-399 | two adjacent sorted ranges become one sorted, stable range; the rest of the list stays |
| `Lists.MergePass` | pintos/src/lib/kernel/list.c:420-435 | a pass merges runs pairwise: the list stays a stable permutation and its k runs become at most ceil(k / 2) |
| `Lists.ListSort` | pintos/src/lib/kernel/list.c:404-440 | ends with a well-formed list that is a sorted, stable permutation of the input, for every strict weak order |
| `Lists.ListInsertOrdered` | pintos/src/lib/kernel/list.c:445-459 | the element goes before the first one it is less than, in the linked list |
| `Runs.InsertSorted` | pintos/src/lib/kernel/list.c:445-459 | ordered insertion keeps a list sorted and adds exactly the element |
| `Runs.OneRun` | pintos/src/lib/kernel/list.c:437-439 | one run is left exactly when the list is sorted |
| `Passes.PassEnd` | pintos/src/lib/kernel/list.c:420-437 | the runs counted by a finished pass bound the natural runs left, so the outer loop ends sorted |
| `Bits.PowerOf2` | pintos/src/lib/kernel/hash.c:337-341 | is_power_of_2 holds only of powers of two |
| `Bits.TurnOffKeepsTop` | pintos/src/lib/kernel/hash.c:330-334 | turning off the lowest 1 bit of a number that is no power of two keeps its top bit |
| `Bits.MaskIsMod` | pintos/src/lib/kernel/hash.c:305-310 | masking with 2^k - 1 is the remainder modulo 2^k |
| `HashTables.BestBucketCount` | pintos/src/lib/kernel/hash.c:364-373 | the largest power of two not above half the elements, but at least 4 |
| `HashTables.NoDuplicates` | pintos/src/lib/kernel/hash.c:98-108 | equal elements of the table are the same element |
| `HashTables.Table.constructor` | pintos/src/lib/kernel/hash.c:24-44 | an empty table with four buckets |
| `HashTables.Table.FindElem` | pintos/src/lib/kernel/hash.c:314-327 | the equal element of a bucket, if there is one |
| `HashTables.Table.Insert` | pintos/src/lib/kernel/hash.c:98-110 | refines set insertion: the element is added exactly if no equal one is there, which is returned otherwise |
| `HashTables.Table.Replace` | pintos/src/lib/kernel/hash.c:114-127 | the element replaces an equal one, which is returned |
| `HashTables.Table.Find` | pintos/src/lib/kernel/hash.c:131-137 | the equal element of the whole table, if there is one |
| `HashTables.Table.Delete` | pintos/src/lib/kernel/hash.c:144-154 | the equal element is removed and returned |
| `HashTables.Table.RemoveElem` | pintos/src/lib/kernel/hash.c:424-429 | one element less, and nothing equal to it is left |
| `HashTables.Table.InsertElem` | pintos/src/lib/kernel/hash.c:416-421 | one element more, at the front of its bucket |
| `HashTables.Table.Rehash` | pintos/src/lib/kernel/hash.c:351-413 | the contents stay whether or not malloc succeeds; if it does, the bucket count is the ideal one |
| `HashTables.Table.MoveBucket` | pintos/src/lib/kernel/hash.c:396-410 | every element of a bucket reaches its new bucket |
| `HeapSort.Heapify` | pintos/src/lib/stdlib.c:96-123 | restores the heap from position i down, as a permutation, leaving the part beyond cnt alone |
| `HeapSort.BuildHeap` | pintos/src/lib/stdlib.c:142-144 | the whole array becomes a heap |
| `HeapSort.SelectLargest` | pintos/src/lib/stdlib.c:146-151 | the root goes to the end of the heap and the rest is a heap again |
| `HeapSort.Sort` | pintos/src/lib/stdlib.c:131-152 | any array ends sorted and a permutation of its input, for every total preorder |
| `HeapSort.RootLargest` | pintos/src/lib/stdlib.c:146-151 | the root of a heap is at or above every element |
| `HeapSort.BinarySearch` | pintos/src/lib/stdlib.c:184-207 | on a sorted array, a match is returned exactly when there is one |
| `Timer.Timer.TimerSleep` | pintos/src/devices/timer.c:105-125 | n <= 0 returns; otherwise the call is recorded and sleeps, the list staying sorted |
| `Timer.Timer.TimerInterrupt` | pintos/src/devices/timer.c:228-252 | wakes exactly the calls due at the new tick, once each; afterwards every sleeper is strictly in the future and the list is sorted |
| `Timer.SleepKeeps` | pintos/src/devices/timer.c:118-123 | ordered insertion keeps the list, the calls and the wake-ups consistent |
| `Timer.WakeKeeps` | pintos/src/devices/timer.c:240-250 | the head whose tick has come is due exactly now and was not woken before |
| `Timer.WakeMeansDue` | pintos/src/devices/timer.c:118-244 | a recorded tick has come exactly when the call is due, even if the sum wrapped |
| `Timer.WokenExactly` | pintos/src/devices/timer.c:105-252 | a call at tick T for any n > 0 ticks is woken once at exactly T + n, and not before, if and only if T + n fits in int64_t; otherwise once at T + 1 |
| `Timer.OverflowWakesEarly` | pintos/src/devices/timer.c:105-252 | a run in which a sleep of INT64_MAX ticks, begun at tick 1, ends at tick 2 |
| `Malloc.MallocInit` | pintos/src/threads/malloc.c:71-85 | seven descriptors of 16 to 1024 bytes, each with as many blocks as fit behind the header |
| `Malloc.FindDesc` | pintos/src/threads/malloc.c:100-104 | the smallest descriptor that is large enough |
| `Malloc.PageCountFits` | pintos/src/threads/malloc.c:109-119 | a big block holds the request if and only if the request is below 2^32 - 11 |
| `Malloc.ShortBlock` | pintos/src/threads/malloc.c:109-119 | the first request size for which it does not: one page for nearly 4 GB |
| `Malloc.Heap.constructor` | pintos/src/threads/palloc.c:153-170 | all pages free, nothing live |
| `Malloc.Heap.PallocGetMultiple` | pintos/src/threads/palloc.c:70-101 | the lowest group of free pages is marked; null exactly for 0 pages or when there is no such group |
| `Malloc.Heap.PallocFreeMultiple` | pintos/src/threads/palloc.c:117-142 | the pages are filled with 0xcc and exactly they become free |
| `Malloc.Heap.NewArena` | pintos/src/threads/malloc.c:124-146 | a fresh page's blocks go in order on the empty free list, or nothing changes |
| `Malloc.Heap.TakeBlock` | pintos/src/threads/malloc.c:148-153 | a free block becomes live and its arena's count drops by one |
| `Malloc.Heap.MallocBig` | pintos/src/threads/malloc.c:105-120 | contiguous pages with one live block behind the header, or null exactly when there are too few |
| `Malloc.Heap.Malloc` | pintos/src/threads/malloc.c:89-154 | a block that was not live, at least as large as asked for (below 2^32 - 11), or null exactly when size is 0 or pages are short; other live blocks stay |
| `Malloc.Heap.Unlink` | pintos/src/threads/malloc.c:247-251 | all blocks of the arena, and only they, leave the free list |
| `Malloc.Heap.ReleaseArena` | pintos/src/threads/malloc.c:241-253 | an arena page is given back only when none of its blocks is live |
| `Malloc.Heap.FreeSmall` | pintos/src/threads/malloc.c:227-256 | the block returns to the free list, its arena goes as soon as all its blocks are free |
| `Malloc.Heap.FreeBig` | pintos/src/threads/malloc.c:257-262 | the block's pages are given back |
| `Malloc.Heap.Free` | pintos/src/threads/malloc.c:218-264 | exactly that block stops being live; other live blocks keep place, size and bytes; null is ignored |
| `Malloc.Heap.Realloc` | pintos/src/threads/malloc.c:194-214 | the new block starts with the first min(old size, new size) bytes of the old one, which is freed; on failure nothing changes |
| `Malloc.LiveApart` | pintos/src/threads/malloc.c:89-154 | live blocks never share a byte, cover no arena header and stand on pages marked used |
| `Arenas.BlocksApart` | pintos/src/threads/malloc.c:266-294 | distinct blocks, live or free, are disjoint |
| `Arenas.HeadersApart` | pintos/src/threads/malloc.c:49-55 | no block covers an arena header |
| `Arenas.AllFree` | pintos/src/threads/malloc.c:241-246 | a count of blocks_per_arena means every block of the arena is on the free list, and the count never exceeds it |
| `Arenas.BlocksOfPage` | pintos/src/threads/malloc.c:266-294 | arena_to_block enumerates exactly the aligned addresses block_to_arena accepts |
| `ArenaSteps.Take` | pintos/src/threads/malloc.c:148-151 | taking a block keeps: free lists hold exactly the blocks not live, free_cnt counts them |
| `ArenaSteps.Put` | pintos/src/threads/malloc.c:238-242 | so does giving one back |
| `ArenaSteps.NewArena` | pintos/src/threads/malloc.c:137-145 | so does adding an arena |
| `ArenaSteps.Release` | pintos/src/threads/malloc.c:246-252 | so does releasing an arena whose blocks are all free |
| `ArenaSteps.AddBig` | pintos/src/threads/malloc.c:114-119 | so does adding a big block |
| `ArenaSteps.DropBig` | pintos/src/threads/malloc.c:257-261 | so does dropping one |
| `Scheduling.InOnePlace` | pintos/src/threads/thread.h:80-85 | a live thread other than idle occurs once, in the place its status says: running, ready list, or the one semaphore it waits for |
| `Priorities.EnterOrdered` | pintos/src/threads/thread.c:332-333 | ordered insertion puts a thread behind those of equal priority: highest first, first come first served |
| `Priorities.RaisedReady` | pintos/src/threads/synch.c:270-275 | raising a READY thread's priority leaves ready_list sorted if and only if no thread ahead of it is below the new priority |
| `Priorities.RaisedReadyBreaks` | pintos/src/threads/synch.c:270-275 | a concrete donation to a READY thread that puts ready_list out of order |
| `Priorities.SortWaitersIs` | pintos/src/threads/synch.c:131-135 | sorting the waiters permutes them into order of present priority |
| `Priorities.SortWaitersStable` | pintos/src/threads/synch.c:131-135 | the modelled result of list_sort is a sorted, stable permutation of the waiters |
| `Priorities.StableSortUnique` | pintos/src/lib/kernel/list.c:404-440 | there is only one such permutation, so it is what list_sort leaves |
| `Semaphores.UpCounts` | pintos/src/threads/synch.c:130-137 | an up that wakes a waiter keeps value = initial + ups - downs and value <= woken |
| `Semaphores.DownCounts` | pintos/src/threads/synch.c:78-84 | so does a completed down, by a woken thread or one that came in between |
| `Kernel.Kernel.constructor` | pintos/src/threads/thread.c:97-128 | the initial thread runs and the idle thread has blocked |
| `Kernel.Kernel.Schedule` | pintos/src/threads/thread.c:688-769 | the head of ready_list, or idle, runs; it is at or above every ready thread |
| `Kernel.Kernel.ThreadYield` | pintos/src/threads/thread.c:440-459 | the caller queues behind its equals and the head runs |
| `Kernel.Kernel.CheckPreemption` | pintos/src/threads/thread.c:167-185 | outside an interrupt the running thread ends at or above every ready one; inside, it is or a yield on return is requested |
| `Kernel.Kernel.InterruptReturn` | pintos/src/threads/thread.c:167-185 | after the requested yield the running thread is at or above every ready one |
| `Kernel.Kernel.Admit` | pintos/src/threads/thread.c:215-246 | the first step of thread_create: the new thread is READY, behind its equals in ready_list |
| `Kernel.Kernel.ThreadCreate` | pintos/src/threads/thread.c:202-269 | both steps of thread_create with nothing in between: invariants kept, and the running thread is highest |
| `Kernel.Kernel.ThreadExit` | pintos/src/threads/thread.c:425-435 | the thread leaves the table and the highest ready one runs |
| `Kernel.Kernel.IdleBlock` | pintos/src/threads/thread.c:551-556 | the idle thread blocks without entering any list |
| `Kernel.Kernel.ThreadSetPriority` | pintos/src/threads/thread.c:479-495 | the own priority changes, the effective one only if not donated; the running thread is highest afterwards |
| `Kernel.Kernel.SemaInit` | pintos/src/threads/synch.c:52-59 | a new semaphore with no waiters |
| `Kernel.Kernel.Down` | pintos/src/threads/synch.c:69-86 | one round of the loop: done exactly if the value was positive, else the thread is queued among the waiters and another runs |
| `Kernel.Kernel.SemaDown` | pintos/src/threads/synch.c:69-86 | as Down, keeping every invariant |
| `Kernel.Kernel.SemaTryDown` | pintos/src/threads/synch.c:93-112 | succeeds exactly if the value was positive |
| `Kernel.Kernel.Wake` | pintos/src/threads/synch.c:130-137 | readies one waiter of maximal present priority, leaving the others waiting in sorted order |
| `Kernel.Kernel.Up` | pintos/src/threads/synch.c:119-143 | value + 1, one maximal waiter readied if there is any, then preemption |
| `Kernel.Kernel.SemaUp` | pintos/src/threads/synch.c:119-143 | as Up, keeping every invariant, in or outside an interrupt |
| `Kernel.Kernel.LockInit` | pintos/src/threads/synch.c:197-205 | a free lock |
| `Kernel.Kernel.Donate` | pintos/src/threads/synch.c:263-286 | the walk's effect on the machine, in runs where no READY thread receives a donation |
| `Kernel.Kernel.Obtain` | pintos/src/threads/synch.c:288-294 | when the down completes nobody held the lock, and the caller alone is inside |
| `Kernel.Kernel.Hold` | pintos/src/threads/synch.c:290-294 | the lock joins the caller's lock_holding and the caller becomes its holder |
| `Kernel.Kernel.Relinquish` | pintos/src/threads/synch.c:358-385 | the lock's max_priority comes from the second waiter, it leaves lock_holding, and the caller's priority is restored |
| `Kernel.Kernel.LockAcquire` | pintos/src/threads/synch.c:248-297 | donation along the chain, then the lock is the caller's exactly if it was free, else the caller waits |
| `Kernel.Kernel.LockRetry` | pintos/src/threads/synch.c:288-294 | a woken thread tries again without donating |
| `Kernel.Kernel.LockRelease` | pintos/src/threads/synch.c:337-389 | the lock is free, the caller's priority is restored, a maximal waiter is readied |
| `Kernel.RestoredIs` | pintos/src/threads/synch.c:370-383 | the restored priority is the maximum of the own priority and the max_priority of the locks still held |
| `Kernel.MutualExclusion` | pintos/src/threads/synch.c:248-389 | at most one thread is between lock_acquire's return and lock_release, and it is the recorded holder |
| `Kernel.NoLostWakeup` | pintos/src/threads/synch.c:69-143 | while the value is positive and threads wait, some woken thread is ready or running and about to retry |
| `Donation.Walk` | pintos/src/threads/synch.c:263-286 | terminates on every chain, cyclic or not, and raises exactly the threads it reaches to the donor's priority |
| `Donation.RaiseShrinks` | pintos/src/threads/synch.c:270-275 | each round leaves fewer threads below the donor, which ends the loop |
| `Donation.NothingLowered` | pintos/src/threads/synch.c:270-276 | no priority goes down, and one that goes up becomes the donor's |
| `Donation.WholeChainRaised` | pintos/src/threads/synch.c:263-286 | every thread on the chain ends at or above the donor if and only if at entry no low thread stands behind a high one without also standing before it |
| `Donation.ReachesAllLow` | pintos/src/threads/synch.c:263-286 | that shape of the chain is the same as: the walk reaches every low thread |
| `Donation.MonotoneChainRaised` | pintos/src/threads/synch.c:263-286 | so it does when priorities never decrease toward the holder |
| `Donation.GapIsShielded` | pintos/src/threads/synch.c:270-270 | a concrete chain on which a high thread shields a low one behind it, so that the shape fails |
| `Process.ProcessTable.Spawn` | pintos/src/threads/thread.c:202-246 | thread_create outside exec: a thread that is on no child_list and that no parent will use |
| `Process.ProcessTable.Create` | pintos/src/threads/thread.c:202-246 | a fresh thread that only its creator is about to list |
| `Process.ProcessTable.Push` | pintos/src/threads/thread.c:249-251 | the child enters child_list, which has no duplicates, and is on no other list |
| `Process.ProcessTable.LoadDown` | pintos/src/threads/thread.c:253-253 | the parent goes on only when the child's load is over |
| `Process.ProcessTable.ExecReturn` | pintos/src/threads/thread.c:255-268 | the child's tid, which no other thread has; a child whose load failed leaves the list |
| `Process.ProcessTable.LoadDone` | pintos/src/userprog/process.c:93-114 | the child tells its parent, once, whether the load succeeded |
| `Process.ProcessTable.Exit` | pintos/src/userprog/process.c:101-111 | the exit status is stored before thread_exit, for the first time |
| `Process.ProcessTable.ExitNext` | pintos/src/threads/thread.c:390-397 | the next child leaves the exiting parent's list; when none is left, every child it loaded is released |
| `Process.ProcessTable.ExitRelease` | pintos/src/threads/thread.c:396-396 | its exit_mutex is upped, from 0 and for the only time |
| `Process.ProcessTable.ExitSignal` | pintos/src/threads/thread.c:421-421 | the parent is told, once |
| `Process.ProcessTable.Free` | pintos/src/threads/thread.c:423-435 | a page is freed only after one up of its exit_mutex, when no thread has it on its list or is about to use it |
| `Process.ProcessTable.WaitStart` | pintos/src/userprog/process.c:138-164 | the first child with the tid that was not waited for, the only thread with that tid; otherwise -1 at once |
| `Process.ProcessTable.WaitDone` | pintos/src/userprog/process.c:168-168 | the down completes only when the child is past storing its status |
| `Process.ProcessTable.WaitFetch` | pintos/src/userprog/process.c:170-170 | the status read is the one the child stored, from a page that is still there |
| `Process.ProcessTable.WaitUnlist` | pintos/src/userprog/process.c:171-171 | the child leaves the list and is then on none |
| `Process.ProcessTable.WaitReturn` | pintos/src/userprog/process.c:172-174 | the result is the status the child stored, and the child was never reaped before |
| `Processes.FreedUnreferenced` | pintos/src/threads/thread.c:741-745 | a thread whose exit_mutex was upped is on no child_list and in no parent's hands |
| `Processes.ChildrenReleased` | pintos/src/threads/thread.c:390-397 | once a parent is past its loop, or gone, every child it loaded had its exit_mutex upped exactly once |
| `Processes.ReapedOnce` | pintos/src/userprog/process.c:138-175 | over a whole run no child is reaped twice, and every result is the stored status |
| `Processes.NeverFreed` | pintos/src/threads/thread.c:255-260 | a thread not made by exec, or whose load failed, never gets its exit_mutex upped |
| `Processes.FreedExactly` | pintos/src/threads/thread.c:390-435 | an exiting thread whose parent, if any, is past its loop or gone can be freed if and only if exec made it and its load did not fail |
| `ProcessRuns.StepSafe` | pintos/src/threads/thread.c:202-436 | each of the sixteen steps of thread_create, exec, wait and exit keeps the invariant, whoever takes it |
| `ProcessRuns.RunSafe` | pintos/src/threads/thread.c:202-436 | the invariant holds at every point of every run, in any interleaving |
| `ProcessRuns.RunNeverDangles` | pintos/src/threads/thread.c:741-745 | at every point of every run, a page on a child_list or about to be used by a parent has not been freed |
| `ProcessRuns.NeverDangling` | pintos/src/userprog/process.c:168-172 | the child a parent is about to use is there, and still waits for its exit_mutex |
| `ProcessRuns.UppedAtMostOnce` | pintos/src/threads/thread.c:390-397 | in every run each thread's exit_mutex is upped at most once, by a wait or by the parent's exit |
| `ProcessRuns.UppedExactlyOnce` | pintos/src/threads/thread.c:390-397 | and exactly once for every loaded child whose parent is past its loop or gone |
| `ProcessRuns.WaitReturnsStatus` | pintos/src/userprog/process.c:168-174 | the result of a wait is the status of an exit step of that very child earlier in the run |
| `ProcessRuns.WaitedAtMostOnce` | pintos/src/userprog/process.c:158-164 | no two waits of a run return for the same child |
| `ProcessRuns.RunFreedExactly` | pintos/src/threads/thread.c:390-435 | at every point of every run, the same equivalence |
| `ProcessRuns.LostForever` | pintos/src/threads/thread.c:255-260 | once a thread was made outside exec or its load failed, no later point of the run can free it |
| `ProcessRuns.FailedLoad` | pintos/src/threads/thread.c:255-260 | a run in which a load fails and the child waits for ever in thread_exit |
| `PageTables.PdeRoundTrip` | pintos/src/threads/pte.h:70-81 | a directory entry leads back to its page table |
| `PageTables.PteRoundTrip` | pintos/src/threads/pte.h:83-104 | an entry leads back to its frame, present, with the writable bit asked for |
| `PageTables.ClearPresent` | pintos/src/userprog/pagedir.c:154-154 | clearing the present bit keeps frame and writable bit |
| `PageTables.SamePage` | pintos/src/threads/pte.h:31-39 | two addresses have the same pair of indices exactly if they are on the same page |
| `PageTables.EntriesApart` | pintos/src/threads/pte.h:31-39 | different entries have different addresses |
| `PageDir.Memory.PagedirCreate` | pintos/src/userprog/pagedir.c:16-23 | no user page is mapped, the kernel half is init_page_dir's, and no frame is mapped twice |
| `PageDir.Memory.LookupPage` | pintos/src/userprog/pagedir.c:56-86 | the entry for the address; creating a page table changes no translation, and a page new to the directory keeps its pages distinct |
| `PageDir.Memory.PagedirSetPage` | pintos/src/userprog/pagedir.c:98-119 | exactly the given page's translation changes, the kernel half and every page outside the directory stay; failure changes nothing; a frame new to the directory keeps its pages distinct |
| `PageDir.Memory.PagedirGetPage` | pintos/src/userprog/pagedir.c:125-137 | the mapped frame plus the offset, or null |
| `PageDir.Memory.PagedirClearPage` | pintos/src/userprog/pagedir.c:143-157 | exactly the given page's translation goes; pages stay distinct |
| `PageDir.MapApart` | pintos/src/userprog/pagedir.c:98-157 | writing one entry keeps directory, page tables and frames distinct, if a frame it maps is new |
| `PageDir.NewTableApart` | pintos/src/userprog/pagedir.c:69-81 | so does a new page table |
| `PageDir.Memory.PagedirDestroy` | pintos/src/userprog/pagedir.c:27-48 | exactly the freed pages are overwritten; they are the directory, its page tables and the mapped frames if no frame is a page table or the directory, each once if no frame is mapped twice either |
| `PageDir.Memory.PallocFreePage` | pintos/src/threads/palloc.c:117-149 | exactly the words of the page become 0xcccccccc |
| `PageDir.Memory.FreeTable` | pintos/src/userprog/pagedir.c:35-46 | one round adds exactly what one directory entry owns, although pages freed before are overwritten |
| `PageDir.Memory.FreeFrames` | pintos/src/userprog/pagedir.c:42-44 | exactly the frames of one page table are freed, if none is the table itself, and exactly the freed pages are overwritten |
| `PageDir.FrameIsMapped` | pintos/src/userprog/pagedir.c:42-44 | the frames freed are those the directory translates to |
| `Stdio.DigitsValue` | pintos/src/lib/stdio.c:501-513 | the digits, commas ignored, denote the number |
| `Stdio.BodyValue` | pintos/src/lib/stdio.c:501-524 | with any flags and precision the digits denote the number and fit the 64-byte buffer |
| `Stdio.FillDigits` | pintos/src/lib/stdio.c:504-513 | the digit loop writes exactly the digits and never leaves the buffer |
| `Stdio.FillBody` | pintos/src/lib/stdio.c:515-524 | zeros up to the precision and the leading zero of an octal conversion |
| `Stdio.FormatInteger` | pintos/src/lib/stdio.c:469-547 | sends exactly padding, sign, prefix, zeros, digits and padding |
| `Stdio.RenderedLength` | pintos/src/lib/stdio.c:526-529 | the output is exactly as long as the larger of the field width and its content, if and only if not both minus and zero pad a field wider than the content; then it is 2 * width - content |
| `Stdio.WrittenLength` | pintos/src/lib/stdio.c:373-394 | as conversions are written: the field is exceeded if and only if the flag 0 without the flag - meets a negative `*` width whose magnitude exceeds the content |
| `Stdio.ExceedsField` | pintos/src/lib/stdio.c:373-394 | "%0*d" with width -5 prints 42 as "00042" and three blanks |
| `Stdio.RenderedReadsBack` | pintos/src/lib/stdio.c:469-547 | with any flags, width and precision the output reads back to exactly the sign and the number |
| `Stdio.Sink.Output` | pintos/src/lib/stdio.c:45-52 | a character beyond the limit is counted, not stored |
| `Stdio.Sink.OutputDup` | pintos/src/lib/stdio.c:550-555 | the character is sent cnt times |
| `Stdio.Snprintf` | pintos/src/lib/stdio.c:25-42 | what fits is stored and terminated, nothing else is touched, and the full length is returned |
| `Stdio.OctalRendered` | pintos/src/lib/stdio.c:469-547 | a number below 8^w printed with "%0wo" is exactly w octal digits that denote it |
| `Ustar.StripAntisocialPrefixes` | pintos/src/lib/ustar.c:65-73 | the loop computes the stripped name |
| `Ustar.StripSafe` | pintos/src/lib/ustar.c:56-73 | the result is not empty, not "..", and starts with none of the dangerous prefixes |
| `Ustar.StripIdempotent` | pintos/src/lib/ustar.c:65-73 | stripping twice is stripping once |
| `Ustar.CalculateChksum` | pintos/src/lib/ustar.c:36-54 | the sum with the checksum field as blanks |
| `Ustar.SumIndependent` | pintos/src/lib/ustar.c:46-51 | the checksum does not depend on its own field |
| `Ustar.ParseOctalField` | pintos/src/lib/ustar.c:129-162 | succeeds exactly if the leading octal digits are not empty, end in a blank or null and their value fits unsigned long |
| `Ustar.OctalParsesBack` | pintos/src/lib/ustar.c:129-162 | digits that fit, followed by a null, parse to their value without false overflow |
| `Ustar.MakeHeader` | pintos/src/lib/ustar.c:82-118 | fails exactly for stripped names over 99 bytes; otherwise the buffer holds the header |
| `Ustar.SumFits` | pintos/src/lib/ustar.c:114-115 | every checksum fits its seven digits |
| `Ustar.ChecksumHolds` | pintos/src/lib/ustar.c:114-206 | the checksum field of a made header parses to the header's checksum |
| `Ustar.IsAllZeros` | pintos/src/lib/ustar.c:166-173 | true exactly for all zeros |
| `Ustar.ParseHeader` | pintos/src/lib/ustar.c:181-227 | end of archive, the entry, or the first error in the source's order |
| `Ustar.ParseOfMake` | pintos/src/lib/ustar.c:82-227 | what parsing a made header gives for every type and size, negative sizes included |
| `Ustar.RoundTrip` | pintos/src/lib/ustar.c:82-227 | parsing undoes making if and only if a regular size is not negative and a directory's size is 0 |
| `Ustar.CorruptionNoticed` | pintos/src/lib/ustar.c:206-207 | no change of one byte outside the checksum field yields an accepted entry |
| `Strings.Strlcpy` | pintos/src/lib/string.c:325-343 | what fits is copied and terminated, nothing else is touched, and the source length is returned |
| `Strings.StrtokR` | pintos/src/lib/string.c:234-275 | for any delimiters, the next word of the text ahead, terminated in place, or none; nothing beyond the new position changes |
| `Strings.FirstWord` | pintos/src/lib/string.c:248-274 | delimiters, a word, a delimiter or the end: the word comes first and the rest of the words follow |
| `ArgStack.NextToken` | pintos/src/userprog/process.c:323-324 | each token is the first of the words still ahead |
| `ArgStack.CountArgs` | pintos/src/userprog/process.c:321-326 | the first pass counts the words |
| `ArgStack.CopyArgs` | pintos/src/userprog/process.c:336-343 | the second pass copies the same words |
| `ArgStack.LoadArgs` | pintos/src/userprog/process.c:313-343 | both passes find the words of the command line; a line without words fails |
| `ArgStack.WordsAre` | pintos/src/lib/string.c:209-211 | words are not empty and contain no blank |
| `ArgStack.PushText` | pintos/src/userprog/process.c:587-596 | the words with their nulls end at the top of the page |
| `ArgStack.Align` | pintos/src/userprog/process.c:598-608 | zero bytes down to a multiple of 4 |
| `ArgStack.PushPointers` | pintos/src/userprog/process.c:610-622 | the addresses of the words in order, then a null |
| `ArgStack.SetupStack` | pintos/src/userprog/process.c:564-652 | the page ends with the whole image, below it nothing is written, and esp is its 4-aligned start |
| `ArgStack.StackDecodes` | pintos/src/lib/user/entry.c:6-10 | reading argc and argv from esp gives exactly the words in order and a null after the last |
| `ArgStack.PassArguments` | pintos/src/userprog/process.c:313-652 | from command line to main's arguments, for every line whose image fits the page |

## Left out

- Device drivers, interrupt controller, assembly and inline assembly: hardware state; a context switch is one assignment and `divl` is a partial function.
- directory.c, filesys.c, file.c, syscall.c, fsutil.c, the project0 shell, tests and scripts: path strings and dispatch, which would add mostly easy members.
- Out of space in the middle of an allocation, several writers on one inode, and the release of files that use index blocks: the code leaves unzeroed entries behind and reads past its array there.
- free_map_file: writing the bitmap back is taken to succeed, so `free_map_allocate` fails only when the disk is full.
- `malloc` failures inside inode.c, hash.c's copies of list nodes, and process.c: allocation outcomes are parameters (`mallocOk`, `page`) or succeed.
- Parsing of printf format strings, `va_list`, string and floating conversions, console output: conversions are given as their flags, width and precision.
- The upkeep of `lock_waiting` over several acquisitions and `lock_try_acquire`: one `waiting_elem` is shared by all waiters of a lock, so the first lock each thread waits for is an input of the donation walk.
- Condition variables, the locks around the allocators and the timer's calibration.
- Load, install_page and the ELF reader: only the argument part of `load` and the layout of the stack page are modelled.
- FileSystem.FileSys.FreeMapAllocate: one sector at a time, the only way inode.c calls it, and without a failing write of the bitmap.
- FileSystem.FileSys.FreeMapRelease: one sector at a time, without the write of the bitmap.
- FileSystem.FileSys.AllocSector: as FreeMapAllocate.
- FileSystem.FileSys.AllocData: requires a free sector; so do the allocation steps OpenBlock, FillSlots, AllocDirect, AllocSingle and AllocIndexed for all the sectors they need.
- FileSystem.FileSys.IndirectBlockAllocate: requires enough free sectors and a share that fits the block; AllocSingle reports the share that does not.
- FileSystem.FileSys.DoubleIndirectBlockAllocate: requires enough free sectors and at most 32 inner blocks, as do OuterRound, FillOuter and AllocDouble; AllocIndexed reports the growth that needs more.
- FileSystem.FileSys.SectorAllocate: requires enough free sectors; an overrun and an uncleared entry are reported as outcomes, what the code then writes past its array or at the block it took is not modelled.
- Files.Extend: requires growth that SectorAllocate completes, to a length below 4234 * 512 bytes.
- Files.InodeWriteAt: under the same conditions, and with one writer at a time; `new_length` is taken not to overflow `off_t`.
- Files.InodeCreate: requires enough free sectors and a length below 4234 * 512 bytes, unless the size is refused.
- Files.ByteToSector: at the end of a file of full sectors whose next entry is beyond the first 32 of its index block, the value returned is not stated, since nobody wrote that entry.
- Inodes.InodeTable.Create: for files of at most ten sectors, as are Write, ReleaseFile and InodeClose, and with enough free sectors.
- Inodes.InodeTable.InodeOpen: for sectors that hold the inode of a live file.
- Lists.ListSplice: within one list, and not before an element of the moved range, where the code would tie the list into a knot.
- HashTables.Table.constructor: `hash_init` with a successful malloc; its failure makes no table.
- HashTables.Table.Insert: buckets are sequences; the linked nodes under them are those of `Lists`.
- HeapSort.Sort: elements are values; swapping them byte by byte is not modelled.
- Timer.Timer.TimerInterrupt: requires the tick counter to be below its maximum.
- Malloc.Heap.Realloc: requires a request below 2^32 - 11; beyond it the copy would overrun the short block.
- Malloc.Heap.Malloc: headers and free-list links are kept in tables beside the memory, so stray writes through them are not modelled; the proofs show live blocks never cover them.
- Kernel.Kernel.ThreadExit: the thread holds no lock any more; the loop of `thread_exit` that releases locks is not modelled.
- Kernel.Kernel.LockAcquire: requires that no READY thread receives the donation, which is exactly where the order of `ready_list` can break; so does Donate.
- Kernel.Kernel.ThreadCreate: `thread_unblock` and `check_preemption` are two regions with interrupts off; what other threads do in between is covered by Admit and CheckPreemption as separate steps. The part for exec is in `Process`.
- Process.ProcessTable.Create: a failure of palloc_get_page, after which exec returns TID_ERROR without a child, is not a step.
- PageDir.Memory.PagedirSetPage: the TLB flush, the accessed and dirty bits and `pagedir_activate` are not modelled.
- PageDir.Memory.PagedirDestroy: which pages are freed is not stated when a frame is a page table or the directory, and the assertion of palloc_free_multiple that a page is in use is not modelled.
- Stdio.Snprintf: one integer conversion in place of a format string.
- ArgStack.SetupStack: requires the image to fit the page, as do PushText, PushPointers and PassArguments; otherwise the code would write below it.
