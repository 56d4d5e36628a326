# A model of pmemfile

pmemfile is a user-space file system on persistent memory. This project models the parts of it that are hard to get
right and proves what they are for. The modules build on each other in this order.

**A regular file.** A file is a set of disjoint, aligned blocks, kept three times: as a doubly linked list sorted by
offset (`BlockList`), as a compact chain of descriptor arrays (`BlockArray`), and as a volatile 16-way radix tree from
offsets to blocks (`OffsetMapping`). `Vinodes.Vinode` is the object that holds all three; its methods add and remove
blocks, moving descriptors between slots, and keep the three in agreement. `Extents` gives the meaning of a list of
blocks, the byte at every offset. `BlockSizes` rounds sizes and offsets. `Placement` says which blocks an allocation
adds, without the loop that finds them. `Data` allocates and punches intervals, `ReadWrite` copies bytes. `FileState` has the invariant between operations, the rebuilding of the volatile state and
the undoing of an aborted transaction. `FileBytes` is the file as its users see it, a sequence of bytes. `FileOps` and
`Vectors` are ftruncate, fallocate, pwritev and preadv, each proved to do the obvious thing to that sequence, and `Runs`
says the same of every sequence of operations with failures and reopenings in between.

**A crash during a write.** `Pmem` is a memory behind a cache: stores, flushes, drains, and a crash that keeps any of the
stores not yet drained. `Crash` is the copying into blocks and `Commit` the two-slot protocol around it; every step's
state is recorded, and every crash from every one of them is shown to be recoverable. `Pieces` and `FileCrash` connect
that to the file: the copies of a vectored write follow each other, and what a crash leaves is said of its bytes.

**Threads.** `BlockCache` is a machine of threads that use cached block pointers, `FdTable` one of threads that use the
virtual descriptor table (`FdLaws` says what its callers see), and `LockOrder` one of threads that take several locks.

**The namespace.** `Names` is the state and its invariant: link counts equal the number of entries, names are unique,
".." is the parent, the parents form a forest. `NameOps`, `DirOps` and `MoveOps` prove that each change keeps it.
`Changes` has the operations that run without the file system's lock and `Jobs` the renames and exchanges that need it,
each as a change of whatever state it finds; `Namespace` runs them as the library does, `RenameRuns` interleaves them,
and `Witnesses` has runs in which the code breaks the invariant.

**Smaller pieces.** `HashMap` is the map from inode numbers to vinodes, `Getdents` the directory cursor, the records and
their reader.

## Where the code does not do what one would expect

Each of these is stated exactly: an input on which the code fails, and the condition under which it is right.

- A read that crosses a hole between two blocks returns zeros for the block behind the hole: `ReadsEveryContentIff`,
  `ReadsContentIff`, `MissedBlock`.
- A gap in front of the first block whose clipped length is a multiple of 2^32 fails an assertion: `AllocateInterval`,
  `CastLosesThisGap`; what that means for the operations is in `Truncate`, `Fallocate`, `PWriteV` and `Run`.
- Rounding down is wrong for every block size that is not a power of two, and the environment variable that sets the
  block size is only rounded to 16 KiB: `EnvironmentRoundsIff`, `FortyEightKilobytes`.
- mkdir succeeds in a directory that has been removed, because the link of the new ".." is counted before the check, and
  creating or linking a file there succeeds under the name ".": `ApplyKeepsInvIff`, `Mkdir`, `Create`, `Link`,
  `RemovedDirectory`.
- An exchange of two directories in different parents that aborts while the second one is being added to the transaction
  leaves the first one with the wrong parent pointer: `Exchange`, `TornExchange`. After two such aborts, renames and
  exchanges that pass every check can close a cycle of directories: `RunKeepsForestIff`, `CycleIsReachable`.
- A rename without memory left reports ENOMEM, where create, link, mkdir and exchange report ENOSPC: `Rename`.
- Removing from the hash map looks only at the value, so it removes a binding of another key iff that key has the value
  and hashes to the same bucket: `Remove`, `RemovesOtherKey`.
- Storing a new descriptor into a slot of the table that is in use loses a reference for ever, and another thread's dup2
  can make that happen: `RunKeepsExactIff`, `DuplicateLost`.
- After the last entry of a directory, seeking to its offset yields ENOENT when free slots follow it: `Resume`,
  `FreeSlotAtEnd`. A handle that has not read yet takes every offset in the first array but 0 for the end: `Resume`,
  `FreshTarget`.

## Model

| member | source | states |
|---|---|---|
| `OffsetMapping.OffsetMap.constructor` | src/libpmemfile-posix/offset_mapping.c:122-129 | a new map is well formed and maps nothing |
| `OffsetMapping.OffsetMap.MaxMapOffset` | src/libpmemfile-posix/offset_mapping.c:109-116 | the last granule of the mapped range, also where 2^64 would overflow |
| `OffsetMapping.OffsetMap.AddNewLevel` | src/libpmemfile-posix/offset_mapping.c:162-190 | the range grows sixteenfold and every offset keeps its block |
| `OffsetMapping.OffsetMap.Grow` | src/libpmemfile-posix/offset_mapping.c:377-392 | levels are added until the end of the block fits; no mapping changes |
| `OffsetMapping.OffsetMap.InsertBlock` | src/libpmemfile-posix/offset_mapping.c:377-404 | exactly the block's offsets become mapped to it; the tree stays well formed, every internal node non-empty |
| `OffsetMapping.OffsetMap.RemoveBlock` | src/libpmemfile-posix/offset_mapping.c:410-482 | exactly the block's offsets become unmapped; the tree stays well formed |
| `OffsetMapping.OffsetMap.Hoist` | src/libpmemfile-posix/offset_mapping.c:454-482 | dropping top levels with only a first child changes no mapping |
| `OffsetMapping.OffsetMap.FindEntry` | src/libpmemfile-posix/offset_mapping.c:208-213 | the descent by bits arrives at the entry whose range holds the offset, and never descends into a block |
| `OffsetMapping.OffsetMap.FindClosest` | src/libpmemfile-posix/offset_mapping.c:197-287 | the listed block with the greatest offset not above the one asked for, none if there is none, on all paths |
| `OffsetMapping.SetRange` | src/libpmemfile-posix/offset_mapping.c:327-371 | the recursion over children sets exactly the offsets of the range and leaves all others |
| `OffsetMapping.SetEntry` | src/libpmemfile-posix/offset_mapping.c:327-371 | an entry wholly inside the range takes the block, one partly inside is entered |
| `OffsetMapping.SetPartOfRange` | src/libpmemfile-posix/offset_mapping.c:340-371 | the part of an entry inside the range is set by the recursive call |
| `OffsetMapping.CheckAndFreeRange` | src/libpmemfile-posix/offset_mapping.c:293-304 | a node without used children becomes empty; the map is the same and no empty internal node is left |
| `OffsetMapping.ScanLeft` | src/libpmemfile-posix/offset_mapping.c:245-264 | going left from an empty entry finds the nearest mapped offset below, or none in this node |
| `OffsetMapping.ScanRight` | src/libpmemfile-posix/offset_mapping.c:266-284 | going right finds the nearest mapped offset above |
| `OffsetMapping.NewLevelKeepsMap` | src/libpmemfile-posix/offset_mapping.c:162-190 | a root pushed down as first child maps the same offsets |
| `OffsetMapping.HoistKeepsMap` | src/libpmemfile-posix/offset_mapping.c:454-482 | a root replaced by its only, first child maps the same offsets |
| `OffsetMapping.PartialEntryIsNoLeaf` | src/libpmemfile-posix/offset_mapping.c:340-371 | an entry only part of which is being set is never a block, so no block is taken for an array of children |
| `OffsetMapping.EndsWithinRange` | src/libpmemfile-posix/offset_mapping.c:377-404 | every mapped block ends within 2^range_length_bits |
| `OffsetMapping.ClampKeepsClosest` | src/libpmemfile-posix/offset_mapping.c:202-206 | clamping the offset to the mapped range does not change the closest block |
| `OffsetMapping.ClosestFromBelow` | src/libpmemfile-posix/offset_mapping.c:245-264 | the block at the nearest mapped offset below is the closest one |
| `OffsetMapping.ClosestFromAbove` | src/libpmemfile-posix/offset_mapping.c:266-284 | the predecessor in the list of the block at the nearest mapped offset above is the closest one |
| `BlockList.InsertedIsLinked` | src/libpmemfile-posix/block_array.c:236-264 | the four link stores of an insertion give the list with one element more at that position |
| `BlockList.UnlinkedIsLinked` | src/libpmemfile-posix/block_array.c:286-301 | the two link stores of unlinking give the list without that element |
| `BlockList.MovedIsLinked` | src/libpmemfile-posix/block_array.c:315-337 | copying a descriptor to another slot and relinking its neighbours gives the same list with that slot replaced |
| `BlockArray.AcquireKeepsCompact` | src/libpmemfile-posix/block_array.c:207-224 | taking the first free slot keeps the free slots a tail of the head array |
| `BlockArray.NewArrayKeepsCompact` | src/libpmemfile-posix/block_array.c:153-181 | a new array in front of a full one keeps them so |
| `BlockArray.ReleaseKeepsCompact` | src/libpmemfile-posix/block_array.c:444-489 | freeing the last used slot keeps them so |
| `BlockArray.DropArrayKeepsCompact` | src/libpmemfile-posix/block_array.c:365-386 | unlinking an empty head array leaves a full head and loses no descriptor |
| `BlockSizes.RounddownExact` | src/libpmemfile-posix/blocks.h:58-61 | for a power of two, rounding down by mask is the greatest multiple not above |
| `BlockSizes.RounddownIffPowerOfTwo` | src/libpmemfile-posix/blocks.h:58-61 | the mask rounds every number correctly if and only if the alignment is a power of two |
| `BlockSizes.RounddownFails` | src/libpmemfile-posix/blocks.h:58-61 | for an alignment that is no power of two, a number that is not rounded to a multiple |
| `BlockSizes.EnvironmentSizes` | src/libpmemfile-posix/pmemfile-posix.c:82-97 | the environment variable sets exactly the multiples of 16 KiB below 2^32 |
| `BlockSizes.EnvironmentRoundsIff` | src/libpmemfile-posix/pmemfile-posix.c:82-97 | with the size it sets, offsets are rounded to whole blocks iff that size is a power of two |
| `BlockSizes.FortyEightKilobytes` | src/libpmemfile-posix/pmemfile-posix.c:82-97 | 48 KiB can be set, and some offset is then not rounded to a multiple of it |
| `BlockSizes.RoundupExact` | src/libpmemfile-posix/blocks.h:64-67 | rounding up by mask is the least multiple not below |
| `BlockSizes.ExpandToFullPages` | src/libpmemfile-posix/blocks.c:163-171 | the interval becomes the least interval of whole blocks around it |
| `BlockSizes.DataBlockInfo` | src/libpmemfile-posix/blocks.c:84-98 | the smallest size of the table that holds the request, or the largest within the limit if that one exceeds it or there is none |
| `Vinodes.Vinode.constructor` | src/libpmemfile-posix/inode.c:290-333 | a new file has empty arrays, no blocks and size zero |
| `Vinodes.Vinode.UpdateFirstBlockInfo` | src/libpmemfile-posix/block_array.c:55-90 | the scan finds exactly the first free slot of the head array |
| `Vinodes.Vinode.AllocateNewBlockArray` | src/libpmemfile-posix/block_array.c:153-181 | a zeroed array is linked in front; no descriptor in the list changes |
| `Vinodes.Vinode.AcquireNewEntry` | src/libpmemfile-posix/block_array.c:207-224 | a free, zeroed slot, in a new array if the head is full |
| `Vinodes.Vinode.InsertAfter` | src/libpmemfile-posix/block_array.c:236-264 | the list gains one descriptor at the given position, first_block follows, free slots stay a tail |
| `Vinodes.Vinode.LinkIn` | src/libpmemfile-posix/block_array.c:246-262 | the link stores themselves |
| `Vinodes.Vinode.AddBlock` | src/libpmemfile-posix/data.c:171-194 | list, arrays, first_block and tree all gain the same uninitialized block |
| `Vinodes.Vinode.UnlinkBlock` | src/libpmemfile-posix/block_array.c:286-301 | the list loses exactly that descriptor |
| `Vinodes.Vinode.RelocateBlock` | src/libpmemfile-posix/block_array.c:315-337 | the descriptor moves to another slot and the list is otherwise the same |
| `Vinodes.Vinode.MoveLastInto` | src/libpmemfile-posix/block_array.c:472-479 | the last used slot of the head array fills the hole; tree and first_block follow the move |
| `Vinodes.Vinode.RemoveFirstBlockArray` | src/libpmemfile-posix/block_array.c:365-386 | an emptied head array is unlinked |
| `Vinodes.Vinode.ReleaseLast` | src/libpmemfile-posix/block_array.c:481-486 | the freed slot is zeroed and the cached free position steps back, across arrays if need be |
| `Vinodes.Vinode.BlockListRemove` | src/libpmemfile-posix/block_array.c:444-489 | removes exactly one element of the sorted sequence, keeps links, first_block and compactness, and returns the true predecessor in its possibly new slot |
| `Vinodes.Vinode.Detach` | src/libpmemfile-posix/block_array.c:457-470 | the removed descriptor is unlinked and first_block is the new first one |
| `Vinodes.Vinode.Refill` | src/libpmemfile-posix/block_array.c:472-488 | the hole it leaves is refilled or is the last slot; the predecessor is tracked |
| `Vinodes.Vinode.RemoveBlockAt` | src/libpmemfile-posix/data.c:901-913 | list, arrays, first_block and tree all lose the same block |
| `Vinodes.Vinode.DropFromTree` | src/libpmemfile-posix/data.c:912-912 | the tree no longer maps the block and maps all others as before |
| `Data.FindClosestBlock` | src/libpmemfile-posix/data.c:144-147 | the last block that starts at or below the offset |
| `Data.RemoveInterval` | src/libpmemfile-posix/data.c:887-981 | content becomes zero in the interval and stays elsewhere, the representations agree although blocks move, the result is exactly the space freed, the counter steps |
| `Data.PunchBlock` | src/libpmemfile-posix/data.c:900-977 | one block of the loop: removed if inside the interval, zeroed in part otherwise, in all four positions |
| `Data.ZeroPart` | src/libpmemfile-posix/data.c:925-974 | zeroes exactly the bytes of the interval in a block, if it is initialized |
| `Data.OverallocateSize` | src/libpmemfile-posix/data.c:224-236 | at least the size asked for and no more than 64 MiB unless asked for |
| `Data.IsAppend` | src/libpmemfile-posix/data.c:201-215 | true exactly when the write ends past the size and past the last block |
| `Data.AllocateInterval` | src/libpmemfile-posix/data.c:406-579 | every byte of the rounded, possibly over-allocated interval becomes allocated and content is unchanged; the blocks added are exactly those that `Placed` allows, so that the extents are determined; the result is exactly their size, zero iff every byte asked for was there; the assertion fails iff the 32-bit cast loses the gap; with memory nothing else fails |
| `Data.AllocateBlocks` | src/libpmemfile-posix/data.c:495-579 | the loop, with a measure for the iterations that do not shrink the interval and the same choice of blocks |
| `Data.AllocateHole` | src/libpmemfile-posix/data.c:508-579 | the cases outside any block: before the first, between two, after the last; where a block is added it is the one chosen |
| `Data.AllocateBlockAt` | src/libpmemfile-posix/data.c:512-537 | the block added holds the current offset and has the smallest size that reaches the end of the interval, or the largest there is room for |
| `Data.RoomAt` | src/libpmemfile-posix/data.c:520-563 | the room for a block: up to the next one, or what the cast leaves of the first gap, which is too little for any block iff it loses the gap; none iff a block starts there |
| `Data.AllocationIsDetermined` | src/libpmemfile-posix/data.c:406-579 | two results that meet the contract of an allocation have the same extents |
| `Placement.PlacementIsUnique` | src/libpmemfile-posix/data.c:495-579 | extents before and interval determine the extents after, whatever loop finds them |
| `Placement.OneSmallBlock` | src/libpmemfile-posix/data.c:508-519 | one page in an empty file is one block of 16 KiB and nothing else |
| `Placement.PickIsChosen` | src/libpmemfile-posix/data.c:530-537 | the size the table lookup gives is the one `Chosen` describes |
| `Placement.LimitBetween` | src/libpmemfile-posix/data.c:555-563 | the distance to the next block is the room in front of it |
| `Placement.LimitAfter` | src/libpmemfile-posix/data.c:542-543 | after the last block there is room for the largest size |
| `Placement.LimitBefore` | src/libpmemfile-posix/data.c:524-531 | the room before the first block is the clipped gap, cut to 32 bits |
| `Data.CastLosesThisGap` | src/libpmemfile-posix/data.c:520-531 | a block at 2^32 in an otherwise empty file is such a case |
| `ReadWrite.FindClosestBlockWithHint` | src/libpmemfile-posix/data.c:156-163 | with a live hint the result is that of the lookup without it |
| `ReadWrite.ClosestIsUnique` | src/libpmemfile-posix/data.c:156-163 | the offset alone determines the result |
| `ReadWrite.IsIntervalAllocated` | src/libpmemfile-posix/data.c:586-607 | true exactly when every byte of the interval is in a block |
| `ReadWrite.ReadRange` | src/libpmemfile-posix/data.c:696-805 | every byte returned is the one `ReadByte` says: the content, or zero in a block the loop passes over |
| `ReadWrite.ReadHole` | src/libpmemfile-posix/data.c:711-755 | a hole reads as zeros up to the block after the current one, with the wrapped subtraction past the last block |
| `ReadWrite.ReadBlock` | src/libpmemfile-posix/data.c:757-801 | a block reads as its bytes, or zeros if never written |
| `ReadWrite.ReadsContentIff` | src/libpmemfile-posix/data.c:696-805 | a read returns the content iff the blocks it passes over hold only zeros in the range |
| `ReadWrite.ReadsEveryContentIff` | src/libpmemfile-posix/data.c:696-805 | for a layout of blocks, a read returns whatever content there is iff the range does not cross a hole between two blocks |
| `ReadWrite.HoleLosesData` | src/libpmemfile-posix/data.c:696-805 | whenever it crosses one, some content is lost |
| `ReadWrite.MissedBlock` | src/libpmemfile-posix/data.c:696-805 | two written blocks with a hole between them: the second reads as zero |
| `ReadWrite.AllocatedCrossesNoHole` | src/libpmemfile-posix/data.c:696-805 | a fully allocated range crosses no hole |
| `ReadWrite.OneRunCrossesNoHole` | src/libpmemfile-posix/data.c:696-805 | neither does one whose allocated part is one contiguous run |
| `ReadWrite.WriteBlockRange` | src/libpmemfile-posix/data.c:658-686 | the block holds the new bytes, its old ones elsewhere, zeros where it was never written, and is marked |
| `ReadWrite.WrittenData` | src/libpmemfile-posix/data.c:658-686 | each byte of a block after a write into it: new in the range, old or never written and so zero around it |
| `ReadWrite.WriteRange` | src/libpmemfile-posix/data.c:696-805 | on an allocated range the content becomes the old one with the buffer laid over it; no extent changes; the copies follow each other without a gap |
| `ReadWrite.WriteBlock` | src/libpmemfile-posix/data.c:757-801 | one pass of that loop, which finds the next byte in the next block |
| `FileState.NewFile` | src/libpmemfile-posix/inode.c:290-333 | the invariant holds of a new file |
| `FileState.Snapshot` | src/libpmemfile-posix/inode.c:650-654 | the volatile fields to be restored are saved |
| `FileState.Abort` | src/libpmemfile-posix/inode.c:662-675 | whatever a transaction did, the file is valid again with its old persistent image |
| `FileState.Rebuild` | src/libpmemfile-posix/data.c:74-109 | the state derived from the arrays is the one the operations maintain |
| `FileState.RebuildTree` | src/libpmemfile-posix/data.c:84-104 | walking the arrays gives a tree of exactly the listed blocks and the first block of the list |
| `FileState.RebuildArray` | src/libpmemfile-posix/data.c:85-101 | stopping at the first free slot of an array misses no block |
| `FileBytes.ReadBack` | src/libpmemfile-posix/write.c:155-363 | what is written is read back, other bytes stay, a gap reads as zero |
| `FileBytes.WriteTwice` | src/libpmemfile-posix/write.c:254-275 | writing pieces one after the other is writing their concatenation |
| `FileBytes.ShrinkAndGrow` | src/libpmemfile-posix/truncate.c:55-106 | shrinking and growing back leaves zeros |
| `FileBytes.WrittenBytes` | src/libpmemfile-posix/write.c:254-288 | laying a buffer over the blocks and extending the size is writing into the byte sequence |
| `FileBytes.CutBytes` | src/libpmemfile-posix/truncate.c:80-81 | punching from the new size on is cutting the byte sequence |
| `FileBytes.PunchedBytes` | src/libpmemfile-posix/fallocate.c:79-82 | punching zeroes the bytes of the range |
| `FileOps.Prepare` | src/libpmemfile-posix/truncate.c:63-67 | the tree exists afterwards and the file is unchanged |
| `FileOps.Finish` | src/libpmemfile-posix/truncate.c:97-103 | commit with the new size and space, or the old image back |
| `FileOps.Truncate` | src/libpmemfile-posix/truncate.c:55-106 | the size is the one asked for, bytes below it and below the old size stay, those between are zero; the extents left are those that start below it plus what a growing file needs; on an error nothing has changed; with memory it fails only on a gap that the cast loses, and always there |
| `FileOps.TruncateBlocks` | src/libpmemfile-posix/truncate.c:78-86 | the blocks for that, and the exact number of allocated bytes; the assertion fails iff growing meets a gap that the cast loses |
| `FileOps.FallocateCheckArguments` | src/libpmemfile-posix/fallocate.c:107-178 | lets through exactly the positive ranges below 2^63 with no flags, KEEP_SIZE, or PUNCH_HOLE with KEEP_SIZE |
| `FileOps.Fallocate` | src/libpmemfile-posix/fallocate.c:49-100 | size and every byte afterwards, outright: punching zeroes the range, allocating changes no byte, fills the range and extends the size unless told not to; the extents that are freed or added; on an error nothing has changed; with memory it fails only on a gap that the cast loses, and always there |
| `FileOps.FallocateBlocks` | src/libpmemfile-posix/fallocate.c:76-90 | the work of its transaction: bytes, extents and space, with the exact condition of the failed assertion |
| `FileOps.FallocatedBytes` | src/libpmemfile-posix/fallocate.c:76-90 | the size, and each byte, that fallocate leaves: zero in the hole, as before below the old size, zero above it |
| `FileOps.AllocateMore` | src/libpmemfile-posix/data.c:406-579 | an allocation in a transaction: content unchanged, the interval allocated by the blocks chosen, the recorded space unchanged iff it was so before |
| `FileOps.AllocateRange` | src/libpmemfile-posix/fallocate.c:76-90 | allocating a rounded range changes no byte of the file and leaves zeros past its old end |
| `Vectors.ClampsAgree` | src/libpmemfile-posix/write.c:180-198 | the two different overflow tests clamp every buffer alike |
| `Vectors.ClampsAddUp` | src/libpmemfile-posix/write.c:254-275 | the clamped lengths of the second loop add up to what the first loop accepted, also when it stops early |
| `Vectors.SumLengths` | src/libpmemfile-posix/write.c:180-198 | the sum is the least of the total length, 2^63-1 and the room above the offset |
| `Vectors.ConcatAt` | src/libpmemfile-posix/write.c:254-275 | each byte of each buffer is at its place in the bytes written |
| `Vectors.WriteBuffer` | src/libpmemfile-posix/write.c:51-74 | one buffer is laid over the content; the cached block stays valid |
| `Vectors.WriteNext` | src/libpmemfile-posix/write.c:254-275 | one more buffer after the ones written so far |
| `Vectors.WriteBuffers` | src/libpmemfile-posix/write.c:254-275 | exactly the bytes that were summed up are written, so the copy stays in the allocated interval; the copies follow each other without a gap |
| `Vectors.AllocateSpace` | src/libpmemfile-posix/write.c:118-152 | the interval is allocated by the blocks chosen and no byte changes, or nothing has changed; more space is recorded iff some byte was missing, as the source asserts both ways |
| `Vectors.Reserve` | src/libpmemfile-posix/write.c:203-231 | the interval is allocated when the copying starts |
| `Vectors.WriteAllocated` | src/libpmemfile-posix/write.c:254-320 | size becomes the maximum of the old one and the end of the write |
| `Vectors.PWriteV` | src/libpmemfile-posix/write.c:155-363 | a vectored write is one write of the accepted bytes at the offset or at the end, and adds the blocks chosen for it; an error changes nothing; with memory it fails only on a gap that the cast loses, and always there |
| `Vectors.ReadBuffer` | src/libpmemfile-posix/read.c:51-79 | as many bytes as asked for and as the file has |
| `Vectors.PReadV` | src/libpmemfile-posix/read.c:137-162 | the bytes of the file from the position on, provided the range crosses no hole; the count is exact |
| `Vectors.PiecesAreContent` | src/libpmemfile-posix/read.c:137-162 | reading piecewise across no hole returns the content |
| `Runs.Forget` | src/libpmemfile-posix/inode.c:211-268 | releasing the vinode loses nothing |
| `Runs.Step` | src/libpmemfile-posix/write.c:155-363 | one operation has its effect on the bytes, or fails and has none; with memory it has it iff it does not trip the assertion or end too far |
| `Runs.Run` | src/libpmemfile-posix/write.c:155-363 | after any run the file is valid and holds what its successful operations make of the initial bytes; with memory, and none ending too far, all operations are successful up to the one it dies in; that one trips the assertion on the blocks of that file |
| `Runs.AppliedByte` | src/libpmemfile-posix/write.c:155-363 | each byte after write, truncate, fallocate or punch, from the bytes before and the buffers |
| `Runs.AppliedSize` | src/libpmemfile-posix/write.c:155-363 | the size after each of them |
| `Runs.WriteThenRead` | src/libpmemfile-posix/read.c:137-162 | a read from the position of a write returns what was written |
| `Pmem.Persist` | src/libpmemfile-posix/write.c:234-247 | during store, flush and drain a crash leaves each place old or new, afterwards all are new |
| `Crash.CopyPersist` | src/libpmemfile-posix/data.c:669-680 | the same for a range of bytes |
| `Crash.WriteBlockRange` | src/libpmemfile-posix/data.c:658-686 | at every step a crash leaves each byte of the block as it was found or as written, and all else alone |
| `Crash.WriteUnmarked` | src/libpmemfile-posix/data.c:669-685 | a block never written is found as zeros or as wholly written: what was in its memory is never seen |
| `Crash.WriteMarked` | src/libpmemfile-posix/data.c:680-680 | in a block in use each byte is old or new |
| `Commit.Switch` | src/libpmemfile-posix/inode.h:122-162 | during a switch of slots a crash leaves all fields as before or all as after, none torn |
| `Commit.UpdateFields` | src/libpmemfile-posix/write.c:301-353 | any choice of size, times and access time is changed at once |
| `Commit.CopyPieces` | src/libpmemfile-posix/write.c:254-275 | during the copying each byte is old or new and the inode is untouched |
| `Commit.CommitWrite` | src/libpmemfile-posix/write.c:233-354 | at every crash point: no field is torn, size is old or new, a new size comes with the new ctime, the final mtime and all data, mtime is old, start or end, and no byte is new before mtime says so; at the end, size and ctime are new iff the file grew, mtime is the end of the write iff it grew or took a millisecond, and a pending access time is stored exactly then |
| `FileCrash.ConsecutiveIsProper` | src/libpmemfile-posix/write.c:254-275 | the copies of a vectored write lie inside their blocks and touch no byte twice, which `CommitWrite` needs |
| `FileCrash.LaidIs` | src/libpmemfile-posix/data.c:757-801 | all copies together lay exactly the buffer over the content |
| `FileCrash.RecoveredFile` | src/libpmemfile-posix/write.c:233-354 | of any recoverable state: the file is the written one, or has the old size with each byte old or new |
| `FileCrash.CommitFile` | src/libpmemfile-posix/write.c:233-354 | without a crash the file is the written one; a crash at any step leaves the whole write under the new size, or the old size with each byte old or new |
| `BlockCache.StepKeepsInv` | src/libpmemfile-posix/read.c:209-253 | every step of every thread keeps: a pointer whose observed counter is current is a block of the file |
| `BlockCache.KeepsRemove` | src/libpmemfile-posix/data.c:887-893 | a removal outdates every pointer remembered before, also one about to be stored |
| `BlockCache.KeepsEnter` | src/libpmemfile-posix/write.c:398-409 | the comparison under the lock discards exactly the outdated pointers |
| `BlockCache.HintsAreLive` | src/libpmemfile-posix/write.c:533-591 | in every run of readv, writev, preadv, pwritev, truncate and fallocate the hint of a lookup is a live block |
| `FdTable.StepKeepsInv` | src/libpmemfile/vfd_table.c:88-320 | every step keeps: table slots, cwd and references in hand are all counted; entries whose count is zero are free, dying or closing; open files belong to the others. Nothing else is counted, iff the step does not store over an entry |
| `FdTable.RunKeepsInv` | src/libpmemfile/vfd_table.c:88-320 | so does every run of any number of threads |
| `FdTable.RunKeepsExact` | src/libpmemfile/vfd_table.c:88-320 | as long as no store was made over an entry, counts equal table slots plus cwd plus references in hand |
| `FdTable.RunKeepsExactIff` | src/libpmemfile/vfd_table.c:598-620 | throughout a run the counts are exact iff no step of it stores over an entry |
| `FdTable.DuplicateLost` | src/libpmemfile/vfd_table.c:598-620 | a run of open and dup2 in two threads after which a count is too high for ever |
| `FdTable.KeepsDupStart` | src/libpmemfile/vfd_table.c:278-320 | dup2 in the middle, with the table still showing the old entry |
| `FdTable.DupCopies` | src/libpmemfile/vfd_table.c:278-320 | afterwards the target slot refers to what the source refers to |
| `FdTable.ClosedAtLast` | src/libpmemfile/vfd_table.c:249-264 | a file is closed only when nothing refers to it, and it was open until then |
| `FdTable.ClosedOnce` | src/libpmemfile/vfd_table.c:249-264 | in a run no file is closed twice |
| `FdTable.ReferencedIsOpen` | src/libpmemfile/vfd_table.c:131-147 | who holds a reference finds the file open and the entry not free |
| `FdTable.StackHasRoom` | src/libpmemfile/vfd_table.c:88-128 | the stack of free entries never overflows |
| `FdTable.KeepsAssign` | src/libpmemfile/vfd_table.c:598-620 | storing an entry keeps the counts exact iff the slot was empty |
| `FdTable.NothingLeaks` | src/libpmemfile/vfd_table.c:249-264 | with an empty table and no thread at work only the cwd's entry and file are in use |
| `FdLaws.RefGives` | src/libpmemfile/vfd_table.c:131-147 | looking up a number gives one reference to the entry in its slot, counted there and nowhere else, whose file is open |
| `FdLaws.TakeOutClears` | src/libpmemfile/vfd_table.c:420-441 | closing a number leaves it standing for nothing and the others for what they did; the caller holds the reference that the table had |
| `FdLaws.AssignShows` | src/libpmemfile/vfd_table.c:598-620 | after a store a lookup of the number gives the entry stored |
| `FdLaws.FetchGives` | src/libpmemfile/vfd_table.c:100-116 | a new entry was free, belongs to the file given and has one reference, in hand |
| `FdLaws.SwapCwdShows` | src/libpmemfile/vfd_table.c:469-505 | after a chdir a lookup of the cwd gives the new entry, and the caller holds the reference to the old one |
| `FdLaws.StepOnSlot` | src/libpmemfile/vfd_table.c:88-320 | a step changes exactly the slot that it is on |
| `FdLaws.SlotShowsLast` | src/libpmemfile/vfd_table.c:88-320 | in every state of every run a number stands for an entry iff the last step on it stored that entry or ended a dup2 from a number that stood for it, and for nothing iff the last one closed it or there was none |
| `FdLaws.CwdShowsLast` | src/libpmemfile/vfd_table.c:469-505 | the cwd is the entry of the last chdir |
| `FdLaws.NumberKeepsFile` | src/libpmemfile/vfd_table.c:131-147 | as long as no step is on a number, it stands for the same open file, whatever other threads do |
| `LockOrder.Lock2` | src/libpmemfile-posix/inode.c:525-555 | both inodes are locked once, in ascending order |
| `LockOrder.LockN` | src/libpmemfile-posix/inode.c:604-628 | every inode given is locked once, in strictly ascending order, as the source asserts |
| `LockOrder.TakeKeepsInv` | src/libpmemfile-posix/inode.c:604-628 | taking the next lock keeps conflicting locks apart |
| `LockOrder.FinishKeepsInv` | src/libpmemfile-posix/inode.c:634-640 | so does releasing all and starting anew |
| `LockOrder.NoDeadlock` | src/libpmemfile-posix/inode.c:600-628 | whenever a thread waits, some thread can go on |
| `HashMap.Map.constructor` | src/libpmemfile-posix/hash_map.c:89-106 | a new map is empty |
| `HashMap.Map.Get` | src/libpmemfile-posix/hash_map.c:226-237 | the value bound to the key, or null |
| `HashMap.Map.Remove` | src/libpmemfile-posix/hash_map.c:201-220 | removes the one binding of the value if its key hashes to the given key's bucket, and fails exactly otherwise |
| `HashMap.RemovesOtherKey` | src/libpmemfile-posix/hash_map.c:201-220 | two keys and coefficients for which removing one removes the binding of the other |
| `HashMap.Map.RandParams` | src/libpmemfile-posix/hash_map.c:77-83 | takes the first number that is not zero and the one after it; fails iff there is no such pair |
| `HashMap.Map.Rebuild` | src/libpmemfile-posix/hash_map.c:157-195 | every binding sits once in the bucket its hash selects, or a conflict and an unchanged table, and then three keys want one bucket |
| `HashMap.Map.Rehashed` | src/libpmemfile-posix/hash_map.c:167-187 | one entry moved, or no room because three keys want its bucket |
| `HashMap.Map.Rehash` | src/libpmemfile-posix/hash_map.c:261-275 | ends with a table that fits the coefficients then in force, or without random numbers |
| `HashMap.Map.Put` | src/libpmemfile-posix/hash_map.c:245-295 | returns the value the key has, or adds exactly that binding, whatever rebuilding it takes; gives up only when a new key found its bucket full and the random numbers are used up |
| `HashMap.CrowdedHasNoTable` | src/libpmemfile-posix/hash_map.c:167-187 | three keys that want one bucket fit no table of that size, so that a conflict is reported only where there is one |
| `HashMap.OneSlotPerBinding` | src/libpmemfile-posix/hash_map.c:245-295 | the number of used slots, which `entries` counts, is the number of bindings |
| `Getdents.Cursor.SeekDir` | src/libpmemfile-posix/getdents.c:57-101 | the slot an offset stands for, or the end |
| `Getdents.Cursor.Getdents` | src/libpmemfile-posix/getdents.c:246-299 | as many of the remaining entries as fit, in slot order; decoding the bytes gives their inodes, next offsets, types and names; the cursor is then at the first that did not fit or at the end; each error exactly when |
| `Getdents.Cursor.Fill` | src/libpmemfile-posix/getdents.c:257-299 | the loop of that |
| `Getdents.NextOffIs` | src/libpmemfile-posix/getdents.c:139-146 | the offset stored in a record is that of the next slot or of the next array |
| `Getdents.ReadAll` | src/libpmemfile-posix/getdents.c:246-299 | calls from the start on return every entry exactly once in slot order, with all its fields, and then zero |
| `Getdents.Resume` | src/libpmemfile-posix/getdents.c:57-101 | seeking to a record's offset goes on with the next entry, with all its fields, zero or ENOENT after the last, exactly when; on a handle that has not read, an offset in the first array is the end |
| `Getdents.FreshTarget` | src/libpmemfile-posix/getdents.c:68-71 | what a handle that has not read makes of the offset of any slot: the end in the first array except at 0, and otherwise that slot |
| `Getdents.FreeSlotAtEnd` | src/libpmemfile-posix/getdents.c:293-296 | a directory in which the last entry's offset yields ENOENT |
| `Getdents.FieldsOf` | src/libpmemfile-posix/getdents.c:195-235 | where inode, next offset, length, type and name of a record are |
| `Getdents.DecodeOne` | src/libpmemfile-posix/getdents.c:195-235 | decoding a buffer that begins with a record gives its inode, offset, type and name, and then the rest |
| `Getdents.DecodeAll` | src/libpmemfile-posix/getdents.c:195-235 | decoding what was encoded gives back the entries with all their fields and in their order |
| `Getdents.RestHas` | src/libpmemfile-posix/getdents.c:257-299 | every entry from a slot on is among those left |
| `Getdents.RestInOrder` | src/libpmemfile-posix/getdents.c:257-299 | those left are in slot order, none twice |
| `Getdents.ParseRecords` | src/pmemfile-fuse/main.c:156-176 | the reader gets back exactly the names and offsets that were encoded |
| `NameOps.AddFileKeepsInv` | src/libpmemfile-posix/dir.c:142-246 | an entry for a file, and its link, keep counts, names, dots and forest |
| `NameOps.RemoveFileKeepsInv` | src/libpmemfile-posix/unlink.c:55-96 | so does removing one, and the count it lowers is positive |
| `NameOps.RenameKeepsInv` | src/libpmemfile-posix/rename.c:233-246 | so does a new name in place |
| `DirOps.MakeKeepsInv` | src/libpmemfile-posix/mkdir.c:55-89 | so does a new directory in one that is in use |
| `DirOps.EmptyHasTwoLinks` | src/libpmemfile-posix/rmdir.c:107-108 | a directory with nothing but its dots has exactly two links |
| `DirOps.RemoveKeepsInv` | src/libpmemfile-posix/rmdir.c:53-131 | removing it keeps the invariant |
| `MoveOps.MoveFileKeepsInv` | src/libpmemfile-posix/rename.c:262-267 | moving a file to another directory keeps the invariant |
| `MoveOps.MoveDirKeepsInv` | src/libpmemfile-posix/rename.c:262-271 | moving a directory that is not above its new parent keeps it, the forest included |
| `MoveOps.ExchangeKeepsInv` | src/libpmemfile-posix/rename.c:95-157 | exchanging two entries, files or directories, neither above the other's parent, keeps it |
| `MoveOps.NoCycle` | src/libpmemfile-posix/rename.c:285-297 | a directory with a root above it is not its own ancestor |
| `Changes.Vacant` | src/libpmemfile-posix/dir.c:180-190 | the first slot of the directory that is not in use, from some slot on |
| `Changes.MkdirIs` | src/libpmemfile-posix/mkdir.c:78-86 | the insertions of ".", ".." and the name amount to the new directory of `MakeKeepsInv` |
| `Changes.ApplyShaped` | src/libpmemfile-posix/dir.c:142-246 | create, link, unlink, mkdir, rmdir, rename and exchange in place, in whatever state: pointers lead to inodes that exist, a named directory has its dots and one name |
| `Changes.ApplyTouches` | src/libpmemfile-posix/dir.c:642-696 | each of them touches only inodes it has locked or made, and their entries |
| `Changes.ApplyKeepsParents` | src/libpmemfile-posix/rename.c:386-387 | what runs without the file system's lock changes no parent pointer |
| `Changes.ApplyParented` | src/libpmemfile-posix/rename.c:233-246 | and leaves named directories in the directory their parent pointer leads to |
| `Changes.ApplyKeepsInvIff` | src/libpmemfile-posix/dir.c:142-246 | the invariant survives exactly the operations that put nothing into a directory without links |
| `Namespace.Tree.Lookup` | src/libpmemfile-posix/dir.c:254-291 | the entry of that name, or proof that there is none |
| `Namespace.Tree.AddDirent` | src/libpmemfile-posix/dir.c:142-246 | each error exactly when: long names, removed directories, taken names, no memory; otherwise the first free slot takes the entry |
| `Namespace.Tree.DirIsParentOf` | src/libpmemfile-posix/rename.c:285-297 | ends, and says whether one directory is above the other |
| `Namespace.Tree.Create` | src/libpmemfile-posix/file.c:408-424 | binds the name to the new inode and nothing else, each error exactly when; the invariant is lost iff the name is "." in a directory without links |
| `Namespace.Tree.Link` | src/libpmemfile-posix/link.c:45-137 | binds the name and nothing else, each error exactly when; the invariant is lost iff a file is linked as "." into a directory without links |
| `Namespace.Tree.Unlink` | src/libpmemfile-posix/unlink.c:99-177 | unbinds the name of a file and nothing else, each error exactly when |
| `Namespace.Tree.Mkdir` | src/libpmemfile-posix/mkdir.c:92-146 | binds the name to an empty directory with two links; the invariant is lost iff the parent has no links |
| `Namespace.Tree.IsEmpty` | src/libpmemfile-posix/rmdir.c:75-96 | the scan finds any entry but the dots |
| `Namespace.Tree.Rmdir` | src/libpmemfile-posix/rmdir.c:134-228 | unbinds an empty directory, whose two asserted links it has; each error exactly when |
| `Namespace.Tree.UpdateParent` | src/libpmemfile-posix/rename.c:51-87 | finds ".." and meets both assertions about it |
| `Namespace.Tree.MoveEntry` | src/libpmemfile-posix/rename.c:262-271 | the three steps of a move amount to it, or nothing has changed |
| `Namespace.Tree.ReplaceTarget` | src/libpmemfile-posix/rename.c:214-231 | the old target is unbound iff it is a file or an empty directory |
| `Namespace.Tree.RenameEntry` | src/libpmemfile-posix/rename.c:181-282 | the new name is bound to what the old one was, the old one to nothing, all others as before; on an error nothing has changed; each error, and so success, exactly when |
| `Namespace.SameLinks` | src/libpmemfile-posix/rename.c:214-267 | removing the old target does not turn a directory in use into a removed one, so the check made after it speaks of the state before |
| `Namespace.Tree.Redirect` | src/libpmemfile-posix/rename.c:139-143 | finds the ".." of an exchanged directory and sets it and the parent pointer |
| `Namespace.Tree.ExchangeStores` | src/libpmemfile-posix/rename.c:111-158 | the stores of the transaction in their order, and what is left when any one of its snapshots fails |
| `Namespace.Tree.Exchange` | src/libpmemfile-posix/rename.c:95-173 | both entries are exchanged unless a snapshot fails; the invariant is lost iff both are directories in different parents and the snapshot of the second one fails |
| `Namespace.Tree.Rename` | src/libpmemfile-posix/rename.c:300-480 | rename, exchange and no-replace on names: their effect on all bindings; each error exactly when, through what the names are bound to, links, emptiness, length, memory and the failing snapshot; when the invariant is lost |
| `Jobs.StaysPrepared` | src/libpmemfile-posix/dir.c:707-813 | under the locks of a rename, what its lookups have found stays so |
| `Jobs.DoneShaped` | src/libpmemfile-posix/rename.c:181-282 | its transaction, in whatever state, leaves pointers to existing inodes and named directories with dots and one name |
| `Jobs.DoneTouches` | src/libpmemfile-posix/dir.c:707-813 | and touches only what is locked |
| `Jobs.DoneInv` | src/libpmemfile-posix/rename.c:412-437 | when the walks have found nothing, renames (also onto an existing target) and exchanges keep the invariant |
| `Jobs.DoneForestIff` | src/libpmemfile-posix/rename.c:412-437 | when the walks have found nothing, the parents stay a forest iff the job is no exchange of two directories each above the directory its own entry is in |
| `Jobs.NeverCrossed` | src/libpmemfile-posix/rename.c:412-437 | no job is such an exchange while named directories are in their parents |
| `Jobs.TornBreaks` | src/libpmemfile-posix/rename.c:136-153 | an exchange left half undone breaks the invariant |
| `Jobs.TornForest` | src/libpmemfile-posix/rename.c:136-153 | but not the forest |
| `RenameRuns.StepIsSound` | src/libpmemfile-posix/rename.c:360-438 | whatever step a thread makes, in whatever state, what the others have found, locked and walked stays so |
| `RenameRuns.StepKeepsFindings` | src/libpmemfile-posix/dir.c:707-813 | from its locking to its transaction a job's names lead to the same inodes |
| `RenameRuns.StepKeepsInvIff` | src/libpmemfile-posix/rename.c:374-438 | a step loses the invariant iff it puts an entry into a directory without links or leaves an exchange half undone |
| `RenameRuns.StepKeepsForestIff` | src/libpmemfile-posix/rename.c:374-438 | a step loses the forest iff it is an exchange of two directories each above the directory its own entry is in |
| `RenameRuns.RunKeepsSound` | src/libpmemfile-posix/rename.c:360-438 | so in every state of every run of any number of threads, whatever is broken |
| `RenameRuns.RunKeepsFindings` | src/libpmemfile-posix/dir.c:707-813 | and over any stretch of a run |
| `RenameRuns.RunKeepsInv` | src/libpmemfile-posix/rename.c:374-438 | in every interleaving without such steps link counts are right, names unique, ".." is the parent and the parents form a forest |
| `RenameRuns.RunKeepsInvIff` | src/libpmemfile-posix/rename.c:374-438 | that condition on the run is exact |
| `RenameRuns.RunKeepsForest` | src/libpmemfile-posix/rename.c:374-384 | in every interleaving the parents form a forest as long as no such exchange is made |
| `RenameRuns.RunKeepsForestIff` | src/libpmemfile-posix/rename.c:374-384 | that condition is exact, too |
| `RenameRuns.UntornKeepsForest` | src/libpmemfile-posix/rename.c:374-384 | as long as no exchange was left half undone, the parents form a forest and every named directory is in its parent, whatever is put into removed directories |
| `RenameRuns.WalkHasEnd` | src/libpmemfile-posix/rename.c:285-297 | from wherever a walk is there is a root above |
| `RenameRuns.WalkNears` | src/libpmemfile-posix/rename.c:285-297 | every step of the walk brings it nearer |
| `RenameRuns.WalkKeepsDistance` | src/libpmemfile-posix/rename.c:285-297 | nothing that other threads do meanwhile takes it away again |
| `Witnesses.RemovedAccepts` | src/libpmemfile-posix/mkdir.c:76-86 | in any directory without links mkdir, and create and link of ".", succeed and break the invariant |
| `Witnesses.RemovedDirectory` | src/libpmemfile-posix/mkdir.c:76-86 | a state with such a directory |
| `Witnesses.TornExchange` | src/libpmemfile-posix/rename.c:136-153 | a state with two directories whose exchange passes all checks and whose abort breaks the invariant |
| `Witnesses.CycleIsReachable` | src/libpmemfile-posix/rename.c:412-437 | a run from a valid state, in which every job passes its checks, to directories that are their own ancestors |

## Left out

- libpmemobj: a transaction commits or restores every persistent field; fresh allocations hold arbitrary bytes.
- Whether persistent memory is left is a parameter of the operations that allocate: `memory` for a whole operation on a
  file (without it any allocation may fail), `space` for adding an entry.
- Volatile allocations succeed, except for the one at the start of rebuilding the tree: the source ignores one such
  failure in the radix tree.
- Tree nodes and their arrays of children are values in `OffsetMapping`: updates of a child in place become new values,
  so aliasing between nodes is not part of the model.
- iterate_on_file_range is modelled once for each direction.
- PWriteV: covers writes that do not end too far, that is, end at least 3 * 2^32 + 2^14 bytes below 2^64, so that rounding up and over-allocating cannot wrap around; a longer one needs about 2^63 bytes of buffers.
- PReadV: covers all buffers for files below 2^63 bytes, and buffers below 2^63 bytes for larger ones; the clamp of the source lets longer buffers through.
- Fallocate: starts where the arguments have been checked, with a positive length.
- Outcome: where debug checks are off, the failed assertion on the block limit is passed over and the code reads the element before its table; that path is not modelled.
- Put: the table is not described when the given random numbers run out, since ending depends on them; keys and values are not null and values are distinct, as the callers guarantee.
- RunKeepsInv: in `RenameRuns`, an operation that runs without the file system's lock is one step, since it holds the locks of all inodes it touches; the order in which these locks are taken is the subject of `LockOrder` and not part of that machine; what a lookup finds before the locks are taken is looked up again under them.
- Rename: the last components are neither "." nor "..", which the source compares only without trailing slashes.
- HintsAreLive: the invalidation counter does not wrap around.
- StepKeepsInv: in `FdTable`, kernel calls succeed and descriptors are in range; special cwd entries close a kernel descriptor instead of a file in the same way.
- Path walking, symbolic links, permissions, credentials, timestamps of directories and stat.
- Orphaned inodes, pool opening and closing, suspend and resume.
- The 32-bit directory records, lseek on data and holes, and the rest of the FUSE front end.
- NoDeadlock: a waiting writer does not hold back new readers, and locks taken outside these helpers are taken to follow the order; the library's sort is an insertion into an ascending sequence.
