# A simple flat file system (`A3/sfs_api.c`), modelled in Dafny

The system is a single-directory file system laid over an emulated disk of
4096 blocks of 1024 bytes. Block 0 holds a superblock. Blocks 1-7 hold the
inode table (126 inodes). Blocks 8-10 hold the directory table (126 entries).
Blocks 4079-4094 hold the free bitmap, and block 4095 is reserved but
unused. An inode has a size (-1 when the inode is free), 12 direct block
pointers and one pointer to an index block of 256 further pointers, so a
file holds at most 274432 bytes. Every unallocated pointer is -1. Sixteen
open-file descriptors pair an inode with a read/write cursor. One more
cursor walks the directory for `sfs_getnextfilename`.

The model is functional. `State.FileSystem` is an immutable record holding
the bitmap (`true` = free), the inode table, the directory table, the
descriptor table, the enumeration cursor and the device. Each API call is a
pure function from a state to a new state and a status. The device
(`BlockDevice.Device`) is a sequence of blocks plus typed copies of the three
tables it stores. Index blocks are sequences of bytes, encoded as 256
little-endian 32-bit integers.

The modules follow the source:

- `Layout`: the constants.
- `Search`: first and last match in a table.
- `IndexBlock`: index array ⇄ block.
- `Records`: inode, directory entry, descriptor.
- `BlockDevice`: `read_blocks` and `write_blocks`.
- `FreeBitmap`: `allocate_block_FBM` and `deallocate_block_FBM`.
- `State`: the file-system record and its invariant.
- `Extent`: the per-block offset arithmetic shared by reads and writes.
- `Format`: `mksfs`.
- `OpenClose`: `sfs_fopen` and `sfs_fclose`.
- `Write`: `sfs_fwrite`.
- `Read`: `sfs_fread`.
- `Seek`: `sfs_fseek`.
- `WriteContent`: what a write leaves on the device, and the write-seek-read round trip.
- `Remove`: `sfs_remove`.
- `DirectoryQuery`: `sfs_getnextfilename` and `sfs_getfilesize`.

The behaviours below are modelled as the code has them:

- Reopening an open file returns its descriptor and moves the cursor to the end.
- When no descriptor is free, opening a known name creates a second entry with that name.
- `sfs_fread` clamps the length to the file size.
- `sfs_fseek` clamps against inode `fileID`.
- `sfs_remove` looks up the last matching entry, clears the first one, and frees pointer -1.
- A write that ends on a block boundary visits the next block with an empty window.
- A write that runs out of blocks returns -1 with its allocations kept in memory.
- Formatting reserves 17 tail blocks.

Undefined behaviour in C is handled in two ways. Out-of-range descriptor
indices, negative cursors, index slot 256 and the read of `inode_table[-1]`
are excluded by preconditions. `sfs_remove`'s frees of pointer -1 give an
explicit `Undefined` result.

## Model

| member | source | states |
|---|---|---|
| `FreeBitmap.Allocate` | A3/sfs_api.c:62-71 | the lowest free block is returned and only its flag is cleared; with no free block, -1 is returned and the bitmap is unchanged |
| `FreeBitmap.Deallocate` | A3/sfs_api.c:74-76 | entry `k` becomes free and every other entry is unchanged |
| `FreeBitmap.DeallocateUndoesAllocate` | A3/sfs_api.c:62-76 | freeing the block just allocated restores the bitmap |
| `FreeBitmap.AllocateOnlyClaims` | A3/sfs_api.c:62-71 | allocation never frees a block |
| `Search.First` | A3/sfs_api.c:186-191 | the result is -1 exactly when nothing matches; otherwise it is a match with no match before it |
| `Search.Last` | A3/sfs_api.c:444-447 | the result is -1 exactly when nothing matches; otherwise it is a match with no match after it |
| `IndexBlock.DecodeEncode` | A3/sfs_api.c:312-320 | storing an index array in a block and loading it back gives the same pointers |
| `IndexBlock.EncodeDecode` | A3/sfs_api.c:343-346 | loading a block as an index array and storing it back gives the same bytes |
| `IndexBlock.EmptyIndex` | A3/sfs_api.c:308-310 | a fresh index array has 256 slots, all -1 |
| `BlockDevice.ReadBlock` | A3/sfs_api.c:396 | a read of a device block gives its contents; a read outside the device leaves the buffer as it was |
| `BlockDevice.WriteBlock` | A3/sfs_api.c:293 | a write changes only the block it names and no table region; a write outside the device changes nothing |
| `BlockDevice.ReadAfterWrite` | A3/sfs_api.c:289-293 | reading a block just written gives what was written |
| `Records.FreeInode` | A3/sfs_api.c:103-109 | a free inode has size -1 and all 13 pointers -1 |
| `Format.Format` | A3/sfs_api.c:92-131 | after formatting, block `k` is free iff 11 <= k < 4079; slot 0 is bound to inode 0 with size 0; every other inode is free with all pointers -1; every other slot is unbound; every descriptor is (-1, -1); the cursor is 0; the tables are on the device |
| `Format.Mount` | A3/sfs_api.c:138-150 | mounting reloads the three tables from the device, restarts enumeration and keeps the descriptors |
| `Format.MakeFs` | A3/sfs_api.c:79-151 | `mksfs(1)` formats and `mksfs(0)` mounts |
| `Format.MountRestoresSynced` | A3/sfs_api.c:133-149 | remounting a state whose tables are on the device changes only the enumeration cursor |
| `Format.MountAfterFormat` | A3/sfs_api.c:92-149 | a freshly formatted volume mounts back to itself |
| `Format.MountKeepsValid` | A3/sfs_api.c:138-150 | mounting a valid write-through state gives a valid state |
| `OpenClose.Create` | A3/sfs_api.c:182-231 | a new file takes the first unbound directory slot and the first free inode, at size 0; it fails unchanged when either table is full; with no free descriptor the file is still created and -1 is returned |
| `OpenClose.OpenFrom` | A3/sfs_api.c:161-180 | the scan stops at the first entry carrying the name whose inode has a descriptor or for which a descriptor is free; it attaches that inode, or creates the file when there is no such entry |
| `OpenClose.Open` | A3/sfs_api.c:153-232 | a name of 16 or more characters gives -1 unchanged; an existing file gets its lowest descriptor, or the lowest free one, with the cursor at its size; otherwise the file is created |
| `OpenClose.ReopenReturnsSameDescriptor` | A3/sfs_api.c:164-169 | reopening an open file returns the same descriptor with its cursor reset to the size, and nothing else changes |
| `OpenClose.DuplicateEntryWhenNoDescriptorFree` | A3/sfs_api.c:172-216 | with no descriptor free, opening an existing name adds a second entry carrying that name and returns -1 |
| `OpenClose.Close` | A3/sfs_api.c:234-244 | closing an unbound descriptor gives -1 unchanged; otherwise the slot becomes (-1, -1) and 0 is returned |
| `OpenClose.OpenBindsOneDescriptor` | A3/sfs_api.c:172-231 | a successful open binds the descriptor it returns and leaves every other descriptor as it was |
| `OpenClose.CloseUndoesOpen` | A3/sfs_api.c:172-243 | closing the descriptor an open has just taken gives back the original descriptor table |
| `Extent.SpansCoverRange` | A3/sfs_api.c:258-275 | the per-block byte counts from the first to the last visited block add up to the length |
| `Extent.WindowPosition` | A3/sfs_api.c:389-397 | byte `k` of block `i`'s window is the file byte in block `i` at offset `Offset + k` |
| `Extent.PositionInWindow` | A3/sfs_api.c:271-275 | every byte of the range lies inside the window of its own block, at the buffer index of its distance from the cursor |
| `Extent.BeforeAdvances` | A3/sfs_api.c:273-339 | the buffer index starts at 0 and advances by exactly one window per block, ending at the length |
| `Write.Truncate` | A3/sfs_api.c:255 | a write running past the maximum size is cut to end exactly there; any other write keeps its length |
| `Write.TruncatedWriteReachesSlot256` | A3/sfs_api.c:255-259 | every truncated write ends at block 268, which reads index slot 256, one past the array |
| `Write.CopyInto` | A3/sfs_api.c:289-293 | the chunk lands at the offset in the named block; only the device and the scratch block change |
| `Write.WriteDirect` | A3/sfs_api.c:277-293 | a block reached through a direct pointer is allocated first if it is -1; running out of blocks changes nothing and happens only when the bitmap is full |
| `Write.WriteSlot` | A3/sfs_api.c:316-336 | the step leaves the inode alone, and every other slot of the index array is the one read back from the index block; it finishes with the slot filled, the chunk at the offset in the block the slot names, every other block and bitmap bit unchanged and the chunk counted, or stops only when the bitmap is full |
| `Write.NewIndexBlock` | A3/sfs_api.c:296-312 | a missing index block is taken from the free blocks and receives an index of 256 entries -1; it fails only when the bitmap is full |
| `Write.NewIndexBlockKeepsOtherBlocks` | A3/sfs_api.c:296-312 | allocating the index block writes no block other than the index block |
| `Write.WriteIndirect` | A3/sfs_api.c:294-337 | the step finishes with the index pointer allocated, the chunk at the offset in the block its slot names, no block other than that one and the index block changed, and the chunk counted, or stops only when the bitmap is full; an index pointer already set is kept |
| `Write.BlockStep` | A3/sfs_api.c:271-341 | one pass of the loop counts exactly the length of its block's window as written, only claims free blocks and only fills empty pointers, or stops with the bitmap full |
| `Write.BlockStepStoresWindow` | A3/sfs_api.c:271-341 | a completed pass leaves its window of the buffer, cut at the bytes written so far, at the window's offset in the block it targets, through the direct pointer or through the index slot |
| `Write.BlockStepIsDirect` | A3/sfs_api.c:277-293 | below block 12 a pass of the loop goes through the direct pointer of its block, with the window cut from the buffer at the bytes written so far |
| `Write.WriteFrom` | A3/sfs_api.c:271-341 | the loop finishes with a byte count of exactly the sum of the block windows, or stops with the bitmap full; it only claims free blocks and only fills empty pointers |
| `Write.Write` | A3/sfs_api.c:246-363 | an unbound descriptor gives -1 unchanged; a write returns either `length` or -1; on success the cursor advances by `length`, the size becomes the larger of the size and the cursor, and the tables stay on the device; on failure the cursor, size and table regions are unchanged and the bitmap is full; other inodes and the directory never change |
| `Write.WriteOpen` | A3/sfs_api.c:257-363 | on an open file the write returns the (truncated) length or -1, with the same cursor, size and region guarantees as `Write.Write` |
| `Write.WriteIsLoop` | A3/sfs_api.c:246-363 | a defined write of an open file that needs no truncation is the block loop from the cursor's block followed by the commit or the abandon |
| `Write.Commit` | A3/sfs_api.c:343-362 | a completed loop returns the bytes copied, writes the index array back to the index block if an indirect block was visited and changes no other block, moves the cursor, grows the size to the cursor and keeps the tables on the device; only the written inode and descriptor change |
| `Write.Abandon` | A3/sfs_api.c:278-284 | a failed allocation returns -1 with the cursor, the other inodes, the descriptors and the table regions unchanged, and keeps the blocks claimed so far |
| `Write.WriteSlotLosesEarlierSlot` | A3/sfs_api.c:317-330 | an index slot allocated for one block is -1 again after the next block of the same call reloads the index |
| `Write.WriteSlotKept` | A3/sfs_api.c:324-336 | the corrected slot step keeps every other slot of the in-memory index |
| `Write.PrepareIndex` | A3/sfs_api.c:296-320 | the corrected preparation allocates or loads the index array only on the first indirect block of a call and keeps it afterwards; it fails only when the bitmap is full |
| `Write.WriteIndirectKept` | A3/sfs_api.c:294-337 | the corrected indirect step loads the index only once per call, so slots filled earlier in the call survive |
| `Write.KeptSlotSurvivesNextBlock` | A3/sfs_api.c:317-336 | with the corrected step, a slot filled on one indirect block of a call still names the same block after the next indirect block |
| `Read.ReadLength` | A3/sfs_api.c:378 | a request running past the size gets length `size`; any other keeps its length |
| `Read.LoadBlock` | A3/sfs_api.c:394-407 | the block loaded for logical block `i` is the device block its pointers resolve to |
| `Read.ReadFrom` | A3/sfs_api.c:387-411 | the loop gathers exactly the sum of the block windows |
| `Read.ReadFromByte` | A3/sfs_api.c:387-411 | a gathered byte whose position resolves on the device is the file's byte at that position, found in the window of its own block |
| `Read.ReadFromContent` | A3/sfs_api.c:387-411 | each gathered byte that resolves on the device is the file's byte at the same position |
| `Read.Read` | A3/sfs_api.c:365-419 | an unbound descriptor gives -1 unchanged; otherwise the clamped length is returned, only this descriptor's cursor moves by it, and each byte whose block resolves is the file's byte at `rw + k` |
| `Read.ReadOpen` | A3/sfs_api.c:381-419 | on an open file the read returns `len` bytes and moves only this descriptor's cursor by `len`; each byte whose block resolves is the file's byte at `rw + k` |
| `Read.ReadCanRunPastEnd` | A3/sfs_api.c:378 | a read from inside the file that asks past its end is given `size` bytes and so ends past the end |
| `Read.ReadMovesCursorPastEnd` | A3/sfs_api.c:378-414 | such a read leaves the cursor beyond the file's size |
| `Read.ReadLengthToEnd` | A3/sfs_api.c:376-378 | the corrected clamp never reads past the end and keeps the length when it fits |
| `Read.ClampsAgreeAtStart` | A3/sfs_api.c:378 | from the start of a file the two clamps agree |
| `Seek.Seek` | A3/sfs_api.c:421-438 | an unbound descriptor gives -1 unchanged; a negative offset sets the cursor to 0; otherwise the cursor is the smaller of the offset and the size of inode `fileID`; only that cursor changes |
| `Seek.SeekCanLeaveCursorNegative` | A3/sfs_api.c:431 | when inode `fileID` is free the cursor becomes -1 |
| `Seek.SeekClampsAgainstOtherFile` | A3/sfs_api.c:431 | a seek within the file's own size can be cut short by another file's size |
| `Seek.SeekOwnFile` | A3/sfs_api.c:427-435 | the corrected seek keeps the cursor within the file's own size: a negative offset gives 0, an offset past the end gives the size, and any offset inside the file is reached |
| `Seek.SeekAgreesWhenIndicesCoincide` | A3/sfs_api.c:431 | the two seeks agree when descriptor `fd` is bound to inode `fd` |
| `WriteContent.DirectStepSound` | A3/sfs_api.c:277-287 | the block a direct pass writes is named by its pointer and by no other direct pointer of the file, and the direct pointers stay pairwise distinct and marked used |
| `WriteContent.DirectStepStores` | A3/sfs_api.c:271-293 | a direct pass keeps every byte already stored at its position and stores its own window, so the stored range grows to the end of the window |
| `WriteContent.WriteFromStores` | A3/sfs_api.c:271-341 | a loop over direct blocks that finishes leaves every byte of the range on the device at its file position and never loads the index array |
| `WriteContent.StoredResolves` | A3/sfs_api.c:394-407 | a stored byte is the byte the read path finds at its position |
| `WriteContent.CommitStores` | A3/sfs_api.c:343-362 | committing such a loop leaves every written byte readable from the file at its position |
| `WriteContent.LoopStores` | A3/sfs_api.c:257-341 | the loop from the write's starting state keeps the size and the table regions and, when it finishes, stores the whole range |
| `WriteContent.ConcludeStores` | A3/sfs_api.c:271-362 | the loop and the commit together leave every written byte readable when the status is `length` |
| `WriteContent.WriteStoresBytes` | A3/sfs_api.c:246-363 | a write within the direct blocks that returns `length` leaves byte `k` of the buffer as the file's byte at `rw + k`, for every `k` below `length` |
| `WriteContent.WriteSeekReadRoundTrip` | A3/sfs_api.c:246-419 | writing, seeking back to the start of the write and reading the same length returns exactly the bytes written |
| `Remove.Remove` | A3/sfs_api.c:440-513 | not found (no entry with the name, or the last one unbound) gives -1 unchanged; otherwise the first entry with the name is cleared and keeps `used`, every other entry is unchanged, every descriptor on the removed inode becomes (-1, -1) and every other descriptor is unchanged, the inode keeps its size, and 1 or 0 reports the flush; a status of 1 leaves the tables on the device, a status of 0 leaves the inode region as it was |
| `Remove.RemoveAt` | A3/sfs_api.c:449-505 | after a removal the inode's first `size / 1024 + 1` direct pointers and its indirect pointer are -1, other inodes are unchanged, the descriptors on the inode become (-1, -1) and the others are unchanged; the directory, bitmap and inode regions are written in that order up to the first failed write, and all three are on the device exactly when the status is 1 |
| `Remove.CloseAllOn` | A3/sfs_api.c:462-468 | every descriptor on the removed inode is closed, and every other descriptor is unchanged |
| `Remove.Finish` | A3/sfs_api.c:494-509 | the final free is defined exactly when the index pointer names a device block; it frees that block, drops the index pointer, closes every descriptor on the inode to (-1, -1), and writes the directory, bitmap and inode regions in that order, stopping at the first failed write |
| `Remove.ClearFrom` | A3/sfs_api.c:475-493 | the loop resets the direct pointers it visits and nothing else in the inode |
| `Remove.Round` | A3/sfs_api.c:476-492 | one round resets only the direct pointer it visits and keeps the size and index pointer |
| `Remove.RemoveLooksUpLastClearsFirst` | A3/sfs_api.c:444-458 | the removed inode is the last entry's and the cleared entry is the first one |
| `Remove.ClearFromDefined` | A3/sfs_api.c:475-493 | when no visited block is the index block, the loop is defined exactly when every visited pointer names a device block |
| `Remove.ClearFromBitmap` | A3/sfs_api.c:475-493 | a defined loop frees exactly the visited blocks and leaves every other flag alone |
| `Remove.ClearFromBlocks` | A3/sfs_api.c:475-493 | a defined loop zeroes exactly the visited blocks and leaves every other block alone |
| `Remove.RemoveFreesFileBlocks` | A3/sfs_api.c:475-496 | the removal is defined exactly when the index pointer and every visited pointer name device blocks; it then frees exactly those blocks and zeroes the data blocks |
| `Remove.RemoveWithoutIndexBlockIsUndefined` | A3/sfs_api.c:494-495 | removing a file with no index block frees block -1 |
| `Remove.RemoveClearsOtherEntry` | A3/sfs_api.c:444-458 | with two entries carrying the name, the later one keeps pointing at the removed inode and the earlier file loses its entry |
| `Remove.RemoveFixed` | A3/sfs_api.c:440-513 | the corrected removal clears the entry it looked up |
| `Remove.GuardedClearDefined` | A3/sfs_api.c:475-493 | the corrected loop is defined whenever every visited pointer is -1 or a block other than the index block |
| `Remove.GuardedRemoveDefined` | A3/sfs_api.c:449-509 | the corrected removal of an inode with sound pointers reaches a status |
| `Remove.RemoveFixedDefined` | A3/sfs_api.c:475-505 | the corrected removal of a file with sound pointers always reaches a status |
| `DirectoryQuery.GetNextFileName` | A3/sfs_api.c:516-532 | -1 is returned unchanged iff the cursor is past the table or at an unbound slot; otherwise that slot's name is yielded and the cursor moves by 1 |
| `DirectoryQuery.EnumerationYieldsBoundRun` | A3/sfs_api.c:516-532 | successive calls yield the names of a run of bound slots in order, then -1 |
| `DirectoryQuery.EnumerationStopsAfterRun` | A3/sfs_api.c:516-532 | after a run of bound slots the next call reports -1, with the cursor just past the run |
| `DirectoryQuery.GetFileSize` | A3/sfs_api.c:534-544 | the result is the size of the first bound entry with the name, or -1 when there is none |
| `State.MoveCursorKeepsValid` | A3/sfs_api.c:414 | moving a bound descriptor's cursor keeps the state valid |

## Left out

- The superblock and `MAGIC` are written once and never read back in a decision, so they are not modelled.
- `printf` diagnostics are not modelled.
- The uninitialised `malloc`'d buffer is a `scratch` parameter of `Read.Read` and `Write.Write`. `free` is not modelled.
- The disk emulator (`disk_emu.c`) is not part of this model. The device is an abstract sequence of blocks. A read outside 0..4095 is assumed to leave the buffer unchanged, and a write there to do nothing.
- The byte layout of the inode, directory and bitmap tables on disk is not modelled. The device keeps typed copies of them. Only index blocks are modelled as bytes.
- The table flushes of `sfs_remove` are modelled with the number of region writes that succeed: the writes after the first failure are skipped, and the status is 0. A failed write is assumed to leave its region unchanged.
- `Write.Commit`: assumes the bitmap and inode-table writes of line 355 succeed. A failed write there leaves the status unchanged but would leave a region stale on the device. The same holds for the table writes of `mksfs` (lines 134-137) and `sfs_fopen` (lines 219-220), which only print on failure; `Format.Format` and `OpenClose.Create` assume they succeed.
- File names are strings without a terminator. `strcmp` is string equality and `strlen` is length.
- Undefined behaviour is excluded by preconditions: a descriptor index outside 0..15, a negative cursor, a read or write whose last visited block is 268 or more, a read whose sum `rw_pointer + length` (line 378) overflows an `int` (`Read.ReadDefined`), and `sfs_fopen` reading `inode_table[-1]` (`OpenClose.OpenDefined`).
- `Write.Write` and `Read.Read`: require a length that is not negative (after the read clamp). C accepts a negative length, and the result is not always undefined. For example, a read of -1500 bytes at cursor 2048 in a 3000-byte file visits no block, moves the cursor back to 548 and returns 0. These calls are not modelled. `sfs_remove`'s undefined frees are the `Undefined` result.
- The initial contents of `sfs_fwrite`'s local index array are not modelled. Every path that reads it loads it from the index block first.
- `Read.Read`: states the bytes returned only where the file's block resolves to a device block. Elsewhere C copies whatever the scratch block held last, and the model returns such bytes but leaves them unstated.
- `Write.Write`: does not state the contents of the data blocks after a write in its own contract. `WriteContent.WriteStoresBytes` states them for writes within the direct blocks, and `Write.BlockStepStoresWindow` states them for each pass of the loop.
- `Write.WriteOpen`: does not state the contents of the data blocks either, for the same reason as `Write.Write`: through the index block the reload loses slots, so bytes of one call can land in blocks that the file no longer reaches.
- `WriteContent.WriteStoresBytes`: covers only writes that end within the twelve direct blocks of a file whose set direct pointers are used and pairwise distinct. Writes through the index block are not covered, because the index reload on every indirect block loses slots (see Findings).
- `WriteContent.WriteSeekReadRoundTrip`: uses the corrected seek `Seek.SeekOwnFile` and the same direct-block restriction. With the seek as written the cursor can land elsewhere.
- `Remove.RemoveFreesFileBlocks`: states the freed blocks only when no visited data block is the file's own index block. Otherwise a zeroed index block changes the later pointers.
- `Remove.RemoveFixedDefined`: requires the same separation between data blocks and the index block.
- The enumeration cursor is never reset except by `mksfs`, as in the source.

## Findings

| source | as written | input that shows it | evidently intended | confidence | as-written member | corrected member |
|---|---|---|---|---|---|---|
| A3/sfs_api.c:378 | the length is clamped to `size` | cursor 100 in a 150-byte file, read of 100 bytes: 150 bytes are asked for, ending at 250 | clamp to `size - rw` | high, not executed | `Read.ReadCanRunPastEnd` | `Read.ReadLengthToEnd` |
| A3/sfs_api.c:431 | the clamp reads `inode_table[fileID]` | descriptor 0 bound to inode 3 of size 5000, inode 0 of size 0, seek to 100: the cursor becomes 0 | clamp against the descriptor's own inode | high, not executed | `Seek.SeekClampsAgainstOtherFile` | `Seek.SeekOwnFile` |
| A3/sfs_api.c:444-458 | the inode comes from the last entry with the name, but the first entry is cleared | entries 1 and 2 both named "a", bound to inodes 1 and 2: inode 2 is emptied, entry 1 is cleared, entry 2 still names inode 2 | clear the entry whose inode is removed | high, not executed | `Remove.RemoveClearsOtherEntry` | `Remove.RemoveFixed` |
| A3/sfs_api.c:480-495 | pointers are freed without checking for -1 | remove a file just created and never written: `direct_ptrs[0]` is -1 and `free_bitmap_array[-1]` is written | skip unallocated pointers | high, not executed | `Remove.RemoveWithoutIndexBlockIsUndefined` | `Remove.RemoveFixedDefined` |
| A3/sfs_api.c:317-330 | the index array is reloaded from the block on every indirect block, but newly allocated slots are written back only after the loop | a 12000-byte file written at cursor 12000 with 2000 bytes: blocks 12 and 13 take index slots 0 and 1, and only slot 1 is written back; the block of slot 0 stays claimed and unreachable | keep the in-memory index across the loop | high, not executed | `Write.WriteSlotLosesEarlierSlot` | `Write.WriteIndirectKept`, `Write.KeptSlotSurvivesNextBlock` |
