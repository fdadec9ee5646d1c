# eFS2, modelled and proved in Dafny

eFS2 is a small block file system in C. This project models its four layers, each in the
form the C code has, and proves that each layer is a simpler thing than the code that
implements it:

1. **Block cache** (`lru.c`, `block.c`). A doubly linked queue of nodes and an array of node
   pointers searched from `page % capacity`, over a disk. The heap invariant holds after every
   call, the logic error is unreachable, every run of reads, writes and syncs answers like a
   flat array of blocks, and the queue is at all times the most recently used pages of the
   trace.
2. **Allocators and layout** (`inode.c`, `bitmap.c`). A cursor and a one-block window over a
   bitmap of many blocks. No block is handed out twice in any run; the search is complete;
   exactly which frees can be lost; and where the regions lie.
3. **Files** (`file.c`). Chains of 127-slot maps over 512-byte blocks, a cached cursor, and the
   byte loop. Any interleaving of seeks, writes and reads over several open files behaves as one
   byte sequence with a position for each file and one number, the blocks left for all of them:
   these decide every byte and answer, writes that run out of blocks included.
4. **Directories and paths** (`inode.c`, `dir.c`, `krealpath.c`, `paths.c`). A directory refines
   a finite map from names to inode blocks, enumeration yields its entries once each, a path
   resolves to a stack of names, and the walk from the root makes a tree of directories an
   injective map from lists of names to inode blocks, seen from any current directory.

`FileSystem.dfy`, `FileSystemRuns.dfy` and `Root.dfy` join the layers. A directory with its files
refines one map from names to byte sequences and numbers of blocks: `FileSystemRuns.Run` proves it
for every script of creating, removing, writing and reading by name, operations that fail
included. A create fails exactly when it needs a data or an inode block and none can be had, a
write exactly when it needs more blocks than the file has or can get, a read inside a file never;
no block is ever lost, and on maps of one block what can be had, what is used and what the names
stand for always add up. Formatting a device of at least 2560 blocks gives such a file system,
with the empty map.

Files follow the C files: `Counting`, `Bytes`, `Blocks`, `LruTrace`, `CacheSpec`, `LruCache`,
`BlockDevice` (layer 1); `Bitmap`, `AllocSpec`, `Volume`, `Allocator`, `Layout` (layer 2);
`BlockMap`, `FileChain`, `FileData`, `FileRuns`, `Release`, `Descriptors` (layer 3); `DirSpec`,
`Lookup`, `Directory`, `ReadDir`, `Departures`, `PathSpec`, `Paths`, `RealPath`, `Tree` (layer 4);
`FileSystem`, `FileSystemRuns`, `Root` (all layers). The objects that the C code updates in place
are classes; what their methods compute is tied to values and functions in `CacheSpec`,
`AllocSpec`, `FileChain`, `FileRuns`, `DirSpec` and `PathSpec`, about which the laws are proved.
Layers 2 to 4 stand on the flat disk that layer 1 is proved to be.

`dafny verify dfyconfig.toml` checks the project.

## Where the code departs from its evident intent

The code is modelled as it is. For each departure the exact condition under which the evident
intent still holds is proved.

- `lru.c:269`: the sync scan stops before the rear frame. `CacheSpec.SyncExactness`: the disk
  equals the view afterwards if and only if the rear frame was clean; `CacheSpec.SyncCanMiss`
  loses any write.
- `block.c:196-203`: the device is closed before the queue is drained, so the drain writes
  nothing. `BlockDevice.BlockCache.Close`: nothing is lost if and only if the rear frame was
  clean; `BlockDevice.WriteIsLost` loses a write although every call succeeds. `dev_close` has no
  `return` for success (`dev.c`), so what `block_close` sees is a parameter, `reportsOk`.
- `file.c:323-330`: the scan for a position that is a positive multiple of 127 * 512 bytes stops
  one map short. `FileChain.ScanCountExact` and `FileRuns.LandsExactlyIff` give the condition;
  `FileRuns.SeekThenWriteMisses` writes one byte at the end of a file of 65024 zeros and changes
  byte 0; `FileData.OpenFile.ReadWrite` states what a missed call does.
- `file.c:353-393`: when the second of the two first allocations fails, the inode keeps a map
  that names no block. It happens if and only if the file had none, there are bytes to move, and
  exactly one allocation was left: `FileData.OpenFile.FirstBlocks`, `ReadWrite`, `Write` and `Read`,
  and `FileSystems.FileSystem.WriteFile` state it of the state before the call.
  `FileRuns.LastBlockMakesBare` gets there from any state with a block to be had. A later transfer
  would take the null slot for block 0 (`FileData.OpenFile.BareStartsAtNull`).
- `inode.c:2256`: `parent.next == bmap.next` compares. `Directories.Directory.Remove`: the
  directory stays valid if and only if the removed name was not the only entry of the first of
  several maps; otherwise the inode points to a freed map and no choice of maps and rows makes
  the directory valid. `Departures.HeadCanBeEmptied` is such a directory.
- `inode.c:664`: a free clears the bit in the window only. `AllocSpec.FreeIsExactIff`: the bits
  stay exact if and only if the free does not move a changed window; `AllocSpec.FreeCanBeLost`
  loses a block with two frees, at the end of a run from a fresh map.
- `krealpath.c:213-220`: ".." can pop the root marker. `PathSpec.RealPathExactIff` and
  `PathSpec.EscapesIff`; `PathSpec.RootCanBeLost` resolves "/../a" to "a". What `inode_get` then
  makes of the path: `Trees.AbsoluteLookup`; `Trees.EscapeSkipsName` finds "/b" for "/../a/b".
- `paths.c:64-70`: empty components between slashes count as names. `PathSpec.RealPathSolidIff`:
  unless the path without them escapes, the result is that of the path without them if and only
  if there are none, or the stack ends as one of them alone; `PathSpec.EmptyComponentsCount`
  resolves "/a//.." to "/a".
- `inode.c:1706-1760`: a create that links a new map and then finds no inode block leaves the
  map unwritten. `Directories.Directory.Create` returns `Stranded` if and only if the name is new,
  no slot is free, and of the allocators only that for inodes is exhausted; it says what is on
  disk, and proves that the directory is then invalid if the block was never written before. What a block
  that was written before turns the directory into depends on its old bytes.
  `Departures.CreateCanStrand` meets the condition.
- `inode.c:253-262`: a map is sized as if all 4096 bits of a block were used, while the
  allocators use 512. `Layouts.RegionsHoldIff`: from 2560 blocks up the inode allocator stays in
  its region, below that it does not. `Layouts.DataEndOvershoots`: the recorded end of the data
  region always lies past the device.

## Model

| member | source | states |
|---|---|---|
| LruTrace.QueueIsRecencyCut | lru.c:115-161 | After any trace the queue is the distinct pages, most recent first, cut to the number of frames. |
| LruTrace.CachedIffRecentlyUsed | lru.c:219-259 | A page is held after a trace exactly when it was referenced and fewer than `n` distinct other pages were referenced since. |
| LruTrace.Inclusion | lru.c:72-75 | On one trace, fewer frames hold a prefix of what more frames hold. |
| LruTrace.MoreFramesNeverMissMore | lru.c:37-50 | Adding frames never adds misses. |
| LruTrace.MissesAtLeast | lru.c:115-161 | Every distinct page misses once, and with a frame for each nothing else misses. |
| LruTrace.TouchOfCached | lru.c:231-257 | Referencing a cached page moves it to the front and keeps the order of the others. |
| CacheSpec.ReferenceIsTouch | lru.c:219-259 | A reference follows the LRU trace and keeps pages distinct and frames within the limit. |
| CacheSpec.ReferenceKeepsView | lru.c:84-161 | A reference, hit or miss, with or without eviction, changes what no block reads as. |
| CacheSpec.ReadView | block.c:102-133 | A read returns the view of its block and changes no view. |
| CacheSpec.WriteView | block.c:135-162 | A write changes the view of its block only. |
| CacheSpec.WriteBackAt | lru.c:262-275 | Writing frames back from the front leaves the disk equal to the view of those frames. |
| CacheSpec.DrainedAt | lru.c:298-305 | Draining from the rear leaves the disk equal to the view everywhere. |
| CacheSpec.SyncExactness | lru.c:262-275 | Sync changes no view; afterwards the disk equals the view if and only if the rear frame was clean. |
| CacheSpec.SyncCanMiss | lru.c:262-275 | For every block and data: written through a cold cache and synced, the disk still has the old block. |
| CacheSpec.CacheIsInvisible | block.c:102-191 | In every run of reads, writes and syncs, reads return what a flat array of blocks returns and the final view is that array. |
| CacheSpec.ReadsLastWrite | block.c:102-191 | In any run a read returns what the last write to its block in the run wrote, or what the block read as before the run; writes and syncs return nothing. |
| CacheSpec.RunFollowsTrace | lru.c:219-259 | The pages held after any run are those of the LRU queue on the trace of its references. |
| CacheSpec.HeldAfterRun | lru.c:115-161 | From a cold cache, a block is held after a run exactly when it was used within the last `n` distinct blocks. |
| LruCache.Hash.FindInHash | lru.c:182-212 | The search from the home index finds the node of a page wherever its slot is, or proves there is none. |
| LruCache.Hash.InsertInHash | lru.c:163-180 | A node goes into a free slot if there is one; nothing else moves. |
| LruCache.FullSlotsNeedNodes | lru.c:163-180 | An array filled with distinct members of the list is no longer than the list, so a free slot exists when the list is shorter. |
| LruCache.Queue.Dequeue | lru.c:84-111 | Removes the rear node and writes its block once; the list stays well formed. |
| LruCache.Queue.Enqueue | lru.c:115-161 | A missed page becomes the front; the array holds exactly the nodes of the list, and BLOCK_LOGIC is not returned. |
| LruCache.Queue.Unlink | lru.c:231-250 | Takes one node out of the list and leaves the others linked in order. |
| LruCache.Queue.MoveToFront | lru.c:231-257 | A cached node becomes the front; the others keep their order. |
| LruCache.Queue.ReferencePage | lru.c:219-259 | Computes CacheSpec.Reference, keeps the heap invariant, and never returns BLOCK_LOGIC when 1 <= frames <= capacity. |
| LruCache.Queue.SyncQueue | lru.c:262-275 | Writes every cached block but the rear one, once, front to rear, and evicts nothing. |
| LruCache.Queue.FreeQueue | lru.c:298-305 | On an open device writes every cached block once, rear to front; on a closed one writes nothing; the queue is empty. |
| BlockDevice.BlockCache.Open | block.c:55-100 | Starts an empty cache of 1031 frames, or refuses and closes a device that has one. |
| BlockDevice.BlockCache.Read | block.c:102-133 | Returns the view of the block, changes no view; the error for a missing buffer or cache. |
| BlockDevice.BlockCache.Write | block.c:135-162 | Changes the view of the block to the data and no other view; the error cases. |
| BlockDevice.BlockCache.Sync | block.c:173-191 | Performs the sync as coded and changes no view. |
| BlockDevice.BlockCache.Close | block.c:193-212 | Syncs, closes, then drains the closed device; the disk equals the view if and only if the rear frame was clean. |
| BlockDevice.Calls | block.c:102-191 | Any sequence of reads, writes and syncs on an open cache, nodes and hash array included, answers like a flat array of blocks, which the cache then reads as. |
| BlockDevice.WriteIsLost | block.c:193-212 | Open, write one block, sync and close all report success, and the device still holds the old block. |
| Bitmap.StoredBit | bitmap.c:15-36 | Reading a bit of the buffer after setting one gives the value at the set bit and the old bit anywhere else; any value but 0 and 1 changes nothing. |
| Bitmap.BitOrder | bitmap.c:15-24 | Bit 8i + j of the buffer is bit j of byte i, from the least significant. |
| Bitmap.BitSet | bitmap.c:26-36 | Sets the addressed bit and no other bit of the buffer. |
| AllocSpec.NoDoubleAllocation | inode.c:419-512 | In any run of get and free from a safe state, no block is returned while it is live. |
| AllocSpec.FreshMapIsSafe | inode.c:225-324 | An all-zero map with the initial cursor is safe and exact. |
| AllocSpec.GetIsSafe | inode.c:458-509 | A get keeps live blocks set in window and store through every window reload, and returns a block that is clear and not live. |
| AllocSpec.FreeIsSafe | inode.c:638-665 | A free keeps every other live block set in window and store. |
| AllocSpec.GetIsExact | inode.c:458-511 | From an exact state a get fails exactly when every block is live, and stays exact. |
| AllocSpec.FreeIsExactIff | inode.c:640-665 | A free stays exact if and only if it does not discard a window that differs from its map block. |
| AllocSpec.ExactRuns | inode.c:638-665 | Runs without such a free keep the bits equal to the live blocks, and fail to allocate only when all are live. |
| AllocSpec.OneBlockRunsExactly | inode.c:638-665 | Every run on a fresh map of one block is exact. |
| AllocSpec.FreeCanBeLost | inode.c:664-665 | From the map that 1025 allocations on a fresh map of two blocks leave, two frees in different map blocks lose the first. |
| AllocSpec.FullMapIsReached | inode.c:419-512 | One allocation more than a fresh map has blocks leaves every block live, every bit set and the cursor at the start. |
| AllocSpec.Conservation | inode.c:458-479 | In an exact state, clear usable bits plus live blocks equal the size of the map. |
| AllocSpec.FreeThenGet | inode.c:640-665 | Freeing a block and allocating returns that block. |
| AllocSpec.GetTakesOne | inode.c:458-479 | An allocation that succeeds leaves fewer clear bits: only so many can succeed. |
| AllocSpec.GetInOrder | inode.c:458-509 | A get takes the first clear bit of the window from the cursor on; if there is none, the first clear one on the stored map behind the window, and then from the start: every block passed on the way shows set. |
| AllocSpec.GetMoves | inode.c:458-479 | After a get the cursor is at the block taken, which shows set, written back; all others show what the window and the stored map said. |
| AllocSpec.GetFails | inode.c:510-511 | A get that fails leaves the cursor at the start and forgets what was freed in the window and not written back. |
| AllocSpec.FreeMoves | inode.c:640-665 | A free puts the cursor at its block, which shows clear, and leaves the stored map; leaving the window for another forgets what was freed in it. |
| AllocSpec.RoomIsRest | inode.c:458-511 | On an exact map exactly as many allocations will succeed as blocks are not live. |
| AllocSpec.OneCanBeLeft | inode.c:458-511 | A fresh map of any size comes to have one allocation left. |
| AllocSpec.SearchIsComplete | inode.c:458-511 | A get fails exactly when every stored bit is set and so is the window from the cursor on. |
| AllocSpec.StaysExhausted | inode.c:458-511 | An allocation that failed fails again. |
| AllocSpec.ScanOn | inode.c:481-508 | One step of the scan keeps its invariant and moves on in the order of pass, map block and bit. |
| Allocation.Allocator.constructor | inode.c:225-324 | A zeroed map gives a valid allocator with nothing live. |
| Allocation.Allocator.TakeBit | inode.c:459-479 | Sets the bit found, writes the window back and returns a block of the region that was not live. |
| Allocation.Allocator.ScanMap | inode.c:458-509 | The two-pass scan stops at the bit that the search function finds, or after both passes. |
| Allocation.Allocator.GetBlock | inode.c:419-512 | Allocates what the specification says, in its region, never a live block, touches no block outside the map, and takes one off the number of allocations left; it fails exactly when that is 0. |
| Allocation.Allocator.FreeBlock | inode.c:606-666 | Frees in the window only, and warns exactly when the visible bit was clear; a live block never warns. |
| Allocation.Allocator.CloseMap | inode.c:730-756 | Writes the window and the cursor back. |
| Allocation.Allocator.OpenMap | inode.c:383-416 | Takes the cursor from the master block and loads its map block. |
| Allocation.Allocator.Remount | inode.c:730-756 | Closing and opening again keeps every visible bit and every live block. |
| Layouts.LayoutIsSound | inode.c:250-275 | From 2560 blocks and below 2^32 bytes the regions are disjoint and in order, and every block an allocator can return is in its region and on the device. |
| Layouts.RegionsHoldIff | inode.c:253-262 | The reach of each allocator stays in its region exactly from 2560 and 640 blocks up. |
| Layouts.DataEndOvershoots | inode.c:271-275 | The recorded data end always lies at least two blocks past the device. |
| Layouts.CreateFs | inode.c:225-324 | Zeroes the maps and the inodes and nothing else, and gives two valid allocators on regions in order: 20% and 80% of the blocks, each behind a map of k blocks for n objects, with k = 1 or 4096 k <= n < 4096 (k + 1). |
| BlockMaps.DecodeEncode | inode.h:160-163 | A block map written as 128 little-endian words and read back is the same map. |
| BlockMaps.FieldsLie | inode.h:160-163 | The link lies in the first four bytes and slot i in the four from 4 (i + 1), least significant byte first. |
| BlockMaps.ZerosDecode | inode.h:160-163 | A block of zeros is an empty map without a successor. |
| FileChain.ScanCountExact | file.c:323-330 | The scan count is the map of the position exactly when it is not a positive multiple of 65024, and one less on those. |
| FileChain.AppendMap | file.c:250-278 | Linking a fresh zeroed map behind a full last map keeps the chain. |
| FileChain.AppendBlock | file.c:286-314 | Putting a fresh block into the first empty slot appends it to the file. |
| FileChain.HeldBytesAreFileBytes | file.c:452-526 | The bytes a chain holds are determined by the disk. |
| FileData.OpenFile.constructor | file.c:661-680 | An opened file is valid, with no cursor and its position at 0 or at the end. |
| FileData.OpenFile.WhereByteLies | file.c:452-526 | Byte o of a file lies at o % 512 of a block that slot o / 512 % 127 of map o / 65024 names; the inode names the first map and each map the next. |
| FileData.OpenFile.AddOneBmapBlock | file.c:250-278 | Appends a map to the chain or leaves it; only the last map of the file is rewritten among live blocks. |
| FileData.OpenFile.AddOneDataBlock | file.c:286-314 | Appends a data block to the chain or leaves it; only maps of the file are rewritten among live blocks. |
| FileData.OpenFile.NextBlock | file.c:480-524 | Steps to the next block of the file, growing the chain exactly when it ends there. |
| FileData.OpenFile.FirstBlocks | file.c:353-393 | Gives an empty inode a map and a block if and only if two allocations are left; with one it leaves a bare map, with none nothing. |
| FileData.OpenFile.BareStartsAtNull | file.c:394-405 | The first slot of a bare file, from which the next transfer would start, is null. |
| FileData.OpenFile.ScanTo | file.c:424-433 | The scan reads exactly the map of its count. |
| FileData.OpenFile.LocateIn | file.c:394-438 | In a chain, the walk starts on the block where the position lands, by the first block, the cursor or the scan. |
| FileData.OpenFile.Locate | file.c:346-445 | Whether new, first, cached or scanned, the walk stands on the block of the position, or of the byte 65024 before it when the scan misses. |
| FileData.OpenFile.CountsFitWord | file.c:323-330 | No 32-bit block index or scan count of a valid file wraps. |
| FileData.OpenFile.Transfer | file.c:450-538 | The byte loop moves the bytes, block after block, to the end or to the last block there is, and says which and how many blocks the file then has; a read inside the file changes no byte of the disk. |
| FileData.OpenFile.Complete | file.c:539-562 | The cursor left behind is the map, slot and block of the new position. |
| FileData.OpenFile.ReadWrite | file.c:316-563 | A write replaces exactly the bytes from the position on and a read returns them; with a missed scan both act 65024 bytes earlier. It succeeds if and only if it ends before the last data block the file has or can get; a failure keeps the old size, moves exactly the bytes up to there, and leaves the file bare if and only if it had no blocks and one allocation was left. |
| FileData.OpenFile.FillGap | file.c:1016-1034 | Brings the size up to the position with zeros if the blocks reach past it; if not, as many steps of 512 zeros as they do. |
| FileData.OpenFile.Write | file.c:1007-1039 | kwrite: zeros up to the position, then the data in place; the rest stays. The result is the number of bytes asked for, or by how much the file got longer if the position was past its end. Inside the file it always succeeds and allocates nothing. Whether it succeeds, which bytes got through if not, how many blocks the file then has, and whether it is left bare are functions of the file and the number of allocations left. |
| FileData.LastsIff | file.c:480-524 | A call gets through exactly if the file then needs no more blocks than it has or can get. |
| FileData.NeedsCounts | file.c:480-524 | A call that moved bytes leaves a data block for the byte behind its end, with one map for 127 of them, or what there was if that reached so far. |
| FileData.FilledExactly | file.c:1016-1034 | A gap is filled to its end exactly if the blocks reach past it; if not, by whole steps of 512 bytes until the next would not fit. |
| FileData.OpenFile.Read | file.c:971-1005 | kread: inside the file the slice comes back and neither the file nor the disk changes; past the end it succeeds exactly if the blocks for it can be had, and the old bytes stay in front. The result is the number of bytes asked for, or by how much the file got longer if the position was past its end. |
| FileData.OpenFile.Seek | file.c:1043-1075 | klseek moves to the offset, or to the position or the size plus the offset where that sum is in range; a relative seek is clamped above that range, and below it by one turn of 64 bits, which the others do not clamp. It changes the position only and drops the cursor. |
| FileData.OpenFile.CallMissesIff | file.c:404-435 | A call meets the short scan exactly when its transfer starts without a cursor at a positive multiple of 65024. |
| FileData.OpenFile.Close | file.c:942-957 | The last close resets cursor and position, in memory and on disk, and keeps the bytes. |
| FileData.OpenFile.Reopen | file.c:661-680 | Closing and opening again finds the same bytes. |
| FileData.Isolation | file.c:250-314 | Whatever a call on one file grows and writes, a file of other live blocks keeps its chain and every byte, and the two stay apart. |
| FileData.OpenFile.OthersKept | file.c:481-525 | Any valid open file apart from this one is still valid and apart after a call on this one. |
| FileRuns.FilesAreIndependent | file.c:971-1075 | However calls interleave, as long as no write is cut short the bytes and position of a file are what its own calls make of them; and none is cut short if a block is left in the end. |
| FileRuns.WriteSeekRead | file.c:971-1075 | Seeking back over what was written and reading it returns what was written. |
| FileRuns.WriteFrame | file.c:1007-1039 | Each byte after a write is the new one, the old one, or a zero of the gap, by its offset. |
| FileRuns.ResultCounts | file.c:1007-1039 | A write answers -1 if cut short, and if not, the number of its bytes, or by how much the file got longer if it started past the end. |
| FileRuns.NotClear | file.c:404-435 | The calls a run stops before: a read past the end, a gap of 2^41 bytes, a cursor-less start at a positive multiple of 65024, and a write to a file without blocks with one left. |
| FileRuns.ShortFrame | file.c:1007-1039 | Each byte after a write cut short, by its offset: the new bytes up to the end of the last block below the old size, and a gap grows by zeros to within 512 bytes of that end. |
| FileRuns.BlocksAreConserved | file.c:250-314 | Through any run the blocks of the files and those left add up to what there was. |
| FileRuns.NoRoomOnceCut | inode.c:458-511 | From the first write that is cut short on no block is left. |
| FileRuns.LastBlockMakesBare | file.c:353-393 | From any allocator with blocks to be had: hand out all but one, write one byte to a file without blocks, and it is bare. |
| FileRuns.LandsExactlyIff | file.c:323-330 | For every valid file: what a transfer at its position does to its bytes, for all data, is what was asked for if and only if the file has no cursor-less start at a positive multiple of 65024. |
| FileRuns.SeekThenWriteMisses | file.c:404-435 | On a file of 65024 zeros: seek to the end and write one byte; the write succeeds and byte 0 on disk changes. |
| FileRuns.PerformAmong | file.c:971-1075 | One clear call among several open files acts as on a byte sequence, takes its blocks from those left, and the others keep bytes and positions. |
| FileRuns.Run | file.c:971-1075 | Any script over several open files gives every byte, position, answer and the number of blocks left that plain byte sequences and one counter give, from the state at the start alone; it stops only before a call that is not clear, and completes if the script is clear. |
| Releasing.FreeFileBlocks | inode.c:2111-2138 | Unlinking a plain file gives back exactly its data and map blocks, each once, in the order of the chain, for every chain; the allocator state is that of these frees one after the other, on any number of map blocks. |
| Releasing.ReleasedAll | inode.c:2111-2138 | The order of the walk lists the blocks of the file, each once. |
| Releasing.ReleasedInOrder | inode.c:2111-2138 | Data blocks go in the order of the file, each map behind the 127 it names, and the last map last. |
| Releasing.LastFreedIsNext | inode.c:458-479 | The next allocation takes the block that was freed last. |
| Releasing.FreeBlocksExactly | inode.c:638-665 | On a map of one block, whatever is freed, the bits stay equal to the live blocks. |
| Releasing.OthersSpared | inode.c:2111-2138 | Every open file apart from the freed one stays valid. |
| Descriptors.AllNamedAllUsed | file.c:681-702 | If every slot is named by a descriptor, every descriptor is in use. |
| Descriptors.Process.Open | file.c:681-707 | The file gets the lowest free descriptor and a slot no other descriptor names, with no cursor and its position at 0, or at the end when appending; it fails exactly when no descriptor is free. |
| Descriptors.Process.Close | file.c:914-969 | The slot is released and the inode written, its position and cursor reset, exactly when the descriptor was the only one naming it. |
| Descriptors.Process.Dup | file.c:1085-1103 | The lowest free descriptor names the same slot. |
| Descriptors.Process.Dup2 | file.c:1105-1129 | The new descriptor names the slot of the old one; what it named before is closed, and released only if it was alone. |
| DirSpec.ListingFilled | inode.c:1685-1700 | Filling a free slot inserts one entry and moves no other. |
| DirSpec.ListingCleared | inode.c:2070-2087 | Clearing a slot deletes one entry and moves no other. |
| DirSpec.InSlotOrder | dir.c:178-196 | Entries are listed in the order of their slots, row by row. |
| DirSpec.NamesInserted | inode.c:1626-1772 | A new entry with a new name adds exactly that name to the map, and names stay distinct. |
| DirSpec.NamesDeleted | inode.c:2061-2087 | A deleted entry takes exactly its name out of the map. |
| DirSpec.MapUnlinked | inode.c:2274-2318 | Unlinking a map behind the first keeps the chain of the others. |
| DirSpec.SlotsCounted | inode.c:1674-1702 | No slot is free exactly if the rows list 127 entries each. |
| DirSpec.EmptyChainIff | inode.c:2032-2037 | Without an all-empty map, `next` is null exactly when the directory has no entry. |
| DirSpec.Follows | inode.c:2232-2325 | The chain is determined by the links on disk. |
| Lookups.FindName | inode.c:920-952 | The scan through the maps agrees with the map from names to inode blocks. |
| Directories.Directory.Find | inode.c:928-952 | Lookup agrees with the map from names to inode blocks. |
| Directories.Directory.FindSlot | inode.c:1674-1702 | Finds the first slot holding a value, in chain order, or proves that no slot holds it. |
| Directories.Directory.UseSlot | inode.c:1685-1700 | A new inode in a free slot adds exactly its name; without an inode block nothing changes. |
| Directories.Directory.AttachMap | inode.c:1703-1743 | Links a new map at the end or at the head; its old bytes stay in it. |
| Directories.Directory.NewEntry | inode.c:1756-1833 | The new map with one new inode makes the directory valid with exactly one more name; without an inode block the map stays linked and unwritten. |
| Directories.Directory.Create | inode.c:1626-1833 | Adds exactly one new name or reports that it exists; the new inode, field by field, is in the first free slot, listed behind the entries of all slots before it, or alone in a new last map if no slot was free. Each failure has its exact condition before the call; what each leaves, and how many allocations are then left. |
| Directories.Directory.StrandedIsBroken | inode.c:1703-1760 | A linked map that was never written makes the directory invalid however it is read. |
| Departures.CreateCanStrand | inode.c:1703-1760 | A sound, full directory with no inode block left and a data block to be had: the condition of `Stranded`. |
| Directories.Directory.ClearSlot | inode.c:2061-2087 | Clears the slot of an entry and gives its inode block back; the map loses exactly its name. |
| Directories.Directory.DropMap | inode.c:2250-2325 | Drops an empty map from the chain, except that the inode goes on pointing to the first of several. |
| Directories.Directory.FixUp | inode.c:2232-2333 | Drops the map left empty, if any; what it frees and what it leaves on disk. |
| Directories.Directory.Remove | inode.c:2004-2342 | Takes exactly the name out, clearing its slot or dropping its map, and leaves the order of the other entries; gives back exactly the inode block, the file's blocks and an emptied map, with the state of both allocators as these frees in order; exact on one-block maps; the next data allocation takes the map dropped or else the last map of the file; stays valid if and only if the name was not alone in the first of several maps. |
| Directories.Directory.AtRisk | inode.c:2250-2262 | Reading the head map decides whether removing the name would break the directory. |
| Departures.HeadCanBeEmptied | inode.c:2250-2262 | A sound directory of two maps in which one name is alone in the first. |
| Directories.Directory.CallKeepsDirectory | file.c:316-563 | A read or write on a file of the directory, growth and failure included, keeps the directory valid and its map of names. |
| Enumeration.ListingFromNext | dir.c:178-196 | From a slot on, the entries are its own, if used, and those behind it, across the ends of maps. |
| Enumeration.DirStream.constructor | dir.c:74-101 | A stream opened on a directory is at its start. |
| Enumeration.DirStream.ScanTo | dir.c:232-251 | The scan finds the map of a row, or reports that the chain is too short. |
| Enumeration.DirStream.ReadDir | dir.c:144-253 | Yields the next item with its name, its kind ('F' or 'D'), its inode and its offset, or nothing when there is none and then nothing again; the retry loop ends. |
| Enumeration.DirStream.Rewind | dir.c:131-139 | The stream yields everything again. |
| Enumeration.DirStream.ReadAll | dir.c:144-253 | Repeated calls yield ".", "..", and every entry of the directory once, in chain order. |
| PathSpec.EscapesIff | krealpath.c:213-221 | ".." meets an empty stack exactly when some prefix has more ".." than names. |
| PathSpec.RealPathExactIff | krealpath.c:203-237 | The result is the absolute path of the names left, if and only if the path does not escape and leave a name. |
| PathSpec.RealPathIsNormal | krealpath.c:203-237 | Without empty components and escapes the result is absolute, has no "." or "..", splits back into its names, and resolves to itself. |
| PathSpec.SplitJoin | krealpath.c:228-233 | Splitting is the inverse of joining plain names. |
| PathSpec.RootCanBeLost | krealpath.c:213-220 | "/../a" resolves to "a". |
| PathSpec.RealPathSolidIff | paths.c:64-70 | If the path without its empty components does not escape, it resolves to the same as with them if and only if there are none or one is all that is left. |
| PathSpec.EmptyComponentsCount | paths.c:64-70 | "/a//.." resolves to "/a". |
| Paths.PushFront | paths.c:29-40 | The source comes before the text in the buffer, or nothing changes if it does not fit. |
| Paths.GetNextPath | paths.c:52-82 | Cuts off exactly the next component in place and moves on to the rest of the text. |
| RealPaths.Climb | krealpath.c:142-171 | Prepends the names of the directories up to the root. |
| RealPaths.Components | krealpath.c:205-208 | The pointer table names the components of the text, in order. |
| RealPaths.Reduce | krealpath.c:209-226 | The pointer stack holds what "." and ".." leave of the components. |
| RealPaths.Assemble | krealpath.c:228-237 | Joins the names with slashes, or gives "/". |
| RealPaths.KRealPath | krealpath.c:109-243 | Computes PathSpec.RealPath of the absolute text; fails exactly when that is too long, and with which error. |
| RealPaths.AlwaysRooted | krealpath.c:142-191 | The text that is split starts with a slash for every directory and path. |
| Trees.OnePath | inode.c:881-1011 | In a tree of directories two lists of names that lead to one inode block are the same list. |
| Trees.EveryWalkEnds | inode.c:881-1011 | Every walk over names follows entries and ends behind the last name, at something that is not a directory with names left, or in a directory that does not list the next name; the answer tells which. |
| Trees.WalkEndsThere | inode.c:881-1011 | Conversely, a walk along entries that ends in one of these ways is what the names lead to. |
| Trees.FailsAtFile | inode.c:996-1011 | A walk that fails has come to an inode that is not a directory. |
| Trees.WalkBack | krealpath.c:142-171 | Walking down the names that climbing from a directory collects ends in that directory. |
| Trees.OnePathMore | inode.c:1626-1833 | A new entry in one directory of a tree adds exactly one path, and changes where no path leads that does not begin with it. |
| Trees.FlatTree | inode.c:881-1011 | A file system of one directory is such a tree. |
| Trees.AbsoluteLookup | inode.c:816-1011 | An absolute text without empty components is looked up by the names that are left of it; if it escapes and leaves names, without the first of them. |
| Trees.NormalLookup | inode.c:816-1011 | The text of a list of plain names is looked up by the walk over these names. |
| Trees.EscapeSkipsName | inode.c:879-881 | "/../a/b" is looked up as "/b". |
| Trees.RelativeLookup | inode.c:809-1011 | A relative text that does not climb above its start is looked up from the current directory, wherever that is in the tree. |
| Trees.Walk | inode.c:881-1011 | The loop over the names finds what the entries lead to, file not found for a missing name, and a failure for a file on the way. |
| Trees.InodeGet | inode.c:784-1011 | inode_get on any text and current directory: krealpath, the table of names, and the walk, or a failure for a text that is too long. The text of plain names finds what its entries lead to, answers file not found for a name that a directory does not list, and fails at a file on the way. |
| Roots.FirstIsFirst | inode.c:855-865 | On a fresh map the first inode block is the root block. |
| Roots.SetUpRoot | inode.c:828-871 | Writes the root inode, an empty directory named "/", when it is missing; always succeeds on a fresh map. |
| Roots.NewFileSystem | inode.c:225-324 | A new file system of at least 2560 blocks is the empty map from names. |
| Roots.Format | inode.c:225-324 | A new file system of at least 2560 blocks has a valid, empty root directory. |
| FileSystems.StoreCreated | inode.c:1626-1833 | A create leaves every file held on live blocks of its own, beside a new empty one. |
| FileSystems.StoreRemoved | inode.c:2004-2342 | An unlink frees no block of a file that stays, and leaves its bytes. |
| FileSystems.OthersHeld | file.c:481-525 | A call on one file, even one that fails, leaves every other file its bytes and its blocks, apart from what the one has grown. |
| FileSystems.StoreWritten | file.c:481-525 | After a call on one file and its close every file is held and no two share a block. |
| FileSystems.NoLeakCreated | inode.c:1626-1833 | After a create every block handed out is a map of the directory or belongs to a file. |
| FileSystems.NoLeakRemoved | inode.c:2004-2342 | After an unlink too: all that the entry used is given back. |
| FileSystems.NoLeakWritten | file.c:250-314 | After a call on a file too, growth and failure included. |
| FileSystems.FileSystem.InUseExactly | inode.c:419-512 | At any time the data blocks in use are exactly the maps and the blocks of the files, and the inode blocks exactly those of the directory and its entries. |
| FileSystems.FileSystem.RoomsAreRest | inode.c:458-511 | With maps of one block, the data blocks to be had are those not live, and the inode blocks to be had are 511 less the names: a create finds none exactly at 511 names. |
| FileSystems.FileSystem.SlotsTaken | inode.c:1674-1702 | A create needs a new map exactly if every map has 127 names. |
| FileSystems.FileSystem.GivenBackCount | inode.c:2111-2333 | An unlink gives back as many data blocks as the file has, and one more if it drops a map. |
| FileSystems.ViewWritten | file.c:1007-1039 | Rewriting one file changes what its name stands for and nothing else. |
| FileSystems.FileSystem.constructor | inode.c:828-871 | A directory without entries is the empty map. |
| FileSystems.FileSystem.Create | inode.c:1626-1833 | The name stands for an empty file or directory and the others for what they stood; it is in the first free slot or in a new last map; when it fails, how, and how many allocations are then left. |
| FileSystems.FileSystem.Unlink | inode.c:2004-2342 | Every name there is goes, and no other; the file system stays valid if and only if the name was not alone in the first of several maps; with maps of one block exactly its inode block, its blocks and a dropped map can be had again. |
| FileSystems.FileSystem.OpenEntry | file.c:661-707 | Opening a name gives the bytes it stands for, at position 0. |
| FileSystems.FileSystem.OpenAt | file.c:1043-1075 | Opening and seeking gives the bytes at that position without a cursor. |
| FileSystems.FileSystem.CloseEntry | file.c:914-969 | After the last close of a file the name stands for what the file held, and all else for what it stood. |
| FileSystems.FileSystem.WriteFile | file.c:1007-1039 | Open, seek, write, close: the bytes of the name are overwritten or extended after a gap of zeros, and no other name changes; it succeeds exactly if the blocks suffice, and if not the bytes up to the last of them are written. The result counts the gap. The file system stays valid unless the file had no blocks and exactly one was left. |
| FileSystems.FileSystem.ReadFile | file.c:971-1005 | Open, seek, read, close inside a file: the slice comes back and no name changes. |
| FileSystems.FileSystem.WouldStrand | inode.c:1703-1760 | Decides before a create whether it would link a map and find no inode block. |
| FileSystems.FileSystem.Stat | inode.c:928-952 | Finds whether a name is a file, its size, and whether it has blocks. |
| FileSystemRuns.UntouchedName | file.c:971-1075 | Through any script a name that is not mentioned stands for the same bytes. |
| FileSystemRuns.PutThenGet | file.c:971-1039 | What was written by name is read back, whatever happens to other names in between. |
| FileSystemRuns.AnswerTells | file.c:971-1039 | A create is answered with success exactly if it added the name, a removal exactly if it took the name away; a write that is holds the bytes from its position on, and one that is not took every block there was. |
| FileSystemRuns.NotClear | file.c:404-435 | The operations a run stops before: a create that would strand a map, a transfer on no file, a position of 2^64, a gap of 2^41 bytes, a read past the end, a start at a positive multiple of 65024, and a write to a file without blocks with one left. |
| FileSystemRuns.ReasonStands | inode.c:458-511 | A create that was refused and a write that was cut short stay justified, by an exhausted allocator, until a name is removed. |
| FileSystemRuns.NothingWanting | inode.c:458-511 | If no name was removed and blocks of both kinds can be had in the end, no create was refused and no write cut short. |
| FileSystemRuns.NothingIsLost | inode.c:638-665 | With maps of one block, inode blocks to be had and names, and data blocks to be had, maps and blocks of files, add up through any script to what they were. |
| FileSystemRuns.Perform | file.c:971-1075 | One clear operation acts as on the map; how it goes and what can be had after it follow from the state, except where in the directory a removed name lay; a removal is refused exactly if it would empty the first of several maps. |
| FileSystemRuns.Run | file.c:971-1075 | Any script of creates, removals, writes and reads by name gives the map, the counts and the answers of the same script on a map; it stops only before an operation that is not clear; what was refused or cut short has its reason, a create or a write until a name is removed, a removal until a name is added or removed. |

## Left out

- `dev.c`: system calls and I/O failures; the device is a total map from block numbers to blocks.
- Several devices and the master table: one device, its master record as the fields of the allocators.
- Concurrency: the code has none.
- Permissions, owners, timestamps, `stat` and `utime`: no property here depends on them.
- Symbolic and hard links, `kreadlink`, `krename`: entries are files and directories.
- `O_TRUNC` in `kopen`, and `file_add_blocks`, which nothing calls.
- The walk of `inode_create` over several components, which is that of `inode_get`: creation is modelled in the last directory, and what an entry more does to a tree is `Trees.OnePathMore`.
- Page numbers from 2^31 up: `find_in_hash` takes an `int`.
- FileData.OpenFile.Write: states calls that do not meet the short scan and whose gap is below 2^41 bytes, where the 32-bit step count is exact; `FileData.OpenFile.ReadWrite` states the transfers that do meet it.
- FileData.OpenFile.Read: the same two conditions; a read past the end makes the file longer by bytes its blocks happen to hold, and only their number is stated.
- FileData.OpenFile.FirstBlocks: a transfer on a bare file, which would start at block 0, is not stated.
- FileData.OpenFile.Transfer: the byte index is not bounded; `block_t` has 32 bits, and a buffer of 2^32 bytes does not fit the address space of a machine on which it has.
- FileData.OpenFile.Seek: the result before `off_t` narrows it.
- FileRuns.Run: files are opened before the script starts, one in-memory inode for each file; reads past the end, the short scan, and a write that would leave its file bare end the run.
- FileSystemRuns.Perform: with maps of several blocks, where a free can be lost, how many allocations are left after a removal is not stated.
- FileSystemRuns.Run: one directory; a removal that would break the directory is refused, not attempted; a create that would strand a map and a write that would leave its file bare end the run.
- Allocation.Allocator.OpenMap: a cursor in the master block that points into the map.
- Directories.Directory.Create: timestamps of the parent are not written; the buffers on the C stack are values.
- Descriptors.Process.Open: the file has a path that is not empty; descriptor number `MAX_FILES` passes the range check of the code and reads behind the table, so it is excluded.
- Enumeration.DirStream.ReadDir: the directory does not change between calls, and the names fit the buffer of the entry.
- Trees.InodeGet: links and permissions; the root is set up (`Roots.SetUpRoot`), and the table of names is that of `RealPaths.Components`.
- Trees.RelativeLookup: texts with empty components, or that climb above their start, are not stated from the current directory.
- RealPaths.KRealPath: texts of 254 to 256 characters, for which the C code reads or writes past its buffers, and the like while it climbs.
- `get_parent_dir` and `get_parent_path`: string helpers off the main path.
