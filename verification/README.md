# Verification of the rCore kernel and easy-fs

A Dafny model of the parts of this small RISC-V kernel and its file system whose
correctness takes more than reading one function, with proofs. `dafny verify
dfyconfig.toml` checks all of it.

**The file system.** A file is a tree of disk blocks (28 direct slots, an index block,
an index block of index blocks) that lives on the disk it describes. `Words`, `Bitmap`,
`Layout`, `DiskInode` and `FileData` take it from bytes and bits up to growing, clearing,
reading and writing one file. `Efs`, `FsState`, `FsSteps`, `Vfs` and `Mkfs` do so for a
whole disk: one invariant says which inode owns which block, and every operation keeps
it. `DirCodec`, `Directory` and `FsRuns` add names and arrive at the main result: any
run of operations on a formatted disk cannot be told from a plain machine of names and
byte sequences. `BlockCache` shows that the 16-entry write-back cache is a plain array of
blocks, and what of it may be on the device; `CacheTraffic` has ways of using it that
carry out any change. `Durability` puts file system and cache together: a restart from the
device shows the final state for every use the operations make of the cache if and only if
no successful link came after the last operation that synced.

**Address spaces.** `Frames` is physical memory and its allocator. `PageTable` proves
the three-level table a partial map from pages to entries, `UserBuffers` compares the
software walk with the one of the RISC-V Privileged Architecture and treats user
buffers. `MemorySet`, `AreaLists`, `UserMappings` and `Mmap` keep areas, owned frames
and table in agreement under mmap and munmap, `Fork` copies a space, `SpaceDrop` gives
one back, data frames at exit and tables at the reaping. How many frames each of these
takes or needs is exact: a frame for each page and for each missing table. `SpaceRuns` is
the main result: over any run on many spaces, dead processes included, each program sees
only the effects of its own calls, which calls succeed and how many frames are free is a
function of the calls, no frame has two owners, and frames are conserved. `SpaceCycles`
draws conclusions from it.

**Processes.** `Stride` shows when wrapping passes compare like unbounded ones,
`TaskManager` that a fetch gives a true minimum. `Process` and `Kernel` are the life
cycle with its tree, pids and exit codes; `ProcessSteps` says on values what each call
may do, and `ProcessRuns` follows any run. `Shares` derives proportional shares and a
bound on waiting.

**The pipe.** `Pipe` is the ring and one turn of a reader or writer; `PipeRuns` has any
number of calls begin and interleave in any order, while the write end's descriptors are
copied and closed, and compares them with a plain queue.

**Laws.** Each main result says that the code does what a plain machine does. `FsLaws`,
`CacheLaws`, `SpaceLaws`, `ProcessLaws` and `PipeLaws` say what those plain machines
promise, in calls, arguments and answers alone: what was written is read back, waitpid
answers for the child asked for, mmap covers the bytes asked for, turns go by priority
(`Shares.ByPriority`), a pipe ends when its last writer has gone and not before.

Objects the source updates in place are classes here, its loops are loops, and what they
compute is tied to functions about which the results are proved. Integers are unbounded;
where the source's arithmetic wraps or truncates the model says so.

Where code and comments differ the model follows the code. The ones that matter: the
inode area is sized by raw bytes although only three inodes fit a block, so that the
bitmap has bits for inodes that have no place (`Efs.InodeHome`); a link is not synced to
the device (`Durability.CachedRun`, `Durability.FormatRunLost`); after a munmap that
cuts an area fork panics (`SpaceCycles.ForkAfterMunmap`); an mmap that runs out of
frames leaves valid entries to free frames, unless none was free to begin with
(`Mmap.SysMmap`, `Mmap.CallCutShort`); a page mapped with W and without R is translated
by the kernel but faults in hardware (`UserBuffers.WriteNeedsRead`,
`SpaceCycles.StoreAfterMmap`); a pipe call that fills its buffer exactly waits once more
before it returns (`Pipes.ReadCall.Turn`).

## Model

| member | source | states |
|---|---|---|
| BitmapLayer.Decomposition | easy-fs/src/bitmap.rs:13-15 | the three parts are in range and name the same bit |
| BitmapLayer.BitOnDisk | easy-fs/src/bitmap.rs:8-67 | bit n of a bitmap is bit n % 8 of its byte n / 8 on disk |
| Words.TrailingOnesLeast | easy-fs/src/bitmap.rs:37-44 | the number of trailing ones is the position of the least clear bit of a word |
| Words.SetBit | easy-fs/src/bitmap.rs:46 | adding a power of two sets that bit and no other, if it was clear |
| Words.ClearBit | easy-fs/src/bitmap.rs:62-66 | subtracting a power of two clears that bit and no other, if it was set |
| BitmapLayer.Bitmap.Alloc | easy-fs/src/bitmap.rs:32-57 | takes the least clear bit over all blocks and words and sets it alone; fails exactly when every bit is set; no other block changes |
| BitmapLayer.Bitmap.Dealloc | easy-fs/src/bitmap.rs:59-67 | clears exactly the given bit |
| Layout.PositionsAreSlots | easy-fs/src/layout.rs:155-226 | the order in which growth consumes blocks (direct slots, first index block, its entries, second index block, each sub-index block before its entries) is a bijection between positions and slots |
| Layout.DataBlocksLeast | easy-fs/src/layout.rs:123-131 | the number of data blocks is the least that holds the size |
| Layout.TotalIsLastPosition | easy-fs/src/layout.rs:133-149 | the closed formula for data and index blocks is the position of the last data block plus one |
| Layout.FillNext | easy-fs/src/layout.rs:162-226 | filling the next slot extends the tree by that block and leaves all earlier entries, though they live on the disk being written |
| DiskInodes.DiskInode.Initialize | easy-fs/src/layout.rs:70-78 | an empty inode with one link |
| DiskInodes.DiskInode.GetBlockId | easy-fs/src/layout.rs:96-121 | the number of a file block is the direct entry, the entry of the indirect block, or the entry of the block that the doubly indirect one lists |
| DiskInodes.DiskInode.IncreaseSize | easy-fs/src/layout.rs:155-226 | consumes exactly the given blocks, in order, after those already there; only index blocks are written, and no entry behind the last one filled; all three loops end |
| DiskInodes.DiskInode.ClearSize | easy-fs/src/layout.rs:231-301 | returns every block of the tree, index blocks included, in the order of growth, and resets the inode |
| FileData.GrowThenClear | easy-fs/src/layout.rs:155-301 | after any sequence of growth steps clearing returns the concatenation of all the vectors given |
| FileData.GrowthKeepsBlockIds | easy-fs/src/layout.rs:96-226 | growth moves no old file block, and no two file blocks share a disk block |
| FileData.DataWrite | easy-fs/src/layout.rs:345-381 | writing a data block changes neither the tree nor any other byte of the file |
| FileData.ReadAt | easy-fs/src/layout.rs:304-341 | fills the buffer with the file's bytes from the offset on; it is short only at the end of the file, and touches no more of the buffer |
| FileData.WriteChunk | easy-fs/src/layout.rs:356-376 | one turn of the write loop replaces exactly its part of one block |
| FileData.WriteAt | easy-fs/src/layout.rs:345-381 | within the file exactly the given bytes are replaced; a write of no bytes whose first block is not mapped changes nothing, if looking that block up stays on the disk |
| Efs.Plan | easy-fs/src/efs.rs:24-44 | the regions add up to the disk and the data bitmap covers the data area |
| Efs.RegionsInOrder | easy-fs/src/efs.rs:24-79 | super block, inode bitmap, inodes, data bitmap and data lie one behind the other and fill the disk |
| Efs.InodeAreaLeast | easy-fs/src/efs.rs:26-28 | the inode area is the least number of blocks with room for 136 bytes for each bit of the inode bitmap |
| Efs.DataBitmapIsLeast | easy-fs/src/efs.rs:31-33 | no smaller number of bitmap blocks could cover the data area |
| Efs.InodeHome | easy-fs/src/efs.rs:26-28 | an inode number's place lies before the next region if and only if the number is below three times the inode area's blocks; the bitmap has more bits than that |
| Efs.LoadStored | easy-fs/src/efs.rs:106-114 | the three inodes of a block are stored and loaded independently |
| Efs.InodeFields | easy-fs/src/layout.rs:56-66 | the fields of a stored inode lie at their offsets: number, size, 28 direct blocks, two index blocks, links, type |
| FsState.InvSound | easy-fs/src/vfs.rs:167-193 | every inode's tree consists of distinct blocks of the data area |
| FsState.Commit | easy-fs/src/vfs.rs:185-193 | an operation on one inode that respects ownership keeps the invariant and every other file's bytes |
| FsState.BlockOwnership | easy-fs/src/efs.rs:125-145 | a data bit is set exactly when its block occurs in some tree; it then occurs at one place of one tree; a block whose bit is clear is all zeros |
| FsSteps.GrownSpare | easy-fs/src/layout.rs:155-226 | after growth every slot behind the last block of the file, in the inode or in one of its index blocks, holds 0 |
| Vfs.EasyFileSystem.AllocInode | easy-fs/src/efs.rs:120-122 | the least unused inode number |
| Vfs.EasyFileSystem.AllocData | easy-fs/src/efs.rs:125-127 | a data block in nobody's tree, all zeros when free blocks are, and one more bit set in one block |
| Vfs.EasyFileSystem.DeallocData | easy-fs/src/efs.rs:133-145 | zeroes the block and clears its bit alone |
| Vfs.Inode.IncreaseSize | easy-fs/src/vfs.rs:296-311 | allocates exactly what the new size needs and appends it to the tree |
| Vfs.Inode.ReadAt | easy-fs/src/vfs.rs:180-183 | returns the bytes of the abstract file, fewer than asked for only at its end |
| Vfs.Inode.WriteAt | easy-fs/src/vfs.rs:185-193 | the abstract file gets the bytes, a gap is filled with zeros, also by a write of no bytes; no other file changes, blocks are accounted for; no more disk blocks change than the file has, its growth and its inode's |
| Vfs.Inode.Clear | easy-fs/src/vfs.rs:167-178 | empties the file, gives all its blocks back, changes no other file |
| Vfs.Inode.IncNlink | easy-fs/src/layout.rs:80-82 | one more link, nothing else |
| Mkfs.Create | easy-fs/src/efs.rs:19-79 | from any disk contents: the planned regions, the invariant, an empty root directory, no data block in use |
| Mkfs.Open | easy-fs/src/efs.rs:82-103 | recovers the regions that formatting made from block 0 |
| Mkfs.EmptyWriteFound | easy-fs/src/layout.rs:96-121 | on a formatted disk the block behind the last one of a file, which a write of no bytes there looks up, is found if and only if it is not the first block of an index block |
| DirCodec.DecodeEncode | easy-fs/src/layout.rs:384-424 | a directory entry with a NUL-free name of 1 to 27 bytes survives the 32-byte record |
| DirCodec.RecordBytes | easy-fs/src/layout.rs:384-410 | a record is the name, zeros up to byte 28, and the inode number with its lowest byte first |
| DirCodec.AppendEntry | easy-fs/src/vfs.rs:141-153 | writing a record at the end of a directory appends one entry |
| Directory.LookupListed | easy-fs/src/vfs.rs:80-95 | lookup finds a name exactly when it is listed |
| Directory.FindInodeId | easy-fs/src/vfs.rs:80-95 | the loop over the records computes the lookup |
| Directory.Find | easy-fs/src/vfs.rs:65-78 | opens the file a name is listed for |
| Directory.CreateFile | easy-fs/src/vfs.rs:115-165 | fails exactly when the name exists; else an empty file under the least free number, one more entry, nothing else |
| Directory.Linkat | easy-fs/src/vfs.rs:196-245 | succeeds exactly when the old name exists and the new one does not; one more entry and link, no data changes |
| FsRuns.Exec | easy-fs/src/vfs.rs:65-193 | each operation on the disk answers and leaves what the plain machine of names and byte sequences does |
| FsRuns.Run | easy-fs/src/vfs.rs:65-193 | over any run of create, link, find, write, read and clear on many files, disk and plain machine agree, the disk invariant holds and the blocks in use are those the files need |
| FsRuns.FormatRunReopen | easy-fs/src/efs.rs:19-103 | on the disk as the file system sees it, through the cache: formatting, any run, and opening again shows what the plain machine shows from empty |
| FsLaws.WriteThenRead | easy-fs/src/vfs.rs:180-193 | over any run: what was written is read back, whatever comes between that does not write or clear the file |
| FsLaws.WriteIs | easy-fs/src/vfs.rs:185-193 | after a write the file has the bytes written, around them those of before, and zeros in a gap; no other file and no name changes |
| FsLaws.ReadIs | easy-fs/src/vfs.rs:180-183 | a read answers the bytes from the offset on, fewer than asked for only at the end of the file |
| FsLaws.ClearThenRead | easy-fs/src/vfs.rs:167-183 | over any run: a cleared file reads empty until it is written |
| FsLaws.CreateThenFind | easy-fs/src/vfs.rs:65-165 | over any run: a new name gets the least free number and an empty file, and is found under that number for ever |
| FsLaws.LinkThenFind | easy-fs/src/vfs.rs:65-245 | over any run: a link succeeds exactly if the old name is listed and the new one is not, and then the new name finds the file of the old one for ever |
| FsLaws.RunKeeps | easy-fs/src/vfs.rs:65-193 | names only come in, at the end, and a file that no call writes or clears stays as it is |
| FsLaws.CreateAdmitted | easy-fs/src/vfs.rs:115-165 | the source can carry out a create exactly if the name fits its field and is listed, or a record, its blocks and an inode number can be had |
| FsLaws.WriteAdmitted | easy-fs/src/vfs.rs:185-193 | and a write of something exactly if the file is there, ends within the largest size and the blocks it grows by are free |
| BlockCaches.BlockCacheManager.Evict | easy-fs/src/block_cache.rs:95-107 | dropping an idle entry writes it back if modified; the logical disk is the same, and a device block changes to its logical contents or not at all |
| BlockCaches.BlockCacheManager.GetBlockCache | easy-fs/src/block_cache.rs:87-119 | hands out the one entry of the block, holding its logical contents; fails exactly when 16 other blocks are held; in a full cache the first entry nobody holds makes room, and the last takes its place |
| BlockCaches.BlockCacheManager.Read | easy-fs/src/block_cache.rs:55-57 | shows the logical disk |
| BlockCaches.BlockCacheManager.SyncAll | easy-fs/src/block_cache.rs:131-136 | afterwards the device is the logical disk |
| BlockCaches.CacheStep | easy-fs/src/block_cache.rs:44-136 | get, drop, read, write and sync each act as on a plain array |
| BlockCaches.CacheRun | easy-fs/src/block_cache.rs:44-136 | over any run the blocks read are those a plain array of blocks gives; each device block is then as it was, or as the array had it at a moment when a block was asked for or all were synced; while no more than 16 blocks have been asked for and nothing is synced the device is untouched |
| CacheLaws.ReadsBack | easy-fs/src/block_cache.rs:44-136 | after any run a read answers what was last written to the block, or what it held before |
| CacheLaws.RunThenSync | easy-fs/src/block_cache.rs:44-136 | after any run and a sync the device has in each block what was last written there |
| Durability.CachedExec | easy-fs/src/vfs.rs:115-245 | for any use of the cache by the operation, whatever the cache holds: after creating, writing and clearing the device is the logical disk, and an operation that only reads or is refused keeps it so; for a use that writes the root's inode last only these do: after a successful link the device's root directory is shorter |
| Durability.DiffsFaithful | easy-fs/src/block_cache.rs:87-136 | fetching, overwriting and letting go of one changed block after the other is such a use of the cache, with the effect of any operation |
| Durability.DurableMeans | easy-fs/src/vfs.rs:115-245 | in calls and answers: the condition holds exactly if some write, clear or successful create has no successful link after it, or there is no such link at all and all was saved before |
| Durability.CachedRun | easy-fs/src/vfs.rs:115-245 | over any run the device holds the plain machine's state, for every use of the cache, if no successful link came after the last sync, and only if: else there is a use that leaves the device with a shorter root directory |
| CacheTraffic.LateCarries | easy-fs/src/block_cache.rs:87-136 | writing a chosen block last is a use of the cache with the effect of any operation, and lets out of that block only what was there before |
| Durability.RootLateFaithful | easy-fs/src/block_cache.rs:87-136 | so the use that writes the root's inode last fits every operation |
| Durability.FormatRunRestart | easy-fs/src/efs.rs:19-103 | format, run over the cache, restart from the device: under that condition the final state is there for every use of the cache, and the answers were the plain machine's |
| Durability.FormatRunLost | easy-fs/src/efs.rs:19-103 | format and any run that does not meet the condition: the answers are the plain machine's, and there is a use of the cache after which the device is behind |
| Durability.BehindLacksNames | easy-fs/src/vfs.rs:196-245 | whatever file system comes up from a device that is behind lacks names |
| Durability.LinkLostAfterRestart | easy-fs/src/vfs.rs:196-245 | it happens: format, create, restart, link, go down, and the file system comes up with only the first name |
| Frames.FrameAllocator.Conservation | os/src/mm/frame_allocator.rs:41-73 | frames handed out and frames free add up to the range |
| Frames.FrameAllocator.Alloc | os/src/mm/frame_allocator.rs:55-65 | a zeroed frame nobody has, the last one given back or else the next unused; none exactly when all are handed out |
| Frames.FrameAllocator.Dealloc | os/src/mm/frame_allocator.rs:66-73 | the frame is free again, and only it |
| PageTables.PteRoundTrip | os/src/mm/page_table.rs:30-46 | an entry gives back the page number and flags packed into it |
| PageTables.PteBits | os/src/mm/page_table.rs:6-64 | the page number is in the bits from 10 on, and V, R, W and X are bits 0 to 3 |
| PageTables.Indexes | os/src/mm/address.rs:169-177 | the loop computes the three nine-bit indexes |
| PageTables.IndexesBijective | os/src/mm/address.rs:169-177 | pages and index triples correspond one to one |
| PageTables.WalkByTree | os/src/mm/page_table.rs:118-135 | in a tree of distinct tables the three-level walk is a lookup by path |
| PageTables.LeafWrite | os/src/mm/page_table.rs:136-146 | writing a leaf changes the walk of one page only |
| PageTables.AddTable | os/src/mm/page_table.rs:104-111 | linking a zeroed table changes no walk and keeps the tables a tree of distinct frames |
| PageTables.PageTable.FindPte | os/src/mm/page_table.rs:118-135 | finds the entry exactly of mapped pages |
| PageTables.PageTable.FindPteCreate | os/src/mm/page_table.rs:98-117 | makes exactly the missing tables, one frame each, and maps nothing; fails if and only if fewer frames are free than tables are missing |
| PageTables.PageTable.Translate | os/src/mm/page_table.rs:83-86 | is lookup in a partial map from pages to entries |
| PageTables.PageTable.Map | os/src/mm/page_table.rs:136-141 | is insertion of one key into that map; only table frames are written; takes and needs exactly the frames of the missing tables |
| PageTables.PageTable.Unmap | os/src/mm/page_table.rs:142-146 | is deletion of one key |
| UserBuffers.SoftwareIsStandard | os/src/mm/page_table.rs:83-97 | for every canonical address the software walk gives the address of section 4.3.2 of the RISC-V Privileged Architecture (20211203) with Sv39 if the leaf is one the standard allows (R or X set, W only with R), and the standard faults on every other leaf and on unmapped pages |
| UserBuffers.WriteNeedsRead | os/src/syscall/memory.rs:22-31 | of the protections mmap accepts exactly 2 and 6, W without R, give an entry the standard does not allow |
| UserBuffers.TranslatedByteBuffers | os/src/mm/page_table.rs:149-169 | ends, with non-empty slices whose concatenation is the user range in order |
| UserBuffers.UserBufferIterator.Next | os/src/mm/page_table.rs:242-258 | steps through the bytes of all slices in order |
| UserBuffers.VisitAll | os/src/mm/page_table.rs:224-258 | each address of the range is visited exactly once, in order, as its place in the frame its page is mapped to |
| MemorySets.AddPage | os/src/mm/memory_set.rs:79-106 | areas, owned frames and page table stay in agreement when a page is added to an area |
| MemorySets.MemorySet.constructor | os/src/mm/memory_set.rs:167-172 | an empty space with its trampoline, in exactly its three table frames, which nobody had |
| MemorySets.MemorySet.MapOne | os/src/mm/memory_set.rs:79-106 | one more page with a zeroed frame nobody had; reports if and only if no frame was free; succeeds if and only if there were frames for the page and its missing tables, and takes exactly those |
| MemorySets.NeedNext | os/src/mm/memory_set.rs:116-129 | the frames a range needs, page by page: one, and one for each table no page before it has brought |
| MemorySets.MemorySet.InsertFramedArea | os/src/mm/memory_set.rs:268-278 | a new area with every page mapped if and only if the frames it needs are free; reports a failure if and only if the pages before some page need exactly what is free; the space is then sound if and only if no frame was free to begin with |
| MemorySets.BreaksOffAt | os/src/mm/memory_set.rs:116-129 | the failure occurs at every page of every range, with the frames the pages before it need |
| MemorySets.DanglingIs | os/src/mm/memory_set.rs:116-129 | the entries left behind by the failed call point at frames that are free |
| AreaLists.TrimStep | os/src/mm/memory_set.rs:250-258 | removing page after page, and each area with its last page, removes the range from all areas |
| AreaLists.TrimmedAreas | os/src/mm/memory_set.rs:236-261 | every area left is one of before without the pages of the range, with a page left unless it lost none, and every area with a page outside leaves one |
| AreaLists.RemoveFromBooks | os/src/mm/memory_set.rs:109-114 | agreement survives the removal of a page from its area, the owned frames and the table |
| UserMappings.Position | os/src/mm/memory_set.rs:239-246 | the first area that holds the page, none exactly when no area does |
| UserMappings.UnmapPage | os/src/mm/memory_set.rs:109-114 | the page leaves area, table and owned frames, its frame is free |
| UserMappings.RemoveMappedFrames | os/src/mm/memory_set.rs:236-261 | all or nothing: -1 with nothing changed exactly when some page of the range is in no area; else exactly the range goes, exactly its frames are freed, exactly the emptied areas vanish |
| Mmap.RoundUpIs | os/src/syscall/memory.rs:12 | the length is rounded up to the least number of whole pages; where the sum wraps it becomes 0 |
| Mmap.PageOfRange | os/src/syscall/memory.rs:12-14 | where nothing wraps the pages of a call are those that begin in [start, start + len) |
| Mmap.SysMmap | os/src/syscall/memory.rs:7-41 | in addresses, where nothing wraps: refuses exactly bad arguments and a range with a mapped page; success adds exactly the pages that begin in [start, start + len), zeroed and with the flags asked for, and all of the range can be reached. In wrapping arithmetic: exactly when it refuses, panics, runs out of frames or succeeds; hardware follows the kernel's walk to the new pages unless W was asked for without R; out of frames, the space is sound if and only if none was free before the call |
| Mmap.CallCutShort | os/src/syscall/memory.rs:34-40 | a space and a call for two pages after which the first page's entry points at a free frame |
| Mmap.SysMunmap | os/src/syscall/memory.rs:43-61 | in addresses, where nothing wraps: succeeds exactly when every page that begins in [start, start + len) is there, and then exactly those go and no address of the range can be reached. In wrapping arithmetic: succeeds exactly when every page of the range belongs to an area; then the program sees exactly the other pages |
| SpaceCopy.StorePage | os/src/mm/memory_set.rs:184-188 | a store into a page of a space changes what its program sees of that page only |
| SpaceCopy.CopyPages | os/src/mm/memory_set.rs:181-188 | copies bytes page by page; gets to the end exactly when the parent has every page |
| SpaceCopy.NoConflict | os/src/mm/memory_set.rs:179-180 | areas without missing pages do not get in each other's way in the copy |
| SpaceCopy.CopyShowsFull | os/src/mm/memory_set.rs:174-190 | a copy that came to an end shows that no area had a page missing |
| SpaceCopy.FromExistedUserspace | os/src/mm/memory_set.rs:174-190 | succeeds if and only if no area has a page missing and the frames for its pages and its distinct tables are free, and takes exactly those; the child has the same pages, bytes and flags in frames of its own, the parent is unchanged |
| SpaceDrop.RecycleDataPages | os/src/mm/memory_set.rs:263-265 | every data frame of the space, and only those, is free again; the page table stays, its entries with it |
| SpaceDrop.DropTables | os/src/mm/frame_allocator.rs:29-33 | dropping the page table frees exactly its tables |
| SpaceDrop.DropSpace | os/src/task/mod.rs:90-94 | exit and reap together free exactly what the space owned |
| SpaceRuns.TrimmedShapes | os/src/mm/memory_set.rs:250-258 | what munmap does to areas, without their frames |
| SpaceRuns.Start | os/src/mm/memory_set.rs:167-172 | a system with one bare space |
| SpaceRuns.StillThere | os/src/mm/memory_set.rs:161-164 | a space, of a live process or a dead one, whose frames stay handed out and keep their bytes is as it was |
| SpaceRuns.WorldStep | os/src/mm/memory_set.rs:161-164 | a step that takes free frames and gives back its own keeps all spaces sound, apart and unaware of it |
| SpaceRuns.Conserved | os/src/mm/frame_allocator.rs:41-73 | owned frames, those of dead processes among them, the kernel's frames and free frames always add up to all of memory |
| SpaceRuns.StoreIs | os/src/mm/page_table.rs:83-97 | the walk of section 4.3.2 of the RISC-V Privileged Architecture, with its check for stores, gives the byte of the page's own frame exactly for a canonical address in a page with R, W and U, and faults on every other address |
| SpaceRuns.ExecFork | os/src/mm/memory_set.rs:174-190 | panics exactly when a page is missing or frames are short; else child and parent show the same pages and are separate spaces |
| SpaceRuns.ExitSpace | os/src/task/mod.rs:90-94 | exit gives the data frames back; the dead process keeps its tables and their entries |
| SpaceRuns.ExecReap | os/src/syscall/process.rs:125-128 | reaping gives the tables back; all other spaces, live and dead, are as they were |
| SpaceRuns.Exec | os/src/syscall/memory.rs:7-61 | mmap, munmap, fork, a store through the hardware's walk, exit and reap each answer as the plain machine does and leave its views, areas, tables and number of free frames |
| SpaceRuns.Run | os/src/syscall/memory.rs:7-61 | any calls by any processes, for as long as none panics or takes the last frame half way: each program sees what its own calls determine, all replies and the number of free frames are the plain machine's, no frame has two owners, frames are conserved, other memory keeps its bytes; it stops exactly where the plain machine does |
| SpaceRuns.StopsAtCall | os/src/syscall/memory.rs:7-61 | a run that stops does so at one call, with all calls before it gone well |
| SpaceLaws.MmapRefuses | os/src/syscall/memory.rs:7-22 | on the plain machine: refuses exactly bad arguments and a range with a page that is there |
| SpaceLaws.MmapGrows | os/src/syscall/memory.rs:22-41 | the new pages are those that begin in the range, zero and with the flags asked for; all of the range can be reached, and what was there stays |
| SpaceLaws.MunmapIs | os/src/syscall/memory.rs:43-61 | succeeds exactly if every page that begins in the range is there; exactly those go |
| SpaceLaws.StoreChanges | os/src/mm/page_table.rs:83-97 | a store changes the one byte at its address |
| SpaceLaws.ForkShowsSame | os/src/mm/memory_set.rs:174-190 | a fork adds a space that shows the same and changes no other |
| SpaceLaws.ExitThenReap | os/src/task/mod.rs:73-100 | exit gives back a frame for each page and reaping one for each table, and only that space goes |
| SpaceLaws.OthersLeaveAlone | os/src/mm/memory_set.rs:161-164 | over any run without reaping a space is as it was unless its own process called |
| SpaceLaws.StopsOnly | os/src/syscall/memory.rs:34-40 | a run stops only where the kernel panics, or where a mapping takes the last of some free frames |
| SpaceCycles.ShellForEver | os/src/mm/memory_set.rs:174-190 | a process that can fork once can fork, its child exit and be reaped, any number of times, and as many frames are free as before |
| SpaceCycles.WholeUnlessCut | os/src/mm/memory_set.rs:250-258 | after a munmap no area has a page missing if and only if the range cuts none of them |
| SpaceCycles.ForkAfterMunmap | os/src/mm/memory_set.rs:174-190 | so fork after it succeeds if and only if it cuts none and the frames suffice, and panics otherwise |
| SpaceCycles.PartialUnmapPanics | os/src/mm/memory_set.rs:174-190 | two pages mapped, one unmapped, and fork panics |
| SpaceCycles.StoreAfterMmap | os/src/syscall/memory.rs:22-41 | after an mmap a store to one of its pages goes through exactly at a canonical address with protection 3 or 7, and faults with W alone |
| Strides.WrappedOrder | os/src/task/scheduler.rs:21-45 | for two passes less than 2^64 apart the wrapped comparison agrees with the order of the unbounded ones if and only if they differ by at most 2^63 - 1, or by 2^63 with the larger wrapping below the smaller |
| Strides.TooFarApart | os/src/task/scheduler.rs:36-45 | a pair it gets wrong |
| Strides.ByDistance | os/src/task/scheduler.rs:36-45 | within a window of half the range it is the order by distance from the window's lower end, hence total and transitive |
| Strides.MaximalIsLeast | os/src/task/scheduler.rs:72-79 | within such a window the elements a heap may pop are exactly those of least pass, and there is one |
| Strides.StrideScheduler.FindNextTask | os/src/task/scheduler.rs:72-79 | pops an element of least pass |
| TaskManagers.StepTimesPriority | os/src/task/manager.rs:31 | a charge times the priority is at most 2^64 - 1, and one unit more would exceed it |
| TaskManagers.TaskManager.Add | os/src/task/manager.rs:28-36 | charges the big stride over the priority, rounded down, with wrap-around, and keeps all passes in the window |
| TaskManagers.LeastTask | os/src/task/manager.rs:38-51 | whoever is fetched has the least unbounded pass, and the window moves up to it |
| TaskManagers.TaskManager.Fetch | os/src/task/manager.rs:38-51 | a ready task of least unbounded pass; none exactly when none is ready |
| Processes.StepAtMostHalf | os/src/syscall/process.rs:33-40 | every priority sys_set_priority accepts gives a step of at most half the range |
| Processes.PidAllocator.Alloc | os/src/task/pid.rs:21-28 | a pid nobody has, the last one given back or else the next unused |
| Processes.PidAllocator.Dealloc | os/src/task/pid.rs:29-38 | the pid is free again, and only it; both assertions hold for an allocated pid |
| Processes.FindChild | os/src/syscall/process.rs:110-127 | the first child with the pid asked for, any for -1, dead if it must be; none exactly if there is none |
| Processes.OneList | os/src/task/task.rs:207-268 | no task stands in two lists of children or twice in one |
| Kernels.Kernel.constructor | os/src/task/mod.rs:52-54 | initproc alone, ready |
| Kernels.Kernel.RunTasks | os/src/task/processor.rs:64-83 | one turn of the loop: a task of least pass runs, none only if none is ready |
| Kernels.Kernel.SuspendCurrentAndRunNext | os/src/task/mod.rs:56-71 | the caller is charged one step and queued, a task of least pass runs |
| Kernels.Kernel.Reparent | os/src/task/mod.rs:84-88 | the children move to initproc, in order |
| Kernels.Orphaned | os/src/task/mod.rs:82-89 | the tree is whole after the move |
| Kernels.Kernel.ExitCurrentAndRunNext | os/src/task/mod.rs:73-100 | the caller is dead with its code recorded, its children are initproc's, another task runs |
| Kernels.Kernel.Fork | os/src/syscall/process.rs:64-75 | a child with a fresh pid and the parent's priority, one step ahead of the parent's pass, ready and last in the parent's list |
| Kernels.Kernel.SetPriority | os/src/syscall/process.rs:33-40 | -1 and nothing for less than 2 as a signed number, else the new priority |
| Kernels.Kernel.WaitPid | os/src/syscall/process.rs:106-137 | for a pid: -1 exactly if no child has it, -2 exactly if the one that has is not dead, else that child; for -1 any child likewise. The first dead one leaves the list, its pid and code are the answer and its pid is free |
| Kernels.ZombieHeldOnce | os/src/syscall/process.rs:128-129 | a dead child is referenced from its parent's list only, so the assertion on the count never fails |
| ProcessSteps.DoYield | os/src/task/mod.rs:56-71 | on snapshots: the caller is charged and ready, the next task is one of least pass, everything else stays |
| ProcessSteps.DoExit | os/src/task/mod.rs:73-100 | on snapshots: the caller is dead without children, initproc has them at the end of its list, the code is recorded, the next task is one of least pass, everything else stays |
| ProcessSteps.DoFork | os/src/syscall/process.rs:64-75 | on snapshots: one new task, one more entry in the caller's list, everything else stays |
| ProcessSteps.DoWaitPid | os/src/syscall/process.rs:106-137 | on snapshots: the answer is the one the pids and states of the children call for; nothing changes if none asked for is dead, else the first such child leaves and the answer is its pid and code |
| ProcessSteps.DoSetPriority | os/src/syscall/process.rs:33-40 | on snapshots: the caller's priority or nothing |
| ProcessRuns.OneHome | os/src/task/manager.rs:14-51 | each allocated pid is one task's, which is exactly one of running, ready and dead; heap and ready queue hold the same pids, once each |
| ProcessRuns.OneParent | os/src/task/task.rs:207-268 | every task but initproc is in exactly one list of children, of a task that is not dead |
| ProcessRuns.Run | os/src/syscall/process.rs:23-137 | over any run of yield, exit, fork, waitpid and set_priority all invariants hold, the snapshots follow each other as the calls allow, each waitpid is answered by the children of the moment, and each exit code recorded is handed out at most once, in the order of reaping, unchanged |
| ProcessRuns.CodeIsFromExit | os/src/task/mod.rs:73-100 | over any run a recorded code was passed to exit by that task, or recorded before |
| ProcessLaws.YieldCharges | os/src/task/mod.rs:56-71 | on any step of a run: a yield charges the caller alone the big stride over its priority, and a task runs whose pass no ready one is below |
| ProcessLaws.ExitRecords | os/src/task/mod.rs:73-100 | exit records the code, and the children stand at the end of initproc's list |
| ProcessLaws.ForkAdds | os/src/syscall/process.rs:64-75 | fork adds one ready child, the last of the caller's, with its priority and one charge on top of its pass |
| ProcessLaws.PrioritySet | os/src/syscall/process.rs:33-40 | set_priority sets the caller's priority exactly if it is at least 2 as a signed number |
| ProcessLaws.PriorityIsLastSet | os/src/syscall/process.rs:33-40 | over any run a task has the priority it last set for itself |
| Shares.InBand | os/src/task/manager.rs:28-51 | all runnable passes lie between the last fetched pass and that plus the longest step |
| Shares.Yields | os/src/task/mod.rs:56-71 | any number of yields: each task is charged its step for each of its turns |
| Shares.Proportional | os/src/task/manager.rs:28-51 | in any stretch two runnable tasks were charged amounts that differ by at most twice the longest step |
| Shares.ByPriority | os/src/task/manager.rs:28-51 | so over n yields their turns are in proportion to their priorities p and q: (2^64 - 1) * |
| Shares.RunsSoon | os/src/task/manager.rs:38-51 | while a task waits each other one has at most longest step / own step + 1 turns; after more yields than the sum of these the task has run |
| Pipes.PipeRingBuffer.ReadByte | os/src/fs/pipe.rs:40-48 | takes the oldest byte |
| Pipes.PipeRingBuffer.WriteByte | os/src/fs/pipe.rs:50-57 | appends a byte, wherever head and tail are |
| Pipes.PipeRingBuffer.AvailableRead | os/src/fs/pipe.rs:59-69 | the number of bytes in the ring |
| Pipes.PipeRingBuffer.AvailableWrite | os/src/fs/pipe.rs:71-77 | the room left in it |
| Pipes.ReadCall.Turn | os/src/fs/pipe.rs:125-152 | from one suspension to the next: takes what there is and fits, in order; returns exactly when there was more than fits or all write ends are closed |
| Pipes.WriteCall.Turn | os/src/fs/pipe.rs:153-175 | likewise; returns exactly when there was more room than data, and then has written all of it |
| PipeRuns.PipeSystem.constructor | os/src/fs/pipe.rs:109-116 | a new pipe is an empty queue without calls and with one descriptor of the write end |
| PipeRuns.PipeSystem.ReaderRuns | os/src/fs/pipe.rs:125-152 | a reader's turn is a step of a plain queue and keeps the account of bytes |
| PipeRuns.PipeSystem.WriterRuns | os/src/fs/pipe.rs:153-175 | so is and does a writer's |
| PipeRuns.PipeSystem.WriteBegins | os/src/syscall/fs.rs:13-31 | a write through an open descriptor joins the calls with a reference of its own; without one nothing happens |
| PipeRuns.PipeSystem.WriteEndCopied | os/src/syscall/fs.rs:150-159 | an open descriptor is copied, as by dup and fork; one that is gone is not |
| PipeRuns.PipeSystem.WriteEndCloses | os/src/syscall/fs.rs:67-80 | an open descriptor goes |
| PipeRuns.PipeSystem.EndedIs | os/src/fs/pipe.rs:79-81 | the reference to the write end dies exactly when all writes have finished and no descriptor is open |
| PipeRuns.EndStays | os/src/fs/pipe.rs:79-81 | once all writes have finished and no descriptor is open no event brings a writer back, and the bytes in the ring only go |
| PipeRuns.PipeSystem.ShortReadIsEnd | os/src/fs/pipe.rs:131-135 | when a read came back short all writes have finished and all bytes ever accepted are delivered |
| PipeRuns.PipeSystem.Run | os/src/fs/pipe.rs:40-175 | reads and writes begin at any time, their turns come in any order, and descriptors of the write end are copied and closed: the states are those of a plain queue, bytes delivered followed by bytes in the ring are the bytes accepted, each read got its share and each write's data went in, in order |
| PipeLaws.NewPipe | os/src/fs/pipe.rs:104-175 | a new pipe under any events, in the events alone: while a descriptor stays open there are as many as copies and closes make, and the calls are exactly those that began, with their data and lengths; while no prefix has more closes than copies no read comes back short |
| PipeLaws.CountsAgree | os/src/syscall/fs.rs:67-159 | the same at every moment of a schedule |
| PipeLaws.NoEarlyEnd | os/src/fs/pipe.rs:131-135 | and so is that no read comes back short |

## Left out

- `unlinkat`: it writes its blank entry behind the last record, so the name stays; directory results are about create and link only.
- Files beyond (28 + 128 + 16384) * 512 bytes, a full data area and inode numbers without a place: the source panics or overruns; they are preconditions of the operations and of the runs. So is a write of no bytes at the end of a file whose next block would be the first of an index block: there the lookup leaves the disk (`Mkfs.EmptyWriteFound`).
- DiskInodes.DiskInode: an inode is loaded from its block and stored back around each operation, rather than updated through a reference into the cached block.
- Durability.CachedExec: the file operations work on the disk the cache shows, and the blocks they fetch, modify and let go are any sequence the cache allows with the operation's effect. That their own sequences hold at most sixteen blocks at a time is not shown.
- Durability.FormatRunLost: a crash in the middle of an operation, and the order in which the device itself writes, are not modelled; a restart comes between operations. The use of the cache by which a link is lost is one the cache allows, as in the line before.
- BlockCaches.BlockCacheManager.GetBlockCache: typed views at offsets into a block, the device driver, and the writing back of entries when the manager itself is dropped. Reference counts are explicit counts of handles.
- `ls`, `stat` and the wrapper of open files in the kernel.
- MemorySets.MapArea: a value that is replaced in the list, where the source changes it in place. Only framed areas are modelled; the kernel's identity-mapped sections, `from_elf` and `copy_data` are not.
- UserBuffers.SoftwareIsStandard: the comparison of the two walks leaves out permission checks (step 5 of the standard's translation), which are part of stores only (`SpaceRuns.StoreIs`), and the accessed and dirty bits (step 7).
- MemorySets.MemorySet.MapOne: when no frame is left for a table the source panics; nothing is said about memory after that. The same goes for the other results that stand for a panic.
- SpaceRuns.Run: the frames of kernel stacks, taken at fork and given back at the reaping, are not counted; a call in the name of no such process does nothing and answers -1. Nothing is said about what follows a panic, or a mapping that took the last frame half way, beyond what the contracts of fork and mmap say of it.
- The address space half of fork, exit and exec and their process half are proved separately; `Kernels.Kernel.Fork` does not call `SpaceCopy.FromExistedUserspace`. Kernel stacks, trap contexts, exec and file tables are not modelled.
- Kernels.ZombieHeldOnce: references held by the processor, the ready queue and lists of children are counted, not those in local variables on kernel stacks.
- Kernels.Kernel.ExitCurrentAndRunNext: initproc is required not to exit, where the source borrows its own cell twice and panics.
- Strides.StrideScheduler.FindNextTask: a heap is a list from which any maximal element may be taken; the order of its array is not modelled.
- Shares: the set of tasks and their priorities are fixed during the stretch considered.
- Pipes.ReadCall.Turn: no progress is claimed; a call whose buffer was filled exactly waits for another byte or for the end. A user buffer is the sequence of its bytes. Descriptors of the read end are not counted, as nothing depends on them.
- Signals, system call dispatch, assembly, traps, timers, drivers, the heap allocator, the locks, and the user programs.
