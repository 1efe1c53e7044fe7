# What is modelled

A Dafny model of a small RISC-V teaching kernel, with proofs of what its hard parts are for. The model keeps the form
of the C code: structures whose functions update them are classes, loops are loops with invariants, and each method is
tied to a specification function or predicate about which the laws are proved as lemmas. Panics are outcomes, not
preconditions.

**File storage** (`FileSystem` in `Inode.dfy`, over `Forest.dfy`, `FileTree.dfy`, `Bitmap.dfy` and `BlockDevice.dfy`).
The 13 index slots of an inode lead to blocks directly, through one table level or through two. All files together are
one forest over the blocks of the disk; the ghost map `owner` names the single cell that points to each block in use,
the set `lost` holds the blocks in use that no cell leads to, and the set bits of the data bitmap are exactly the two
(`Consistent`). On it, reading and writing refine a flat byte array per file (`Contents`), reach exactly as far as the
free blocks last (`FileSupply.dfy`), deleting gives back exactly the blocks that free_data_blocks reaches, and running
out of space halfway breaks nothing. `Healthy` adds what directories need: every block up to their size is there. Of
other files it asks nothing, so a seek past the end and a write keep it, and neither does it ask that bytes behind an
end be zero, because those that mkfs leaves are not (`src/mkfs/mkfs.c:117-120`); `Image.dfy` gives such an image and
shows that it meets every invariant. `FileLeak.dfy` and `FileEvict.dfy` are about the two ways in which this file
system loses something: deleting a file whose slots have a gap, and dropping an inode from the cache whose record on
disk lags behind.

**Directories, paths, links** (`Dirent.dfy`, `Dentry.dfy`, `PathName.dfy`, `Path.dfy`, `InodeCache.dfy`,
`LinkGraph.dfy`, `Naming.dfy`). The 64-byte slots of a directory are a finite map from names to inode numbers.
`NodesOf` reads the disk as a graph of files, `Resolve` is where a path leads in it, and `World` ties link counts and
cache references to the graph. Creating, linking and unlinking are proved against that graph, with the exact
conditions under which link counts go wrong and under which the inode cache runs out of slots (`WalkStarved`).

**Buffer cache** (`Ring.dfy`, `BufferCache.dfy`, `DiskOnCache.dfy`). Two circular doubly linked lists hold all
buffers, in use or not. `view` is what callers see of each block. `BlockDevice.Disk` is the same service as the file
system uses it: a buffer is not asked for twice by the same caller, and at most three are held; `DiskOnCache` runs the
two side by side.

**Address spaces** (`Pmem.dfy`, `PageTree.dfy`, `PageAccounts.dfy`, `PageNeeds.dfy`, `Vm.dfy`, `TableFree.dfy`,
`UserCopy.dfy`, `Uvm.dfy`, `Spans.dfy`, `Regions.dfy`, `Space.dfy`, `Fork.dfy`, `ForkUndo.dfy`). The Sv39 tables
(section 4.4 of the RISC-V Privileged Specification) are a second forest; `Pte` is the lookup it stands for. The list
of mapped regions is the canonical form of the page set it covers, and the user pages of the table are exactly code,
heap, regions and stack (`MapsExactly`). The account of a table (`Books`) tells where the pages of both pools are.
Every operation that maps pages says exactly when the pools suffice: a frame for each page, and a page for each table
missing on the walks to them (`Affords`).

**Processes** (`Sched.dfy`, `SchedPaths.dfy`, `LockCalls.dfy`). Scheduler, yield, sleep, wakeup and sleep locks are one
step system over any number of processes, CPUs and locks, one statement a step; `Run` is any interleaving. `SchedPaths`
follows the code of one CPU, and `LockCalls` says what a call of a sleep lock has done when it returns.

**Two rings** (`Virtio.dfy`, `Console.dfy`). The virtio queue of 8 descriptors (section 2.6 of VIRTIO 1.1) against a
device that completes requests in any order and counts the bytes of the disk in sectors of 512, and the console ring as
a queue of committed bytes followed by a line being edited.

## Model

| member | source | states |
|---|---|---|
| `Inode.FileSystem.LocateOrAdd` | src/kernel/fs/inode.c:88-217 | After every call, also one that runs out of space halfway, the set bitmap bits are exactly the blocks owned by one cell each, and no existing translation of any file has changed; it succeeds if and only if the free blocks suffice for the empty cells on the walk, and takes exactly those |
| `RadixForest.AttachOwned` | src/kernel/fs/inode.c:202-208 | Filling one empty cell with an unowned blank block changes that lookup only and leaves every block with a single owner |
| `FileTree.EntryStep` | src/kernel/fs/inode.c:195-209 | Marking a free block, zeroing it and storing it in an empty entry of an index block keeps bitmap and ownership in agreement and every other lookup as it was |
| `FileTree.LogicalPosInjective` | src/kernel/fs/inode.c:88-214 | Different block numbers, or different files, never lead to the same cell |
| `FileTree.LogicalPosCounts` | src/kernel/fs/inode.c:88-214 | The first 10 blocks hang on the slots themselves, the next 2 * 1024 in order on the entries of two tables, and the next 1024 * 1024 in order on those of 1024 tables under the last slot |
| `FileLayout.GrownCovered` | src/kernel/fs/inode.c:88-217 | Allocating at or before the end of the covered part of a file keeps its nonzero top-level slots a prefix and its blocks without a hole, also when the allocation stops halfway |
| `FileSpace.AllottedThen` | src/kernel/fs/inode.c:175-209 | Two allocations in a row, of a table and then of an entry below it, together succeed if and only if the free blocks suffice for both and take what was missing |
| `Inode.FileSystem.WriteData` | src/kernel/fs/inode.c:435-470 | A write of `written` bytes splices exactly those into the flat file if and only if it leaves no gap with other than zeros, always so at an offset up to the size; the size becomes the maximum; other files keep their bytes; a range beyond 2^32 writes nothing, and else exactly the bytes of the blocks are written that the free blocks last for, counting the tables on the way |
| `FileLayout.WriteMeaning` | src/kernel/fs/inode.c:435-470 | What single bytes written mean for whole files: the splice and its exact condition, sizes, coverage, and the other files |
| `FileData.WrittenContents` | src/kernel/fs/inode.c:435-470 | The exact condition by itself: the new contents are the splice if and only if nothing was written or the gap behind the old end was zero |
| `Inode.FileSystem.ReadData` | src/kernel/fs/inode.c:387-430 | Reading returns the slice of the flat file, leaves the contents of every file as they were even where it fills a hole, returns exactly the bytes of the blocks that the free blocks last for, and changes nothing at all in a file without holes |
| `FileData.ReadableIs` | src/kernel/fs/inode.c:387-397 | What a read may return reaches up to the end of the range or of the file, whichever comes first; it is nothing for a device, and for a range that wraps around 2^32 |
| `FileSupply.StockedUpTo` | src/kernel/fs/inode.c:449-459 | When the blocks before block `n` have been located or allocated and block `n` cannot be, the blocks that were free at the start suffice for a range of the file if and only if it ends before block `n` |
| `FileSupply.LastedOnce` | src/kernel/fs/inode.c:435-470 | The length of a short read or write is determined by the disk before it: no two lengths meet the condition |
| `InodeCache.Icache.WriteFile` | src/kernel/fs/inode.c:435-470 | A write to an open file at any offset, also behind its end, keeps every invariant of names, links and references, and the graph of files |
| `InodeCache.Icache.ReadFile` | src/kernel/fs/inode.c:387-430 | So does a read at any offset, with the contents of every file as they were |
| `FileData.RecordRoundTrip` | src/kernel/fs/inode.c:224-245 | An inode record written to its slot of the block is read back as it was, and every other slot reads as before |
| `FileData.RecordBytes` | src/kernel/fs/type.h:159-166 | A record is the struct as it lies on disk: kind, device numbers and link count in two bytes each, then the size and the 13 slots in four, low byte first |
| `FileData.RecordPlace` | src/kernel/fs/inode.c:224-245 | The record of inode `i` starts 64 * `i` bytes into the inode region |
| `FileSync.SyncedSave` | src/kernel/fs/inode.c:224-245 | Saving the one inode whose record on disk is stale makes all records on disk current |
| `Inode.FileSystem.Create` | src/kernel/fs/inode.c:286-310 | The new inode was free, is empty with one link and saved on disk; -1 if and only if no inode is free, and then nothing changes; no other file is touched; blocks that a deletion had left with the inode are lost from then on, none if and only if its slots were empty |
| `FileHealth.LostExactly` | src/kernel/fs/inode.c:286-310 | A new file takes blocks out of reach if and only if the free inode it gets still had some |
| `Inode.FileSystem.FreeTree` | src/kernel/fs/inode.c:25-48 | Exactly the blocks below the cell are freed, each once, and no buffer is asked for that is held, with at most three held |
| `Inode.FileSystem.FreeDataBlocks` | src/kernel/fs/inode.c:52-82 | The bits of exactly the blocks behind the slots before the first empty one are cleared and those slots emptied; every other file keeps its blocks and bytes |
| `FileFree.EmptiedExactly` | src/kernel/fs/inode.c:52-82 | No slot is left if and only if the nonzero slots form a prefix of the 13 |
| `FileHealth.FreedAll` | src/kernel/fs/inode.c:52-82 | No block of the file stays allocated if and only if its nonzero slots form a prefix |
| `Inode.FileSystem.Delete` | src/kernel/fs/inode.c:347-357 | The inode is free afterwards and loses its blocks, all of them if and only if its nonzero slots form a prefix; no other file changes |
| `FileLeak.PrefixExactly` | src/kernel/fs/inode.c:88-217 | After an allocation the nonzero slots are still a prefix if and only if no slot before that of the new block was empty |
| `FileLeak.WriteBehindDelete` | src/kernel/fs/inode.c:347-357 | The input that leaks: the first block of an empty file is not block 0 (as after a seek), and the file is deleted; when there was space, a block stays allocated that belongs to a free inode |
| `FileEvict.ReloadedContents` | src/kernel/fs/inode.c:251-281 | An inode whose record on disk has empty slots where the one in memory does not is dropped and loaded again: the bytes behind those slots read as zero, all others are kept, and the file is as before if and only if they were zero already |
| `FileEvict.LostOnReload` | src/kernel/fs/inode.c:251-281 | That loses blocks if and only if the two records differ |
| `FileEvict.WriteThenReload` | src/kernel/fs/inode.c:463-469 | Of a write that does not grow the file, exactly the bytes behind slots that were in use before it are still there once the inode has left the cache and come back |
| `FileEvict.ReloadDirectory` | src/kernel/fs/inode.c:324-334 | After a directory entry for which there was no room, dropping the directory and loading it again restores the invariant with all records on disk and all contents; it loses blocks if and only if the entry had got halfway |
| `FileHealth.FreshHealthy` | src/mkfs/mkfs.c:164-170 | A disk with nothing allocated meets the invariant that directories rest on |
| `Bitmap.SearchAndSet` | src/kernel/fs/bitmap.c:9-31 | The lowest clear bit below the limit is set and returned, or all of them are set and nothing changes |
| `Bitmap.AllocBit` | src/kernel/fs/bitmap.c:49-66 | Over all blocks of a bitmap the lowest clear bit among the counted ones is set and no other changes, or all counted bits are set |
| `Bitmap.FreeBit` | src/kernel/fs/bitmap.c:92-107 | Exactly the bit of the object is cleared |
| `Bitmap.BitPlace` | src/kernel/fs/bitmap.c:9-47 | Bit `i` of a bitmap has weight 2^(i mod 8) in byte `i` / 8 of its region |
| `BufferCaching.BufferCache.constructor` | src/kernel/fs/buf.c:46-64 | All buffers are on the list of those not in use, without pages |
| `BufferCaching.BufferCache.InsertNode` | src/kernel/fs/buf.c:14-39 | From whichever list a node comes, both lists stay well formed rings and the node ends up at the asked end of the asked list, all others in order |
| `BufferCaching.BufferCache.Get` | src/kernel/fs/buf.c:79-133 | The buffer handed out holds the block as callers last saw it, with one more reference; every other buffer keeps its block, page and references, and the block is added to those held; a miss, and nothing else, takes the first of the buffers not in use, and a buffer that was not in use comes to the front of those in use, the others keeping their order; it panics if and only if no buffer has the block and the one to be taken is missing, or lacks a page with none left, and for a caller that holds fewer blocks than there are buffers only for want of a page |
| `BufferCaching.BufferCache.BufferLeft` | src/kernel/fs/buf.c:110-113 | While fewer blocks are held than there are buffers some buffer is not in use, so a caller that holds at most two of three never meets the panic for want of one |
| `BufferCaching.BufferCache.HoldsSize` | src/kernel/fs/buf.c:79-133 | As many buffers are in use as different blocks are held |
| `BufferCaching.BufferCache.Put` | src/kernel/fs/buf.c:136-151 | A reference less; the last one moves the buffer to the front of those not in use, with its block still cached, and takes the block from those held; no other buffer changes |
| `BufferCaching.BufferCache.PutThenMiss` | src/kernel/fs/buf.c:108-133 | What is taken on a miss is not what was used longest ago, as the comment in the code has it: the buffer that its last user has just put back is the first to lose its block |
| `BufferCaching.BufferCache.FreeMem` | src/kernel/fs/buf.c:157-178 | Gives back as many pages as it says, only of buffers not in use, fewer than asked only when none of those has a page, and from the front of their list, not from its end as the comment has it; every buffer in use keeps its block and page, the same blocks are held, and callers see no difference |
| `DiskOnCache.Get` | src/kernel/fs/buf.c:79-133 | With three or more buffers, a caller that holds at most two blocks and asks for a third gets from the cache what the abstract disk gives, and meets the panic only for want of a page |
| `DiskOnCache.Write` | src/kernel/fs/buf.c:136-151 | A buffer changed and written keeps cache and abstract disk in agreement |
| `DiskOnCache.Put` | src/kernel/fs/buf.c:136-151 | So does giving a buffer back |
| `Dirent.SplicedSlots` | src/kernel/fs/dentry.c:63-88 | Writing 64 bytes at a slot boundary replaces one slot or appends one |
| `Dirent.NoStraddle` | src/kernel/fs/dentry.c:63-88 | No entry straddles two blocks, so a write that ends at a block boundary wrote none of it |
| `Dirent.SameName` | src/kernel/fs/dentry.c:49-61 | Comparing 60 bytes up to the NUL is equality of the two names |
| `Dirent.EncodeDecode` | src/kernel/fs/type.h:183-187 | An entry written and read again is the name up to its NUL with the inode number; it is the struct as it lies on disk, the name at byte 0 and the number, low byte first, at byte 60 |
| `Dirent.NameAdded` | src/kernel/fs/dentry.c:63-88 | A new name in a free slot or at the end is one insertion into the map, and names stay unique |
| `Dirent.NameRemoved` | src/kernel/fs/dentry.c:90-107 | Clearing a slot removes its name from the map and no other |
| `Dentry.Search` | src/kernel/fs/dentry.c:49-61 | The result is the inode number in the slot that carries the name, and INVALID_INODE_NUM if and only if no slot carries it or the file is no directory; nothing changes |
| `Dentry.Enter` | src/kernel/fs/dentry.c:63-88 | A name already there or a file that is no directory is refused unchanged; else the name enters the map at the first free slot if and only if the directory has room, and a failure leaves slots and other files as they were |
| `Dentry.Remove` | src/kernel/fs/dentry.c:90-107 | Returns what lookup gives and removes exactly that name, or changes nothing |
| `PathName.GetElement` | src/kernel/fs/dentry.c:30-45 | Takes the first component off the path and nothing else; there is none if and only if only slashes are left |
| `PathName.Joined` | src/kernel/fs/dentry.c:30-45 | A slash separates and does nothing else: the components of `a/b` are those of `a` followed by those of `b` |
| `PathName.OneComponent` | src/kernel/fs/dentry.c:30-45 | A string without a slash is one component, of its first 59 bytes |
| `Path.PathToInode` | src/kernel/fs/dentry.c:125-158 | What stands behind a leading slash is looked up from the root whatever the current directory is, and every other path, the empty one too, from the current directory; the walk ends at the file the graph leads to, or with NULL exactly where it leads nowhere, with no file changed and the returned reference the only one gained; it panics if and only if an inode on the way is not open and no slot is idle but the one walked through |
| `Path.PathToParent` | src/kernel/fs/dentry.c:167-210 | From the same two starts it ends at the directory of all components but the last, with the last in `name` and the returned reference the only one gained; it panics under the same condition for those components |
| `Path.StartIs` | src/kernel/fs/dentry.c:129-133 | A leading slash means the root, for every current directory, and is no component; without one the start is the current directory |
| `Path.ResolveFollows` | src/kernel/fs/dentry.c:125-158 | The components of a path lead to an inode if and only if there is a chain of directories from the start to it in which each has an entry of the next name for the next inode |
| `Path.TwoSuffice` | src/kernel/fs/dentry.c:125-210 | With two slots that nobody holds no walk panics, whatever the path |
| `Path.ParentThenName` | src/kernel/fs/dentry.c:125-210 | For every path with a component, looking the name up in the parent leads where the whole path leads |
| `Path.SlashesDoNotMatter` | src/kernel/fs/dentry.c:30-45 | Repeated and trailing slashes change nothing about where a path leads |
| `Path.ResolveJoin` | src/kernel/fs/dentry.c:125-158 | Walking two paths joined is walking the second from the end of the first |
| `InodeCache.Icache.constructor` | src/kernel/fs/inode.c:9-17 | On a mounted image that meets the invariant no slot is taken and no inode referenced |
| `InodeCache.Icache.Get` | src/kernel/fs/inode.c:251-281 | The slot returned is the only valid one for the inode and has one more reference: the slot that still has the inode, or else the first that nobody holds; the panic means that every slot is referenced and none for this inode |
| `InodeCache.Icache.Put` | src/kernel/fs/inode.c:362-380 | The file is deleted if and only if this was the last reference and no link is left, so an open unlinked file lives until it is closed |
| `LinkGraph.AliveExactly` | src/kernel/fs/inode.c:362-380 | A file is allocated if and only if a name leads to it or a reference is open |
| `Naming.CreateFile` | src/kernel/fs/dentry.c:272-303 | It panics if and only if the walk to the parent does, or no slot is left for the new inode beside that of the parent; else NULL if and only if the parent is missing, the name is there or no inode is free, and then nothing changes; else a new empty file with the kind and device numbers asked for and one link, whose name is entered, and the counts are right, if and only if the directory could take it |
| `Naming.CreatePlace` | src/kernel/fs/dentry.c:272-282 | There is a place for a new name if and only if a chain of entries leads to an inode for the parent in which no entry has the name |
| `Naming.Link` | src/kernel/fs/dentry.c:305-331 | Its result is decided by the graph and the slots in use alone: the panic if and only if one of the two walks finds no slot, the second while the file is held; the two failures of the code (waiting for its own lock, and the 16-bit count passing 32767) included; counts are right afterwards if and only if the directory could take the entry |
| `Naming.LinkEnds` | src/kernel/fs/dentry.c:305-331 | It fails if and only if no chain of entries leads to a file along the old path, or none to a place for the new name; otherwise it waits for its own lock when the two are one inode, wraps the count of a file with 32767 links, and else succeeds |
| `Naming.Unlink` | src/kernel/fs/dentry.c:333-365 | Its result is decided by the graph and the slots in use alone; on success the one name goes, and the file if and only if it was the last name and the file is not open; all its blocks are given back if and only if its nonzero slots were a prefix |
| `Naming.UnlinkEnds` | src/kernel/fs/dentry.c:333-346 | It fails if and only if the name is "." or "..", or no chain of entries leads to a directory with an entry of that name; otherwise the graph decides between success, a directory, and waiting for its own lock |
| `Image.ImageWorld` | src/mkfs/mkfs.c:112-121 | An image with a root directory, an empty subdirectory and a file whose last block holds any bytes behind the end meets every invariant, so all of the above applies to it |
| `Image.LinkBelowItself` | src/kernel/fs/dentry.c:305-331 | The input on which linking waits for a lock it holds: `f` linked as `f/x` |
| `Image.LinkIntoD` | src/kernel/fs/dentry.c:272-331 | On the same image, linking `f` as `d/x` and creating `d/x` get past every check |
| `Image.NoRoomForName` | src/kernel/fs/dentry.c:272-331 | There the directory cannot take the name on the full disk, so those two calls are the input that leaves a link count one too high |
| `Pmem.Pool.constructor` | src/kernel/mem/pmem.c:15-41 | Every page of the range is free, each once |
| `Pmem.Pool.Alloc` | src/kernel/mem/pmem.c:74-109 | The page at the head of the free list, which is then no longer free; none if and only if the list is empty |
| `Pmem.Pool.Free` | src/kernel/mem/pmem.c:112-137 | The page becomes the head of the list; refused if and only if it is no page of the pool |
| `PageTree.SetLeaf` | src/kernel/mem/kvm.c:55-132 | Storing one leaf entry changes exactly that lookup and the owner of the frames involved, and the tables stay a forest without sharing |
| `PageTree.AttachTableKeeps` | src/kernel/mem/kvm.c:11-48 | A new table below an empty entry changes no lookup of any table |
| `PageTree.VpnsMake` | src/kernel/mem/kvm.c:11-48 | The three indices of a page are its number in base 512, the highest first |
| `PageTree.PteBits` | src/kernel/mem/kvm.c:55-97 | Address and flag bits of an entry are found again in it, each permission in its own bit |
| `PageTables.Vm.GetPte` | src/kernel/mem/kvm.c:11-48 | With or without allocation no lookup changes; the slot returned holds the entry of the page, NULL means that there is none, and pages move only from the pool to the tables that were missing on the walk; it panics only when one of those is missing and the pool is empty |
| `PageTables.Vm.MapPages` | src/kernel/mem/kvm.c:55-97 | Exactly the pages of the range are mapped, to consecutive frames with the flags asked for; over empty entries no page is lost or gained; it succeeds if and only if the range is aligned, not empty and below VA_MAX and the pool has a page for every table missing on the walks |
| `PageTables.Vm.UnmapPages` | src/kernel/mem/kvm.c:101-132 | Exactly the valid entries of the range are cleared, and each of their frames is given back once; when frames are freed, no page of either pool is lost to the table |
| `PageTables.Vm.PgtblInit` | src/kernel/proc/proc.c:94-104 | A new table maps the trampoline and the trapframe and nothing else, from pages of the pool, if and only if that has a page for the root and for each table below it |
| `PageNeeds.TooMany` | src/kernel/mem/kvm.c:55-97 | Tables for which there is no page after those of other pages have been made, there was no page for before either |
| `PageNeeds.SameCount` | src/kernel/mem/kvm.c:11-48 | How many tables a new page table needs for a set of pages depends on the pages only |
| `TableFree.DestroyPgtbl` | src/kernel/mem/uvm.c:416-442 | Every table page and every user frame of the table comes back to its pool once, and every other table is as it was |
| `TableFree.FramesBehind` | src/kernel/mem/uvm.c:416-442 | The user frames of a table are exactly those behind its valid user entries |
| `Fork.CopyPgtbl` | src/kernel/mem/uvm.c:469-492 | Succeeds if and only if there is a frame for every page of the parent and a page for every table the child lacks, never failing for a missing source page; the child maps exactly the parent's pages with equal flags and bytes, and all pages of other tables keep their entries and bytes |
| `Fork.ForkSpace` | src/kernel/proc/proc.c:240-285 | Succeeds if and only if the pools have the child's tables and frames and a node for each region; parent and child are then two well-formed spaces with the same layout, flags and bytes and separate region nodes; the child's pages came from the pools, and no other table gained or lost one |
| `ForkUndo.ForkThenDestroy` | src/kernel/mem/uvm.c:439-492 | Forking and destroying the child leaves both pools with the same free pages as before, every page with the same owner and the parent well formed; the fork succeeds under the same condition |
| `Fork.FirstSpace` | src/kernel/proc/proc.c:208-237 | The first process has one code page, which holds the given bytes from the first user address on and which it may read, write and run, one zero stack page which it may read and write, and no heap, and meets the invariant of all spaces; five table pages and two frames are what it takes, no more and no less |
| `UserCopy.CopyIn` | src/kernel/mem/uvm.c:14-42 | Returns the user bytes of the range across pages; panics if and only if one of them may not be read |
| `UserCopy.CopyOut` | src/kernel/mem/uvm.c:51-76 | Stores exactly the given bytes and no other user byte of any table; panics if and only if one of them may not be written |
| `UserCopy.ReadBack` | src/kernel/mem/uvm.c:14-76 | What was stored is what is read, over scattered frames, because no user frame is shared |
| `UserCopy.RoundTrip` | src/kernel/mem/uvm.c:14-76 | Copying out and in again returns the original bytes for every range that may be written and read, and fails on every other |
| `Fork.ContentBytes` | src/kernel/mem/uvm.c:14-76 | The bytes that user code finds at the addresses of a page are those of its frame, in order |
| `Spans.CanonicalUnique` | src/kernel/mem/uvm.c:138-258 | A set of pages has only one sorted, disjoint form without neighbours that touch |
| `Spans.AddedKeeps` | src/kernel/mem/uvm.c:172-253 | Adding a run and joining it with its neighbours covers exactly the old pages and the new, and keeps that form |
| `Spans.CutCovers` | src/kernel/mem/uvm.c:258-328 | Cutting a range out through all four overlap cases removes exactly its pages |
| `Spans.CutKeeps` | src/kernel/mem/uvm.c:258-328 | Cutting keeps the canonical form |
| `Regions.RegionPool.constructor` | src/kernel/mem/mmap.c:11-32 | All nodes are free and chained, each once |
| `Regions.RegionPool.Alloc` | src/kernel/mem/mmap.c:35-60 | A blank node from the head of the free list; none if and only if the list is empty |
| `Regions.RegionPool.Free` | src/kernel/mem/mmap.c:63-78 | The node becomes the head of the free list |
| `Regions.RegionList.FindFree` | src/kernel/mem/uvm.c:138-167 | The lowest place where the pages fit; 0 if and only if they fit nowhere |
| `Regions.RegionList.Place` | src/kernel/mem/uvm.c:178-204 | A given start is accepted if and only if the range lies in the area and all of it is free |
| `Regions.RegionList.Add` | src/kernel/mem/uvm.c:206-241 | The linked list becomes the list with the run inserted and joined, and loses no node, if and only if a node is left |
| `Regions.RegionList.CutAt` | src/kernel/mem/uvm.c:290-326 | One region loses the range in any of the four cases; it fails if and only if it must be split and no node is left |
| `Regions.RegionList.CopyFrom` | src/kernel/proc/proc.c:250-260 | The child's list stands for the same runs with nodes of its own, if and only if there are as many free nodes as runs |
| `Space.AddressSpace.Mmap` | src/kernel/mem/uvm.c:172-253 | Succeeds if and only if there is a place, a region node, a frame for each page and the tables for them; it then covers exactly the old pages and the new ones, at the lowest fitting place when none is asked for; the new pages are zero and private, and user code may read or write them exactly as the permission bits say; all other pages of all tables keep entry and bytes, the table still maps exactly the layout, and no page of either pool is lost |
| `Space.AddressSpace.Munmap` | src/kernel/mem/uvm.c:258-328 | Takes exactly the range out of the regions and the table and gives each frame back once, so that no page of either pool is lost; panics if and only if the range, its end taken modulo 2^64, lies outside the area, or a region must be split and no node is left; an end that wraps around unmaps nothing |
| `Space.AddressSpace.Brk` | src/kernel/syscall/sysfunc.c:28-42 | The heap ends at the address asked for when that is not below the start of the heap and less than 2^32 away from the old end, at an end that agrees with it modulo 2^32 when it is farther away, and where it did for an address below the heap; pages that stay keep their bytes, new ones are zero and user code may read and write them, the table still maps exactly the layout, and no page of either pool is lost; it panics if and only if the heap grows and the pools do not have the frames and tables for it |
| `Space.HeapPages` | src/kernel/mem/uvm.c:334-386 | Below the area of the regions a page belongs to the layout if and only if it is not page 0 and begins below the heap top, so every byte of the heap has a page and no page is left over |
| `Space.OnlyLayout` | src/kernel/mem/uvm.c:334-411 | User code has no access to any address outside code, heap, regions and stack |
| `Space.AddressSpace.GrowStack` | src/kernel/trap/trap_user.c:72-88 | A fault outside the stack area is refused unchanged; else the stack reaches down to the page of the address and no further, is never cut back, and new pages are zero and may be read and written by user code, if and only if the pools have the frames and tables for them; no page of either pool is lost |
| `Sched.StepKeeps` | src/kernel/proc/proc.c:286-352 | Every statement of every CPU, in any state that meets it, keeps the invariant of scheduler, sleep, wakeup and sleep locks |
| `Sched.RunInv` | src/kernel/proc/proc.c:286-352 | The invariant holds in every state of every interleaving |
| `Sched.MutualExclusion` | src/kernel/lock/sleeplock.c:42-85 | In every interleaving at most one process is inside a sleep lock, and `locked` says exactly whether one is |
| `LockCalls.AcquireReturns` | src/kernel/lock/sleeplock.c:42-65 | In every interleaving, with sleeps and timer yields on the way: when sleeplock_acquire returns, the caller is inside the lock, was not when it called, and nobody else is |
| `LockCalls.AcquireWaits` | src/kernel/lock/sleeplock.c:49-57 | As long as it has not set `locked`, a caller is inside of exactly what it was inside of when it called, and still in the call |
| `LockCalls.ReleaseReturns` | src/kernel/lock/sleeplock.c:71-86 | When sleeplock_release returns, the caller is no longer inside the lock, and inside of all else that it was |
| `LockCalls.CallGoesOn` | src/kernel/lock/sleeplock.c:22-86 | No step of any CPU takes a process out of its call except by returning with what the call is for |
| `LockCalls.Calls` | src/kernel/lock/sleeplock.c:22-86 | A process in no call starts exactly the call it asks for, or is interrupted, and neither changes what it is inside of |
| `Sched.PidNamesHolder` | src/kernel/lock/sleeplock.c:42-85 | While the inner spinlock is free, `pid` is that of the process inside, or 0 |
| `Sched.NoLostWakeup` | src/kernel/lock/sleeplock.c:42-85 | In every interleaving, no process sleeps on a free lock once its inner spinlock is free |
| `SchedPaths.FallsAsleep` | src/kernel/proc/proc.c:314-328 | On a held lock the caller ends up asleep on that lock, with the inner spinlock free and its CPU back in the scheduler |
| `SchedPaths.LooksAgain` | src/kernel/proc/proc.c:314-328 | Once woken and chosen it gives its own lock back, takes the inner spinlock and tests the sleep lock again |
| `SchedPaths.TakesLock` | src/kernel/lock/sleeplock.c:42-65 | On a free lock the caller sets `locked` and its pid, frees the inner spinlock and returns |
| `SchedPaths.WokenBy` | src/kernel/proc/proc.c:300-312 | A sleeping process becomes runnable only by the wakeup of a release of the lock it sleeps on |
| `SchedPaths.StartedBy` | src/kernel/proc/proc.c:330-352 | Only the scheduler starts a process, and only a runnable one |
| `Sched.HoldingIsRight` | src/kernel/lock/sleeplock.c:22-36 | The answer of sleeplock_holding is whether the caller is inside |
| `Sched.RunningIsCurrent` | src/kernel/proc/proc.c:291-352 | No process is current on two CPUs, and one whose lock is free is RUNNING exactly when some CPU has it as current |
| `SchedPaths.SchedulerFinds` | src/kernel/proc/proc.c:330-352 | From any place in its loop the scheduler runs the first runnable process in its order, within one round |
| `SchedPaths.SchedulerRound` | src/kernel/proc/proc.c:330-352 | With none runnable it comes past every process in one round, changes nothing, and is back where it was |
| `SchedPaths.Parked` | src/kernel/proc/proc.c:286-352 | In every interleaving, a process that no CPU is at and whose lock is free is unused, waits for its first or next turn, or sleeps on the lock it asked for |
| `Sched.NoSpinlockPanic` | src/kernel/proc/proc.c:291-352 | No CPU takes a process lock or inner spinlock that it holds, or releases one that it does not hold |
| `Sched.SwitchHandsOver` | src/kernel/proc/proc.c:286-352 | The process lock held before a switch is held by the same CPU after it, at a point that releases it |
| `Virtio.AtMostTwo` | src/kernel/fs/virtio.c:78-126 | There are never three requests in flight |
| `Virtio.UsedTestExact` | src/kernel/fs/virtio.c:216-234 | Comparing the used indices modulo 8 tells exactly whether a completion is unhandled |
| `Virtio.VirtioDisk.Alloc3` | src/kernel/fs/virtio.c:114-126 | Three different free descriptors, or none when fewer than three are free, with those taken on the way given back |
| `Virtio.VirtioDisk.FreeChain` | src/kernel/fs/virtio.c:102-112 | Exactly the three descriptors of the chain become free, without a panic |
| `Virtio.VirtioDisk.Submit` | src/kernel/fs/virtio.c:131-203 | A request starts if and only if fewer than two are in flight, with its own three descriptors, and is published last in line; its header names the direction and the sector where the bytes of the block begin, for a block below 2^29, and in general those of the block number modulo 2^29; else the process sleeps |
| `Virtio.ReachedExactly` | src/kernel/fs/virtio.c:131 | The sector number, in 32 bits, times 512 is where the bytes of the block begin if and only if the block number is below 2^29; else it is where those of the number modulo 2^29 begin |
| `Virtio.VirtioDisk.DeviceTake` | src/kernel/fs/virtio.c:195-203 | The device finds the oldest request not taken yet |
| `Virtio.VirtioDisk.DeviceComplete` | src/kernel/fs/virtio.c:158-193 | Whichever request the device completes, exactly the 4096 bytes of its block move between its buffer and the disk, in the direction asked for; the device counts in sectors of 512 bytes, moves what the data descriptor has, and obeys its direction flag; a block that the disk does not have moves nothing and has an error for its status |
| `Virtio.BytesBack` | src/kernel/fs/virtio.c:129-212 | What is written to a block of the disk is read back from it, and every other block reads as before |
| `Virtio.VirtioDisk.Intr` | src/kernel/fs/virtio.c:216-234 | Handles every unhandled completion once and in order, and stops at the first bad status |
| `Virtio.VirtioDisk.Poll` | src/kernel/fs/virtio.c:205-212 | A requester goes on if and only if its own request was completed and handled, and then its descriptors are free again |
| `Console.ConsoleRing.Edit` | src/kernel/lib/console.c:86-127 | A key changes the ring as it changes a queue of committed bytes and the line behind it; readers are woken if and only if something was committed |
| `Console.ConsoleRing.Read` | src/kernel/lib/console.c:55-83 | Readers get exactly the committed bytes in order, up to the length, with a newline nowhere but at the end, and sleep only on an empty queue |
| `Console.CommittedStays` | src/kernel/lib/console.c:86-127 | Whatever is typed, erase and kill included, committed bytes stay, and the ring never overflows |
| `Console.LineCommitted` | src/kernel/lib/console.c:86-127 | As long as the ring does not fill, a line reaches readers as what stands when each erase is served by the nearest character before it that is not taken yet and Ctrl-U by all of them, newline included |
| `Console.EraseCancels` | src/kernel/lib/console.c:97-103 | A character and an erase right after it leave no trace, whatever is typed before and after |
| `Console.EraseNothing` | src/kernel/lib/console.c:90-103 | Erase and kill on an empty line change nothing and strike nothing out |
| `Console.ShowsTaken` | src/kernel/lib/console.c:16-25 | What a key leaves on the screen, each BACKSPACE taking a character back, is what it leaves to be read |
| `Console.CommitsLine` | src/kernel/lib/console.c:117-121 | A key that commits anything commits the whole line, and ends it or fills the ring |
| `Console.Ignored` | src/kernel/lib/console.c:105-106 | Key 0 does nothing, and neither does any key when the ring is full |
| `Console.Typed` | src/kernel/lib/console.c:86-127 | Plain keys that fit are appended to the line in order |

## Left out

- A panic ends the kernel. It is an outcome of the model's methods; what the state is like after one is mostly not
  said.
- Dentry.Search: entry names and the path buffer are byte sequences; a name of 60 or more bytes is cut to 59 as the
  code does, and character encodings play no part.
- BlockDevice.Disk.Get: the file system is modelled over this contract of the buffer cache for one caller at a time.
  That a second process may get a buffer between its lookup and its first read is not modelled.
- BufferCaching.BufferCache.Put: the last put of a buffer that was changed and not written is not modelled; the code
  would lose the change when the buffer is taken for another block, and its callers always write first.
- InodeCache.Icache.Get: inode_get and the inode_lock after it are one step, and path_link reads the type of the inode
  after that step, not before its lock. It is stated with all records on disk; what loading a record that lags behind
  does is in `FileEvict`.
- InodeCache.Icache.constructor: mounting takes the invariant of the image as given; that mkfs as a program produces
  it is not shown. `Image` is a small disk of its own, without the entries "." and ".." that mkfs writes into every
  directory.
- Naming.CreateFile: only files that are not directories. mkdir raises the link count of the child and unlink lowers
  that of the parent (`src/kernel/fs/dentry.c:294`, `src/kernel/fs/dentry.c:355`), so link counts of directories agree
  with no number of names.
- Naming.Unlink: for a directory it says only that the outcome is `IsDirectory`; that the code then lowers two link
  counts (`src/kernel/fs/dentry.c:350-358`), whatever the directory holds, is not modelled.
- Path.PathToParent: a path without components leaves `name` as it was; the callers that use it all the same are not
  modelled for such a path, and `"."` and `".."` are ordinary names to the walk.
- InodeCache.Icache.WriteFile: writing to a directory through an open file is not modelled.
- Inode.FileSystem.WriteData: source and destination are byte sequences, without the flag for user addresses.
- Space.AddressSpace.Mmap: starts are page-aligned, and requests of no pages or of 2^32 bytes and more are not
  modelled, here and in Munmap. A start so high that the end wraps around panics here for a bad range, in the code
  when the first page is mapped.
- Space.AddressSpace.Brk: heap tops above the start of the region area are not modelled, as the code does not keep the
  two apart.
- Uvm.HeapGrow: the checks for NULL after pmem_alloc are dead code, because pmem_alloc panics; the branches behind
  them, here and in StackGrow, are not modelled.
- Pmem.Pool.Free: a page that is free already is not given back again, here and in `Regions.RegionPool.Free`; the code
  does not look.
- Sched.StepKeeps: spinlocks are atomic steps; the interrupt bookkeeping around them is not modelled.
- Console.ConsoleRing.Edit: indices stay below 2^31.
- exec, exit, wait and kill; proc_free, which gives back only the root page of a table.
- kvm_init and the kernel's own mappings; uvm_copyin_str.
- inode_to_path, the device table, the flags and offsets of open files, raw allocation system calls.
- Traps, boot, UART, PLIC and timer registers, system call arguments.
- The 32-bit reference count of a cache slot does not wrap around in the model.
- Concurrent callers of the file system, of address spaces and of the console ring: the step system covers sleep locks
  and the scheduler only.
