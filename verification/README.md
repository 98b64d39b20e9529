# Verification of the CrusadIA kernel

Dafny models of the stateful core of the CrusadIA kernel, with proofs of what its parts promise:

- `Sectors`, `BlockTree`, `FileBytes`, `Directory`, `Cosfs`: COSFS, the kernel's own file system. Blocks are owned by
  pointer paths; the map from blocks to paths is the inverse of following pointers, so no block is shared or lost.
- `Xhci`: the transfer and event rings, as a state machine of single loads and stores of driver and controller.
- `Pmm`, `HeapList`, `Heap`: the frame bitmap and the kernel heap, with a tiling of its pages by list blocks.
- `FatChains`, `FatStore`, `FatDirs`, `Fat32`, `FatGeometry`: FAT32 tables, chains, files, directory slots and layout.
- `PageTables`, `Paging`, `PagingBoot`, `HeapBreak`: page directories with shared tables, their set-up at boot, and the
  heap break of user tasks.
- `UserMemory`, `ArgStack`, `UserStack`, `UserTask`: the stack of a program, mapped for a new task and written through
  its translations, and tasks as they are created and torn down.
- `VfsLock`, `PathName`, `VfsPaths`, `VfsMounts`, `Vfs`, `VfsBoot`: the VFS lock, paths, mounts, files and the boot.
- `Scheduler`, `Calendar`: the timer scheduler and calendar arithmetic.
- `Common`: notions that several components share.

Disks, memory, clocks and the answers of file systems below the VFS are values or parameters. Code that updates its
state in place is modelled by classes; what their methods compute is stated on values in the modules beside them.

Where a promise does not hold of the code, the code is modelled as it is and the exact condition is stated:

- `Cosfs.Volume.GetPhysicalBlock`: with fewer free blocks than missing tables, sector 0 is zeroed, as in
  `Cosfs.LoseSuperblock`.
- `Cosfs.Volume.CreateFile`, `Cosfs.Volume.CreateDir`: a file or directory that is reported as created is not found when
  its directory has no place for it, as on the volume of `Cosfs.LoseFile`.
- `Cosfs.Volume.ReadStopsAtEnd`, `Fat32.WriteThenRead`: an offset and size that wrap around in 32 bits read past the end
  of the file.
- `Fat32.Volume.WriteFile`: when clusters run out after the first, success is reported with a part of the data, as in
  `Fat32.WritePart`.
- `FatGeometry.FormatReturns`: a size whose rounding sum wraps is refused after sectors have been overwritten.
- `FatGeometry.AddressableExactly`: clusters of less than 16 sectors can be too many for 28-bit entries.
- `Paging.Machine.MapUserPage`: without a free frame a mapping can reach other address spaces, as it does when
  `Paging.Machine.MapWithLastFrame` gives the last frame to a new directory.
- `Paging.Machine.MapUserPage`, `UserTask.FirstTask`: a page that is mapped for user mode is not reached by it when the
  directory entry, which comes from the kernel's, keeps user mode out; after the boot it does.
- `HeapBreak.Task.SetBreak`: when frames run out, a page above the break stays mapped to a frame that was given back, and
  the last frame can go into a table entry that other tasks share. `UserTask.StaleHeap` is a run that ends so.
- `UserTask.CreateTask`: a task that cannot be created gives all its frames back exactly if at most four were free, and
  one that comes and goes loses two or three (`UserTask.ComeAndGo`).
- `Xhci.LimitIsExact`: more than count - 2 outstanding entries can lose the consumer.

`VfsLock.KilledInBetween` is about kills that the kernel does not make today: `vfs_task_killed` is only called for a
task that exits or faults outside the kernel, and so never between two steps of the lock.

`dafny verify dfyconfig.toml` checks the whole project.

## Model

| member | source | states |
|---|---|---|
| `Sectors.SectorRoundTrip` | fs.c:533-627 | a sector read as 128 block pointers and written back is unchanged, so rewriting a table entry touches only that entry |
| `Sectors.PtrsRoundTrip` | fs.c:533-627 | 128 pointers written to a sector are read back as they were |
| `BlockTree.NoAliasing` | fs.c:138-166 | no block is reached by two pointers, at any level, of any live inodes, and every reached block lies in the data area |
| `BlockTree.PathOfRoundTrip` | fs.c:533-627 | different block numbers have different pointer paths: the four addressing ranges do not overlap |
| `BlockTree.LogicalOfRoundTrip` | fs.c:533-627 | every pointer path of full depth is the path of a block number, and of one only |
| `BlockTree.LinkEntryStep` | fs.c:546-560 | putting a fresh block into a null table entry keeps the ownership of all blocks and moves no other pointer |
| `BlockTree.DropInode` | fs.c:688-712 | dropping a live inode removes exactly its blocks from the owned ones |
| `Cosfs.LayoutFits` | fs.c:281-331 | for every volume size the bitmaps have a bit for every block and inode and the table has room for every inode; a data block remains exactly from six sectors on |
| `Cosfs.LayoutIsTight` | fs.c:299-305 | no bitmap and no inode table has a sector more than it needs |
| `Cosfs.InodeForEveryFourth` | fs.c:293-298 | there is an inode for every fourth block, in whole eights and at least eight, up to what the bitmap can count |
| `Cosfs.Volume.Format` | fs.c:281-327 | a quick format up to the root directory yields a consistent volume with an empty root, every other data block free and every other inode unused, whatever the disk held; the first 256 inodes are cleared and the others left as they were |
| `Cosfs.QuickFormat` | fs.c:281-374 | a whole quick format: the root then has the directories user, data, mount, lock and cosfiles, empty and found under their names, as many of them as there are blocks for, and nothing else |
| `Cosfs.Volume.AllocBlock` | fs.c:138-162 | the lowest free data block is taken; 0 only if all are used |
| `Cosfs.Volume.GetPhysicalBlock` | fs.c:533-627 | the block of a logical index across direct, single, double and triple ranges, allocated on demand with its tables; ownership, other files and data survive; 0 means out of range, unmapped or full; the superblock sector is zeroed exactly if there are fewer free blocks than missing tables |
| `Cosfs.Volume.WriteBlock` | fs.c:629-654 | one turn of the write loop changes exactly the bytes of its chunk |
| `Cosfs.Volume.Write` | fs.c:629-654 | succeeds exactly if all blocks written to can be addressed and enough blocks are free for those that are missing, tables included, and then takes exactly that many; success writes all bytes at their offsets and sets the size to the larger of old size and end; every other live file is unchanged |
| `BlockTree.RoomExactly` | fs.c:533-654 | a range of blocks of a file is mapped in full exactly if there is room for the pointers on the way to them that are null, each counted once |
| `Cosfs.LoseSuperblock` | fs.c:533-627 | on a consistent volume with one free block, the request for a block behind two missing tables fails and zeroes the superblock |
| `Cosfs.Volume.Read` | fs.c:725-752 | every byte returned is the byte of the file at that offset, zeros for unmapped blocks, clamped by the 32-bit end computation |
| `Cosfs.Volume.ReadStopsAtEnd` | fs.c:725-734 | a read ends at the end of the file exactly if offset + size stays below 2^32 or the offset is past the end; otherwise all that was asked for is read |
| `Cosfs.Volume.WriteAndRead` | fs.c:629-752 | a write that succeeds, followed by a read of any part of it, returns that part |
| `FileBytes.WriteThenRead` | fs.c:629-654 | a read inside a written range returns the matching part of the data |
| `FileBytes.OtherFileRead` | fs.c:629-654 | a read of any other live file returns after a write what it returned before |
| `Cosfs.Volume.FreeIndirectTree` | fs.c:656-668 | frees the blocks below and at a table pointer, of any depth, and no other |
| `Cosfs.Volume.FreeInodeData` | fs.c:688-695 | frees exactly the blocks of the inode's trees |
| `Cosfs.Volume.AllocInode` | fs.c:418-427 | the lowest unused inode |
| `Directory.EntryRoundTrip` | fs.c:455-479 | an encoded directory entry decodes to its inode number and to its name, cut after 27 bytes |
| `Cosfs.Volume.DirLookup` | fs.c:435-453 | finds the first entry of that name in block and slot order, or none exists |
| `Cosfs.Volume.DirAdd` | fs.c:455-479 | adds an entry in the first unused slot, changing no other byte of any live file; succeeds exactly if there is such a slot and its block exists or a block is free |
| `Directory.FoundAfterPut` | fs.c:455-479 | an entry put where no earlier entry has the name is the one a lookup then finds |
| `Directory.LongNameNotFound` | fs.c:435-479 | no name of more than 28 bytes is found in any directory, also after it was added |
| `Cosfs.Volume.DirRemove` | fs.c:490-508 | clears the first entry of that name and nothing else |
| `Cosfs.Volume.DirIsEmpty` | fs.c:670-686 | true exactly if no entry of the directory is in use |
| `Cosfs.Volume.CreateFile` | fs.c:754-781 | succeeds exactly with a tag, a new name, an unused inode and a free block; with a name of up to 27 bytes, which are all that the VFS lets through (vfs.c:258), the new file is then found under its name exactly if its directory has a place for it with the blocks that are left, and one or two blocks are taken; all other files are kept, and failure changes nothing |
| `Cosfs.Volume.CreateDir` | fs.c:783-807 | as for files, also for names of up to 27 bytes; a new directory has no entries |
| `Directory.CreatedButNotFound` | fs.c:777-780 | a consistent directory tree whose root has one block, full of entries, and no place for a new name once the last free block has gone to the new inode |
| `Cosfs.LoseFile` | fs.c:754-781 | on a consistent volume that is laid out as a format does it, with an unused inode and one free block, the creation of a file reports success and the file is live, but its name is not found |
| `Cosfs.Volume.WriteFile` | fs.c:629-654 | a write to a file keeps all directories consistent and every other inode as it was, and succeeds under the condition of `Write` |
| `Cosfs.Volume.DeleteIn` | fs.c:697-712 | removes the first entry of the name, frees its inode and exactly its blocks, refuses directories with entries, and changes nothing on failure |
| `Xhci.Fifo` | xhci.c:141-159 | for every interleaving of single stores and loads and any number of wraps, with a consumer that goes where the address in a link TRB points, what it has taken is a prefix of what was pushed, whole and in order |
| `Xhci.Progress` | xhci.c:141-159 | while an entry is undelivered every load of the consumer brings its delivery closer, also through the link TRB |
| `Xhci.FollowInv` | xhci.c:150-156 | the address in the link TRB sends the consumer back to the first entry |
| `Xhci.LimitIsExact` | xhci.c:141-159 | the consumer is never lost if and only if at most count - 2 entries may be outstanding |
| `Xhci.StuckAboveLimit` | xhci.c:141-159 | with one more outstanding entry a run exists after which an entry is undelivered, the producer rests, and the look of the consumer finds nothing to take |
| `Xhci.RingPush` | xhci.c:141-159 | one call writes the TRB with the cycle bit and, at the end of the ring, the toggling link TRB with the address of the ring, and nothing else |
| `Xhci.PushInSteps` | xhci.c:141-159 | the single stores of the model, run without interruption, have the effect of the call |
| `Xhci.EventRing.ProcessOne` | xhci.c:167-206 | one call is one poll: the event at the dequeue index is taken exactly if its cycle bit matches, and the index wraps with a flip of the cycle |
| `Xhci.EventInSteps` | xhci.c:167-206 | the single loads of the model, run without interruption, take what one poll takes, whole, and leave index and cycle as it does; without an event they change nothing |
| `Pmm.Boot` | bootinfo.c:28-59 | after the set-up from the memory map exactly the frames of usable regions that are not low memory, kernel image or back buffer are free, and everything below the hint is used |
| `Pmm.RunKeepsHint` | pmm.c:58-87 | over every run of allocations and releases from there on, whatever is released, everything below the hint stays used |
| `Pmm.RunTakesLowest` | pmm.c:58-87 | so every allocation of every run takes the lowest free frame |
| `Pmm.FrameAllocator.InitRegion` | pmm.c:25-37 | exactly the whole frames of the region become free; frame 0 stays used |
| `Pmm.FrameAllocator.DeinitRegion` | pmm.c:39-51 | exactly the whole frames of the region become used |
| `Pmm.FrameAllocator.Alloc` | pmm.c:58-78 | the first free frame from the hinted word on, going around; with the hint invariant it is the lowest free frame, and 0 means none is free |
| `Pmm.FrameAllocator.Free` | pmm.c:80-87 | clears the frame's bit and lowers the hint, so that all frames below the hint stay used |
| `Pmm.HintedIsLowest` | pmm.c:58-78 | when all frames below the hint are used, the hinted search finds the lowest free frame |
| `Pmm.LowestExactly` | pmm.c:58-78 | whatever the hint, the frame found is the lowest free one exactly if nothing is free below the word of the hint, or nothing from there on |
| `HeapList.Split` | heap.c:109-144 | cutting a block keeps the doubly linked list, the alignment and the exact tiling of the pages |
| `HeapList.Merge` | heap.c:146-164 | joining adjacent free blocks keeps the list, the alignment and the exact tiling |
| `HeapList.BlocksDisjoint` | heap.c:60-164 | no two blocks of the list share a byte |
| `Heap.LivePayloads` | heap.c:171-258 | live payloads are 8-aligned, lie in the arena's pages and are pairwise disjoint, headers included |
| `Heap.HeadersOutside` | heap.c:60-258 | no header of any block overlaps a live payload |
| `Heap.Arena.GrowHeap` | heap.c:60-107 | adds one free block of consecutive fresh pages at the end of the list, or leaves the heap as it was; no other block changes, and no frame changes hands but those of the new block |
| `Heap.Arena.TakePages` | heap.c:67-93 | takes consecutive frames from the lowest free one on, as many as are free in a row and at most those wanted; a frame that does not follow is given back |
| `Heap.Arena.SplitBlock` | heap.c:109-144 | cuts only when a header and eight bytes are left over; the blocks in use keep their sizes |
| `Heap.Arena.Coalesce` | heap.c:146-164 | joins a free block with its free neighbours without touching blocks in use |
| `Heap.Arena.FindFit` | heap.c:171-204 | the first block of the list that is free and large enough, or none is, or the search gave up after a million blocks |
| `Heap.Arena.Alloc` | heap.c:171-204 | a new payload of the asked size beside all live ones, succeeding exactly if a block fits or pages for one follow each other; its block is the first that fits, or one in just the pages it takes, and is cut to size: what is more than a header and eight bytes is a free block right behind it, and every other block keeps its size and its free flag; a failure changes no block |
| `Heap.Arena.Free` | heap.c:206-217 | exactly that payload stops being live; null, misaligned and already free pointers change nothing |
| `Heap.Arena.Calloc` | heap.c:219-226 | a zeroed payload of the full product, in a block placed and cut as by `Alloc`, or none when the product is 0 or exceeds 32 bits; no other byte changes |
| `Heap.Arena.Realloc` | heap.c:228-258 | the first min(old, new) bytes survive in place or moved, every other live payload keeps its bytes; a block that is large enough is cut to size where it stands, otherwise a new one is placed as by `Alloc` and the old one freed; failure changes nothing |
| `Heap.Arena.Stats` | heap.c:265-277 | the totals are the sizes of used and free blocks in 32 bits, and with the headers they account for every page of the arena |
| `FatChains.ChainsDisjoint` | fat32.c:116-144 | no cluster is in two chains or twice in one: chains are disjoint and without cycles |
| `FatChains.LinkChain` | fat32.c:842-848 | linking a fresh cluster to the end of a chain keeps all chains disjoint and acyclic |
| `FatChains.DropChain` | fat32.c:138-144 | freeing a chain leaves all others as they were and frees exactly its clusters |
| `FatStore.Store.Format` | fat32.c:504-535 | two equal tables with the media, mount and root entries, and a zeroed root cluster |
| `FatStore.Store.EntrySet` | fat32.c:97-110 | writes the low 28 bits of an entry in every copy of the table and keeps the top four bits of each |
| `FatStore.Store.AllocCluster` | fat32.c:116-136 | the next free cluster from the hint on, going around, zeroed and marked; 0 only if none is free |
| `FatStore.Store.FreeChain` | fat32.c:138-144 | walks a chain and frees each of its clusters, all other chains kept |
| `FatStore.Store.StoreBytes` | fat32.c:823-850 | a new chain holds the bytes padded with zeros to whole clusters; it holds all of them exactly if there were enough free clusters |
| `FatStore.Store.Read` | fat32.c:643-675 | the bytes of the chain from the offset on, as many as the 32-bit comparison with the size and the chain allow |
| `FatDirs.PlacedFound` | fat32.c:684-695 | a name put into the run of vacant slots found for it is found again, no entry is lost and nothing follows the end mark |
| `Fat32.Volume.Format` | fat32.c:504-535 | a formatted volume is consistent and its root directory is vacant |
| `Fat32.Volume.FindEntry` | fat32.c:575-608 | the first entry of that name before the end mark, or none exists anywhere in the directory |
| `Fat32.Volume.FindRun` | fat32.c:684-695 | the first run of enough vacant slots, or the shorter one at the end of the directory |
| `Fat32.Volume.AllocSlots` | fat32.c:697-725 | a run of vacant slots, with one more cluster for the directory if needed; every other chain is untouched |
| `Fat32.Volume.ReplaceFile` | fat32.c:809-862 | an existing file gets a new chain in place of its old one; fails only for an empty file on a full volume |
| `Fat32.Volume.CreateFile` | fat32.c:852-861 | a new file gets a chain and an entry that is found under its name; without room the chain is freed again; in both cases the free clusters are fewer by exactly those of the new chain and those by which the directory grew |
| `Fat32.Volume.WriteFile` | fat32.c:809-862 | the name is found and its chain holds the data, all of it exactly if enough clusters were free or reclaimed; every other file keeps its entry, clusters and bytes, and no entry of another name comes, goes or moves; chains stay disjoint and acyclic, no cluster is lost, and no chain comes or goes but those of the old and the new contents |
| `Fat32.Volume.WriteTwo` | fat32.c:809-862 | two files of different names written one after the other are both found, each with its own bytes |
| `FatDirs.OtherNames` | fat32.c:575-608 | a search for any other name finds after a write what it found before |
| `Fat32.WritePart` | fat32.c:823-862 | with one free cluster of 512 bytes, the write of 600 bytes reports success and keeps a part of them |
| `Fat32.Volume.ReadFile` | fat32.c:643-675 | reads through an entry return the bytes of its chain |
| `Fat32.WriteThenRead` | fat32.c:643-675 | a read of a written file returns the matching slice exactly if offset + size stays below 2^32, the offset is past the end, or the file fills its last cluster |
| `Fat32.Volume.WriteAndRead` | fat32.c:575-862 | a file that is written, looked up and read holds all its bytes exactly if enough clusters were free or reclaimed, and the read returns the slice exactly under the condition of `WriteThenRead` |
| `FatGeometry.TableHoldsAll` | fat32.c:445-462 | the table computed for a size that passes the checks has an entry for every cluster exactly if the rounding sum does not wrap; when it wraps the table has no sector |
| `FatGeometry.PickedSizeIsAddressable` | fat32.c:437-448 | with the cluster size left to the formatter every cluster number fits in 28 bits |
| `FatGeometry.PickSize` | fat32.c:437-443 | of 8, 16, 32 and 64 sectors the smallest with at most two million clusters on the volume, or 64 |
| `FatGeometry.DefaultFormats` | fat32.c:445-536 | with the cluster size left to the formatter exactly the volumes of 525258 to 0xFFFFE01F sectors are formatted |
| `FatGeometry.OneSectorFormats` | fat32.c:445-536 | with clusters of one sector exactly the volumes of 66600 to 0xFFFFFF9F sectors are formatted |
| `FatGeometry.RegionsFit` | fat32.c:445-462 | reserved sectors, both tables and all clusters follow each other without overlap and end inside the volume |
| `FatGeometry.EntryPlacesDistinct` | fat32.c:86-101 | different entries of the two tables are at different places of the disk |
| `FatGeometry.DataSectorsDistinct` | fat32.c:82-84 | different sectors of clusters are different sectors of the disk |
| `FatGeometry.MountAgrees` | fat32.c:389-413 | a mount computes the geometry of the format again, wherever the partition starts, and refuses exactly the volumes whose rounding sum wrapped |
| `FatGeometry.BootSectorSurvives` | fat32.c:489-535 | no write of the format after that of the boot sector reaches it, even around the end of the disk |
| `FatGeometry.WriteVolume` | fat32.c:489-532 | what every sector of the disk holds after the writes of a format: both copies of the boot and information sectors, two tables with their first three entries and nothing else, a root cluster of zeros, and all other sectors as they were, also where the partition runs around the end of the disk |
| `FatGeometry.OnlyWritten` | fat32.c:489-532 | no sector outside the volume changes, and the boot sector is there at the end |
| `FatGeometry.FormatReturns` | fat32.c:445-536 | the format returns 0 exactly if the checks pass and the rounding sum does not wrap; when it wraps it fails after sectors were overwritten |
| `FatGeometry.FormattedTableHoldsAll` | fat32.c:445-536 | every volume that is reported as formatted has a table entry for every cluster |
| `FatGeometry.LargestVolumeIsRefusedLate` | fat32.c:445-536 | 2^32 - 1 sectors with one sector per cluster pass the checks and are refused after the writes |
| `FatGeometry.AddressableExactly` | fat32.c:445-536 | every volume formatted with a given cluster size has cluster numbers below the end mark exactly if clusters have at least 16 sectors |
| `FatGeometry.SmallClustersAreTooMany` | fat32.c:445-536 | for every smaller cluster size, a volume of 0xFFFF0000 sectors is formatted with more clusters than 28-bit entries can name |
| `PageTables.SharedWriteIsIsolated` | paging.c:110-125 | a write into the table that is there affects one translation only, exactly if no other directory entry shares the table or it said so already |
| `PageTables.HomesTable` | paging.c:131-150 | a new table for an entry of one directory keeps the tables of every task that are not the kernel's private to it, which all operations on directories maintain |
| `PageTables.CopiedTable` | paging.c:131-150 | unmapping in a copy of the table affects one translation of one directory, and the copy is private to it |
| `Paging.Machine.ProtectFrame` | paging.c:97-108 | where the kernel maps memory to itself, protecting a table frame changes nothing |
| `Paging.Machine.UnmapPage` | paging.c:131-150 | only that page of that task is unmapped, and the flags of its directory entry stay; without a free frame nothing happens |
| `Paging.Machine.MapPage` | paging.c:110-125 | writes into the table that is there, or into a new one that affects only that page |
| `Paging.Machine.MapUserPage` | task.c:73-80 | with a free frame only that page of that task changes, in no other task and not in the kernel, and its table is then the task's own; user mode reaches the page exactly if the flags and the directory entry that was there both let it; without a free frame the change is isolated exactly if the table was private or said so already |
| `Paging.Machine.CloneKernel` | paging.c:152-164 | a new directory has the kernel's entries, so it shares all tables and translates as the kernel does; one free frame is taken and no other translation changes |
| `Paging.Machine.MapWithLastFrame` | paging.c:110-164 | where one frame is free, a directory cloned with it and then mapped maps the same page of the kernel to the same frame, which breaks the kernel's identity map |
| `PagingBoot.MapKernelPage` | paging.c:97-129 | while the kernel's directory is filled, a page is mapped to itself with at most two more frames for tables, and pages mapped before stay so |
| `PagingBoot.InitPaging` | paging.c:170-188 | with 2048 free frames every page is mapped to itself, page 0 as not present, those of the screen with its flags and all others with the kernel's; so memory is mapped to itself with the kernel's flags exactly as long as the screen, if it has other flags, lies outside of it; no directory entry lets user mode in but those over a frame that holds a table |
| `PagingBoot.BootMachine` | bootinfo.c:28-59 | from the memory map to paging: the frames that can be allocated are those the map leaves, and the kernel maps them to themselves under the same condition |
| `HeapBreak.Task.Untrack` | task.c:60-71 | removes one frame from the owned ones and keeps the others |
| `HeapBreak.Task.Track` | task.c:51-58 | adds a frame unless 256 are owned already |
| `HeapBreak.Task.Translate` | task.c:82-92 | the frame that a user page is mapped to, or 0 |
| `HeapBreak.Task.DropPage` | task.c:168-175 | a heap page is unmapped and its frame given back; with no frame free the page stays mapped to the frame that was given back |
| `HeapBreak.Task.DropPages` | task.c:165-176 | drops a range of pages, gives back exactly their frames and changes no other translation; without a free frame at first, the first page stays mapped to the frame that was given back |
| `HeapBreak.Task.GrowPage` | task.c:136-162 | one more page is mapped to a fresh owned frame and nothing else changes, given a second frame or a table of the task's own; with neither, the write reaches all that share the table |
| `HeapBreak.Task.GrowPages` | task.c:131-164 | maps each page to a fresh owned frame, exactly if frames and places for them last; otherwise owned frames and all translations outside the mapped pages are as before, and those pages are unmapped, but for the first one when frames ran out; when the last frame goes to a page without a table of the task's own, the translations through that table entry change as well and stay so |
| `HeapBreak.Task.SetBreak` | task.c:118-180 | every page from the heap base to the rounded-up break is mapped for user mode to its own distinct owned frame; a growth is refused exactly if frames run out or 256 are owned; a page above the break stays mapped to a frame that was given back exactly if frames ran out after a page was mapped, or none was free at a shrink; no frame of another owner is freed, taken or turned into a table |
| `HeapBreak.Task.SetBreakBeside` | task.c:118-180 | another task with frames of its own keeps its heap pages, its frames and its break, also when the last frame goes into a shared table entry, unless its heap is translated through that entry |
| `HeapBreak.LeakIsHarmless` | task.c:73-80 | a write into a shared table entry that no memory of the kernel's and no other page of the task is translated through keeps the kernel's identity map and the rest of the task |
| `HeapBreak.HeapGrows` | task.c:118-180 | mapping a fresh frame at the top keeps all heap pages on distinct owned frames |
| `HeapBreak.RolledBack` | task.c:149-160 | a growth that is undone leaves the owned frames and all other translations as they were |
| `UserStack.MapStack` | task.c:302-316 | a new task gets four stack pages in distinct frames of its own exactly if at least seven frames are free; it takes a frame for each page and one for the table while there are enough, and no other translation of any task changes, except with a single free frame, which goes into the table that others share |
| `UserTask.Release` | task.c:32-49 | a task that is torn down, whatever it has mapped, gives back exactly its directory, the tables that only it has and the frames it owns, each once, and no other directory translates anything differently |
| `UserTask.CreateTask` | task.c:284-324 | a task is created exactly if eight frames are free, with a stack in frames that were free, which user mode reaches exactly if the kernel's directory entry lets it; otherwise it is torn down and the number of frames that are free again is exact; frames in use stay so, and all others translate as before unless two frames were free |
| `UserTask.CreateBeside` | task.c:284-324 | another task keeps its heap, its frames and its break when a task is created, and the two own different frames |
| `UserTask.ComeAndGo` | task.c:284-324 | a task that is created and torn down at once loses three frames, or two if eight were free, and changes no translation |
| `UserTask.StaleHeap` | task.c:118-180 | with eleven free frames, a task whose heap grows by a page and shrinks again keeps the page mapped to a frame it no longer owns |
| `UserTask.FirstTask` | task.c:284-324 | with 2056 frames for use in the memory map, the boot ends with a kernel that maps memory to itself and a first task with its stack; user mode reaches no page of that stack, unless a table lies in memory at the addresses of the stack |
| `ArgStack.Process.WriteUser` | task.c:94-110 | writes exactly the given bytes at an address of the stack across pages in any frames, and nothing in any other frame; fails exactly if the directory lacks one of the pages |
| `UserMemory.PieceWritten` | task.c:94-110 | a write within one page changes no byte at any other address of these pages and no byte of any other frame |
| `ArgStack.Process.PushStrings` | elf.c:134-151 | pushes the strings with their terminators below each other and keeps everything above; with the stack mapped it succeeds exactly within the budget of 4096 bytes |
| `ArgStack.Process.PushArgv` | elf.c:123-183 | the stack decodes to the given arguments and the variables, all of them if there are at most sixteen and the first sixteen otherwise; with the stack mapped it succeeds exactly if there are at most 32 arguments and the image fits in 4096 bytes; also when it fails nothing is written but those bytes and three of padding |
| `ArgStack.DecodeUnique` | userland/crt0.s:10-13 | what crt0 reads at the stack pointer determines the arguments and the environment |
| `UserMemory.StringUnique` | userland/crt0.s:10-13 | an address holds only one C string |
| `VfsLock.MutualExclusion` | vfs.c:121-145 | after any interleaving of single loads, stores and test-and-sets of any number of tasks, at most one is inside, it is the owner, and s_depth is its nesting depth |
| `VfsLock.StepKeeps` | vfs.c:121-145 | every step of every task keeps the lock invariant, including a kill at any point |
| `VfsLock.DeadHoldsNothing` | vfs.c:139-145 | a task killed inside the VFS releases the lock before it is dead |
| `VfsLock.KilledInBetween` | vfs.c:121-145 | were a task killed anywhere, the lock would stay taken exactly in the four steps between the test-and-set and the store of the depth, and between the last store of the depth and the release |
| `VfsLock.FreeLockIsTaken` | vfs.c:121-130 | a spinning task that finds the lock free is inside with depth one after three steps |
| `VfsLock.EnterAndLeave` | vfs.c:121-137 | a task that takes the free lock and gives it back, undisturbed, is inside at depth one in between and leaves everything as it was |
| `VfsLock.NestedCall` | vfs.c:121-137 | a nested call of the task inside goes one deeper without waiting, and its end brings everything back |
| `VfsLock.KilledInside` | vfs.c:139-145 | a task that is killed inside, at any depth, is dead after six steps, with the lock free and without owner |
| `PathName.Normalize` | vfs.c:177-219 | fails exactly if the path, on its own or behind the current directory, a component or a prefix of the result is too long; otherwise the result is the fold of the components |
| `PathName.NormalIsFixed` | vfs.c:177-219 | a result is absolute, shorter than 128 bytes, has no empty, dot or dot-dot component, and normalizes to itself from any directory |
| `PathName.RelativeToCurrent` | vfs.c:177-219 | a relative path is the walk of its components from the current directory |
| `PathName.OneMoreName` | vfs.c:190-217 | one more name behind a path is one more step from where the path leads |
| `PathName.DownAndUp` | vfs.c:190-217 | a name followed by dot-dot leads back exactly if the name fits, and the parent of the root is the root |
| `PathName.Here` | vfs.c:177-217 | the empty path and the dot are the current directory, and a dot behind a path changes nothing |
| `PathName.ComponentsOfRender` | vfs.c:177-219 | taking a rendered path apart gives its names back |
| `VfsPaths.PathWithin` | vfs.c:163-175 | decides whether a path is at or below another one: at each place the characters are the same or the two cases of one letter A to Z |
| `VfsPaths.Compare` | string.c:235-243 | two strings compare as equal exactly if they are of the same length and differ at most in the case of letters A to Z |
| `VfsPaths.WithinIsBelow` | vfs.c:163-175 | on normalized paths the comparison of characters is the comparison of components |
| `Vfs.Table.FindMount` | vfs.c:345-363 | the unique mount with the longest mount point at or above the path; for a normalized path it is the one whose names are, but for the case of letters, the longest prefix of the path's, and the path on it is the absolute path of the remaining names; with a root there always is one |
| `Vfs.Table.FindExact` | vfs.c:338-343 | the mount at that point but for the case of letters A to Z, or none is there |
| `Vfs.Table.FindLastByDrive` | vfs.c:637-645 | the newest mount of the drive |
| `Vfs.Table.DoMount` | vfs.c:729-780 | succeeds exactly under its checks and takes the first free slot; keeps one root at most, a root under every mount, and mount points that differ in more than the case of letters; failure changes no mount, and the order goes on by one exactly if the drive could be mounted |
| `Vfs.Table.MountAt` | vfs.c:1054-1064 | the target is normalized first, and the drive mounted exactly under the checks of `DoMount`; the names of the new mount point are those it normalizes to, and a path that cannot be normalized changes nothing |
| `Vfs.Table.DoUmount` | vfs.c:791-831 | removes the mount exactly if no mount depends on it and no file is open on it; all invariants are kept |
| `Vfs.Table.OpenFile` | vfs.c:921-971 | opens on the mount that serves the path and counts it there; every open file is on a live mount with an exact count |
| `Vfs.Table.CloseFile` | vfs.c:1235-1246 | closes an open descriptor and keeps the counts exact; any other descriptor is refused |
| `VfsMounts.ServesSameLength` | vfs.c:345-363 | two mounts that serve a path have mount points of different lengths |
| `VfsMounts.BestIsLongestPrefix` | vfs.c:345-363 | on normalized paths the longest mount point in characters is the longest prefix in names, ignoring case |
| `VfsMounts.RelativeNames` | vfs.c:358-361 | the path on a mount is the absolute path of exactly the names behind those of the mount point, "/" if there is none |
| `VfsBoot.SortByAge` | vfs.c:661-669 | the exchange sort yields the same mounts from the oldest to the newest |
| `VfsBoot.Persist` | vfs.c:652-684 | the header lists all mounts but the root, each once, in the order of mounting |
| `VfsBoot.Boot` | vfs.c:1379-1447 | a boot mounts the root and then what its header lists, in that order |
| `VfsBoot.HeaderIsBootable` | vfs.c:652-684 | every header written for a table meets what the boot needs when drives are told apart by port and position |
| `VfsBoot.BootServesTheSame` | vfs.c:1379-1447 | after the boot every path is served by the same drive under the same relative path |
| `VfsBoot.BootKeepsOrder` | vfs.c:1379-1447 | mounts keep their order of age across the boot |
| `VfsBoot.Reboot` | vfs.c:652-1447 | when the mounts are written and booted from again, every path is served by the same drive under the same relative path |
| `Scheduler.Machine.FindNext` | task.c:218-230 | the first task after the current one, going around, that neither sleeps nor is dead, or there is none |
| `Scheduler.Machine.Tick` | task.c:202-245 | stores the interrupted stack pointer, keeps the task for the rest of its quantum or chooses the next one for as many ticks as its priority, one for priority 0, and returns the stack pointer stored for it |
| `Scheduler.MoveIsStep` | task.c:202-245 | the choice of an interrupt is the next place in the order of the runnable tasks |
| `Scheduler.RunIsLater` | task.c:202-245 | over any run of interrupts with the same runnable tasks, the state after k ticks is the k-th point of the round robin order |
| `Scheduler.MachineQuantum` | task.c:202-245 | a chosen task has as many ticks in a row as its priority, one for priority 0, and then the next one that is neither asleep nor dead is chosen |
| `Scheduler.MachineRound` | task.c:202-245 | over any run, each runnable task has exactly as many ticks as its priority in every round, one for priority 0, and then the round begins again |
| `Scheduler.MachineWaits` | task.c:202-245 | over any run, a runnable task is chosen after at most the rest of the current quantum and the quanta of the others |
| `Scheduler.Resumes` | task.c:207-209 | a task is resumed with the stack pointer it was interrupted with |
| `Calendar.DaysFromCivilCounts` | tccport/tcc_libc.c:243-250 | for every date of every year the formula equals the count of days by years and months from 1970-01-01 |
| `Calendar.CivilFromDaysIsInverse` | tccport/tcc_libc.c:270-282 | every day number gives a valid date that has that number |
| `Calendar.CivilOfDate` | tccport/tcc_libc.c:270-282 | every date is recovered from its day number |
| `Calendar.LocalTimeOfEpoch` | tccport/tcc_libc.c:252-287 | localtime recovers date, time of day, day of the week and day of the year of every time |
| `Calendar.EpochOfLocalTime` | tccport/tcc_libc.c:252-287 | for every number of seconds, also negative ones, localtime gives fields from which time gives it back |

## Left out

- `fat32_append_file` and the descriptor calls above it (fat32.c:884-932, fat32.c:1062-1165): the entry is rewritten with the last cluster of the chain, so the file loses its beginning; only whole-file writes are modelled.
- FAT names: the 8.3 conversion, long-name entries and the folding of case (fat32.c:146-350, fat32.c:575-601). A name is an opaque string; the number of slots it takes is an argument, and slots that hold parts of long names are opaque.
- FAT directories as bytes: entries are typed slots in the order of the directory's chain, apart from the bytes of the clusters; the FAT is an array of 32-bit words instead of sectors.
- Fat32.Volume.FindEntry: compares names as opaque strings, without the folding of case and the assembly of long names.
- Fat32.Volume.AllocSlots: works on typed slots, apart from the bytes of the directory's clusters.
- Fat32.Volume.WriteFile: excludes names of directories, whose chain the code would free.
- FatStore.Store.AllocCluster: takes the hint to be at most one past the last cluster, which a mount would take from the disk as it is.
- FAT `create_dir`, `delete_file` and `remove_dir` (fat32.c:934-1020): made of the modelled chain and slot operations.
- COSFS inode and bitmap sectors: the inode table and both bitmaps are typed fields instead of sectors; tags and times of inodes are not modelled.
- Cosfs.Volume.Format: ends with the root directory; QuickFormat goes on with the default directories (fs.c:368-374).
- Cosfs.Volume.Read: reads with the current inode; a caller's outdated copy of it is not modelled.
- Files that are unlinked while open, in COSFS and the VFS, and the state after `vfs_shutdown`.
- Heap.Arena.Free: covers pointers whose header is in the list and pointers that the null and alignment tests catch; what is left in memory of headers that were merged away is not modelled, since headers are values beside the bytes of memory.
- Heap.Arena.Realloc: covers the same pointers as Free.
- Heap.Arena.GrowHeap: does not track frames for the arenas of tasks.
- Xhci.EventRing.ProcessOne: leaves out the push that re-arms an interrupt endpoint, the doorbell and the dequeue register.
- Conservation of page-table frames beyond what `CreateTask` and `ComeAndGo` state: `unmap_page_dir` drops the old table without freeing it, so changes of the heap break lose frames as well; how many is not stated. `Release` gives back the tables that a task has at the end.
- Paging.Machine.MapPage: covers directories of tasks; changes to the kernel's own directory would break the identity map that the property needs.
- The active directory: `Paging.Machine` writes tables in physical frames. The kernel writes them through the directory in `cr3`, which `SYS_BRK` (syscall.c:56) leaves at that of the task. There heap pages take the place of the identity map from page 0x40000 on, so a table in a frame from 0x40000 on is reached through the task's own heap pages. The model takes every table to be reached in its own frame.
- HeapBreak.Task.SetBreak: of the growths that come to a page with one frame left and no table of the task's own, excludes those where there is no table at all, or where memory of the kernel's or another page of the task is translated through the same table entry. GrowPage states what such a page is written to; the rest of the growth is not followed, since the kernel's identity map may be broken.
- HeapBreak.Task.GrowPages: has the same exclusion as SetBreak.
- HeapBreak.Task.SetBreakBeside: has the same exclusion as SetBreak, and excludes growths whose last frame goes into a table entry that the other task's heap is translated through.
- UserTask.CreateBeside: excludes two free frames, where the stack's first page goes into a table that all share.
- PagingBoot.InitPaging: asks for two frames for each table, of which the second one is not always needed.
- ArgStack.Process.WriteUser: covers addresses of the stack, whose pages are in frames of their own; elsewhere a task's pages may share frames with the identity map.
- The content of pages, and the flags of entries above the lowest three.
- The ELF loader beside the stack image (elf.c:81-117, elf.c:190-274).
- VfsBoot.Boot: covers headers of the current version with all drives present and all file systems answering; the conversion of old headers (vfs.c:1401-1418) is left out.
- Vfs.Table.DoMount: the current directory and the creation of default directories are not modelled.
- Vfs.Table.DoUmount: takes the slot of the mount; the clearing of the header and the current directory are not modelled.
- Vfs.Table.OpenFile: the answers of the file system to create, exclusive and truncate are one flag.
- Scheduler.MachineRound: covers runs in which no task starts, sleeps or wakes.
- Calendar.DaysFromCivilCounts: over unbounded integers; the range of `long` and of `int` fields is not modelled, and neither is the clamp of negative times in `rtc_to_epoch` (syscall.c:9-25), which uses the same formula.
- `pmm_used_blocks`: the counter of used frames, which frame 0 makes inexact.
- Waiting and liveness of the VFS lock beyond the steps of one task, interrupts inside the scheduler, the register frame of a new task, kernel tasks, and the priority field of sleeping tasks.
- Device registers, DMA and timing, the user interface, and the ports of TinyCC and SQLite.
