# ArgoOS kernel: a verified model

ArgoOS is a small 32-bit kernel. This project models five of its parts in Dafny and
proves what they keep over every run:

- **File system** (`kernel/fs/fs.c`). `FsTree`, `FsPath` and `FsFiles` describe the
  file system as a tree of named byte strings with descriptors, and prove the
  properties of every run; `FsResolve` and `FsCalls` say what a path means and what a
  caller gets. `FsTable` says when a table of inodes threaded with
  `parent`, `next` and child pointers represents such a tree. The class `FileSystem`
  changes that table in place, and each of its methods is proved to act on the tree as
  its namesake in `FsFiles` says. `FsImage`, `FsLoad`, `FsExact`, `FsForeign` and
  `FsStore` do the same for the disk image.
- **Scheduler, wait queues, mutex and semaphore** (`kernel/task/task.c`,
  `kernel/task/sync.c`, `kernel/drivers/timer.c`). `Sched` is a transition system in
  which every call is one step; `SchedRuns`, `Transitions` and `Exclusion` are about its
  runs. The
  mutex and semaphore calls and the timer tick run with interrupts off. Yielding,
  sleeping, exiting and creating do not, and that no tick falls into them is assumed.
  The class `Kernel` works on the circular task list and the linked wait queues, and is
  proved to take those steps. `ContextSwitch` is the register and stack machine of
  `kernel/task/context_switch.asm`, and `ScheduledContexts` carries the scheduler's
  runs out on it.
- **Heap** (`kernel/memory/heap.c`). `HeapSpec` is the block list and the live ranges
  it stands for, `HeapLaws` says how much a call takes and gives back, and
  `HeapMapping` which pages are mapped. The class `Heap`
  keeps the headers in the heap's own words and grows over pages it gets from the
  classes of the next part.
- **Frames and page tables** (`kernel/memory/pmm.c`, `kernel/memory/paging.c`):
  `FrameBitmap` and `Paging`; `FrameSupply` counts the frames that mapping fresh pages
  takes.
- **Block copy and fill** (`kernel/lib/string_asm.asm`, `kernel/lib/string.c`):
  `BlockCopy`.

Pointers into static tables are slot indices, with -1 for NULL; machine words are
integers, and 32-bit wrap-around is written out where it can happen. The contents of
fresh pages, the disk, and the memory for files and task records are parameters.

Where the code does less than its comments or callers suggest, the code is modelled
and the exact condition is proved:

- `fs_save` writes the inode table last, over the file data, once there are more than
  117 inodes, and drops inodes past 256. Saving and loading restores the file system
  for every file contents exactly with at most 117 inodes, or at most 256 and no file
  data (`SaveLoadExact`).
- `fs_load` does not restore the inode counter: the first file created after a reload
  gets the root's number and cannot be reached through it (`FirstFileAfterReload`); in
  general the inode in the lower slot hides the other one (`CreatedIsFound`).
- `fs_open` looks up the whole path but creates its last component in the current
  directory, so siblings can get the same name (`OpenCanDuplicateName`); names stay
  distinct exactly when the stored name is not taken (`InsertKeepsNames`).
- `fs_remove` of the current directory is not refused, and breaks the tree exactly
  then (`DeleteKeepsWellFormed`, `RemovePath`).
- A descriptor's own size may lag behind its file's: seeking back after a write works
  exactly under the condition of `WriteSeekRead`, and `SeekBackCanMiss` is a run on which
  it does not.
- `fs_write` stays inside its buffer exactly when position and length do not wrap
  (`WriteStaysInBuffer`). The rounding, the header sum and the checks of `kmalloc` have
  such conditions too (`RoundExact`, `HeaderExact`, `ExpandGuard`, `ExpandExact`); taken
  together its failures are honest exactly up to 0xFFFFEFF0 bytes (`KmallocHonestIff`).
- `paging_map_page` needs a frame for every page table it creates and drops the mapping
  in silence when there is none. A loop that maps fresh pages reports success over an
  unmapped last page exactly when one frame is lacking and that page opens a new table
  (`GrowExact`). `kmalloc` then hands out a block that is not all mapped
  (`OneFrameLeft`), from a heap that calls reach (`FullHeapReached`); on every run the
  heap is all mapped if and only if this has not happened (`RunMapped`). A kernel stack
  page can be lost in the same way (`OnePageExact`), and a `kmalloc` that fails for
  want of frames has used up all there were (`FailureDrains`).
- `kfree` trusts the header in front of its argument. A pointer that was just freed
  still has one exactly when the block before it was in use (`SecondFree`).
- There is no idle task. With nobody READY a blocked or dead caller goes on, and
  `mutex_lock` returns without the lock (`StepKeeps`, `LockFallsThroughIff`); two
  tasks can then be inside a mutex (`ExclusionNeedsReadyTask`).
- `pmm_init` leaves the partly covered last page of an unavailable region free, and all
  of a region whose end wraps (`PartialPageMissed`, `HandedOutIsFree`). Its page count is
  right exactly as `TotalPagesExact` says: from 4 GB on only the low word of the size
  counts.
- `memset_asm` replicates only the low half of its register (`MemsetCorrectIff`);
  `memcpy_asm` under overlap is right exactly as `MemcpyCorrectIff` says.

`dafny verify dfyconfig.toml` verifies the project.

## Model

| member | source | states |
|---|---|---|
| `FsTree.Fresh` | kernel/fs/fs.c:113-116 | the file system fs_init creates when there is no image is a well-formed tree |
| `FsTree.NextIsFresh` | kernel/fs/fs.c:131 | the next inode number is used by no inode and is in no child list |
| `FsTree.InsertKeepsWellFormed` | kernel/fs/fs.c:125-160 | creation keeps the tree: every inode below the root is once in the list of a live directory older than itself |
| `FsTree.DeleteKeepsWellFormed` | kernel/fs/fs.c:527-562 | removing an empty inode keeps the tree if and only if it is not the current directory |
| `FsTree.WithoutKeepsDistinct` | kernel/fs/fs.c:539-553 | taking an inode off a sibling list without repeats leaves no repeats |
| `FsTree.SetBytesKeepsWellFormed` | kernel/fs/fs.c:405-412 | new contents of at most 64 KB keep the tree |
| `FsTree.Ancestors` | kernel/fs/fs.c:69-77 | following parents from any live inode is a finite walk that ends at the root |
| `FsTree.InsertThenDelete` | kernel/fs/fs.c:125-160 | removal undoes creation: entries and sibling order are as before, only the counter moved |
| `FsTree.SameEntriesSameChildren` | kernel/fs/fs.c:809-827 | trees with equal entries have the same children everywhere, up to order |
| `FsPath.SkipSlashes` | kernel/fs/fs.c:197-199 | what is left after the leading slashes does not start with one |
| `FsPath.ComponentLength` | kernel/fs/fs.c:201-206 | the cut component has no slash, at most the limit, and stops only at a slash, the end or the limit |
| `FsPath.Parse` | kernel/fs/fs.c:182-259 | every component is non-empty, slash-free and at most 255 characters |
| `FsPath.LookupIn` | kernel/fs/fs.c:162-176 | a found child has the name; None means no child has it |
| `FsPath.DescendStaysInTree` | kernel/fs/fs.c:182-259 | path resolution never yields anything but a live inode |
| `FsPath.DescendAppend` | kernel/fs/fs.c:182-259 | resolving a joined component list is resolving its parts one after the other |
| `FsPath.ParseJoin` | kernel/fs/fs.c:182-259 | scanning undoes joining, for every list of components |
| `FsPath.DescendPathTo` | kernel/fs/fs.c:162-259 | the names from the root to an inode lead back to it |
| `FsPath.ChildIsFound` | kernel/fs/fs.c:162-176 | with distinct sibling names, looking up an inode's name in its parent finds that inode |
| `FsPath.PathRoundTrip` | kernel/fs/fs.c:56-84 | resolving the printed path gives the current directory if and only if it fits 255 characters; a longer one gives the root |
| `FsPath.LastComponent` | kernel/fs/fs.c:271-278 | the created name is the suffix after the last slash |
| `FsPath.InsertKeepsNames` | kernel/fs/fs.c:513-523 | sibling names stay distinct if and only if the stored, truncated name is not taken |
| `FsPath.OpenCanDuplicateName` | kernel/fs/fs.c:261-288 | a well-named tree and a path whose opening creates a second child of the same name |
| `FsResolve.StepIsText` | kernel/fs/fs.c:208-215 | "." stays, ".." drops the last name of the path and stays at the root, any other component adds its name |
| `FsResolve.DescendIsText` | kernel/fs/fs.c:195-217 | a list of components leads to the inode whose path is the text with them worked out, if and only if every path on the way exists |
| `FsResolve.ResolveExact` | kernel/fs/fs.c:182-258 | in a well-named tree a path resolves to an inode if and only if that is the inode of the text, taken from the root or the current directory, and every path on the way exists |
| `FsResolve.DownAndUp` | kernel/fs/fs.c:208-215 | from a directory to any child and ".." is back; "." stays, and so does ".." at the root |
| `FsFiles.FreeFd` | kernel/fs/fs.c:294-305 | the lowest unused descriptor, or the table size when all are in use |
| `FsFiles.Splice` | kernel/fs/fs.c:405-412 | the bytes before the offset and after the data are kept, the data lies between |
| `FsFiles.WriteStaysInBuffer` | kernel/fs/fs.c:398-406 | the copy stays in the 64 KB buffer if and only if position plus length does not wrap, and then its length is the truncated one |
| `FsFiles.WriteMeaning` | kernel/fs/fs.c:372-415 | if position plus length does not wrap, the 32-bit test decides how much is copied, the write overlays one file, truncated at 64 KB, and no other inode changes |
| `FsFiles.WriteSeekRead` | kernel/fs/fs.c:329-447 | if position plus length does not wrap, seeking back after a write succeeds if and only if the write will grow the file or the descriptor's size reaches its position, both known before the call; then a read returns the written bytes |
| `FsFiles.SeekBackCanMiss` | kernel/fs/fs.c:409-446 | a run from a fresh file system with two descriptors on one file after which the seek back to 3 lands on 0 |
| `FsFiles.SeekMeaning` | kernel/fs/fs.c:417-447 | a 32-bit offset lands on its mathematical target inside the file, and on the descriptor's end for every other target |
| `FsFiles.StepKeeps` | kernel/fs/fs.c:261-562 | every call but removal of the current directory, a write that wraps and a creation at the last inode number keeps tree and descriptor invariants and the death of removed numbers, and every inode not written through its own descriptor stays as it was, byte by byte |
| `FsFiles.RunKeeps` | kernel/fs/fs.c:261-562 | over every run of such calls: positions and sizes never exceed the file, and an inode number once dead stays dead |
| `FsFiles.RunKeepsFile` | kernel/fs/fs.c:261-562 | on every such run a file that is there at two points and not written between them has the same entry and bytes |
| `FsFiles.StaleDescriptorIsInert` | kernel/fs/fs.c:329-415 | on every such run a descriptor of a removed file never reads or writes any file again, even when its slot is reused |
| `FsFiles.StepKeepsNames` | kernel/fs/fs.c:261-562 | calls with single-component new names keep sibling names distinct and usable |
| `FsFiles.RunPathRoundTrip` | kernel/fs/fs.c:56-84 | in every state of such a run with single-component new names, from a fresh file system, the printed path resolves to the current directory if and only if it fits |
| `FsFiles.RunKeepsNames` | kernel/fs/fs.c:261-562 | on every such run with single-component new names sibling names stay distinct |
| `FsFiles.ModeBits` | kernel/fs/fs.c:309 | reading, writing and appending are the three lowest bits of the mode, whatever the others are |
| `FsCalls.ReadMeaning` | kernel/fs/fs.c:355-369 | a read delivers what is asked for or all that is left, byte by byte from the position, moves the position past it and changes nothing else |
| `FsCalls.RefusedIff` | kernel/fs/fs.c:329-353 | a read or write is refused, and changes nothing, if and only if the descriptor is not open on a file that is still there or lacks the mode bit |
| `FsCalls.SeekRefusedIff` | kernel/fs/fs.c:417-439 | a seek is refused if and only if the descriptor is not open or whence is unknown |
| `FsCalls.ReadTwice` | kernel/fs/fs.c:329-370 | reading a and then b bytes delivers, and leaves, what one read of a + b bytes does |
| `FsCalls.OpenMeaning` | kernel/fs/fs.c:261-314 | fs_open succeeds if and only if a descriptor is free and the path is a file or may be created; the lowest free descriptor is then open at the start, or at the end for appending, and no other changes |
| `FsCalls.OpenFails` | kernel/fs/fs.c:269-305 | what a failing fs_open leaves: nothing, a used-up number without memory, or the created file without a descriptor |
| `FsCalls.OpenThenRead` | kernel/fs/fs.c:261-370 | a file opened for reading delivers all its bytes to one large read |
| `FsCalls.OpenThenAppend` | kernel/fs/fs.c:261-415 | what is written after opening for appending goes behind the old bytes |
| `FsCalls.CloseMeaning` | kernel/fs/fs.c:316-327 | after a close every call through the descriptor fails, no other one changed, and it can be handed out again |
| `FsCalls.InsertIs` | kernel/fs/fs.c:125-160 | a created inode is empty, has the name cut to 255 characters, is found first under it, and no other lookup changes |
| `FsCalls.MkdirMeaning` | kernel/fs/fs.c:502-525 | fs_mkdir creates an empty directory if and only if the name is not in the current directory and there is a slot; else nothing changes |
| `FsCalls.RemoveMeaning` | kernel/fs/fs.c:527-562 | fs_remove succeeds if and only if the path is a file or an empty directory other than the root; then its name is not found any more and every other lookup is as it was |
| `FsCalls.ChdirMeaning` | kernel/fs/fs.c:46-53 | a change of directory succeeds if and only if the path is a directory; the current path is then the given text worked out |
| `FsCalls.ThereAndBack` | kernel/fs/fs.c:227-229 | changing into a subdirectory and to ".." restores the whole state |
| `FsTable.FreeSlotIffRoom` | kernel/fs/fs.c:127-128 | the inode table has a free slot if and only if the tree has fewer than 320 inodes |
| `FsTable.ChainMembers` | kernel/fs/fs.c:162-176 | following a sibling list reaches the slot of each of its inodes |
| `FsTable.InsertRepresented` | kernel/fs/fs.c:129-156 | linking a new inode at the front of a directory's list turns the represented tree into the one with the insertion |
| `FsTable.SetBytesRepresented` | kernel/fs/fs.c:405-412 | replacing one buffer changes the represented bytes of that file only |
| `FsTable.UnlinkChain` | kernel/fs/fs.c:545-551 | bypassing a successor removes exactly it from the list |
| `FsTable.UnlinkFirst` | kernel/fs/fs.c:541-544 | moving the child pointer on takes the first child off the list and touches no other list |
| `FsTable.UnlinkLater` | kernel/fs/fs.c:545-551 | relinking the predecessor takes a later child off the list and touches no other list |
| `FsTable.DeleteRepresented` | kernel/fs/fs.c:527-562 | unlinking and freeing a slot represents the tree without that inode |
| `FileSystem.ScanComponent` | kernel/fs/fs.c:235-245 | the cursor loop cuts off the first component of the parsed path and leaves the rest |
| `FileSystem.FileSystem.constructor` | kernel/fs/fs.c:86-123 | without an image, the tables represent the fresh file system |
| `FileSystem.FileSystem.FindInodeInDir` | kernel/fs/fs.c:162-176 | the list walk finds the slot of the first child with the name, or NULL |
| `FileSystem.FileSystem.NextNode` | kernel/fs/fs.c:208-215 | ".", ".." and names move as one step in the tree |
| `FileSystem.FileSystem.Walk` | kernel/fs/fs.c:196-217 | the component loop resolves the parsed path from its start |
| `FileSystem.FileSystem.ResolvePath` | kernel/fs/fs.c:182-259 | the slot of the inode the path denotes, or NULL; empty, "/", "." and ".." included |
| `FileSystem.FileSystem.PrintNames` | kernel/fs/fs.c:63-77 | the backwards copy leaves the joined names at the returned position, which is negative exactly when they do not fit |
| `FileSystem.FileSystem.GetCurrentPath` | kernel/fs/fs.c:56-84 | the text is the printed path of the tree |
| `FileSystem.FileSystem.FreeInode` | kernel/fs/fs.c:127-128 | finds a free slot exactly when the tree has room |
| `FileSystem.FileSystem.LinkInode` | kernel/fs/fs.c:150-156 | the table then represents the tree with the insertion, and the slot is the new inode's |
| `FileSystem.FileSystem.CreateInode` | kernel/fs/fs.c:125-160 | success and failure, with the used-up number when memory runs out, are those of creation in the tree |
| `FileSystem.FileSystem.LastName` | kernel/fs/fs.c:505-511 | what follows the last slash |
| `FileSystem.FileSystem.MakeDirectory` | kernel/fs/fs.c:502-525 | result and new state are those of Mkdir on the represented tree |
| `FileSystem.FileSystem.OpenFile` | kernel/fs/fs.c:261-314 | result and new state are those of Open, creation included |
| `FileSystem.FileSystem.AttachFd` | kernel/fs/fs.c:290-314 | the lowest free descriptor is set up on a file; directories and a full table are refused |
| `FileSystem.FileSystem.CloseFile` | kernel/fs/fs.c:316-327 | result and new state are those of Close |
| `FileSystem.FileSystem.FindInodeByNum` | kernel/fs/fs.c:607-614 | the slot of the inode with that number, NULL exactly when there is none |
| `FileSystem.FileSystem.Locate` | kernel/fs/fs.c:330-353 | a slot exactly for an open descriptor with the mode on a live file, with position and size inside that file |
| `FileSystem.FileSystem.ReadFile` | kernel/fs/fs.c:329-370 | result, data and new state are those of Read; the unsigned subtraction does not underflow |
| `FileSystem.FileSystem.WriteFile` | kernel/fs/fs.c:372-415 | result and new state are those of Write |
| `FileSystem.FileSystem.Store` | kernel/fs/fs.c:405-412 | the buffer copy is a splice of the represented bytes, and the tail past the size stays zero |
| `FileSystem.FileSystem.SeekFile` | kernel/fs/fs.c:417-447 | result and new state are those of Seek |
| `FileSystem.FileSystem.RemovePath` | kernel/fs/fs.c:527-562 | result and new state are those of Remove, and the state is sound afterwards if and only if the current directory was not removed |
| `FileSystem.FileSystem.RemoveNode` | kernel/fs/fs.c:539-561 | the table represents the tree without the inode |
| `FileSystem.FileSystem.Unlink` | kernel/fs/fs.c:539-553 | the inode leaves its parent's list and no other list changes |
| `FileSystem.FileSystem.ChangeDirectory` | kernel/fs/fs.c:46-53 | result and new state are those of Chdir |
| `FsImage.ReadWrite` | kernel/fs/fs.c:617-707 | sectors read back exactly what was written |
| `FsImage.ReadElsewhere` | kernel/fs/fs.c:617-707 | a write leaves every sector outside it alone |
| `FsImage.RecordBack` | kernel/fs/fs.c:575-584 | decoding an encoded 280-byte inode record gives the record |
| `FsImage.TableBack` | kernel/fs/fs.c:741-751 | records packed across sector boundaries come back whole |
| `FsImage.SavedHeader` | kernel/fs/fs.c:633-644 | magic and inode count survive all later writes of fs_save |
| `FsImage.SavedTable` | kernel/fs/fs.c:697-702 | the table sectors read back the packed records, whatever their number |
| `FsImage.DataLbaMonotone` | kernel/fs/fs.c:679-694 | file extents are disjoint: each starts where the earlier ones end |
| `FsImage.FileReadsBack` | kernel/fs/fs.c:679-694 | a file's sectors survive the writes of all later files |
| `FsImage.TableFits` | kernel/fs/fs.c:646-647 | the table ends below the data area if and only if there are at most 117 inodes |
| `FsImage.SavedFile` | kernel/fs/fs.c:617-707 | with at most 117 inodes every file's sectors survive the whole save |
| `FsImage.SavedFileClobbered` | kernel/fs/fs.c:646-702 | from 118 inodes on, the first byte of the first non-empty file reads as a byte of the 118th inode's name |
| `FsLoad.FindNum` | kernel/fs/fs.c:607-614 | the lowest live slot with that number, NULL exactly if no live slot has it |
| `FsLoad.LinkAllLinks` | kernel/fs/fs.c:809-827 | the linking pass sets exactly the parents and child lists the records name and no other field |
| `FsLoad.LinkedRepresents` | kernel/fs/fs.c:809-827 | the linked table represents the tree the records describe |
| `FsLoad.RecordsDescribe` | kernel/fs/fs.c:596-604 | up to 256 inodes the saved records describe the whole tree |
| `FsLoad.RecordsReadBack` | kernel/fs/fs.c:710-751 | fs_load reads the very records fs_save wrote |
| `FsLoad.PlacedTable` | kernel/fs/fs.c:749-807 | into an empty table record i lands in slot i, and the root is the record that looks like one |
| `FsLoad.SaveLoadRoundTrip` | kernel/fs/fs.c:617-838 | save then load gives a table for a well-formed tree with the same entries, bytes, numbers and children |
| `FsLoad.SaveLoadClobbers` | kernel/fs/fs.c:617-838 | past 117 inodes the first byte of the first non-empty file is right if and only if it equals a byte of the 118th name |
| `FsLoad.SaveDropsInodes` | kernel/fs/fs.c:596-604 | past 256 inodes some inode has no record in the image |
| `FsLoad.CreatedIsFound` | kernel/fs/fs.c:607-614 | a new inode is found by its number if and only if no inode in a lower slot has it; of two with one number the lower is found and the other cannot be reached, and other numbers lead where they led |
| `FsExact.SaveLoadExact` | kernel/fs/fs.c:617-838 | saving and loading restores a table whatever its files hold if and only if it has at most 117 inodes, or at most 256 and no file data |
| `FsExact.LoadedSlot` | kernel/fs/fs.c:749-838 | slot i of a loaded table has record i's number, type, size and bytes; all other slots are free |
| `FsExact.DroppedNotRestored` | kernel/fs/fs.c:596-604 | with more than 256 inodes no round trip succeeds |
| `FsExact.ClobberedNotRestored` | kernel/fs/fs.c:617-838 | from 118 inodes on, a first byte other than the one the table puts there is not restored |
| `FsExact.FirstFileAfterReload` | kernel/fs/fs.c:33 | after save, reboot and load the counter is 1 again, and looking up the first new file's number finds the root directory |
| `FsForeign.PlacesTheValid` | kernel/fs/fs.c:747-807 | on any disk the j-th valid record lands in slot j, records not valid leave no trace, and the last root record is the root |
| `FsForeign.LoadsIffBootable` | kernel/fs/fs.c:710-838 | fs_load accepts a disk if and only if it has the magic bytes, 1 to 256 records and a valid record of a directory named "/"; then the table is that of the valid records, linked |
| `FsForeign.SectorNamedIff` | kernel/fs/fs.c:679-694 | a saved record names a data sector if and only if its inode is a file with bytes |
| `FsImage.SuperblockBack` | kernel/fs/fs.c:633-644 | magic number, version, count and data start read back from the superblock, and the rest is zero |
| `FsStore.CollectInodes` | kernel/fs/fs.c:596-604 | the live slots in table order, at most 256 |
| `FsStore.SerialiseInode` | kernel/fs/fs.c:661-695 | one inode's data goes to its extent and its encoded record to its place, and nothing else changes |
| `FsStore.SerialiseInodes` | kernel/fs/fs.c:661-695 | the buffer ends as the packed table and the disk with every file's data |
| `FsStore.SaveToDisk` | kernel/fs/fs.c:617-707 | the disk becomes the saved image, and stays as it was when there is nothing to save |
| `FsStore.FindByNum` | kernel/fs/fs.c:607-614 | the first live slot with that number, or NULL |
| `FsStore.PlaceRecords` | kernel/fs/fs.c:749-807 | the first pass fills the table and finds the root as specified |
| `FsStore.LinkRecords` | kernel/fs/fs.c:809-827 | the second pass links the table as specified |
| `FsStore.LoadFromDisk` | kernel/fs/fs.c:710-838 | result, table and root are those of Load, and the inode counter is untouched |
| `FsStore.SaveThenLoad` | kernel/fs/fs.c:617-838 | the two calls in sequence restore the represented tree up to sibling order |
| `Sched.WakesTheDue` | kernel/task/task.c:138-149 | waking changes exactly the sleepers whose tick has come, to READY, and leaves nobody due: a second pass changes nothing |
| `Sched.FirstReady` | kernel/task/task.c:151-160 | the nearest READY task in ring order, or one more than the ring if there is none |
| `Sched.Dist` | kernel/task/task.c:151-156 | going that many places ahead from the current task reaches the task |
| `Sched.SwitchKeeps` | kernel/task/task.c:125-181 | a switch leaves the current task RUNNING if and only if somebody is READY or the caller still runs |
| `Sched.FirstSwitchStarts` | kernel/task/task.c:125-168 | the first switch after creating tasks runs the last created one and establishes the scheduler invariant |
| `Sched.EnqueueKeeps` | kernel/task/task.c:222-240 | joining a queue keeps every task in at most one queue, once, BLOCKED with no wake tick |
| `Sched.UnblockKeeps` | kernel/task/task.c:245-262 | waking the head of a queue keeps the scheduler invariant |
| `Sched.ReleaseKeeps` | kernel/task/sync.c:59-86 | unlocking keeps it, with hand-over or without |
| `Sched.StepKeeps` | kernel/task/task.c:125-262 | every step keeps the scheduler invariant if and only if it leaves something to run |
| `SchedRuns.RunKeepsInv` | kernel/task/task.c:107-262 | over every such run only the current task is RUNNING, and queue members are BLOCKED and in one place |
| `SchedRuns.ZombieStays` | kernel/task/task.c:190-202 | a zombie is never scheduled again |
| `SchedRuns.SleeperNotEarly` | kernel/task/task.c:138-149 | a sleeper is unchanged in every later state before its wake tick |
| `SchedRuns.SwitchApproaches` | kernel/task/task.c:151-168 | a switch runs the waiting task or one strictly nearer to it in ring order |
| `SchedRuns.BoundedWaiting` | kernel/task/task.c:125-181 | a READY task at ring distance d runs within d switches and within 10 d ticks |
| `SchedRuns.TickPreemptsIff` | kernel/drivers/timer.c:18-34 | with somebody READY a tick preempts if and only if the slice is 1; a slice of 0 wraps |
| `Transitions.SwitchTasks` | kernel/task/task.c:138-180 | what task_switch makes of every task record: the picked one, the one taken off, and all others |
| `Transitions.TakenOffReady` | kernel/task/task.c:173-175 | a caller that was RUNNING is READY with the slice it had; any other changes only as the sleeper check says |
| `Transitions.FirstSwitchTasks` | kernel/task/task.c:131-168 | the first switch runs the newest task with a full slice and leaves the others as they were |
| `Transitions.StepPicks` | kernel/task/task.c:151-160 | the current task changes only in a call of task_switch, to the nearest ready or due task in ring order |
| `Transitions.TaskLaw` | kernel/task/task.c:125-278 | status, slice and wake tick of every task after every step, from the state before it |
| `Transitions.CreationLaw` | kernel/task/task.c:46-120 | task_create, and nothing else, adds a READY task with a full slice if and only if there is room and memory |
| `Transitions.DiesIff` | kernel/task/task.c:190-202 | on every run a task becomes ZOMBIE at a step if and only if it is the current one and exits |
| `Transitions.PreemptedIsReady` | kernel/task/task.c:162-180 | on every run a task switched away from without blocking is READY, and the one switched to has a full slice |
| `Transitions.PreemptedRunsAgain` | kernel/task/task.c:125-181 | a task switched away from without blocking runs again within n switches and 10 n ticks, n the number of tasks |
| `Exclusion.LockStepKeeps` | kernel/task/sync.c:26-107 | each step keeps: only the owner is inside, waiting calls are the queue and a handed-over owner, hand-overs are in order |
| `Exclusion.SemStepKeeps` | kernel/task/sync.c:111-150 | each step keeps the semaphore balance and the order of waiters |
| `Exclusion.StartIsInitial` | kernel/task/task.c:125-168 | a kernel that only created its tasks reaches, by its first switch, a configuration in which the runs below start |
| `Exclusion.MutualExclusion` | kernel/task/sync.c:26-107 | on every run at most one task is inside, it is the owner, and a free mutex has no owner, holder or waiter |
| `Exclusion.FifoHandover` | kernel/task/sync.c:67-78 | the lock is handed over in the order in which tasks began to wait |
| `Exclusion.NoBarging` | kernel/task/sync.c:26-107 | ownership passes only from free to the caller or from the owner to the head of the queue |
| `Exclusion.SemaphoreConservation` | kernel/task/sync.c:111-150 | initial value plus posts is count plus grants; waits are grants plus queue; a positive count has no waiters; grants follow blocking order |
| `Exclusion.LockFallsThroughIff` | kernel/task/sync.c:50-55 | locking a held mutex returns without the lock if and only if no task is READY |
| `Exclusion.ExclusionNeedsReadyTask` | kernel/task/task.c:158-160 | a run of two tasks from a free mutex, lock then sleep, after which the second task's lock call puts both inside |
| `Kernel.WaitChainAppend` | kernel/task/task.c:231-240 | pointing the last task of a queue to a new one appends it |
| `Kernel.LinkedPop` | kernel/task/task.c:250-252 | moving the head pointer on removes the head and leaves every other queue alone |
| `Kernel.Kernel.constructor` | kernel/task/task.c:36-44 | no tasks, free mutexes, empty queues: the unstarted system |
| `Kernel.Kernel.TaskCreate` | kernel/task/task.c:46-120 | the list stays one cycle in creation order with the new task last; fails exactly at the limit or without record or stack page, and a failure for the stack still uses up an id |
| `Kernel.Kernel.WakeSleepers` | kernel/task/task.c:138-149 | the walk once around the ring wakes exactly the due sleepers |
| `Kernel.Kernel.FindReady` | kernel/task/task.c:130-160 | the pointer search ends at the first READY task in ring order if there is one, starting at the last created task when there is no current one |
| `Kernel.Kernel.RunTask` | kernel/task/task.c:162-180 | next is RUNNING with a full slice, and a caller that was RUNNING is READY |
| `Kernel.Kernel.TaskSwitch` | kernel/task/task.c:125-181 | takes the switch step; without a current task the first-switch step, after which an unstarted system satisfies the invariant; without tasks nothing |
| `Kernel.Kernel.TimerHandler` | kernel/drivers/timer.c:18-34 | takes the tick step; without a current task only the tick count moves |
| `Kernel.Kernel.TaskSleepUntil` | kernel/task/task.c:212-220 | takes the sleep step |
| `Kernel.Kernel.TaskExit` | kernel/task/task.c:190-202 | takes the exit step |
| `Kernel.Kernel.LastInQueue` | kernel/task/task.c:235-238 | the walk ends at the last task of the queue |
| `Kernel.Kernel.JoinQueue` | kernel/task/task.c:227-240 | the current task is appended to the abstract queue |
| `Kernel.Kernel.TaskBlock` | kernel/task/task.c:222-243 | queueing followed by a switch |
| `Kernel.Kernel.TaskUnblock` | kernel/task/task.c:245-262 | the head of the queue leaves it and becomes READY; mutex owners are untouched |
| `Kernel.Kernel.MutexLock` | kernel/task/sync.c:26-57 | takes the lock step: free, own and contended mutex |
| `Kernel.Kernel.MutexTryLock` | kernel/task/sync.c:88-107 | takes the trylock step and succeeds exactly on a free mutex |
| `Kernel.Kernel.MutexUnlock` | kernel/task/sync.c:59-86 | takes the unlock step: hand-over, release, or nothing for a non-owner |
| `Kernel.Kernel.SemWait` | kernel/task/sync.c:118-133 | takes the wait step |
| `Kernel.Kernel.SemPost` | kernel/task/sync.c:135-150 | takes the post step |
| `ContextSwitch.Cpu.TaskSwitchAsm` | kernel/task/context_switch.asm:6-27 | the pushes, stores and pops in order compute the switch function |
| `ContextSwitch.AsmEffect` | kernel/task/context_switch.asm:6-27 | exactly four words below the stack pointer and the esp slot are written, and the registers come from the new stack |
| `ContextSwitch.StackPagesShared` | kernel/task/task.c:27-33 | two tasks share a stack page if and only if their ids agree modulo 2^20; otherwise the pages are disjoint |
| `ContextSwitch.KernelLayoutOk` | kernel/task/task.c:20-34 | distinct ids below 0x1FFFE with task records below the stack region give disjoint stacks that contain no record |
| `ContextSwitch.SwitchKeeps` | kernel/task/context_switch.asm:6-27 | a switch restores the next task, suspends the caller and disturbs no third task |
| `ContextSwitch.ContextPreserved` | kernel/task/context_switch.asm:6-27 | over every interleaving of running, switching and creating tasks, a resumed task has the registers, return address, stack pointer and stack it was suspended with |
| `ContextSwitch.NewTaskSuspended` | kernel/task/task.c:84-105 | the frame task_create writes is a suspended context at task_start_asm with the entry on top |
| `ContextSwitch.CreateKeeps` | kernel/task/task.c:77-105 | creating a task suspends it at its entry and leaves every other suspended task as it was |
| `ContextSwitch.NewTaskStarts` | kernel/task/task_entry.asm:1-9 | in every history a task created at one event and first switched to at a later one arrives at task_start_asm with cleared registers and its entry point as the word its pop takes |
| `ScheduledContexts.RunningIsLoaded` | kernel/task/task.c:162-180 | in every state of every scheduler run the one RUNNING task is the one whose stack the machine has loaded, and all others are soundly suspended |
| `ScheduledContexts.RunIsHistory` | kernel/task/task.c:125-181 | carrying out a scheduler run, with task_switch_asm called exactly when another task is picked, is a history of context switches |
| `ScheduledContexts.EveryRunIsDriven` | kernel/task/task.c:125-181 | every scheduler run can be carried out on the machine |
| `ScheduledContexts.PickedAgain` | kernel/task/task.c:170-180 | a task the scheduler takes off the processor and picks again, after any other decisions, goes on with the registers, return address, stack pointer and stack it had |
| `ScheduledContexts.PickedFirst` | kernel/task/task.c:46-120 | a task created on a scheduler run starts, when it is first picked, at task_start_asm with its entry point on its own stack |
| `HeapSpec.Fresh` | kernel/memory/heap.c:103-128 | the initial heap is tiled, coalesced and page-sized |
| `HeapSpec.FindFit` | kernel/memory/heap.c:26-37 | the lowest fitting block, or none fits |
| `HeapSpec.SplitKeeps` | kernel/memory/heap.c:40-55 | splitting keeps the tiling, the end of the heap and every live block |
| `HeapSpec.SplitCoalesced` | kernel/memory/heap.c:40-55 | taking a split block leaves no two free neighbours |
| `HeapSpec.FreeCoalesces` | kernel/memory/heap.c:58-77 | merging both ways after a free leaves no two free neighbours |
| `HeapSpec.PagesCover` | kernel/memory/heap.c:86-99 | whole pages cover the bytes asked for and stay within 64 MB |
| `HeapSpec.LiveRangesDisjoint` | kernel/memory/heap.c:130-192 | two live payloads are disjoint, with room for a header between them |
| `HeapSpec.LiveRangeAligned` | kernel/memory/heap.c:136 | every live payload is 4-aligned, of whole words and not empty |
| `HeapSpec.LiveRangeInside` | kernel/memory/heap.c:130-192 | every live payload lies inside the heap, behind its header |
| `HeapSpec.KmallocMeaning` | kernel/memory/heap.c:130-174 | up to the largest honest request: one live range of at least the requested size is added and no other changes; NULL exactly for size 0, or when nothing fits and the limit or the frames for pages and page tables forbid growth, except that a call that loses its last page gets its range; HeapLaws.KmallocTakes says how much is taken |
| `HeapSpec.KmallocFirstFit` | kernel/memory/heap.c:26-37 | whenever something fits, the lowest fitting block is used and the heap does not grow |
| `HeapSpec.KfreeMeaning` | kernel/memory/heap.c:176-192 | for NULL and payloads of blocks: exactly the freed range disappears, and a block already free changes nothing |
| `HeapSpec.SecondFree` | kernel/memory/heap.c:58-77 | a pointer just freed is still a block's payload, so that freeing it again does nothing, if and only if the block before it was in use |
| `HeapSpec.StepRefines` | kernel/memory/heap.c:130-192 | each legal call, with any supply of frames and page tables, is a step on the set of live ranges: one appears unless the call is refused, or one goes |
| `HeapSpec.RunRefines` | kernel/memory/heap.c:130-192 | over every run of legal calls from heap_init, with any supply at each, the heap stays tiled, coalesced and bounded, and refines the set of live ranges |
| `HeapSpec.RoundExact` | kernel/memory/heap.c:136 | rounding is right if and only if adding 3 does not wrap; otherwise the size becomes 0 |
| `HeapSpec.HeaderExact` | kernel/memory/heap.c:142 | the sum with the header is right if and only if it does not wrap |
| `HeapSpec.ExpandGuard` | kernel/memory/heap.c:81-83 | the limit check is right if and only if the 32-bit sum does not wrap |
| `HeapSpec.ExpandExact` | kernel/memory/heap.c:80-101 | expand_heap returns 1 when, and only when, the limit allows it and there is a frame for every page and every missing page table, if and only if its page count does not wrap and it does not lose its last page |
| `HeapSpec.ExpandCases` | kernel/memory/heap.c:80-101 | where the page count does not wrap, success means that every new page is mapped, or all but the last exactly when it is lost |
| `HeapSpec.KmallocHonestIff` | kernel/memory/heap.c:130-145 | kmalloc returns NULL when, and only when, it should in every heap where it loses no page if and only if the request is at most 0xFFFFEFF0 |
| `HeapSpec.SmallRequestHonest` | kernel/memory/heap.c:130-145 | up to that bound NULL is returned when, and only when, it should be if and only if the call does not lose its last page |
| `HeapLaws.KmallocTakes` | kernel/memory/heap.c:40-55 | the chosen block is cut to the rounded size if and only if 20 bytes or more are to spare, a free block then takes up the rest to its old end, and no other block changes |
| `HeapLaws.KmallocFitsTightly` | kernel/memory/heap.c:130-174 | a range is at least the rounded request and at most a header larger |
| `HeapLaws.KfreeUndoesKmalloc` | kernel/memory/heap.c:176-192 | kfree right after kmalloc gives back the same block list, or the one the expansion left |
| `HeapLaws.SmallRequestsShare` | kernel/memory/heap.c:130-174 | two 4-byte requests on a fresh heap get 0x400010 and 0x400024 without any frame |
| `HeapMapping.StepMapped` | kernel/memory/heap.c:80-101 | a call leaves all pages of the heap mapped if and only if they were before and it does not lose its last page |
| `HeapMapping.RunMapped` | kernel/memory/heap.c:80-192 | in every state of every run from heap_init all pages of the heap are mapped if and only if no call so far has lost a page |
| `HeapMapping.FullHeapReached` | kernel/memory/heap.c:130-174 | two calls lead from heap_init to a 4 MB heap with every block in use |
| `HeapMapping.OneFrameLeft` | kernel/memory/paging.c:54-61 | in that heap with one frame left kmalloc(4) returns 0x800010 although no table for that page can be had |
| `HeapMapping.TwoFramesLeft` | kernel/memory/paging.c:54-61 | in that heap with two frames left kmalloc(4096), which needs two pages, fails for want of a table |
| `HeapMapping.FailureDrains` | kernel/memory/heap.c:88-92 | a kmalloc that fails in the loop leaves no frame at all |
| `FrameSupply.GrowExact` | kernel/memory/heap.c:85-97 | mapping fresh pages succeeds with every page mapped if and only if there is a frame for each page and each missing table, and succeeds with exactly the last page lost if and only if one frame is lacking and only that page needs a new table |
| `FrameSupply.LostHasNoTable` | kernel/memory/paging.c:54-61 | the page whose mapping is lost has no page table afterwards |
| `FrameSupply.OnePageExact` | kernel/task/task.c:20-34 | a new kernel stack gets an address if and only if there is a frame, and is mapped if and only if a missing page table can be had as well |
| `Heap.ReplaceHeaders` | kernel/memory/heap.c:40-77 | rewriting a stretch of headers and the next prev field spells out the new list, prev inverse to next |
| `Heap.PayloadChange` | kernel/memory/heap.c:217 | changing one live payload touches no header and no other payload |
| `Heap.Heap.constructor` | kernel/memory/heap.c:21-22 | there is no heap before heap_init |
| `Heap.Heap.Init` | kernel/memory/heap.c:103-128 | succeeds if and only if there are frames for all pages and missing tables; then every page has a frame of its own and the first header spells out the fresh heap |
| `Heap.Heap.MapPages` | kernel/memory/heap.c:88-97 | the loop over pmm_alloc_page and paging_map_page: outcome and frames left are those of Grow, mapped pages get frames of their own, and exactly their words can be used |
| `Heap.Heap.FindFreeBlock` | kernel/memory/heap.c:26-37 | the walk over next pointers returns the lowest fitting block |
| `Heap.Heap.SplitBlock` | kernel/memory/heap.c:40-55 | headers spell out the split list, live words unchanged |
| `Heap.Heap.MergeBlocks` | kernel/memory/heap.c:58-77 | headers spell out the doubly merged list, live ranges and words unchanged |
| `Heap.Heap.ExpandHeap` | kernel/memory/heap.c:80-101 | returns 1 exactly when its 32-bit check passes and its loop gets a frame for every page, whether or not the last page is mapped; the mapped words are exactly those of the pages the loop mapped, and none of them changes |
| `Heap.Heap.LastBlock` | kernel/memory/heap.c:148-151 | the walk ends at the last block |
| `Heap.Heap.GrowLast` | kernel/memory/heap.c:147-164 | the last block grows or a new one follows it; live ranges and words unchanged |
| `Heap.Heap.Malloc` | kernel/memory/heap.c:130-174 | unless the call loses a page: result and block list are those of Kmalloc, every page of the heap keeps a frame of its own, and no live word changes |
| `Heap.Heap.Free` | kernel/memory/heap.c:176-192 | the block list is that of Kfree, and no word of a remaining live block changes |
| `Heap.Heap.CopyWords` | kernel/memory/heap.c:217 | the words arrive and nothing outside the destination changes |
| `Heap.Heap.Realloc` | kernel/memory/heap.c:194-223 | NULL, size 0, large enough and move: a moved block starts with the old words, the old one is freed only on success, other live words are unchanged |
| `FrameBitmap.MaskEffect` | kernel/memory/pmm.c:17-29 | setting, clearing and testing with 1 << j acts on bit j of a 32-bit word and no other |
| `FrameBitmap.SetOne` | kernel/memory/pmm.c:17-24 | word p / 32, bit p % 32 marks page p and no other |
| `FrameBitmap.PartialPageMissed` | kernel/memory/pmm.c:88-100 | a page that overlaps an unavailable region is marked for it unless, and only unless, it is its partly covered last page or the region's end wraps |
| `FrameBitmap.ReservedExact` | kernel/memory/pmm.c:63-84 | the bitmap has a bit for every page and no spare word, and a page is reserved if and only if a byte of it belongs to the kernel or the bitmap |
| `FrameBitmap.TotalPagesExact` | kernel/memory/pmm.c:46-62 | the page count is the number of whole installed pages below 256 MB if and only if the size in bytes fits in 32 bits or its low word reaches the limit |
| `FrameBitmap.AllocMeaning` | kernel/memory/pmm.c:107-118 | the lowest free page is marked and counted; nothing changes exactly when every page is in use |
| `FrameBitmap.FreeMeaning` | kernel/memory/pmm.c:120-135 | exactly the addressed page becomes free, and the counter stays the number of marked pages |
| `FrameBitmap.Pmm.constructor` | kernel/memory/pmm.c:46-105 | exactly the kernel's pages and the covered pages are in use, and the counter is their number |
| `FrameBitmap.Pmm.ReserveRegions` | kernel/memory/pmm.c:86-103 | overlapping regions are counted once |
| `FrameBitmap.Pmm.FirstFree` | kernel/memory/pmm.c:32-44 | skipping full words finds what the linear scan finds, the lowest clear bit |
| `FrameBitmap.Pmm.AllocPage` | kernel/memory/pmm.c:107-118 | state and result are those of Alloc: the lowest free page, and, with page 0 in use as pmm_init leaves it, NULL exactly when every page is in use |
| `FrameBitmap.Pmm.FreePage` | kernel/memory/pmm.c:120-135 | the state is that of Free; NULL, foreign and free pages change nothing |
| `FrameBitmap.Pmm.FreePages` | kernel/memory/pmm.c:137-139 | the number of pages not in use |
| `FrameBitmap.PagesStayDistinct` | kernel/memory/pmm.c:46-139 | on every run from pmm_init the counter is the number of reserved and held pages, the page handed out next is neither, and NULL comes exactly when all pages are |
| `FrameBitmap.HandedOutIsFree` | kernel/memory/pmm.c:107-118 | on every run an address handed out lies behind the kernel and its bitmap and inside the counted memory, and overlaps an unavailable region only where PartialPageMissed says |
| `Paging.AddressSplit` | kernel/memory/paging.c:50-51 | the 10/10/12 split recovers page and address from the two indices and the offset |
| `Paging.AddressJoin` | kernel/memory/paging.c:50-51 | every pair of indices with an offset is that of exactly one address |
| `Paging.EntryFields` | kernel/memory/paging.c:61-68 | an aligned address and flags below 0x1000 are recovered from the entry |
| `Paging.WriteEntry` | kernel/memory/paging.c:64-68 | one entry store changes one page's translation and keeps tables distinct |
| `Paging.NewTable` | kernel/memory/paging.c:13-22 | a cleared table in a fresh frame translates nothing new and is no other slot's table |
| `Paging.AddressSpace.constructor` | kernel/memory/paging.c:24-47 | the first 4 MB map to themselves and nothing else is mapped |
| `Paging.AddressSpace.MapPage` | kernel/memory/paging.c:49-72 | the flat map changes at one page, or not at all when a table is needed and none can be had; the frame taken is the one pmm_alloc_page gives, and none without need; the entry is the address with the flags |
| `Paging.AddressSpace.CreateTable` | kernel/memory/paging.c:54-62 | takes the frame pmm_alloc_page gives and fails exactly when there is none; translations stay, and no frame in use becomes a table |
| `Paging.AddressSpace.MapFresh` | kernel/memory/heap.c:88-97 | the loop over fresh pages: outcome and frames left are those of Grow, each mapped page has a frame that was free and that no other page and no table has, and no other translation changes |
| `Paging.AddressSpace.UnmapPage` | kernel/memory/paging.c:74-85 | one page leaves the flat map, and its entry is 0 |
| `Paging.AddressSpace.GetPhysical` | kernel/memory/paging.c:87-102 | the flat map's frame plus the offset, 0 where nothing is mapped |
| `BlockCopy.MemcpyAsm` | kernel/lib/string_asm.asm:9-64 | the register code computes the specified copy for every length, alignment and overlap |
| `BlockCopy.MemcpyIsSnapshot` | kernel/lib/string_asm.asm:9-64 | whenever the destination is not ahead inside the source, exactly n bytes change, to the source's |
| `BlockCopy.MemcpyCorrectIff` | kernel/lib/string_asm.asm:9-64 | it is right for all contents if and only if that holds or the copy is one aligned dword |
| `BlockCopy.MemsetAsm` | kernel/lib/string_asm.asm:68-133 | the register code computes the specified fill for every length and alignment |
| `BlockCopy.MemsetCorrectIff` | kernel/lib/string_asm.asm:68-133 | n bytes become the low byte if and only if the dword loop is not reached or the upper bytes add no bits |
| `BlockCopy.Memmove` | kernel/lib/string.c:25-39 | under any overlap the result is a copy from a snapshot |

## Left out

- ATA, serial, VGA, graphics, keyboard, PIC, GDT, IDT and FPU code: port I/O; the disk is a map from sector number to 512 bytes and every transfer succeeds.
- Interrupt and system-call entry stubs: a timer tick is a step of the environment.
- sys_fork, sys_exec and elf_load: the first copies a frame that task_switch_asm does not pop, and the last never reports success.
- ScheduledContexts.RunningIsLoaded: assumes that a task has 28 bytes of stack left when it is switched away from, and that tasks write to no other task's stack.
- The shell, tools/bridge.py, boot and linker files: output and setup only.
- fs_readdir, fs_exists, fs_type, fs_size, task_get_by_id and ksize: read-only and easy next to the rest.
- NULL path and buffer arguments and calls before fs_init: the guards that refuse them are not modelled; a path is a string without a terminator, strcmp is equality and strncpy is truncation.
- kmalloc failures inside fs_save and fs_load, and crash consistency of fs_save: both assume the buffers are there and run to the end.
- heap_used and TLB flushes: the statistic is not maintained consistently by the code, and no translation cache is modelled.
- The timer callback and task_sleep's conversion of milliseconds: the caller gives the target tick.
- The byte layout of the multiboot memory map: its entries are a sequence.
- FsForeign.LoadsIffBootable: is about disks on which no record claims a file over 64 KB, as FsStore.LoadFromDisk requires.
- FsCalls.RemoveMeaning: requires distinct usable names, as other trees can have two children under one name; so do the results of FsResolve.
- FsFiles.RunKeeps: is about runs on which no write's position plus length and no inode counter wraps, and the current directory is not removed; so are the other run results of FsFiles.
- FileSystem.FileSystem.WriteFile: requires that position plus length does not wrap, since the copy leaves the buffer otherwise; FsFiles.WriteStaysInBuffer proves that condition exact.
- FileSystem.FileSystem.CreateInode: requires that the inode counter does not wrap.
- FileSystem.FileSystem.MakeDirectory: requires that the inode counter does not wrap.
- FileSystem.FileSystem.OpenFile: requires that the inode counter does not wrap.
- FsStore.PlaceRecords: is stated for the empty table and missing root that fs_init calls fs_load with.
- FsStore.LoadFromDisk: requires that table too, and that no record on the disk claims a file over 64 KB, which fs_load does not check.
- Kernel.Kernel.TaskSwitch: does not model the accesses through the null previous task of the first switch, which go to low memory.
- Kernel.Kernel.RunTask: leaves out the same accesses.
- Kernel.Kernel.TimerHandler: requires that the tick counter does not wrap.
- Kernel.Kernel.JoinQueue: requires that the caller is in no queue, which holds unless a blocking call returned with nobody READY; the links of a task queued twice are not modelled.
- Kernel.Kernel.TaskBlock: has the same requirement.
- Kernel.Kernel.MutexLock: has the same requirement.
- Kernel.Kernel.SemWait: has the same requirement.
- Kernel.Kernel.SemPost: requires that the count does not wrap.
- Kernel.Kernel.TaskCreate: names and priorities are not modelled, and allocation only by whether it succeeds; a stack page whose mapping is dropped for want of a page table, which the code ignores, counts as mapped, and FrameSupply.OnePageExact says when that is so.
- Heap.Heap.Malloc: requires a request of at most 0xFFFFEFF0 bytes, which HeapSpec.KmallocHonestIff proves exact, and a call that loses no page; the fault at the first access to a lost page is not modelled, and HeapMapping.RunMapped says when there is one.
- Heap.Heap.ExpandHeap: takes the frames of page tables to be reachable by their physical address, as Paging.AddressSpace.MapPage does; once the heap is past 4 MB such an address can be that of heap words, which clearing the table would overwrite.
- HeapSpec.KfreeMeaning: requires NULL or the payload of a block, as the code dereferences the header; HeapSpec.SecondFree says when a freed pointer still is one.
- Heap.Heap.Free: requires NULL or the payload of a block, live or free, as the code dereferences the header.
- Heap.Heap.Realloc: requires NULL or a live pointer, and what Heap.Heap.Malloc requires.
- FrameBitmap.Pmm.constructor: a bitmap word is the sequence of its 32 bits; FrameBitmap.MaskEffect justifies that for the masks used.
- FrameBitmap.PagesStayDistinct: is about callers that free no page pmm_init reserved.
- Paging.AddressSpace.MapPage: requires an aligned physical address and flags below 0x1000, and takes table frames to be reachable by their physical address, which holds in the identity-mapped first 4 MB.
