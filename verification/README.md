# BalrogOS in Dafny

A model of the parts of the BalrogOS kernel whose correctness rests on pointer
structures and protocols, with proofs of what they promise:

- the red-black tree behind the process table, the sleepers and the inode cache
  (`RedBlackTree.dfy`);
- the boundary-tag heap and its three users (`Heap.dfy`, `HeapUsers.dfy`);
- the process life cycle: ready ring, sleep, wait, fork, exec, kill, round robin
  (`Tasking.dfy`);
- four-level page tables, the address-space copy made by fork, and tear-down
  (`Paging.dfy`, `PageTable.dfy`, `ForkPages.dfy`, `Teardown.dfy`, `StackLeak.dfy`);
- the ext2 storage core: bitmaps, block mapping, inode table and cache,
  directories (`Bitmap.dfy`, `Ext2.dfy`, `Ext2Directory.dfy`);
- the xHCI transfer and event rings (`XhciRing.dfy`), the mount tree
  (`VfsPath.dfy`, `Vfs.dfy`), the civil-date formula (`Calendar.dfy`) and the GPT
  identifier printer and parser (`Uuid.dfy`).

`dafny verify dfyconfig.toml` checks the whole project.  Nothing was executed.

## How the code is modelled

Objects that the kernel updates in place are classes; its loops are loops with
invariants.  Memory that the kernel addresses by number is a map: block headers by
address (`Heap`), frames of 512 entries by physical address (`PageTable`), mount
nodes by address (`Vfs`), directory entries by offset (`Ext2Directory`).  A global
structure is described by conditions on single elements together with a ghost
inverse: the place of a tree node in key order, the place of a page table in its
space, the slot that holds a block, the path that leads to a mount node.  That the
inverse is a function is what makes the structure a tree, or a block held once.

A run of operations is a method too.  It keeps the invariants, and it returns, as ghost
values, what the state was before and after each operation, each pair related by what
that operation is there for; theorems about whole runs are lemmas about such histories
(`Tasking.WaitsOn`, `Ext2.LastWriteStands`).

A long loop over a table is proved range by range: what entries `lo` to `hi` have
done, and that one range after another is a range (`ForkPages.Compose`,
`Teardown.Compose`).

What the model takes as parameters: the frames that the physical allocator still has
(`frames`, `Supply`), the pages `brk` is willing to add (`brkPages`), whether exec
finds a home directory and a frame for its arguments, the inode number written into a
new directory entry, the schedule of an xHCI controller, the contents that processes
write into their frames, and the order of system calls.  Locks are no-ops and a system
call is one step.
Addresses, sizes and block numbers are unbounded; the 16-bit group counter of ext2
and the flag bits of page-table entries are not.

## Where a promise fails

Each is stated for all inputs with its exact condition, and with an instance where
one adds something.

- Tasking.Kernel.Wait: a process that waits for itself, and no other, is stuck.  No
  run of ticks and system calls ever wakes it (`Tasking.Kernel.Run`,
  `Tasking.SelfWait`).
- Tasking.Kernel.Kill: the kill of a stuck process, and of no other, leaves it in the
  table: waking its own list takes the dead mark off it, and only a dead process is
  removed (`Tasking.KilledSelfWait`).
- Tasking.Kernel.Exec: all invariants hold afterwards exactly when no process was
  running, or there was no home directory to start in, or the old process is killed
  and there was a frame for the arguments.  Otherwise the old process goes on running
  with no place in the ready ring and no entry in the table, also when the call
  reports failure (`Tasking.ExecWithoutKill`).
- XhciRing.StallsWhen: with all 255 usable slots outstanding, a controller that has
  not yet followed the link waits there for ever; below that it never stalls
  (`XhciRing.FullRingStalls`).  What it takes is always what was pushed, in order.
- Bitmap.UpperHalfMisses: the search for a block in the upper half finds one whenever
  there is one exactly for bitmaps of one sector (`Bitmap.MissedBlock`).
- Ext2.Volume.UpdateFile: a write reports success always.  Every block has a number
  afterwards exactly when there are free blocks for the missing ones and for a missing
  indirect block, and the search of the upper half finds that one; if it does not, no
  block past the twelfth is stored (`Ext2.LostBlock`).
- ForkPages.ForkAndSplit: fork leaves the parent's pages writable.  The child finds
  what the parent had at the fork exactly when the page is in the stack or its frame
  has not been given other contents before the child's memory is duplicated.
- Teardown.ForkAndExit: a forked child that exits before that loses one frame for each
  private page of the parent in the stack, and no other frame (`StackLeak.LostFrame`).
- Teardown.ForkAndOrphan: a parent that exits before that takes its frames with it; a
  page of the child leads to a frame in use exactly when it is in the stack.
- Calendar.LeapSecondClash: from a leap second to the second after it, and from no
  other reading to a later one on days that exist, the epoch does not grow
  (`Calendar.EveryLeapSecond`).  Days that do not exist are let through and read as
  days of the next month (`Calendar.EpochOrder`, `Calendar.NoSuchDay`).

## Where code and comments disagree

The model follows the code.  The two block searches of ext2 report each other's
messages; block ids are bit index plus one, although a volume of 4096-byte blocks
counts from zero; the table of the GPT printer calls the fields that are stored
little-endian big-endian; the branch of the fork copy commented as "not a page table"
is the one for tables.

## Model

| member | source | states |
|---|---|---|
| `RedBlackTree.Tree.constructor` | src/klib/data_structure/rbt.c:11-16 | the empty tree is valid and stands for the empty map |
| `RedBlackTree.Tree.Rotate` | src/klib/data_structure/rbt.c:67-91 | a rotation keeps the listing, so the key order, and leaves every link, interval and parent pointer of the tree right |
| `RedBlackTree.Tree.InsertFixup` | src/klib/data_structure/rbt.c:99-138 | from a tree whose one fault is a red node under a red one, the loop ends in a balanced tree with the same listing |
| `RedBlackTree.Tree.Insert` | src/klib/data_structure/rbt.c:140-180 | the tree stays valid and keeps its nodes; an absent key is added with a node of its own, a present key returns its node and changes nothing |
| `RedBlackTree.Tree.Put` | src/klib/data_structure/rbt.c:140-180 | insert and set the value: the map is the old one with that key bound to that value |
| `RedBlackTree.Tree.RedSibling` | src/klib/data_structure/rbt.c:188-196 | the rotation for a red sibling leaves the shortage where it was, now with a black sibling |
| `RedBlackTree.Tree.FarNephew` | src/klib/data_structure/rbt.c:196-206 | a red far nephew ends the shortage: the tree is balanced |
| `RedBlackTree.Tree.NearNephew` | src/klib/data_structure/rbt.c:206-215 | a red near nephew is turned into a red far nephew |
| `RedBlackTree.Tree.RedParent` | src/klib/data_structure/rbt.c:215-222 | a red parent over black nephews ends the shortage: the tree is balanced |
| `RedBlackTree.Tree.AllBlack` | src/klib/data_structure/rbt.c:223-235 | all black: the shortage moves up one level and nothing else is wrong |
| `RedBlackTree.Tree.DeleteFixup` | src/klib/data_structure/rbt.c:182-237 | from any tree whose one fault is a missing black node on one side, the loop ends in a balanced tree with the same listing |
| `RedBlackTree.Tree.RemovePlace` | src/klib/data_structure/rbt.c:239-349 | the listing loses exactly the place of the deleted node, whichever node is freed; the tree is balanced |
| `RedBlackTree.Tree.Delete` | src/klib/data_structure/rbt.c:239-349 | the tree stays valid, the map loses exactly that key, and the node given back is the deleted one or, with two children, its successor |
| `RedBlackTree.Tree.DeleteKey` | src/klib/data_structure/rbt.c:351-354 | the map loses the key if it had it |
| `RedBlackTree.Tree.Search` | src/klib/data_structure/rbt.c:31-48 | the node of the key exactly when it is there; the nodes visited are the way from the root by comparisons, at most twice the logarithm of the size |
| `RedBlackTree.Tree.Minimum` | src/klib/data_structure/rbt.c:50-65 | the node of the least key, none for the empty map |
| `RedBlackTree.Tree.ValidIsRedBlack` | src/klib/data_structure/rbt.c:67-349 | the node-by-node invariant spells out a red-black tree by the recursive definition, whose in-order listing is the map |
| `RedBlackTree.Tree.AbsInOrder` | src/klib/data_structure/rbt.c:31-65 | the in-order listing of the tree that the pointers spell out is the ghost listing |
| `RedBlackTree.ToMapMiddle` | src/klib/data_structure/rbt.c:140-180 | an entry put in key order adds exactly one key to the map a listing stands for |
| `Heap.Area.HeapAlloc` | src/shared/memory/heap.c:15-88 | the heap invariant is kept; it fails exactly when the block is too small; otherwise exactly one live block is added, cut from the high end or taken whole |
| `Heap.Area.HeapFree` | src/shared/memory/heap.c:90-187 | the heap invariant is kept and exactly that block leaves the live ones |
| `Heap.Area.MergeBelow` | src/shared/memory/heap.c:92-102 | the freed block joined to a free neighbour below is the start of the run of free memory it lies in |
| `Heap.Area.MergeAbove` | src/shared/memory/heap.c:103-156 | the walk upwards absorbs the free neighbour above, and nothing else |
| `Heap.Area.Relink` | src/shared/memory/heap.c:157-176 | the list walk finds the last free block before the hole and links the hole behind it |
| `Heap.SplitKeeps` | src/shared/memory/heap.c:49-59 | cutting a request from the high end keeps tiling, tags and list |
| `Heap.TakeKeeps` | src/shared/memory/heap.c:31-48 | handing out a whole block keeps tiling, tags and list |
| `Heap.FreedKeeps` | src/shared/memory/heap.c:90-187 | filling a hole between allocated blocks with one free block keeps tiling, tags and list |
| `Heap.FreedLive` | src/shared/memory/heap.c:90-187 | the live blocks after a free are the old ones without that block |
| `Heap.PayloadsDisjoint` | src/shared/memory/heap.c:15-88 | payloads of live blocks lie inside the heap and do not overlap |
| `Heap.Canonical` | src/shared/memory/heap.c:90-187 | bounds and live blocks determine the whole heap: no order of calls leaves any other trace |
| `Heap.AllFree` | src/shared/memory/heap.c:90-187 | with nothing live the heap is one free block from bottom to top |
| `Heap.ExtendedKeeps` | src/kernel/memory/vmheap.c:132-139 | growing the free tail keeps the invariant |
| `Heap.AppendedKeeps` | src/kernel/memory/vmheap.c:140-166 | a new free block above the old top keeps the invariant |
| `HeapUsers.KernelHeap.constructor` | src/kernel/memory/kheap.c:12-41 | one free block, nothing live, size zero |
| `HeapUsers.KernelHeap.Kmalloc` | src/kernel/memory/kheap.c:43-73 | null exactly when no free block can hold the request; otherwise the first that fits is used and the size counter is the sum of live sizes |
| `HeapUsers.KernelHeap.Kfree` | src/kernel/memory/kheap.c:75-90 | exactly that block leaves, and the size counter with it |
| `HeapUsers.KernelHeap.Run` | src/kernel/memory/kheap.c:43-90 | any sequence of allocations and frees keeps the heap, and the pointers held are the live blocks; call by call, a request adds one live block large enough exactly if some free block can hold it, a free removes that block |
| `HeapUsers.KernelHeap.FreeAll` | src/kernel/memory/kheap.c:75-90 | freeing everything in any order leaves one free block and size zero |
| `HeapUsers.PlanGrowth` | src/kernel/memory/vmheap.c:102-113 | the pages asked for make the tail, or a new block, strictly larger than the request and a header |
| `HeapUsers.Grow` | src/kernel/memory/vmheap.c:132-169 | after growth the block to try can only be split, never taken whole |
| `HeapUsers.GrowsByUnique` | src/kernel/memory/vmheap.c:102-107 | the growth for a request is determined by the heap |
| `HeapUsers.VirtualHeap.constructor` | src/kernel/memory/vmheap.c:26-57 | one free block of the first 256 pages of the window, nothing live, counters zero |
| `HeapUsers.VirtualHeap.Vmalloc` | src/kernel/memory/vmheap.c:59-176 | null exactly when the request is too large or nothing fits and the heap cannot grow; the used counter is the sum of live sizes, the count their number |
| `HeapUsers.VirtualHeap.GrowFor` | src/kernel/memory/vmheap.c:102-169 | the growth happens exactly when window and frames allow it, and then by exactly the pages needed |
| `HeapUsers.VirtualHeap.Search` | src/kernel/memory/vmheap.c:77-173 | the search ends, growing at most once and then by exactly the pages needed |
| `HeapUsers.VirtualHeap.Vmfree` | src/kernel/memory/vmheap.c:178-198 | exactly that block leaves; counters follow, the number of frees only if it was live |
| `HeapUsers.VirtualHeap.Run` | src/kernel/memory/vmheap.c:59-198 | any sequence of allocations and frees, with any supply of frames at each, keeps the heap and its counters; call by call, a request adds one live block exactly if it fits or the heap can grow for it, a free removes that block |
| `HeapUsers.VirtualHeap.FreeAll` | src/kernel/memory/vmheap.c:178-198 | however far the heap has grown, freeing everything in any order leaves one free block and counters zero |
| `HeapUsers.UserHeap.Start` | src/libc/stdlib/malloc.c:24-33 | the first call turns the first page into one free block |
| `HeapUsers.UserHeap.Malloc` | src/libc/stdlib/malloc.c:14-120 | a live block at least as large as asked is added and no other changes, or null; null exactly for a request that is too large or a heap that is full, from the first call on |
| `HeapUsers.UserHeap.Search` | src/libc/stdlib/malloc.c:38-117 | the search ends, growing at most once and then by exactly the pages needed; null exactly when the heap is full |
| `HeapUsers.UserHeap.Free` | src/libc/stdlib/malloc.c:122-134 | exactly that block leaves; a block that is already free ends the process |
| `HeapUsers.UserHeap.Run` | src/libc/stdlib/malloc.c:14-134 | any sequence of allocations and frees, from before the first call on, keeps the heap, and the pointers held are the live blocks; call by call, a request adds one live block exactly if it is not too large and the heap not full, a free removes that block |
| `HeapUsers.UserHeap.FreeAll` | src/libc/stdlib/malloc.c:122-134 | freeing everything in any order leaves one free block |
| `Tasking.Kernel.InsertReady` | src/kernel/tasking/process.c:25-52 | the ring stays a circular doubly linked list with the right size, the process last, and is registered |
| `Tasking.Kernel.Unlink` | src/kernel/tasking/process.c:56-86 | the ring loses exactly one member and stays well formed, also when it was the only one, the head or the tail |
| `Tasking.Kernel.TransferToReady` | src/kernel/tasking/process.c:248-267 | a registered process in the expected state becomes ready and joins the ring; one in another state loses the bits it shares with it, and nothing else changes |
| `Tasking.Kernel.WakeWaiters` | src/kernel/tasking/process.c:100-110 | exactly the listed processes that wait become ready and join the ring behind the others, in the order of the list; a dying process loses its dead mark exactly if it lists itself |
| `Tasking.Kernel.Die` | src/kernel/tasking/process.c:117-155 | the process leaves table and ring and each waiter it listed becomes ready, in no list any more, exactly when it does not wait for itself; otherwise it stays in the table, in a state no process has |
| `Tasking.Kernel.Kill` | src/kernel/tasking/process.c:157-187 | table, states and running process after a kill of any pid, registered or not; the others keep their order in the ring, the woken behind them in the order they came to wait; all invariants hold exactly when the process did not wait for itself |
| `Tasking.Kernel.Exit` | src/kernel/syscall/process_management/sys_exit.c:9-16 | the running process leaves, its waiters become ready in the order they came |
| `Tasking.Kernel.ToSleep` | src/kernel/tasking/process.c:209-232 | a ready process leaves the ring with the given state; if it was running, the one behind it in the ring runs, and none if it was alone |
| `Tasking.Kernel.Sleep` | src/kernel/tasking/proc_sleep.c:73-84 | the running process sleeps outside the ring and the one behind it in the ring runs, none if it was alone; nobody else changes |
| `Tasking.Kernel.WakeSleeper` | src/kernel/tasking/proc_sleep.c:24-64 | a sleeping process becomes ready; any other stays |
| `Tasking.Kernel.AddToWaiting` | src/kernel/tasking/process.c:234-246 | the waiter is listed unless the target is unknown or its list is full |
| `Tasking.Kernel.Wait` | src/kernel/tasking/tasking.c:543-558 | all invariants, the whole new state; on success the process behind the caller in the ring runs, and no process but the target lists the caller; the caller is stuck exactly when it is the target |
| `Tasking.Kernel.Spawn` | src/kernel/tasking/tasking.c:308-382 | a new pid, registered and last in the ring, with no waiters |
| `Tasking.Kernel.Replace` | src/kernel/tasking/tasking.c:497-514 | the pid swap and the list move keep every waiter listed by exactly one registered process, once |
| `Tasking.Kernel.Exec` | src/kernel/tasking/tasking.c:432-541 | the result, and for each way out what is left in table, ring and lists; all invariants hold exactly when no process ran, no home was found, or the old process is killed with its arguments pushed |
| `Tasking.Kernel.AwaitsOne` | src/kernel/tasking/process.c:234-246 | in every reachable state a registered process waits for at most one process, and is in state waiting if it is listed |
| `Tasking.Kernel.Do` | src/kernel/tasking/process.c:100-155 | one step, as a relation of snapshots: what it does to ring, table, lists, states and running process; a process waiting for another goes on waiting if that one is still registered and is ready if it is not; no pid comes back |
| `Tasking.Kernel.Schedule` | src/kernel/cpu/scheduler/scheduler.c:96-140 | the next process is the successor of the running one, or the head |
| `Tasking.Kernel.Tick` | src/kernel/cpu/scheduler/scheduler.c:81-94 | one tick moves to the successor in the ring |
| `Tasking.Kernel.Round` | src/kernel/cpu/scheduler/scheduler.c:81-140 | on a ring of n processes n ticks visit each exactly once and return to the first |
| `Tasking.Kernel.Run` | src/kernel/tasking/process.c:17-277 | over any sequence of system calls and ticks, ring, table and states agree, no waiter is lost, and the snapshots are a history: each follows from the one before by its step; a process that waits does so as long as the one it waits for is registered, and one that waits for itself stays asleep |
| `Tasking.WaitsOn` | src/kernel/tasking/process.c:100-155 | in every history, a process that waits for another at one moment waits for it at every later one at which both are registered |
| `Tasking.StuckForEver` | src/kernel/tasking/tasking.c:543-558 | in every history, a process that waits for itself stays registered and asleep |
| `Tasking.SelfWait` | src/kernel/tasking/tasking.c:543-558 | an instance: the process waits for itself, is in no ring and nobody else lists it |
| `Tasking.KilledSelfWait` | src/kernel/tasking/process.c:117-127 | an instance: that process, killed, stays in the table |
| `Tasking.ExecWithoutKill` | src/kernel/tasking/tasking.c:432-541 | an instance: without kill, or with it and no frame for the arguments, the running process has no place in ring or table |
| `Paging.Offsets` | include/balrog_os/memory/memory.h:94-97 | the four index macros are the indices of the page number, for every address |
| `Paging.AddFlags` | include/balrog_os/memory/memory.h:104-106 | or-ing flags into an entry keeps its frame address; on an aligned address it adds them |
| `Paging.OrSeparate` | include/balrog_os/memory/memory.h:99-106 | or on separate bits is addition |
| `Paging.PinnedBits` | include/balrog_os/memory/memory.h:118-140 | an entry is passed over exactly when its global bit or its shared bit is set |
| `PageTable.Memory.FindPage` | src/kernel/memory/vmm.c:41-114 | the level-1 table of the page; creating missing levels keeps the tables a tree, changes no translation of any space, gives each new table entry the flags present, writable and user, and fails exactly when the frames left are fewer than the missing levels |
| `PageTable.Memory.GetPage` | src/kernel/memory/vmm.c:116-130 | the frame of the page's translation, nothing changed |
| `PageTable.Memory.SetPage` | src/kernel/memory/vmm.c:132-164 | succeeds exactly when the frames left suffice for the missing levels; then the page translates to the frame with the flags given, and the global one for a kernel page, and every other page of every space as before, save the same page through a shared table; if the upper levels let everything through, the processor finds that frame with those rights; on failure every page of every space translates as before, and the levels made before it stay |
| `PageTable.MmuIsLeaf` | src/kernel/memory/vmm.c:41-164 | with upper levels that let everything through, what the processor finds at the end of its walk is what the leaf entry says |
| `PageTable.PutLeaf` | src/kernel/memory/vmm.c:132-164 | writing one leaf entry changes one page's translation |
| `PageTable.HangLeaf` | src/kernel/memory/vmm.c:41-114 | a zeroed table in an empty slot changes no translation |
| `PageTable.HangTrees` | src/kernel/memory/vmm.c:41-114 | a zeroed table in an empty slot keeps the tables a tree |
| `PageTable.Memory.NewSpace` | src/kernel/tasking/tasking.c:57-75 | a fresh empty top-level table |
| `ForkPages.EntryAddressIs` | src/kernel/tasking/tasking.c:210-233 | the or-ed address of an entry is the first address it covers |
| `ForkPages.CopyPage` | src/kernel/tasking/tasking.c:258-278 | a private leaf is shared read-only, copied to a fresh equal frame, or left, as flags and stack bound say |
| `ForkPages.CopyTable` | src/kernel/tasking/tasking.c:249-257 | the table branch, recursion included, does to the pages below an entry what the copy does to each; a new table entry is present, writable and user |
| `ForkPages.CopyPages` | src/kernel/tasking/tasking.c:235-282 | for every page below two tables the copy's entry is as specified; the source, every other space and all data frames are unchanged; no two copies share a frame, and every new frame is a table of the copy or holds a copied page |
| `ForkPages.OpenAfterCopy` | src/kernel/tasking/tasking.c:235-282 | a copy leaves the upper levels of a space letting everything through if they did |
| `ForkPages.Compose` | src/kernel/tasking/tasking.c:239-281 | copying one range of entries after another is copying the joined range |
| `ForkPages.Lift` | src/kernel/tasking/tasking.c:247-257 | a finished copy of the child tables is a finished copy of their entry |
| `ForkPages.SharePages` | src/kernel/tasking/tasking.c:304-306 | below the stack the child has the parent's frame, present, user and not writable; stack pages are fresh equal copies; the parent is unchanged |
| `ForkPages.DuplicatePages` | src/kernel/tasking/tasking.c:291-293 | below the stack the child has fresh equal frames, two for two pages; the stack is unchanged |
| `ForkPages.Fork` | src/kernel/tasking/tasking.c:320-343 | after fork: nothing where the parent has nothing, else shared or copied; and the kernel half; the processor finds for each private page of the parent the parent's frame, not writable, or a frame of the child's own, writable; every new frame is a table of the child or a copy of a stack page |
| `ForkPages.ForkAndSplit` | src/kernel/tasking/tasking.c:384-392 | after fork, writes and duplication every private page of the parent is a page of the child, writable to the processor, in a frame nobody else uses; it holds what it held at the fork exactly when it is in the stack or its frame has not been given other contents |
| `Teardown.Clean` | src/kernel/memory/vmm.c:194-222 | exactly the tables below are freed, each once, with the privately mapped frames unless only tables are wanted; the private entries are cleared |
| `Teardown.Compose` | src/kernel/memory/vmm.c:198-220 | cleaning one range of entries after another is cleaning the joined range |
| `Teardown.OnePlace` | src/kernel/memory/vmm.c:194-222 | owner, level and covered pages determine a table |
| `Teardown.CleanPageTable` | src/kernel/memory/vmm.c:224-232 | all lower-level tables of the space are gone and nothing else; with tables only, every other space keeps its private pages and their contents |
| `Teardown.DropTables` | src/kernel/tasking/process.c:139-142 | with tables only and then the root, exactly the tables of the space are gone and the others stand |
| `Teardown.ForkAndExit` | src/kernel/tasking/process.c:139-142 | a still-sharing child's exit: the frames in use are exactly those before the fork, unchanged, and one distinct frame per private stack page of the parent; nothing is lost exactly when there is no such page |
| `Teardown.ForkAndOrphan` | src/kernel/tasking/process.c:139-142 | a forking parent that exits first: the child's pages stay mapped, to frames in use exactly for stack pages |
| `StackLeak.LostFrame` | src/kernel/tasking/process.c:139-142 | an instance: one process with one stack page; after fork and exit a frame nobody maps holds a copy of it |
| `Bitmap.FindFree` | src/kernel/file_system/ext2/ext2.c:131-166 | marks and returns the first clear bit of the scanned sectors, 0 exactly when there is none |
| `Bitmap.UpperHalf` | src/kernel/file_system/ext2/ext2.c:258-264 | the search from the middle reads the last sector exactly when its start falls no later in a sector than the last byte |
| `Bitmap.UpperHalfMisses` | src/kernel/file_system/ext2/ext2.c:258-264 | the search from the middle finds a clear bit whenever the bitmap has one, exactly for bitmaps of at most one sector |
| `Bitmap.MissedBlock` | src/kernel/file_system/ext2/ext2.c:131-166 | an instance: 600 bytes with one clear bit in the second sector, and the search from the middle returns 0 |
| `Bitmap.ClearId` | src/kernel/file_system/ext2/ext2.c:208-217 | clearing by sector, byte and bit clears exactly the bit of the id |
| `Bitmap.TakeCount` | src/kernel/file_system/ext2/ext2.c:131-166 | marking a clear bit leaves one clear bit less |
| `Bitmap.GiveCount` | src/kernel/file_system/ext2/ext2.c:193-225 | clearing a set bit leaves one clear bit more |
| `Ext2.HeldOnce` | src/kernel/file_system/ext2/ext2.c:481-580 | no block number appears twice among the slots of live files |
| `Ext2.Volume.constructor` | src/kernel/file_system/ext2/ext2.c:131-299 | a volume without files: whatever the bitmap marks is reserved |
| `Ext2.Volume.Alloc` | src/kernel/file_system/ext2/ext2.c:258-299 | a block that nobody holds is marked, counted and held; none exactly when the scanned sectors have no clear bit, which for the search from the start is when the volume is full |
| `Ext2.Volume.GiveBlock` | src/kernel/file_system/ext2/ext2.c:193-225 | the block is unmarked and counted |
| `Ext2.Volume.Grow` | src/kernel/file_system/ext2/ext2.c:487-539 | numbers stay where there were some, new ones only among the blocks needed; all needed ones have one exactly when the volume can supply the missing ones and a missing indirect block; how many blocks are free afterwards |
| `Ext2.Volume.UpdateFile` | src/kernel/file_system/ext2/ext2.c:481-580 | all invariants; every byte position asked for whose block has a number holds the buffer's byte, every block with no such position but the file's indirect block is unchanged, save that a write of no bytes inside a block rewrites that block; the inode record, byte for byte the table slot, has the new size and the sectors of its blocks; other files hold what they held; as for Grow, and the result is 0 in any case |
| `Ext2.NeededIs` | src/kernel/file_system/ext2/ext2.c:498-506 | a block is needed exactly when its first byte is below the size and it is one of the 1036 a file can have |
| `Ext2.Volume.ReadFile` | src/kernel/file_system/ext2/ext2.c:443-479 | the file's blocks in order, absent ones passed over |
| `Ext2.Volume.WriteThenRead` | src/kernel/file_system/ext2/ext2.c:443-580 | for every cached file in every reachable state: up to the first block without a number every byte position asked for reads back as written on both sides of the indirect boundary, and every block with no such position as it stood on the disk; no block is without a number exactly when the volume can supply what is missing |
| `Ext2.LostBlock` | src/kernel/file_system/ext2/ext2.c:508-539 | an instance: thirteen blocks written with thousands free, success reported, the thirteenth not stored |
| `Ext2.Volume.Create` | src/kernel/file_system/ext2/ext2.c:371-403 | a new live file with one fresh block and the inode record for it, or none exactly on a full volume |
| `Ext2.Volume.FreeFileBlocks` | src/kernel/file_system/ext2/ext2.c:843-877 | the file holds nothing any more; only it lost blocks |
| `Ext2.Volume.Unlink` | src/kernel/file_system/ext2/ext2.c:1296-1304 | exactly the blocks of the file, the indirect one included, go back, with its inode number and its cache entry; its slot in the table is cleared and no other |
| `Ext2.Volume.CacheSearch` | src/kernel/file_system/ext2/ext2_cache/ext2_cache.c:22-47 | the cached inode equals the table slot |
| `Ext2.PutInodeAt` | src/kernel/file_system/ext2/ext2.c:331-369 | an inode written to the table is read back; every other slot is unchanged |
| `Ext2.Volume.Run` | src/kernel/file_system/ext2/ext2.c:371-580 | over any run of create, lookup, write and unlink, held blocks are marked and held once, the counters are the clear bits, cached inodes equal their slots, and no file holds blocks beyond its size; the snapshots are a history: each operation does to its file what it is there for and leaves the inodes and blocks of all others |
| `Ext2.Spared` | src/kernel/file_system/ext2/ext2.c:481-580 | in every history, a block of a file shows what it did until a write asks for it or the file is removed |
| `Ext2.LastWriteStands` | src/kernel/file_system/ext2/ext2.c:481-580 | after any run, a block of a file holds what the last write that asked for it put there, if it had a number |
| `Ext2Directory.Directory.constructor` | src/kernel/file_system/ext2/ext2.c:656-700 | a fresh directory holds exactly the two dot entries, both of kind directory |
| `Ext2Directory.Directory.Find` | src/kernel/file_system/ext2/ext2.c:634-654 | the entry of a name exactly when the directory has it, else the last entry |
| `Ext2Directory.Directory.Lookup` | src/kernel/file_system/ext2/ext2.c:405-425 | the inode of a name, 0 if it has none or is too long |
| `Ext2Directory.Directory.Create` | src/kernel/file_system/ext2/ext2.c:702-763 | adds exactly that name with that inode and kind, and exactly when it is new, short enough and the last entry has room; the room left is less by the size of the entry |
| `Ext2Directory.Directory.Remove` | src/kernel/file_system/ext2/ext2.c:883-909 | removes exactly that name |
| `Ext2Directory.SizesAddUp` | src/kernel/file_system/ext2/ext2.c:45-73 | entry sizes sum to the directory size |
| `XhciRing.HoldsRead` | src/kernel/drivers/usb/xhci.c:490-511 | the slot at the consumer's place matches its cycle exactly when the entry has been written, and holds it then |
| `XhciRing.StepKeeps` | src/kernel/drivers/usb/xhci.c:490-511 | every look of the controller takes the next entry sent, or none; at the end of the ring it goes where the link points and turns its cycle as the link says |
| `XhciRing.StallsWhen` | src/kernel/drivers/usb/xhci.c:490-511 | between pushes a controller with entries to take stalls exactly when it stands at the link and all 255 slots are outstanding |
| `XhciRing.Drains` | src/kernel/drivers/usb/xhci.c:490-511 | short of a full ring everything pushed is taken |
| `XhciRing.Ring.constructor` | src/kernel/drivers/usb/xhci.c:134-163 | the ring with its toggling link |
| `XhciRing.Ring.Push` | src/kernel/drivers/usb/xhci.c:490-511 | the entry is appended to what was sent and stored with its parameter, status and control, but for the lap's cycle bit, across any number of wraps |
| `XhciRing.Ring.Run` | src/kernel/drivers/usb/xhci.c:490-511 | any interleaving with at most 255 outstanding, pushes in two steps: the k-th entry taken has parameter, status and control of the k-th pushed, and the cycle bit of lap k / 255 |
| `XhciRing.FullRingStalls` | src/kernel/drivers/usb/xhci.c:490-511 | an instance: a lap taken, a whole lap pushed, and the controller stalls |
| `XhciRing.EventRing.Take` | src/kernel/drivers/usb/xhci.c:516-541 | the next event posted, with its parameter, status and control, exactly when there is one |
| `XhciRing.EventRing.Run` | src/kernel/drivers/usb/xhci.c:516-541 | any interleaving of posts and looks, across any number of wraps: the ring is a queue of 256 places, and what the driver reads is what left it |
| `XhciRing.EventRing.WaitEvent` | src/kernel/drivers/usb/xhci.c:516-559 | while events arrive by any schedule: the queue after so many looks, the completion code of the first event of the wanted kind, earlier ones dropped; -1 only after the deadline, when none that arrived is of that kind |
| `VfsPath.SplitOfJoin` | src/kernel/file_system/vfs/vfs.c:19-30 | a path put together from names, each behind a slash, has exactly those components |
| `VfsPath.JoinOfSplit` | src/kernel/file_system/vfs/vfs.c:19-30 | an absolute path without empty components is its components, each behind a slash |
| `VfsPath.Sanitize` | src/kernel/file_system/vfs/vfs.c:549-577 | runs of slashes collapsed to one |
| `VfsPath.CollapseComponents` | src/kernel/file_system/vfs/vfs.c:549-577 | collapsing keeps the components |
| `VfsPath.RootPath` | src/kernel/file_system/vfs/vfs.c:160-186 | the rest has exactly the components after the mount point; it is the end of the path, the whole path for the root, a single slash if nothing is left |
| `Vfs.MountTree.constructor` | src/kernel/file_system/vfs/vfs.c:581-595 | the root, with its device |
| `Vfs.MountTree.FindMount` | src/kernel/file_system/vfs/vfs.c:32-94 | the deepest node with a device, and the deepest node, on the way of the path |
| `Vfs.MountTree.GrowChildren` | src/kernel/file_system/vfs/vfs.c:240-262 | moving the children, each to a new address, keeps the tree, its parent links and every node's device and kind, and makes room for five more |
| `Vfs.MountTree.AddChild` | src/kernel/file_system/vfs/vfs.c:240-280 | a new directory below a node; the children of every node stay within their array |
| `Vfs.MountTree.InsertNodes` | src/kernel/file_system/vfs/vfs.c:188-290 | the node at the path, with what is missing made; none exactly when something on the way is no directory, and nothing changed then |
| `Vfs.MountTree.Mount` | src/kernel/file_system/vfs/vfs.c:292-325 | succeeds exactly when it can; then the device is at the path and every other node has the device it had |
| `Vfs.MountTree.Lookup` | src/kernel/file_system/vfs/vfs.c:115-186 | the device that the mount map has for the longest prefix of the components, and exactly the components after it |
| `Vfs.MountTree.MountAll` | src/kernel/file_system/vfs/vfs.c:292-325 | any sequence of mounts keeps the tree; the mount map is the fold of the successful ones |
| `Vfs.MountChanges` | src/kernel/file_system/vfs/vfs.c:32-94 | a new mount changes the mount point of exactly the paths under it with no deeper one |
| `Vfs.DeepestIsLongest` | src/kernel/file_system/vfs/vfs.c:32-94 | the depth found in the tree is longest-prefix match on the mount map |
| `Vfs.MoveTree` | src/kernel/file_system/vfs/vfs.c:240-262 | moving one child, with its children's links, keeps the tree |
| `Calendar.CivilIsCalendar` | src/kernel/cpu/rtc/rtc.c:88-98 | for every date of every year the formula is the calendar's count |
| `Calendar.NextDay` | src/kernel/cpu/rtc/rtc.c:88-98 | each day is one more than the day before |
| `Calendar.EpochIsZero` | src/kernel/cpu/rtc/rtc.c:88-98 | 1 January 1970 is day 0 |
| `Calendar.EpochCounts` | src/kernel/cpu/rtc/rtc.c:100-105 | the epoch of the first second of 1970 is 0, and each second is one more than the second before |
| `Calendar.EpochOrder` | src/kernel/cpu/rtc/rtc.c:75-105 | every reading the decoder lets through stands for a moment, and the epoch orders readings exactly as calendar and clock order those moments |
| `Calendar.LeapSecondClash` | src/kernel/cpu/rtc/rtc.c:75-105 | for readings on days that exist, a later one has a larger epoch exactly when it is not the second after a leap second; then they are equal |
| `Calendar.EveryLeapSecond` | src/kernel/cpu/rtc/rtc.c:75-105 | every leap second has the epoch of the first second of the next minute, over the ends of hours, days, months and years |
| `Calendar.NoSuchDay` | src/kernel/cpu/rtc/rtc.c:75-105 | an instance: 31 February is read as 3 March |
| `Uuid.HexValueIs` | src/shared/uuid/uuid.c:22-40 | a digit of either case has its place in the table of digits as value, any other character -1 |
| `Uuid.Print` | src/shared/uuid/uuid.c:42-60 | 36 characters, dashes and upper-case digits, that spell the identifier: its first four bytes and the next two pairs as little-endian numbers, the other eight bytes in order |
| `Uuid.Parse` | src/shared/uuid/uuid.c:62-91 | accepts exactly the dashed hexadecimal strings of 36 characters, and returns the bytes they spell in that way |
| `Uuid.ParseOfPrint` | src/shared/uuid/uuid.c:42-91 | parsing the text of any identifier returns it |
| `Uuid.PrintOfParse` | src/shared/uuid/uuid.c:42-91 | printing any accepted text returns it in upper case |

## Left out

- Mutexes, `park` and `unpark`: they rest on inline assembly; a system call is one step here.
- The physical frame allocator's start-up and placement: it is a supply of fresh zeroed frames.
- PageTable.Memory.NewSpace: no allocation fails; the code does not look whether one did.
- ForkPages.CopyPage: as for CopyPages.
- ForkPages.CopyTable: as for CopyPages.
- ForkPages.CopyPages: no allocation fails in the middle of a copy; the code does not look whether one did, and would go on with frame 0.
- ForkPages.SharePages: as for CopyPages.
- ForkPages.DuplicatePages: as for CopyPages.
- ForkPages.Fork: as for CopyPages.
- ForkPages.ForkAndSplit: as for CopyPages; between fork and duplication only contents of frames change.
- Teardown.ForkAndOrphan: the parent maps each of its private frames once.
- PageTable.Memory.SetPage: huge-page entries, TLB invalidation and `vmm_free_page` are not modelled.
- HeapUsers.VirtualHeap.Vmalloc: the pages mapped before a frame runs out, and their unmapping, are not modelled; whether enough frames are left is known at the start.
- Heap.Area.HeapFree: the argument is the address of a block; pointers that no block starts at are not modelled, nor is a size that wraps around. The `_non_arena` bit is never read and is omitted.
- Tasking.Kernel.Sleep: when a sleeper wakes; equal deadlines share one node of the sleeper tree, so it is only known that a sleeper can be woken.
- Tasking.Kernel.WakeSleeper: which sleeper is due, and its removal from the sleeper tree.
- Tasking.Kernel.Run: a process that waits for itself is not killed, and no exec leaves the old process running; those steps are described on their own.
- Tasking.Kernel.Exec: loading the file, user ids and the `/bin/auth` case are not modelled; a file that is not found is not reported by the code either.
- Tasking.Kernel.Exit: the clean-up queue of kernel stacks, memory cleaning and parent pointers are not modelled.
- Tasking.Kernel.Spawn: name, user ids, working directory and registers of the new process are not modelled.
- Ext2.Volume.UpdateFile: device errors, 32-bit wrap-around of sizes and access times are not modelled; the buffer holds every block that is written.
- Ext2.Volume.Create: there is a free inode; the code does not check that there is, and would go on with inode 0, for which there is no slot in the table.
- Ext2Directory.Directory.Create: the inode number is given; an allocation that returns 0 writes an entry that reads as free.
- Ext2.Volume.Unlink: directories, link counts of parents and the directory's own write-back are not modelled here.
- Ext2Directory.Directory.Find: strings do not contain NUL; the unused bytes behind a name are not modelled.
- Path lookup through directories, relative paths, `mkdir` initialisation and `rmdir` of ext2; the open-file buffer cache.
- XhciRing.EventRing.WaitEvent: an arrival that finds the ring full is held back and not retried; the pointer reported back to the controller is the driver's own.
- Everything else of the xHCI driver: registers, doorbells, contexts, transfers.
- Vfs.MountTree.Mount: absolute paths; the prefixing of a working directory, the copy of the path into the device and `__vfs_add_vfs_node` are not modelled.
- Vfs.MountTree.GrowChildren: the children array is replaced entry by entry, not at once.
- Uuid.Parse: what a refused text leaves in the output buffer is not stated.
- Calendar.ToEpoch: reading and decoding the clock registers is not modelled.
- `rbt_clear_tree`, `rbt_print`, and node allocation failure.
- The ELF loader, ACPI, APIC, PCI, AHCI, ATA, serial, keyboard and screen drivers, boot code, interrupt frames and register switching.
- Shells, tools, libc stubs, logging, vectors, lists, hash tables and string helpers: they would only add easy members.
