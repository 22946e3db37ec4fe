# Crius kernel: models and proofs

Crius is a small x86-64 kernel. This project models the parts of it whose correctness rests on in-place data
structures that several functions keep consistent, and proves what those functions keep together. Each model follows
the C code branch by branch; where the code and its documentation disagree, the model follows the code.

| files | what they model |
|---|---|
| Bits, Pmm | physical frames: the bitmap, the 8-bit reference counts, `pages_free`, the scan hint |
| PageTables, Subtrees, FrameBudget, CopyOrder, EntryMarks, Vmm | the four-level page tables as nodes of a forest, every elementary change to them, the frames each takes, the order in which fork copies and the entries it marks, and `vmm.c` on top |
| CopyOnWrite, ReadOnlyPages | whole runs of spawn, map, fork, store, exec and exit against a system in which fork copies eagerly, and what becomes of read-only pages in them |
| HeapBlocks, HeapLists, Kmalloc, HeapRuns | the boundary-tag heap over page runs, its free list, and whole runs of `kmalloc`, `kfree` and stores |
| ProcessTree, Processes, ProcessSteps, ProcessTable | `tasks[64]`: child lists, exit, kill, wait, kernel stacks, the scheduler, and whole runs |
| TrbRing, CommandRing, EventRing | the xHCI rings as two processes that interleave word by word |
| Ext2Alloc, Ext2Blocks, Ext2Files, Ext2Volume, Ext2Runs, Ext2Inodes | block bitmaps, block mapping, file data, whole runs of reads and writes over several files, the inode table |
| Ext2Dirents, Ext2Directory, Ext2Folder | directory blocks tiled by variable-length entries, directories on a volume, and whole runs of adds and removes |
| TreeSize, ElfImage, ElfLoader, ExecSpace | loading a program over the page tables, the frames that takes, and the rollback of `do_exec` |
| Paths | `resolve_abs` |

## How to read it

*Frames* are named by page frame number, 0 standing for the C code's failure value. `Vmm.AddressSpaces` keeps the
frame contents in the field `mem`, which is what the higher-half direct map shows; the ghost `shape` names every table
and page by its path from a root table, and `PageTables.Consistent` says that `mem`, `shape` and the reference counts
agree: each entry leads to its node, a frame's count is the number of its users, and two pages share a frame only at
the same address and only if neither is writable. `Vmm.Space` is what one address space shows, page by page.

*The heap* is word-addressed. The ghost `g` records where blocks are, which are free, and which page run each belongs
to. `Tiled`, `Tagged`, `Chained` and `Coalesced` are the invariants; `Valid` is their conjunction.

*Processes*: a system call runs with interrupts off and is one step. A context switch saves the stack pointer, runs
`do_schedule` and reloads the stack pointer, also in one step. `kids` is the ghost list of children behind each
`first_child`; `owner` records which kernel stacks are allocated and who holds them; `onStack` is the stack the current
task's kernel frames are on.

*Runs*: a method named `Run` takes any sequence of operations. For the rings it ends in the state that a queue played
over the same moves ends in. For memory, heap, processes, files and directories it returns, besides the results, a ghost
trace of states: the first is the state before, the last the state after, and each follows from the one before by one
operation. The relation between two states says when the operation succeeds and what it does (`CopyOnWrite.Took`,
`HeapRuns.Step`, `ProcessSteps.Moves`, `Ext2Runs.FileStep`, `Ext2Folders.DirStep`); theorems about runs are lemmas over
such traces.

*xHCI*: on the command ring a run is any sequence of driver words and controller reads; the controller reads a 16-byte
TRB at once, at any point between two words of the driver. On the event ring the controller writes word by word, and
before each access of the driver, to each word and to the dequeue pointer, it takes any number of steps.

*ext2*: a volume is an array of raw 1024-byte blocks. The ghost `user` says what each block in use is for, so that two
pointers never share a block.

Things the code does that its documentation or a reader might not expect, all of them part of the model:

- fork marks every page it copies read-only and copy-on-write, also pages that were read-only, although docs/index.md:192
  says writable ones only. A fork that fails marks pages, too, and the rollback leaves them marked. Marked are exactly
  the pages whose last-level table the free frames reach to, counting the root table and then the tables in the order
  of copying (`Vmm.ForkMarks`, `CopyOnWrite.ForkReaches`); every other entry is as it was. So a store that the parent
  could not do before a fork it can do afterwards exactly if the page was neither writable nor copy-on-write, the fork
  came to it, and the fork did not take the last frame (`CopyOnWrite.ForkGrantsStore`). Inputs: a page mapped read-only
  (`CopyOnWrite.ReadOnlyUntilFork`), and a fork that fails with four frames where five are needed
  (`ReadOnlyPages.FailedForkOpens`). Without a fork of its task such a page stays shut (`ReadOnlyPages.SealedRun`).
- task selection ignores priorities, although docs/index.md:230 says otherwise.
- `pmm_init` counts a frame once for every map entry that lists it. Its state is consistent exactly when no frame is
  listed twice (`Pmm.FrameAllocator.constructor`).
- `kmalloc` of at least 2^64 - 47 bytes wraps around and returns a block that is too small (`Kmalloc.Heap.Alloc`).
- `kfree` loses blocks. `HeapLists.FreedList` is exactly the list it leaves (`Kmalloc.Heap.Free`). The freed block is
  found by later searches if and only if the block before it is not free, and the block after it is not free, or heads
  the list, or has a predecessor on its chain. The other blocks that were on the list stay on it if and only if, when
  the run is kept, the block before is free or that condition on the block after holds, and when the run is released,
  the block before is not free; otherwise all of them are lost (`HeapLists.FreedFinds`). The reason: a block merged
  backwards is on no list, and `free_list_remove` of a block without a predecessor makes its successor the head,
  whichever list it was on. As long as no block behind a free one is freed, every free block is found
  (`HeapRuns.NoneLost`); the first such `kfree` loses a block unless no free block is left (`HeapRuns.ListedStep`).
  `Kmalloc.Heap.LoseList` is an input: of four adjacent blocks z, a, b, c in use, freeing a, then b, then z leaves an
  empty list.
- an exit code decodes to itself exactly for 0 to 255, a signal exactly for 1 to 126 (`Processes.ExitDecodes`,
  `Processes.SignalDecodes`).
- with 255 commands outstanding the next one makes the xHCI controller wait for ever (`CommandRings.CommandRing.Overrun`).
- `ext2_write_at` reports success although a block could not be linked. It is complete exactly when it is empty or within
  the first 268 blocks and the free blocks suffice for the gaps and the table; it reports success exactly when the free
  blocks suffice for the gaps, the table and one lost block for each block past 268, or only the table is wanting for
  the very last block (`Ext2Volumes.Volume.WriteAt`). `Ext2Volumes.LongWriteReported` is an input: 269 blocks written
  to an empty file are reported as written if and only if 270 blocks are free.
- `ext2_free_block` of a block that is free already makes the counts wrong (`Ext2Alloc.BlockAllocator.FreeBlock`).
- `add_dirent` reports success when its new block could not be linked. A name reported as added is found exactly if an
  entry had room, or the new block is among the first 12, or among the first 268 with a table or a second free block
  (`Ext2Folders.Directory.AddDirent`). Each name lost costs a block for good (`Ext2Folders.BlocksLost`).
  `Ext2Folders.NamesLost` is an input: twelve full blocks and one free block.
- `ext2_unlink` removes the first entry with the same inode, which is the named one exactly when no earlier entry has
  that inode (`Ext2Directories.UnlinkExact`). With two names of one inode in a directory, unlinking the second removes
  the first (`Ext2Directories.UnlinkSecondName`; `Ext2Directories.UnlinkHardLink` is an input).

## Model

| member | source | states |
|---|---|---|
| Bits.SetBitAtChangesOne | kernel/mm/pmm.c:21-26 | storing one bit of the packed bitmap changes that bit and no other |
| Bits.Bitmap.Get | kernel/mm/pmm.c:17-19 | the bit is 0 exactly for the indices in the set of clear ones |
| Bits.Bitmap.Set | kernel/mm/pmm.c:21-26 | the set of clear indices gains or loses exactly this one |
| Pmm.FrameAllocator.constructor | kernel/mm/pmm.c:28-80 | the free frames are those the memory map covers; the state is consistent if and only if the map lists no frame twice |
| Pmm.FrameAllocator.AllocPage | kernel/mm/pmm.c:82-102 | fails if and only if no frame is free, whatever the scan hint; otherwise one free frame gets count 1 and nothing else changes |
| Pmm.FrameAllocator.AllocPages | kernel/mm/pmm.c:104-132 | for two or more frames: the lowest run of that many free frames, whenever there is one |
| Pmm.FrameAllocator.FreePage | kernel/mm/pmm.c:134-152 | one reference fewer, the frame free with the last; nothing for a free or foreign frame; `pages_free` stays the number of clear bits |
| Pmm.FrameAllocator.FreePages | kernel/mm/pmm.c:167-170 | a run that was handed out is free again |
| Pmm.FrameAllocator.IncRef | kernel/mm/pmm.c:154-159 | one reference more, saturating at 255 |
| Pmm.FrameAllocator.GetRefcount | kernel/mm/pmm.c:161-165 | the count of the frame, 0 when it has none |
| PageTables.NewTable | kernel/mm/vmm.c:11-17 | an empty table on a fresh frame keeps tables, sharing and counts consistent |
| PageTables.MapLeaf | kernel/mm/vmm.c:86-90 | so does entering a page |
| PageTables.ShareLeaf | kernel/mm/vmm.c:134-145 | so does sharing a page with a second space when both entries are read-only |
| PageTables.Unshare | kernel/mm/vmm.c:265-273 | so does moving one of several users to a copy |
| PageTables.UsersBound | kernel/mm/vmm.c:134-145 | a frame has at most one user per address space |
| PageTables.CountsDetermined | kernel/mm/pmm.c:134-159 | the nodes of the tables determine every reference count |
| Vmm.PathIsPageNumber | kernel/mm/vmm.c:54-57 | the four indices are equal exactly for equal 48-bit page numbers |
| Vmm.AddressSpaces.GetPhys | kernel/mm/vmm.c:101-120 | the walk is the flat map from pages to frames, 0 where it is undefined |
| Vmm.AddressSpaces.AllocTable | kernel/mm/vmm.c:11-17 | a zeroed table on a fresh frame, or no change |
| Vmm.AddressSpaces.FindTable | kernel/mm/vmm.c:59-84 | the last-level table, with the missing tables made, if and only if there are frames for them; whatever was added lies on the way to the page and no answer changes |
| Vmm.AddressSpaces.MapPage | kernel/mm/vmm.c:51-91 | the flat map gains exactly this page with exactly these permissions, or on failure nothing; it succeeds if and only if the page is not there and the frames suffice for the missing tables; whatever was added lies on the way to the page, and every other page keeps its entry |
| EntryMarks.ShareMarks | kernel/mm/vmm.c:134-145 | one entry of copy_pt: in both spaces it is the old entry made read-only and copy-on-write, and no other entry changes |
| Vmm.AddressSpaces.CopyPt | kernel/mm/vmm.c:134-145 | every present page is shared with the copy, both entries marked, and the counts grow by one each without saturating |
| Vmm.AddressSpaces.CopyTable | kernel/mm/vmm.c:147-196 | a complete copy of the tables and pages below, or on failure exactly the part before the table that no frame was left for, in the order of addresses; the pages copied are marked and no other entry changes |
| CopyOrder.StuckBelow | kernel/mm/vmm.c:147-196 | a copy that stops below one entry stops there for the whole table: everything before is copied and nothing after |
| CopyOrder.RankReached | kernel/mm/vmm.c:147-196 | when the frames run out, a table is copied if and only if its place in the order of copying is at most the number of tables copied |
| Vmm.AddressSpaces.CopyReach | kernel/mm/vmm.c:147-196 | whether or not the copy is complete, a page is marked if and only if the free frames reach to its table |
| Vmm.AddressSpaces.FreePt | kernel/mm/vmm.c:198-204 | every page below is dropped once |
| Vmm.AddressSpaces.FreeTable | kernel/mm/vmm.c:206-222 | every page and table below is dropped once |
| Vmm.AddressSpaces.FreeUserPages | kernel/mm/vmm.c:224-233 | exactly the nodes below the root are gone, and every other space shows what it showed |
| Vmm.AddressSpaces.CreateSpace | kernel/mm/vmm.c:45-49 | an empty root table on a fresh frame with the kernel's upper half, or no change |
| Vmm.AddressSpaces.NewSpaceEmpty | kernel/mm/vmm.c:122-132 | a new space shows no page and the others are unchanged |
| Vmm.AddressSpaces.Destroy | kernel/process/process.c:224-233 | nothing of the space is left, every other space shows what it showed, and exactly the frames that no other space uses are free again |
| FrameBudget.FramesFreed | kernel/process/process.c:224-233 | dropping a space frees exactly the frames that no other space uses |
| FrameBudget.FramesTaken | kernel/mm/vmm.c:147-196 | a copy that shares its pages takes one frame for each of its tables |
| Vmm.AddressSpaces.ForkSpace | kernel/process/fork.c:32-49 | success if and only if there is a frame for every table of the parent: the child shows the parent's bytes through the parent's entries, marked, and every page of both is read-only, copy-on-write and shared; failure: which tables there are, counts and free frames are exactly as before; either way an entry of the parent is marked if and only if the free frames reach to its table in the order of copying, every other entry is as it was, and all existing spaces show what they showed |
| Vmm.AddressSpaces.HandleCowFault | kernel/mm/vmm.c:235-274 | afterwards the page is writable, with its other permissions as before, no other entry changes, and no space shows anything different; the exact condition under which it fails, and the frame it takes |
| Vmm.AddressSpaces.MapFresh | kernel/process/exec.c:99-125 | the space gains a page with these bytes and permissions, or everything but linked tables is given back; when exactly, and how many frames it takes |
| Vmm.AddressSpaces.Store | kernel/arch/page_fault.c:40-52 | a store, with the fault it may take, changes one byte of one space and at most the entry of its page; it succeeds if and only if the page is writable, or copy-on-write and alone or with a frame to copy to |
| Vmm.AddressSpaces.Lend | kernel/mm/pmm.c:82-102 | a frame taken by another part of the kernel changes no space |
| Vmm.AddressSpaces.TakeBack | kernel/mm/pmm.c:134-152 | nor does giving it back |
| CopyOnWrite.Tasks.DoFork | kernel/process/fork.c:14-49 | the child, in the lowest free slot, owns what the parent owned; success if and only if there is a slot and a frame for every table; exactly the entries of the parent that the fork comes to are marked, also when it fails |
| CopyOnWrite.Tasks.DoStore | kernel/mm/vmm.c:235-274 | one byte of one task changes, and at most the entry of that page |
| CopyOnWrite.Tasks.DoExec | kernel/process/exec.c:58-195 | the task owns exactly the new program's pages, or nothing changes; success if and only if the program can run, there are frames for its tree, and a kernel stack |
| CopyOnWrite.Tasks.DoExit | kernel/process/process.c:221-233 | exactly the pages of the exiting process disappear |
| CopyOnWrite.Tasks.Step | kernel/mm/vmm.c:134-274 | one operation of the lazy system is that operation of the eager one; it succeeds if and only if it can, told beforehand, takes or frees exactly as many frames as it must, and of every page that stays says what its entry is afterwards |
| CopyOnWrite.Tasks.Run | kernel/mm/vmm.c:134-274 | for every sequence of operations, interleaved with frames taken and given back by the rest of the kernel: every state of the trace is consistent and shows what the eager-copy system owns, every operation succeeds exactly when it can, and once all tasks are gone the frames in use are those of the rest of the kernel |
| CopyOnWrite.RunIsEager | kernel/mm/vmm.c:134-274 | each state of a run is what the eager system makes of the first |
| CopyOnWrite.StoreAfterFork | kernel/process/fork.c:32-49 | after a fork a store to any page of parent or child succeeds if and only if a frame is left |
| CopyOnWrite.StoreAfterFailedFork | kernel/process/fork.c:32-49 | after a fork that failed the parent can store where it could before and to the pages, neither writable nor copy-on-write, that the fork came to, and nowhere else |
| CopyOnWrite.ForkGrantsStore | kernel/mm/vmm.c:134-145 | for a fork that succeeds or fails: the parent cannot do a store before and can do it after if and only if the page was neither writable nor copy-on-write, the fork came to it, and the free frames were not exactly as many as its tables |
| CopyOnWrite.ReadOnlyUntilFork | kernel/mm/vmm.c:134-145 | an input: a page mapped read-only can be stored to after a fork that comes to it |
| ReadOnlyPages.SealedStep | kernel/mm/vmm.c:134-145 | a page neither writable nor copy-on-write keeps its bytes and its entry through every operation, except that a fork by its task that comes to it unseals it |
| ReadOnlyPages.SealedRun | kernel/arch/page_fault.c:40-52 | in every run such a page refuses every store and keeps its bytes until its task forks or leaves its space |
| ReadOnlyPages.FailedForkGrants | kernel/process/fork.c:32-49 | every fork that fails leaves the sealed pages it came to open for stores, with counts and free frames as before |
| ReadOnlyPages.FailedForkOpens | kernel/process/fork.c:32-49 | an input: two last-level tables and four free frames |
| CopyOnWrite.Tasks.CountsExact | kernel/mm/pmm.c:134-159 | in every reachable state a page's count is the number of pages on its frame, at most 64, and 1 if it is writable |
| HeapBlocks.PayloadsApart | kernel/mm/kmalloc.c:33-48 | payloads of different blocks have no word in common |
| HeapBlocks.NeverFound | kernel/mm/kmalloc.c:69-75 | a block that is a chain of its own is never found by first fit |
| Kmalloc.Rounded | kernel/mm/kmalloc.c:133-136 | room for header, payload and footer exactly when the addition does not wrap |
| Kmalloc.Heap.constructor | kernel/mm/kmalloc.c:122-127 | the invariants hold of the initial heap |
| Kmalloc.Heap.InsertFree | kernel/mm/kmalloc.c:50-56 | the free chains stay disjoint and well formed, with the block at the head |
| Kmalloc.Heap.RemoveFree | kernel/mm/kmalloc.c:58-67 | the same, with the block a chain of its own; the list then starts at the block's successor if it had no predecessor, on the list or not |
| Kmalloc.Heap.FindFit | kernel/mm/kmalloc.c:69-75 | the first block of the list that is long enough |
| Kmalloc.Heap.SplitBlock | kernel/mm/kmalloc.c:77-89 | the run stays tiled and tagged, and no payload changes |
| Kmalloc.Heap.NewPageRun | kernel/mm/kmalloc.c:91-120 | a new run that overlaps no other, with one free block in front of the list, if and only if the table has room and a frame is free; a single page when no run of frames is long enough |
| Kmalloc.Heap.Alloc | kernel/mm/kmalloc.c:129-151 | the first block of the list that fits, or of a new run; success if and only if there is one or the run table and the frames allow a new run; one more block in use and no other changed; the list afterwards, block by block; live payloads untouched; the payload is big enough if and only if the size did not wrap |
| Kmalloc.Heap.FindPageRun | kernel/mm/kmalloc.c:153-161 | the run that contains the block, if any |
| Kmalloc.Heap.MergeForward | kernel/mm/kmalloc.c:163-178 | no free block follows the result, live payloads are untouched, and every list is as it was without the block absorbed; the searched list becomes what is behind that block if it was on another list and had no predecessor there |
| Kmalloc.Heap.MergeBackward | kernel/mm/kmalloc.c:180-199 | no free block precedes the result; if it merged, the result is on no searched list, and the searched list has exactly its other blocks |
| Kmalloc.Heap.Free | kernel/mm/kmalloc.c:201-224 | exactly this block is given back, merged with its free neighbours, and live payloads are untouched; the searched list afterwards is FreedList, block by block; a second kfree before the next kmalloc changes nothing at all |
| HeapLists.FreedFinds | kernel/mm/kmalloc.c:201-224 | of that list: the freed block is on it, and the other blocks stay on it, each if and only if a condition on the neighbours holds |
| HeapLists.StaysListed | kernel/mm/kmalloc.c:201-224 | if every free block was on the list, every one is afterwards if and only if the block before was not free or no free block is left |
| Kmalloc.Heap.LoseList | kernel/mm/kmalloc.c:58-62 | an input: three calls of kfree after which nothing is on the list |
| HeapRuns.Client.Run | kernel/mm/kmalloc.c:129-224 | after any sequence of kmalloc, kfree and stores every word in use holds what its owner last stored, with all heap invariants; each kmalloc succeeds exactly when it can, each operation leaves exactly the stated list, and each second kfree is made and changes nothing |
| HeapRuns.ListedStep | kernel/mm/kmalloc.c:180-224 | if kmalloc's search comes to every free block, it does so after every operation but a kfree of a block behind a free one, and after that one if and only if no free block is left |
| HeapRuns.NoneLost | kernel/mm/kmalloc.c:129-224 | in every run without such a kfree the search comes to every free block |
| HeapRuns.FreeTwice | kernel/process/process.c:235-242 | in every run a kfree of a pointer freed before, with any kfrees and stores but no kmalloc between, leaves memory, blocks, runs, list, counts and free frames as they were |
| ProcessTree.ListIsChildren | kernel/process/process.c:254-284 | a child list holds exactly the tasks with that parent, task 1 excepted |
| ProcessTree.ReachesIdle | kernel/process/process.c:254-271 | every parent chain reaches the idle task |
| ProcessTree.AddChild | kernel/process/fork.c:109-111 | a new first child keeps all lists acyclic, duplicate-free and complete |
| ProcessTree.RemoveChild | kernel/process/process.c:273-284 | so does taking a dead child out of its list |
| ProcessTree.MoveChild | kernel/process/process.c:263-269 | so does each round of reparenting |
| ProcessTree.Zombify | kernel/process/process.c:300-301 | so does the death of a task without children |
| Processes.ExitDecodes | abi/crius/abi.h:122-125 | an exit code is reported as itself if and only if it is in 0 to 255 |
| Processes.SignalDecodes | abi/crius/abi.h:122-125 | a signal is reported as itself if and only if it is at most 126 |
| Processes.DiedStacks | kernel/process/process.c:294-298 | dying releases the stack exec left behind and no other |
| Processes.ExecStacks | kernel/process/exec.c:143-214 | exec releases only the stack two execs back; the one its frame is on stays |
| Processes.ReapStacks | kernel/process/process.c:235-248 | reaping releases exactly the dead task's stack |
| Processes.SwitchTree | kernel/scheduler/scheduler.c:49-171 | a switch keeps the tree, the waits, and at most one running task, the current one |
| Processes.SwitchStacks | kernel/scheduler/scheduler.c:55-129 | after a switch every saved frame lies in its task's own live stack, and only the stack exec left behind was released |
| Processes.SwitchFair | kernel/scheduler/scheduler.c:99-106 | a ready task that is passed over is strictly nearer to its turn |
| Processes.SwitchWakes | kernel/scheduler/scheduler.c:80-97 | after a switch no blocked task has a dead child it waits for, and no sleeper is overdue |
| ProcessTables.ProcessTable.constructor | kernel/process/process.c:177-209 | idle runs, task 1 is ready, all invariants hold |
| ProcessTables.ProcessTable.AllocTask | kernel/process/process.c:43-49 | the lowest unused slot |
| ProcessTables.ProcessTable.FindChild | kernel/process/process.c:339-345 | the lowest matching child, dead or alive as asked |
| ProcessTables.ProcessTable.Fork | kernel/process/fork.c:14-114 | a ready child at the front of the parent's list with a stack of its own, or no change; when exactly it fails |
| ProcessTables.ProcessTable.ReparentChildren | kernel/process/process.c:254-271 | the children, in reverse order, go to the front of the heir's list, and nobody has the dying task as parent any more |
| ProcessTables.ProcessTable.Exit | kernel/process/process.c:286-308 | the caller is a zombie without children, and the invariants hold |
| ProcessTables.ProcessTable.Kill | kernel/process/process.c:310-331 | the error for each refused target with nothing changed, otherwise a zombie with code -SIGKILL |
| ProcessTables.ProcessTable.RemoveFromList | kernel/process/process.c:273-284 | exactly one link changes |
| ProcessTables.ProcessTable.Wait | kernel/process/process.c:333-390 | reaps the lowest dead matching child of the caller if there is one, fails exactly without a matching child, blocks only with one |
| ProcessTables.ProcessTable.Sleep | kernel/process/process.c:392-396 | the whole new table |
| ProcessTables.ProcessTable.Exec | kernel/process/exec.c:135-214 | the new stack, the saved frame in it, and the old stack kept as pending; the whole new table |
| ProcessTables.ProcessTable.Tick | kernel/scheduler/scheduler.c:190-199 | exactly the overdue sleepers become ready |
| ProcessTables.ProcessTable.Wake | kernel/scheduler/scheduler.c:80-97 | exactly the overdue sleepers and the waiters with a dead child become ready |
| ProcessTables.ProcessTable.Pick | kernel/scheduler/scheduler.c:99-121 | the ready slot at the smallest cyclic distance; without one the fall-back |
| ProcessTables.ProcessTable.DoSchedule | kernel/scheduler/scheduler.c:49-188 | a successor is always found; the loaded frame is in the successor's own live stack, and so is what rsp0 names |
| ProcessTables.ProcessTable.Step | kernel/process/process.c:254-401 | a step is taken if and only if the machine can take it, has exactly its effect on the whole state, and keeps all invariants |
| ProcessTables.ProcessTable.Run | kernel/scheduler/scheduler.c:49-211 | every run of system calls, ticks and switches, entered from user mode or from inside the kernel, is a chain of such steps from the first state to the last |
| ProcessSteps.Fair | kernel/scheduler/scheduler.c:99-106 | in every run a ready task that nobody kills is chosen before the scheduler has passed its slot once |
| ProcessSteps.FairBound | kernel/scheduler/scheduler.c:99-106 | 63 switches are enough |
| ProcessSteps.WaiterRuns | kernel/scheduler/scheduler.c:80-106 | in every run a task that waits for a child runs within 64 switches of that child's exit or kill, unless it is killed itself |
| ProcessSteps.DeadUntilReaped | kernel/process/process.c:337-366 | in every run a dead task keeps its exit code until a wait of the parent it has then reaps it, and that wait reports the code |
| ProcessSteps.ExitReported | kernel/process/process.c:286-366 | in every run the status reported for a task that exits decodes to its exit code if and only if that is in 0 to 255 |
| ProcessSteps.KillReported | kernel/process/process.c:310-366 | the status reported for a task that is killed decodes to the signal |
| TrbRings.WithCycle | kernel/drivers/usb/xhci/ring.c:126 | only the cycle bit of the word changes |
| TrbRings.SeesNext | kernel/drivers/usb/xhci/ring.c:76-126 | on either ring the reader owns the TRB in its slot exactly when one is outstanding, and then it is the next one, whole, whatever word the writer is at |
| CommandRings.CommandRing.constructor | kernel/drivers/usb/xhci/controller.c:568-579 | the initial ring with its Link TRB satisfies the protocol invariant |
| CommandRings.CommandRing.Begin | kernel/drivers/usb/xhci/ring.c:109-113 | passing the Link TRB keeps the invariant |
| CommandRings.CommandRing.WriteField | kernel/drivers/usb/xhci/ring.c:121-124 | a word without the cycle bit shows the controller nothing new |
| CommandRings.CommandRing.WriteCycle | kernel/drivers/usb/xhci/ring.c:126-128 | the last word issues the whole command |
| CommandRings.CommandRing.Send | kernel/drivers/usb/xhci/ring.c:89-128 | one more command issued |
| CommandRings.CommandRing.SeesCommand | kernel/drivers/usb/xhci/ring.c:121-126 | in a command slot the controller sees a TRB exactly when one is outstanding, and then the next one, whole |
| CommandRings.CommandRing.SeesLink | kernel/drivers/usb/xhci/ring.c:109-113 | on the Link TRB it sees whether the driver has gone round |
| CommandRings.CommandRing.Fetch | kernel/drivers/usb/xhci/controller.c:570-579 | a controller read takes exactly the next command, follows the link, or does nothing; it never stalls with a command outstanding |
| CommandRings.CommandRing.CatchUp | kernel/drivers/usb/xhci/ring.c:89-134 | left alone the controller takes everything issued |
| CommandRings.CommandRing.Overrun | kernel/drivers/usb/xhci/ring.c:109-128 | with 255 outstanding the next call leaves the controller nothing it owns |
| CommandRings.CommandRing.Run | kernel/drivers/usb/xhci/ring.c:89-134 | every interleaving of driver words and controller reads does to the ring what it does to a queue, over any number of laps; the commands issued are exactly those of the calls made, in order |
| CommandRings.IssuedInOrder | kernel/drivers/usb/xhci/ring.c:89-128 | in that queue commands are issued in the order of the calls, each once |
| CommandRings.TakenInOrder | kernel/drivers/usb/xhci/controller.c:570-579 | and taken in the order issued, each once |
| CommandRings.ReadsProgress | kernel/drivers/usb/xhci/controller.c:570-579 | of two reads in a row with a command outstanding at least one takes it |
| EventRings.EventRing.PutCycle | kernel/drivers/usb/xhci/ring.c:77-80 | the controller's last word posts the whole event |
| EventRings.EventRing.SeesEvent | kernel/drivers/usb/xhci/ring.c:76-80 | the driver's test holds exactly when an event is pending, and then it sees the next one, whole |
| EventRings.EventRing.Advance | kernel/drivers/usb/xhci/ring.c:55-66 | the words read from the ring are the next event posted, received in order |
| EventRings.EventRing.Look | kernel/drivers/usb/xhci/ring.c:136-150 | one poll, word by word: an event that is there when its last word is read is received whole, whatever the controller does before each access |
| EventRings.EventRing.Drain | kernel/drivers/usb/xhci/ring.c:69-88 | whatever the controller posts meanwhile, everything posted before has been received, and the ring is empty unless 256 events were received |
| EventRings.EventRing.Await | kernel/drivers/usb/xhci/ring.c:136-165 | whatever the controller does between two accesses of the driver, events are received once and in order, and the wait ends with the first completion of this TRB and its code, or with 0xFF after the last poll |
| Ext2Alloc.BlockAllocator.FirstInGroup | kernel/fs/ext2/ext2_alloc.c:18-21 | the lowest clear bit of the group, the skipped bytes included |
| Ext2Alloc.BlockAllocator.AllocBlock | kernel/fs/ext2/ext2_alloc.c:9-36 | the lowest free block of the groups with a count, and the counts stay right |
| Ext2Alloc.BlockAllocator.FailsOnlyWhenFull | kernel/fs/ext2/ext2_alloc.c:14-15 | with right counts it fails only on a full device |
| Ext2Alloc.BlockAllocator.FreeBlock | kernel/fs/ext2/ext2_alloc.c:38-58 | the block is free; the counts stay right if and only if it was in use |
| Ext2Blocks.WordKept | kernel/fs/ext2/ext2_block.c:81 | storing one pointer of a table leaves the others |
| Ext2Blocks.NothingBeyond | kernel/fs/ext2/ext2_block.c:27-59 | without double and triple tables nothing is mapped past block 268 |
| Ext2Blocks.Untouched | kernel/fs/ext2/ext2_block.c:9-24 | writing a block of another file leaves a file's mapping and data alone |
| Ext2Blocks.AddDirect | kernel/fs/ext2/ext2_block.c:63-66 | one more block mapped, the others where they were |
| Ext2Blocks.AddInTable | kernel/fs/ext2/ext2_block.c:78-84 | the same through the table |
| Ext2Blocks.AddTable | kernel/fs/ext2/ext2_block.c:74-84 | the same with a new table |
| Ext2Files.ChunkWritten | kernel/fs/ext2/ext2_file.c:146-168 | one round of the loop puts its bytes in place, keeps all others, and fills the rest of a new block with zeros |
| Ext2Files.SpliceDone | kernel/fs/ext2/ext2_file.c:135-181 | with all chunks in place a file without holes is the old one with the data spliced in |
| Ext2Files.BytesWritten | kernel/fs/ext2/ext2_file.c:135-181 | with all chunks in place any file, holes or not, is the old one overwritten, with zeros in the rest of the new blocks |
| Ext2Files.BytesLeft | kernel/fs/ext2/ext2_file.c:135-181 | complete or not, a write leaves every byte outside its range and adds only blocks it has a part in |
| Ext2Files.SameContent | kernel/fs/ext2/ext2_file.c:185-220 | a file whose blocks are the same reads the same |
| Ext2Volumes.Volume.SetBlock | kernel/fs/ext2/ext2_block.c:62-89 | exactly this block is mapped and no other file changes; when exactly it fails |
| Ext2Volumes.Volume.PutChunk | kernel/fs/ext2/ext2_file.c:146-168 | one round of the loop, with the blocks it takes |
| Ext2Volumes.Volume.WriteAt | kernel/fs/ext2/ext2_file.c:135-181 | to any file at any offset: the range is written if and only if the write fits; it reports success if and only if the stated number of blocks is free, otherwise an error; a reported write that does not fit leaves a hole in its range; the free blocks, the size and the table afterwards; other files and bytes outside the range unchanged in every case |
| Ext2Volumes.LongWriteReported | kernel/fs/ext2/ext2_file.c:135-181 | an input: 269 blocks are reported as written if and only if 270 are free |
| Ext2Volumes.Volume.ReadAt | kernel/fs/ext2/ext2_file.c:185-220 | exactly the bytes asked for that the file has, up to its end or its first hole |
| Ext2Runs.Run | kernel/fs/ext2/ext2_file.c:135-220 | any sequence of reads and writes over the files of a volume is a chain of such steps |
| Ext2Runs.ReadBack | kernel/fs/ext2/ext2_file.c:135-220 | in every run a read gets what a complete write put there if no write to these bytes came in between, whatever else was written, complete or not, to this file or others |
| Ext2Runs.RunIsPlain | kernel/fs/ext2/ext2_file.c:135-220 | in every run whose writes are complete each file is what overwriting a plain map of bytes makes of it |
| Ext2Inodes.SlotsApart | kernel/fs/ext2/ext2_inode.c:9-29 | two inodes never share a byte |
| Ext2Inodes.ReadInode | kernel/fs/ext2/ext2_inode.c:19-42 | the inode's bytes, or an error for a number that does not exist |
| Ext2Inodes.WriteInode | kernel/fs/ext2/ext2_inode.c:44-68 | what is written is read back and no other inode changes |
| Ext2Dirents.Edited | kernel/fs/ext2/ext2_dir.c:125-128 | filling an entry keeps the block exactly tiled |
| Ext2Dirents.Split | kernel/fs/ext2/ext2_dir.c:134-141 | so does cutting an entry in two |
| Ext2Dirents.Merge | kernel/fs/ext2/ext2_dir.c:279-280 | so does merging an entry into the one before |
| Ext2Directories.LookupBlock | kernel/fs/ext2/ext2_dir.c:75-88 | the first entry in use with that name |
| Ext2Directories.AddToBlock | kernel/fs/ext2/ext2_dir.c:118-147 | succeeds if and only if some entry has room; the listing gains exactly this name and the block stays tiled |
| Ext2Directories.UnlinkBlock | kernel/fs/ext2/ext2_dir.c:272-302 | the listing loses exactly the first entry with this inode and the block stays tiled |
| Ext2Directories.AddFinds | kernel/fs/ext2/ext2_dir.c:57-170 | after adding a new name lookup finds it, and is unchanged for all others |
| Ext2Directories.AddUnique | kernel/fs/ext2/ext2_dir.c:174-192 | names stay unique |
| Ext2Directories.UnlinkExact | kernel/fs/ext2/ext2_dir.c:256-307 | unlinking removes this name and no other if and only if no earlier entry has the same inode |
| Ext2Directories.UnlinkSecondName | kernel/fs/ext2/ext2_dir.c:256-285 | with two names of one inode, unlinking the later one removes the earlier one and leaves the later |
| Ext2Directories.UnlinkHardLink | kernel/fs/ext2/ext2_dir.c:256-285 | an input: a file with two hard links in a directory |
| Ext2Folders.EntriesUnique | kernel/fs/ext2/ext2_dir.c:57-93 | the bytes on disk alone determine the entries of a directory |
| Ext2Folders.Directory.Mkdir | kernel/fs/ext2/ext2_dir.c:218-235 | a new directory lists dot and dot-dot, and fails if and only if no block is free; no other file changes |
| Ext2Folders.Directory.Lookup | kernel/fs/ext2/ext2_dir.c:57-93 | the first inode with that name in the whole directory |
| Ext2Folders.Directory.AddDirent | kernel/fs/ext2/ext2_dir.c:97-170 | success if and only if an entry has room or a block is free; the listing gains the name exactly when an entry has room or the new block can be linked, and only then is it found; how many blocks and tables that takes; every block stays tiled and no other file changes |
| Ext2Folders.NamesLost | kernel/fs/ext2/ext2_dir.c:150-170 | an input: a directory of twelve full blocks with one free block |
| Ext2Folders.Directory.Unlink | kernel/fs/ext2/ext2_dir.c:256-285 | the listing loses the first entry with the inode that lookup gives |
| Ext2Folders.Directory.Run | kernel/fs/ext2/ext2_dir.c:57-307 | any sequence of adds and removes is a chain of such steps over the directory on disk, with the free blocks, the table and the number of blocks after each |
| Ext2Folders.BlocksLost | kernel/fs/ext2/ext2_dir.c:150-170 | in every run the blocks that are free or belong to the directory become fewer by exactly one for each name reported and lost |
| Ext2Folders.RunIsMap | kernel/fs/ext2/ext2_dir.c:57-307 | a run in which no added name is lost and no removed name shares its inode with an earlier one is a run over a map from names to inodes |
| ElfLoader.ImageByte | kernel/process/elf_exec.c:97-187 | the image has at each address of a segment that segment's file byte or zero if no other segment puts a byte there, whatever the order of the headers |
| ElfLoader.SegmentShows | kernel/process/elf_exec.c:97-187 | in a loaded space with disjoint PT_LOAD ranges every address of every range is mapped and shows its file byte, or zero past the file bytes |
| ElfLoader.LoadedIs | kernel/process/elf_exec.c:97-187 | a loaded space is the image of the headers and the file, and nothing else |
| ElfImage.PageLoaded | kernel/process/elf_exec.c:114-158 | one more page of the current segment |
| ElfLoader.FillIs | kernel/process/elf_exec.c:137-158 | the copy places exactly the file bytes that belong in the page |
| ElfLoader.PutPage | kernel/process/elf_exec.c:123-158 | writing through the direct map changes one page of this space only |
| ElfLoader.GrantWrite | kernel/process/elf_exec.c:173-185 | the entry becomes writable, no other entry changes and no space shows anything different |
| ElfLoader.LoadPage | kernel/process/elf_exec.c:114-186 | the image is one page further, or there are fewer frames than the pages wanted take; other spaces unchanged |
| ElfLoader.Load | kernel/process/elf_exec.c:71-190 | a success leaves exactly the image of all PT_LOAD segments in header order, whatever their alignment or overlap; it fails only for a header check or for want of frames; nothing is added outside this space |
| TreeSize.Grew | kernel/mm/vmm.c:59-90 | mapping a page adds exactly the page and the missing tables above it |
| TreeSize.Room | kernel/mm/vmm.c:59-90 | as long as a wanted page is missing, the space and what the page needs fit into the tree of all wanted pages |
| TreeSize.AllThere | kernel/mm/vmm.c:59-90 | with all wanted pages mapped the space takes as many frames as their tree |
| ExecSpace.Populate | kernel/process/exec.c:66-125 | image, argument page and stack, or failure; when exactly |
| ExecSpace.Build | kernel/process/exec.c:58-140 | the complete new space if and only if the program can run, there is a frame for every page and every table above one, and a kernel stack, and then exactly so many are taken; otherwise which tables there are, counts and free frames exactly as before; all other spaces, with their entries, unchanged |
| ExecSpace.ProgramShows | kernel/process/exec.c:58-125 | the program finds at every address of its disjoint PT_LOAD ranges its file byte or zero: arguments and stack are not in the way |
| Paths.ComponentsRender | kernel/fs/vfs/vfs.c:130-157 | splitting a rendered path gives back its components |
| Paths.Anchor | kernel/fs/vfs/vfs.c:101-128 | the path, behind the working directory if it is relative, cut to the buffer |
| Paths.Pop | kernel/fs/vfs/vfs.c:145-149 | the buffer shows the stack without its top |
| Paths.Push | kernel/fs/vfs/vfs.c:151-152 | the buffer shows the stack with one component more |
| Paths.ResolveAbs | kernel/fs/vfs/vfs.c:101-157 | the buffer shows the fold of the components through a stack, never cut off at 256 |
| Paths.Canonical | kernel/fs/vfs/vfs.c:130-157 | the result is an absolute path of components other than dot and dot-dot |
| Paths.Idempotent | kernel/fs/vfs/vfs.c:101-157 | resolving a resolved path changes nothing, from any directory |
| Paths.RelativeComponents | kernel/fs/vfs/vfs.c:108-128 | a relative path that fits adds its components to those of the working directory |
| Paths.ChangeThenOpen | kernel/fs/vfs/vfs.c:101-157 | changing to `a` and opening `b` is opening `a/b`, as long as the whole path fits |

## Left out

- Translation lookaside buffers: the model has no stale entries, so the `invlpg` and the reload of CR3 in fork are not modelled.
- Kernel-half mappings: `vmm_map_page` and its walk are modelled for user addresses only; entries 256 to 511 of a root table are copied and otherwise not followed.
- The boot root table: `userspace_map_to_task` shares its frames without counting them, so it is outside the counted spaces.
- Vmm.AddressSpaces.GetPhys: asks for a user address, as do FindTable, MapPage and HandleCowFault, for the same reason.
- Vmm.AddressSpaces.FindTable: asks for a user address.
- Vmm.AddressSpaces.MapPage: asks for a user address and for a page that was allocated for it; sharing an existing frame is ShareLeaf.
- Vmm.AddressSpaces.HandleCowFault: asks for a user address; a fault elsewhere is passed on by the handler.
- Vmm.AddressSpaces.Store: the store is one that the user bit of the entries allows; the processor also consults that bit.
- Vmm.AddressSpaces.ForkSpace: asks for at most 254 address spaces, which 64 tasks and one exec in flight never reach; with more the 8-bit count would saturate.
- Pmm.FrameAllocator.constructor: asks that no usable map entry starts at frame 0, since 0 is the failure value.
- Pmm.FrameAllocator.FreePages: asks for frames with one reference each, as AllocPages returned them.
- Pmm.FrameAllocator.IncRef: asks for a frame that is in use; of a free one the code would count a reference that its bitmap does not know of.
- Kmalloc.Heap.Free: asks for a pointer in use or one already freed since the last kmalloc, as kfree does; other pointers are not modelled.
- ProcessTables.ProcessTable.Fork: what kmalloc returned for the stack and whether the address space could be copied are parameters; ForkSpace and the heap are modelled separately. The same holds of Exec.
- ProcessTables.ProcessTable.Exec: the fields `stack` and `kernel_stack`, which are always equal, are one field.
- ProcessTables.ProcessTable.Step: `need_reschedule`, quanta and tick counters are not modelled; a switch may come at any step.
- Processes.ExitDecodes: an exit code of -2^31, whose negation overflows in C, is treated as an unbounded integer.
- File descriptors, names, working directories and priorities of tasks: copied or dropped without rich invariants.
- xHCI: doorbells, memory barriers and the transfer rings of endpoints 0 and 1; a controller that does not leave the slot before the reported dequeue pointer empty.
- CommandRings.CommandRing.Begin: asks for fewer than 255 commands outstanding; Overrun shows what happens otherwise. A command of Link type is not a command.
- CommandRings.CommandRing.Send: the same.
- Ext2Volumes.Volume.WriteAt: block I/O succeeds, buffers can be allocated, block 0 reads as zeros, and the file ends below 2^32 bytes; the inode is a record here, its place on disk is modelled in Ext2Inodes.
- Ext2Alloc.BlockAllocator.AllocBlock: a bitmap block can always be read; the code goes on to the next group when it cannot.
- Ext2Alloc: the superblock's total, which every operation reloads from mount time, and the inode bitmaps, which have the same shape as the block bitmaps. Groups have 8192 blocks, as 1024-byte blocks give.
- ext2 space conservation across unlink: `ext2_free_inode_data` frees indirect data blocks twice.
- Ext2Folders.Directory.AddDirent: names have at most 255 bytes, as every path component has.
- ElfLoader.Load: asks that the file holds the bytes its segments name and that no segment end wraps around 2^64, neither of which the code checks; the headers are records, not bytes.
- ExecSpace.Populate: the same.
- ExecSpace.Build: the same; reading the file and filling the argument page are parameters.
- CopyOnWrite.Tasks.DoExec: whether kmalloc had a kernel stack is a parameter; what becomes of the stacks is modelled in ProcessTable. The permissions of the new program's pages are not stated.
- Paths.ResolveAbs: the working directory is empty or absolute and shorter than 128 characters, as it is stored.
- Device drivers, consoles, the other file systems, the mount table, the system-call dispatcher and user-pointer checks: hardware access or branches without a shared invariant.
