# Verified models of three operating-system assignments

This project models the stateful parts of four C files and proves what they do:

- **The object store** of `assignment4/objstore.c`: an inode table, two
  most-significant-bit-first bitmaps, direct and indirect block pointers, a
  direct-mapped write-back block cache, and the code that saves everything to the
  disk at unmount and reads it back at mount. The main result is that over every
  run of creates, lookups, in-order appends, reads and remounts, with the cache or
  without it, the store answers like a map from object ids to files made of
  zero-padded blocks.
- **The four-level page tables** of `assignment1/context_mm.c` and
  `assignment2/entry.c`: mapping and unmapping in a radix tree that lives in
  physical frames (4-level paging of the Intel 64 SDM, volume 3A, section 4.5). The
  main results are that one walk changes one page, that heap growth, shrinking and
  page faults keep the segments' bounds and permissions over every run, and that
  setting an address space up and taking it down frees every frame exactly once.
- **The round-robin scheduler** of `assignment3/schedule.c`: a step machine over 16
  contexts. The main results hold over every run: bounded waiting, exact sleeping,
  exact alarms, register preservation, a single running context, and the exact
  condition for a shutdown.

## Layout

| file | what it holds |
|---|---|
| `Basics.dfy` | machine integers and optional values |
| `MaskWords.dfy`, `Bitmap.dfy`, `Blocks.dfy` | mask arithmetic on machine words, the bitmaps and the block allocator, the byte layout of blocks |
| `BlockCache.dfy` | the block device with its cache |
| `StoreModel.dfy`, `StoreImage.dfy`, `ObjStore.dfy` | the operations of the store on values, the disk image, and the store as a class over arrays |
| `StoreInvariant.dfy`, `ObjectMap.dfy`, `StoreRefinement.dfy`, `StoreSpace.dfy`, `StoreRuns.dfy` | block ownership, the abstract map of files, one operation, the free space, whole runs |
| `EntryBits.dfy`, `PageWalk.dfy`, `Paging.dfy` | entry bits, the walk and its frame lemmas, the machine with its frames |
| `LazyMemory.dfy`, `EagerMemory.dfy` | the second and the first memory assignment |
| `Scheduler.dfy`, `SchedulerSteps.dfy`, `SchedulerRuns.dfy`, `Kernel.dfy` | the steps, what each of them changes, the run properties, the scheduler as a class over an array |

Code that updates arrays and fields is a class or a method with loops, proved
against functions on values; what is promised about whole runs is proved as lemmas
about those functions. Bitmap words are sequences of 32 bits; `MaskWords` shows on
machine words that the source's masks read and write exactly those bits. A page-table
entry is split into its frame and flags; `EntryBits` shows that the steps on 64-bit
words are those on split entries.

## Assumptions

- Object store: the disk has a block for every bit of the data bitmap, a block read
  or write does not fail, and the disk starts zeroed or as an earlier unmount left
  it. Keys are shorter than 32 bytes. An append carries 1 to 4096 bytes, goes to the
  end of an object whose blocks are all full, and finds a free block, or two when it
  starts a block table. A read starts at a block boundary and stays in written
  blocks. `create_object` does not check for duplicate keys and neither do the
  theorems: a lookup finds the smallest id.
- Page tables: frame numbers are below 0x20000, addresses below 2^48, heap segments
  start above 4 GB at page boundaries and have no page in common. `os_pfn_alloc`
  returns some free frame of its region, `os_pfn_free` wants an allocated one, and
  `osmap` reaches the frame it is given.
- Scheduler: `do_sleep` gets at least one tick, the swapper neither sleeps nor ends,
  `get_new_ctx` returns an unused slot in 1..15, and `do_cleanup` does not return.

## Where the code does less than one would expect

- `objstore_write` to an object of 4100 blocks stores nothing but reports success
  (`StoreInvariant.WriteKeepsInvIffBelowLimit`).
- SHRINK checks a product that wraps from 2^20 pages on, so that such sizes may pass
  the check and take pages away that are not given up, also those of other segments;
  from 2^19 pages on its loop overflows. It keeps to its pages exactly if the check
  refuses the call or the size is below 2^19 (`LazyMemory.ShrinkKeepsToItsPagesIff`,
  `LazyMemory.ShrinkStraysIff`, `LazyMemory.Process.ShrinkByWrappedSize`).
- WRITE probes addresses from 2^48 on with an index past the end of the top table
  (`LazyMemory.Process.ValidateWrite`).
- `do_sleep` saves only the frame words, so a sleeper's general registers are those
  saved by its last preemption (`SchedulerRuns.SleepPreservesRegistersIff`).
- The alarm of context 1 is delivered to whichever context is current: it reaches
  context 1 exactly if that is the current one and has a handler
  (`SchedulerRuns.AlarmReachesIff`, `SchedulerRuns.AlarmGoesToAnother`).
- A clone that takes slot 1 stops the alarm: the count of SIGALRMs is the one asked
  for exactly if the ticks after the clone complete no further period
  (`SchedulerRuns.AlarmsExactly`, `SchedulerRuns.AlarmIsLost`).

## Model

| member | source | states |
|---|---|---|
| MaskWords.OrSetsOnlyThatBit | assignment4/objstore.c:54-66 | on 32-bit words, or-ing mask number j (1<<31 shifted right j times) sets that bit and keeps every other one |
| MaskWords.OrIsUpdate | assignment4/objstore.c:58-66 | the test and the or with mask number j are the reading and the update of element j of the bit sequence that the other modules use |
| Bitmap.FreeDataBlock | assignment4/objstore.c:52-75 | the nested scan returns 22815 plus the index of the first clear bit, or -1, and leaves the bitmap with that bit set |
| Bitmap.OneCallTakesOneFreeBlock | assignment4/objstore.c:58-73 | -1 exactly when every bit is set; otherwise the bit was clear, all before it are set, and it alone changes |
| Bitmap.CallsAreDistinct | assignment4/objstore.c:56-71 | any number of calls in any order of their critical sections never hand out a block twice |
| Blocks.PutIntChangesOneInt | assignment4/objstore.c:443-453 | storing a block number in an entry of a block table is read back there and changes no other entry |
| Blocks.PadCopy | assignment4/objstore.c:413-416 | the copy into a fresh buffer is the padded block |
| Blocks.PadIs | assignment4/objstore.c:413-416 | that is the data followed by zeros up to 4096 bytes |
| Blocks.InodeRoundTrip | assignment4/objstore.c:35-43 | the 88 bytes of an inode give back the inode |
| Blocks.InodeLayout | assignment4/objstore.c:35-43 | each field of the struct is at its offset in those bytes |
| Blocks.LittleEndian | assignment4/objstore.c:443-453 | an integer is the sum of its four bytes, the lowest first |
| Blocks.WordIsItsInt | assignment4/objstore.c:54-66 | a bitmap word is the 32-bit integer of its bytes, most significant bit first |
| Blocks.WordsBlockRoundTrip | assignment4/objstore.c:635-641 | a bitmap word read back from the bytes it was saved as is the same word |
| Blocks.CStringStopsAtZero | assignment4/objstore.c:250-250 | the string copied into a key buffer is the string compared later |
| Blocks.StrCpyIs | assignment4/objstore.c:250-250 | the copy stores the key and a zero and keeps the rest of the buffer |
| BlockCache.BlockDevice.constructor | assignment4/objstore.c:625-628 | an empty cache shows the disk |
| BlockCache.BlockDevice.Read | assignment4/objstore.c:77-119 | in both builds a read returns the view of its block, and changes the view of no block, whatever line it evicts |
| BlockCache.BlockDevice.Write | assignment4/objstore.c:121-153 | in both builds a write changes the view of its block and of no other block |
| BlockCache.BlockDevice.Flush | assignment4/objstore.c:688-694 | writing back the lines marked dirty leaves the view on the disk and touches no metadata block |
| StoreImage.RegionsAreDisjoint | assignment4/objstore.c:13-25 | the four disk regions follow each other, 46 inodes fill 4048 bytes, and every slot of the inode bitmap has a place and a dirty flag |
| StoreImage.ImageLayout | assignment4/objstore.c:625-658 | which bits, bytes and blocks of the disk the mounted store is read from |
| StoreImage.TableBlockRoundTrip | assignment4/objstore.c:647-684 | storing 4096 bytes at a stride of 4048 and loading 4048 gives back all 46 inodes of a block |
| StoreImage.DirtyBlocksSaveTable | assignment4/objstore.c:679-686 | writing only the dirty inode blocks puts the whole table on the disk, if clean blocks were there already |
| StoreInvariant.WriteAddsABlock | assignment4/objstore.c:405-513 | a write on each of the paths (direct, first entry of a table, further entry) brings into use exactly the new block, and its table if it starts one, all free before, and keeps every other reference |
| StoreInvariant.WriteKeepsInv | assignment4/objstore.c:405-513 | after an append all used references of all objects are still distinct, taken, all that is taken, and unused pointers and entries are zero |
| StoreInvariant.WriteKeepsInvIffBelowLimit | assignment4/objstore.c:418-515 | the ownership invariant is kept exactly below block 4100; from it on the data is lost and a taken block has no owner |
| StoreInvariant.OwnedBlocksCount | assignment4/objstore.c:423-513 | an object of n blocks owns n distinct blocks if n <= 4, and n plus ceil((n-4)/1024) otherwise |
| StoreInvariant.OwnersShareNoBlock | assignment4/objstore.c:52-75 | a bit of the data bitmap is set exactly if some object owns the block, and then only one does |
| ObjectMap.ReadAfterAppend | assignment4/objstore.c:520-587 | reading an appended block gives the appended bytes and then zeros |
| ObjectMap.ReadSplits | assignment4/objstore.c:531-583 | a read over several blocks is the reads of its parts |
| ObjectMap.AppendKeepsEarlierBytes | assignment4/objstore.c:403-518 | an append keeps everything that was readable before |
| ObjectMap.CreateThenLookup | assignment4/objstore.c:184-252 | after creating a new key its lookup returns the new id and every other lookup is unchanged |
| StoreRefinement.FindTargetIsIndexing | assignment4/objstore.c:156-181 | live slot s holds id s+2, so the scan for an id is direct indexing |
| StoreRefinement.FileIs | assignment4/objstore.c:418-575 | an object's file is read off its inode: key, size, and block k through the direct pointer or table entry that the source's branches name |
| StoreRefinement.FindObjectIdRefines | assignment4/objstore.c:184-206 | a lookup returns the smallest id whose file has the key, or -1 |
| StoreRefinement.CreateObjectRefines | assignment4/objstore.c:216-252 | a create adds an empty file under the smallest free id and changes no other file, or returns -1 when full |
| StoreRefinement.WriteRefines | assignment4/objstore.c:405-518 | a write appends one padded block to the target's file and changes no other file, across all five pointer ranges |
| StoreRefinement.ReadRefines | assignment4/objstore.c:523-587 | a read returns the bytes of the file from the block boundary on |
| StoreSpace.TakenIsOwned | assignment4/objstore.c:52-75 | in every reachable state as many bits of the data bitmap are set as the sizes of all files ask for |
| StoreSpace.HasRoomIff | assignment4/objstore.c:412-513 | a write finds its block, and its table's block if it starts one, exactly if the sizes of the files leave that many |
| ObjStore.ObjectStore.Mount | assignment4/objstore.c:612-658 | mounting gives exactly the store that the disk image encodes, with clean inode blocks |
| ObjStore.ObjectStore.LoadInodes | assignment4/objstore.c:647-652 | the loading loop fills the table from the inode blocks and clears every dirty flag |
| ObjStore.ObjectStore.FindTarget | assignment4/objstore.c:156-181 | the scan returns the first live slot with the id and marks its inode block dirty if asked |
| ObjStore.ObjectStore.FindObjectId | assignment4/objstore.c:184-206 | the scan returns the id of the first live slot with the key, or -1 |
| ObjStore.ObjectStore.TakeFreeSlot | assignment4/objstore.c:224-243 | the scan sets the first clear bit and no other, although it goes on to the end |
| ObjStore.ObjectStore.CreateObject | assignment4/objstore.c:216-252 | the new state and result, with every changed inode in a dirty block |
| ObjStore.ObjectStore.Write | assignment4/objstore.c:405-518 | the new state of all arrays and of the device; the answer is the length for a live id, and -1 with nothing changed for any other; every changed inode is in a dirty block |
| ObjStore.ObjectStore.WriteThroughTable | assignment4/objstore.c:437-456 | one of the four table branches: a first entry starts a zeroed table, a later one changes that entry only |
| ObjStore.ObjectStore.Read | assignment4/objstore.c:523-587 | the bytes read, with nothing changed but cache lines |
| ObjStore.ObjectStore.FetchBlock | assignment4/objstore.c:536-575 | the branch on the block index finds the block that the object's pointers name |
| ObjStore.ObjectStore.Unmount | assignment4/objstore.c:663-694 | the disk encodes the state from before: both bitmaps, every inode, every data block |
| ObjStore.ObjectStore.StaysValid | assignment4/objstore.c:165-232 | an inode may differ from the disk only in a block marked dirty: what every operation keeps |
| StoreRuns.StepRefines | assignment4/objstore.c:184-587 | each operation keeps the invariant and acts on the represented files as the map does |
| StoreRuns.StepMeans | assignment4/objstore.c:184-587 | over every store that satisfies the invariant, the answer of each operation and the files after it, said of the files before: the smallest free id or -1, the smallest id with the key or -1, the length written or -1, the bytes read |
| StoreRuns.RunAdmissibleIff | assignment4/objstore.c:184-707 | what callers must respect in a run can be said of the files alone, free space included |
| StoreRuns.RunRefines | assignment4/objstore.c:184-707 | over every run that respects that the store gives the answers of the map and represents its files |
| StoreRuns.FullObjectIsReachable | assignment4/objstore.c:216-518 | from a store without files an object of every size up to 4100 full blocks is reachable, with room for one block more |
| StoreRuns.ZeroDiskIsEmpty | assignment4/objstore.c:612-658 | a zeroed disk mounts as a valid store without files |
| StoreRuns.RunStore | assignment4/objstore.c:184-707 | executing a run in place, in either build and across remounts, gives its state and answers |
| StoreRuns.RemountStore | assignment4/objstore.c:612-707 | unmount then mount is the identity, also into the other build |
| StoreRuns.BothBuilds | assignment4/objstore.c:77-153 | the cached and the plain build give the same answers to every run, those of the map |
| EntryBits.FilledZero | assignment2/entry.c:194-196 | in a zero entry the or-ed frame number and flags are exactly what the entry then holds |
| EntryBits.FilledNamesFrameIff | assignment2/entry.c:203-208 | in any entry the new frame is named exactly if the old frame bits are among its own |
| EntryBits.SettingWrite | assignment2/entry.c:198-214 | setting the write flag keeps frame and presence |
| EntryBits.FillingCommutes | assignment2/entry.c:194-208 | the or-steps on 64-bit words are those of the split entries, whatever the entry held |
| EntryBits.SettingWriteCommutes | assignment2/entry.c:198-214 | so is setting the write flag |
| EntryBits.FillingZero | assignment2/entry.c:194-208 | from a zero word they make the present user entry of the frame, without write permission |
| EntryBits.WriteTestIff | assignment2/entry.c:198-198 | the test of the segment's write flag on a machine word is the one of the model |
| PageWalk.AddedChildIsOneNode | assignment2/entry.c:188-249 | adding a table or page under one entry adds one node to the walk and changes no other |
| PageWalk.AddingKeepsTree | assignment2/entry.c:188-249 | the tables stay a tree of distinct allocated frames with absent entries zero and present ones open to user code |
| PageWalk.WriteSetKeepsTree | assignment2/entry.c:213-246 | the tables stay a tree when a shared upper table is made writable |
| Paging.SettingWriteKeepsPages | assignment2/entry.c:213-246 | making a shared upper table writable changes no page's frame and no page's permission |
| PageWalk.RemovedPageIsOneNode | assignment2/entry.c:139-143 | clearing a page's entry removes that page from the walk and nothing else |
| PageWalk.RemovingKeepsTree | assignment2/entry.c:139-143 | the tables stay a tree, without that page's frame |
| Paging.RemovingKeepsPages | assignment2/entry.c:139-143 | every other page keeps its frame and permission |
| PageWalk.WritableIsLastFlag | assignment2/entry.c:198-246 | the permission over four levels is the flag of the last one, also below shared tables |
| Paging.WalkIsFourLookups | assignment2/entry.c:42-64 | the translation in full: four entries found by nine address bits each, all present, and all writable for a write |
| Paging.Machine.Descend | assignment2/entry.c:201-247 | one upper level: the child exists afterwards, is writable if asked, and every other entry and page is as before |
| Paging.Machine.Allocate | assignment2/entry.c:172-249 | an unmapped page gets a fresh user frame with the segment's permission; every other page keeps frame and permission; a mapped page keeps its own |
| Paging.Machine.LastTable | assignment2/entry.c:129-138 | the walk finds the last table of a page, or stops at an absent entry |
| Paging.Machine.Probe | assignment2/entry.c:42-64 | the four-level probe succeeds exactly for mapped pages |
| Paging.Machine.Unmap | assignment2/entry.c:123-143 | one page is unmapped and its frame freed once, if it was mapped; nothing else changes |
| LazyMemory.Process.CheckPresent | assignment2/entry.c:253-278 | 1, 2, 3 or -1 by the ranges of the data, read-only and stack segments, in this order |
| LazyMemory.Process.HandlePageFault | assignment2/entry.c:280-345 | a protection fault and an address outside the three ranges end the process, a fault in the data or stack range never does, one in the read-only range exactly on a write; otherwise the touched page is mapped with its segment's permission and no other page changes |
| LazyMemory.Process.Expand | assignment2/entry.c:74-99 | grows the segment by the pages asked for, or returns 0 exactly when they are more than 512 or pass the limit |
| LazyMemory.Process.Shrink | assignment2/entry.c:100-152 | for every 32-bit size: refuses and changes nothing, or unmaps exactly the pages given up and frees exactly their frames, or reaches the overflow with the 2^19-1 pages before the end of use unmapped; all other translations are left |
| LazyMemory.Process.ShrinkByWrappedSize | assignment2/entry.c:100-152 | 2^20 pages: no page is given up, yet the page before the end of use is lost, and the one before the segment's start too if fewer than 2^19-1 pages are in use |
| LazyMemory.Process.ShrinkDataLosesRodata | assignment2/entry.c:100-152 | in the source's layout 2^20 pages of data take the first read-only page away |
| LazyMemory.ProcessWithRodata | assignment2/entry.c:280-345 | there is a process that this harms; its read-only page is not writable |
| LazyMemory.Process.UnmapBefore | assignment2/entry.c:122-144 | the loop unmaps exactly the pages before the old end, skipping absent tables, and is completed exactly below 2^19 pages |
| LazyMemory.Process.ValidateWrite | assignment2/entry.c:24-65 | for every 64-bit address and 32-bit length: two probes succeed exactly for buffers of at most 1024 bytes that are mapped throughout, and read outside the top table exactly for addresses from 2^48 on |
| LazyMemory.TopIndexInTableIff | assignment2/entry.c:45-45 | the unmasked top-level index is in the table exactly below 2^48 |
| LazyMemory.Process.Run | assignment2/entry.c:74-152 | over every run of expands, shrinks of any size and faults, up to an exit or an overflow, the segments stay aligned and bounded, mapped heap pages lie before the end of use, and permissions are the segments' |
| LazyMemory.ShrinkKeepsToItsPagesIff | assignment2/entry.c:117-123 | the loop visits exactly the pages given up exactly if the check refuses the call or the size is below 2^19 |
| LazyMemory.ShrinkStraysIff | assignment2/entry.c:117-123 | before any overflow, a call that passes the check goes below the pages it gives up, or below its segment, exactly if the size is 2^20 or more and fewer than 2^19-1 pages are given up, or in use |
| LazyMemory.WrappedSizeStrays | assignment2/entry.c:117-123 | 2^20 pages always pass the check as none, and the loop goes on below the segment |
| EagerMemory.Context.Prepare | assignment1/context_mm.c:92-108 | the first page of data is mapped to the frame passed in, the first of code and the last of the stack to frames that were free, each with its own segment's permission, and no other page is mapped; the tables come from free frames |
| EagerMemory.Context.MapSegment | assignment1/context_mm.c:6-90 | one more page is mapped, with only the tables on its way added |
| EagerMemory.Context.FreeMemory | assignment1/context_mm.c:110-160 | one walk reads allocated tables only and frees the node it arrives at if its entry is still there |
| EagerMemory.NextStage | assignment1/context_mm.c:165-169 | when the three walks of a level are done, all nodes of that depth are free and the level above is untouched |
| EagerMemory.ClearingAdvances | assignment1/context_mm.c:135-154 | freeing a table and clearing its entry leaves the tables above readable as before |
| EagerMemory.Context.Cleanup | assignment1/context_mm.c:161-173 | exactly the frames of the tree are freed |
| EagerMemory.Context.PrepareThenCleanup | assignment1/context_mm.c:92-173 | together they restore the set of used frames but for the frame passed in, which is freed |
| Scheduler.PickedIsReadyOrCurrent | assignment3/schedule.c:9-52 | who can be chosen |
| SchedulerSteps.PickNextMeans | assignment3/schedule.c:9-52 | the first ready context going up from the current one and on from 1; with none the current one on a tick, or the swapper, or nobody |
| Scheduler.StepKeepsInv | assignment3/schedule.c:54-412 | exactly the current context runs, waiting is having ticks to sleep, and the swapper stays ready, after every step |
| SchedulerSteps.TickRegisters | assignment3/schedule.c:87-197 | the registers that the processor goes on with, all saved ones, and user memory after a tick, with and without a due SIGALRM, whether the context is switched or not |
| SchedulerSteps.TickContext | assignment3/schedule.c:85-113 | every other field of every context after a tick |
| SchedulerSteps.TickChooses | assignment3/schedule.c:111-113 | who runs after a tick, from the states before it |
| SchedulerSteps.ExitMeans | assignment3/schedule.c:202-247 | the contexts, registers and choice of an exit |
| SchedulerSteps.SleepMeans | assignment3/schedule.c:250-298 | the contexts, registers and choice of a sleep |
| SchedulerSteps.CloneMeans | assignment3/schedule.c:306-369 | the new context field by field, and that nothing else changes |
| SchedulerSteps.SignalMeans | assignment3/schedule.c:396-401 | one handler changes and nothing else |
| SchedulerSteps.AlarmMeans | assignment3/schedule.c:404-411 | the alarm of the current context changes and nothing else |
| SchedulerSteps.FaultMeans | assignment3/schedule.c:371-393 | frame and memory of a fault with a handler; without one it is an exit |
| Scheduler.NonePickedIff | assignment3/schedule.c:30-51 | nobody is chosen exactly if no other user context is ready or waiting, on an exit or a tick of the swapper |
| Scheduler.ShutdownIff | assignment3/schedule.c:30-51 | the system shuts down exactly then |
| SchedulerRuns.PickIsNoFurther | assignment3/schedule.c:15-28 | the chosen context is no further on the scan than any ready one, and from it the ready one is closer |
| SchedulerRuns.BoundedWaiting | assignment3/schedule.c:9-52 | in every run a ready context runs after at most its cyclic distance, so at most 15, scheduling decisions |
| SchedulerRuns.ResumedWithSavedRegisters | assignment3/schedule.c:144-172 | a context is resumed with its saved registers by whatever event chooses it |
| SchedulerRuns.PreemptionPreservesRegisters | assignment3/schedule.c:116-241 | a preempted context resumes with all registers of the moment of preemption, after signal delivery |
| SchedulerRuns.SleepPreservesRegistersIff | assignment3/schedule.c:250-298 | a sleeper resumes after its call, with all registers exactly if its last saved general ones are the current ones |
| SchedulerRuns.SleeperLosesRegister | assignment3/schedule.c:250-298 | from the first state a sleep of one tick and that tick lose the current `rax` |
| SchedulerRuns.CloneStartsAtFunction | assignment3/schedule.c:306-369 | a clone starts at its function on its stack with context 1's saved general registers |
| SchedulerRuns.SignalFrame | assignment3/schedule.c:371-393 | a delivered alarm enters the handler with the old address on top of the user stack and changes nothing else |
| SchedulerRuns.AlarmReachesIff | assignment3/schedule.c:87-100 | when the alarm fires, the registers of a context change exactly if it is the current one and has a handler, and then to its own handler |
| SchedulerRuns.AlarmGoesToAnother | assignment3/schedule.c:87-100 | a run from the start after which context 1's alarm fires at context 2 |
| SchedulerRuns.SleepsExactly | assignment3/schedule.c:102-110 | a sleep of n ticks waits through the next n-1 ticks and is over right after the n-th, in every interleaving |
| SchedulerRuns.AlarmsExactly | assignment3/schedule.c:87-95 | over every run after an alarm of n ticks without a further alarm call of context 1, SIGALRM is invoked exactly t/n times for the t ticks before a clone takes slot 1, which is all ticks if none does |
| SchedulerRuns.AlarmsWithClone | assignment3/schedule.c:306-362 | with such a clone half-way the count is right exactly if the ticks after it complete no further period |
| SchedulerRuns.AlarmIsLost | assignment3/schedule.c:306-362 | a run from the start in which context 1 ends, a clone takes its slot and a SIGALRM is missed |
| SchedulerRuns.CloneStopsAlarm | assignment3/schedule.c:306-362 | after a clone into slot 1 the alarm does not fire until it is set again |
| Kernel.ContextList.PickNextContext | assignment3/schedule.c:9-52 | the two scanning loops choose the first ready context in cyclic order, or what the reason prescribes |
| Kernel.ContextList.SavedIsPushed | assignment3/schedule.c:61-142 | each register is saved from the stack offset it was pushed at |
| Kernel.ContextList.CountAlarm | assignment3/schedule.c:87-95 | the alarm is counted, reloaded and delivered |
| Kernel.ContextList.CountSleeps | assignment3/schedule.c:102-110 | every sleeper counts one tick and wakes at zero |
| Kernel.ContextList.HandleTimerTick | assignment3/schedule.c:54-200 | the whole effect of a tick on contexts, user memory and registers, and the tick is counted |
| Kernel.ContextList.InvokeSyncSignal | assignment3/schedule.c:384-391 | the frame and user stack after a delivery, and no change without a handler |
| Kernel.ContextList.HandleFault | assignment3/schedule.c:371-393 | a fault is delivered, or ends the context if it has no handler for it |
| Kernel.ContextList.DoExit | assignment3/schedule.c:202-247 | the whole effect of an exit |
| Kernel.ContextList.DoSleep | assignment3/schedule.c:250-300 | the whole effect of a sleep |
| Kernel.ContextList.DoClone | assignment3/schedule.c:306-369 | the new context, field by field |
| Kernel.ContextList.Run | assignment3/schedule.c:54-412 | executing a run in place gives its last state |

## Left out

- `destroy_object`, `rename_object`, `release_object` and `fillup_size_details`: deletion and renaming do not do what they are meant to (unparenthesised offset, uninitialised variables); the others are trivial.
- Overwrites, holes and writes at other offsets than the end: `objstore_write` always takes a new block and always adds to the size.
- The FUSE callbacks and the file I/O under the block device; a block read or write is one assignment, and a block copy into or out of a cache line too.
- Short reads past the end of a disk image that is smaller than the data bitmap can name.
- ObjStore.ObjectStore.LoadInodes: the 4048-byte copy of an inode block is taken 46 structs at a time, because the table is an array of structs.
- The locks: the allocator's calls are atomic because scan and update are one critical section; other interleavings of threads are not modelled.
- Printing in WRITE and its fall-through into EXPAND; only the validation is modelled.
- LazyMemory.Process.Shrink: stops at the first product that does not fit an int, because C leaves the rest undefined; what two's complement would make of it is in `ShrinkKeepsToItsPagesIff`.
- Kernel.ContextList.InvokeSyncSignal: the exit for a fault without a handler is in `HandleFault`.
- Kernel.ContextList.DoClone: names, page directory, memory segments and kernel stack, which the scheduler only copies, are not fields of the model.
- The hardware's accessed and dirty bits, TLB invalidation, CR2, and the save and restore of registers around a page fault.
- The kernel stacks of contexts, their names, types, memory segments and page directories, which the scheduler does not look at; inline-assembly clobbers, `iretq`, TSS and interrupt acknowledgement.
- Saturation of `numticks` and of the user memory that a signal is pushed to: any address can be written.
