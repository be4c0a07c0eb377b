# A verified model of the kernel's core

This project models, in Dafny, the parts of a small x86 kernel in which most can go wrong: the buddy
page allocator and the page-table writer, the scheduler with its blocking mutex, the intrusive search
tree and ring list, the slab allocator with its bitset, the hash table, and path resolution on the
tar archive with the table of in-memory inodes. The main results hold for all inputs, all runs and all
shapes of the data; where the code fails a property, the next but one section says exactly when.

`dafny verify dfyconfig.toml` checks the whole project.

## How the model is laid out

| file | models |
|---|---|
| `SearchTree.dfy` | `kernel/util/ds/rbtree.hpp`: heap nodes with parent and child pointers. A ghost map mirrors the pointers and gives every node the open interval of keys its subtree may hold; that makes the tree invariant flat (one clause per node, one per pair of nodes). |
| `Ring.dfy`, `Mutex.dfy` | `kernel/util/ds/list.hpp`, `kernel/scheduler/task_blocking.hpp`, `kernel/scheduler/mutex.cpp`: the pointer-level ring and the mutex object on top of it, proved to act as the value `Lock` (owner and queue). |
| `Scheduler.dfy` | `kernel/scheduler/init.cpp` with the mutex as a transition system: every task is somewhere in its own code, in `lock()` or in `unlock()`; a timer tick may land between any two steps. |
| `Progress.dfy` | the same, on what gets done: calls return, a mutex that is handed over reaches its new owner. |
| `Words.dfy`, `Bitset.dfy` | 32-bit words and bitmaps packed into them (`kernel/util/ds/bitset.hpp`). |
| `BuddySpec.dfy` | the buddy system as sets: the bitmap of each block size as a function of the set of free pages. |
| `FreeLevel.dfy`, `Buddies.dfy`, `Kmem.dfy`, `KmemRuns.dfy` | `kernel/memory/page_allocator.cpp`: one block size with its bitmaps and its intrusive list; splitting and coalescing over the four sizes; the allocator with growth, addresses and the set of live blocks, in every state that requests and frees lead to, damaged lists included; two runs that damage a list. |
| `PageMap.dfy` | the two-level page tables of the same file (32-bit paging, section 4.3 of the Intel SDM, volume 3A). |
| `Slab.dfy` | `kernel/memory/slab.hpp`. A slab header is its memory: the words of the bitset, then the next pointer. |
| `HashTable.dfy` | `kernel/util/ds/hashtable.hpp`. |
| `Tar.dfy`, `Walk.dfy` | the archive scans of `kernel/fs/tar.cpp`, and the component-by-component walk of `kernel/fs/vfs.cpp` against one direct lookup. |
| `Archives.dfy` | archives built from lists of files (the ustar format of IEEE Std 1003.1, pax utility), as a reference for the scans. |
| `Paths.dfy` | what splitting paths and choosing mount points mean in terms of path components. |
| `InodeTable.dfy`, `Vfs.dfy` | reference counts and the inode table (`kernel/fs/vfs.cpp`, `kernel/fs/vfs.hpp`), `traverse` and `release`. |
| `Common.dfy`, `Arith.dfy` | options, uniqueness, a few facts about division. |

## Where the code does not do what it is meant to do

The code is modelled as it is; for each of these there is a failing case and an exact condition.

- Growth of the page allocator does not set the `prev` pointer of the region that was first in a list
  (`kernel/memory/page_allocator.cpp:393-407`). An allocation leaves well-formed lists well formed if and
  only if its own list had a region or the 4k list was empty (`Kmem.Kmem.Alloc`), which covers every 4k
  request. `KmemRuns.UnsafeGrowth` is a run from boot, with 32k requests, that ends with a list that is no
  longer doubly linked.
- As a consequence, "the region at the head of a list has a free block" fails. A request is stuck, on the
  assertion of line 218 or on `__builtin_ctz(0)`, if and only if the region at the head of its list has an
  empty bitmap (`Kmem.Kmem.Alloc`), which no well-formed list has. `KmemRuns.StuckRequest` is a run from boot
  that ends so although kmem could grow: a page; 32k blocks until there are none, and one more; the page is
  freed; 32k blocks until there are none; a page. The bitmaps, the live blocks and the addresses are right in
  every state, damaged lists or not.
- `insert` of a key that is already in the hash table adds a second link. Looking the key up then gives the
  new object if and only if the head of the bucket does not bind the key (`HashTable.Table.Insert`): in
  `HashTable.InsertAgain` the old object stays, in `HashTable.InsertBehind` the new one is found. The table
  stays well formed if and only if the key was absent.
- `remove` takes away the first link with the key. It unbinds the key if and only if no other link binds it;
  `HashTable.RemoveOnce` removes a key that was inserted twice and still finds it. In a well-formed table,
  where keys are unique, it returns true for an absent key if and only if the emptied head of the bucket still
  carries it (`HashTable.Table.Remove`); `HashTable.RemoveFromEmpty` shows a fresh table claim to have removed
  key 0.
- `set_all_until(32 * int_count)` writes the word behind the bitset (`Bitset.SetAllUntil`). The slab
  allocator does this for objects of 127 bytes (`Slab.BitsetFull`); the word is the slab's next pointer,
  which is set afterwards, so no harm is done (`Slab.SlabAllocator.NewSlab`).
- A contended `lock()` called with preemption off panics in `yield()`; it gets past it if and only if it was
  called at depth 0 (`Scheduler.ContendedLock`). `Scheduler.ContendedPanic` is a run of two tasks from the
  start that ends in the panic. `fs::traverse` takes mutexes at depth 1.
- `tar_lookup` and `tar_lookup_by_index` give the same size if and only if the name is a full name or the file
  is empty (`Tar.SizesAgree`); `Tar.SizesDiffer` is an archive and a directory for which they differ.
- The eleven octal digits of a size are read correctly if and only if the first is at most 3
  (`Tar.SizeFits`): the result wraps around at 2^32, and 40000000000 is read as nothing (`Tar.SizeWraps`).
- The scans of the archive go on behind a header if and only if its size is not in the range from 2^32 - 1023
  to 2^32 - 512 (`Tar.StepAdvances`); with 37777777000 they stay at that header (`Tar.StepStalls`).
- Rounding the amount of memory up to pages covers it if and only if `ram_amount + 4095` does not overflow
  (`Kmem.PagesCover`); 2^32 - 1 bytes count as no page (`Kmem.PagesMissed`).
- A mount point covers a path if and only if its path is a prefix both as text and component by component
  (`Paths.CoversMeans`), so with two slashes in a row a path may miss its mount point: //a is not below /a
  (`Paths.DoubleSlash`). Without such slashes the components alone decide (`Paths.CoversByComponents`).
- A walk that ends at the mount root takes no reference. Releasing the result of a walk keeps the counts
  right if and only if the path has a component (`Vfs.ReleaseAfterWalk`, for instance not for "/"); in
  general, releasing an inode does so if and only if a reference to it was held (`Vfs.FileSystem.Release`).

Besides, `i_rc` is not initialised (`kernel/fs/vfs.hpp:106`); the model starts counts at the 1 that the
comment at `kernel/fs/vfs.cpp:101` promises.

## Model

| member | source | states |
|---|---|---|
| SearchTree.Tree.Find | kernel/util/ds/rbtree.hpp:162-179 | the result has the key, and is null only if no node of the tree has it |
| SearchTree.Tree.FindPlace | kernel/util/ds/rbtree.hpp:184-202 | the descent ends at a node with the key, or at a free child place whose key interval contains it and is missed by no node passed on the way |
| SearchTree.Tree.Insert | kernel/util/ds/rbtree.hpp:183-206 | succeeds exactly if the key is absent; then the old in-order sequence is the new one without the item; on failure no pointer of the tree changes |
| SearchTree.Tree.Hang | kernel/util/ds/rbtree.hpp:102-111 | the pointer writes produce the described tree with the node as a leaf of the given parent, or as root |
| SearchTree.HungWellFormed | kernel/util/ds/rbtree.hpp:102-111 | a new leaf in the place the descent reached keeps search order and parent/child agreement |
| SearchTree.Tree.Remove | kernel/util/ds/rbtree.hpp:209-211 | the tree stays well formed (order, parent/child agreement, root) and its in-order sequence is the old one minus the item |
| SearchTree.Tree.Unlink | kernel/util/ds/rbtree.hpp:114-149 | every shape of removal (lonely root, leaf, one child, two children) leaves a well-formed tree of exactly the other nodes |
| SearchTree.Tree.FindClosest | kernel/util/ds/rbtree.hpp:123-128 | the descent ends at the node of that subtree whose key is closest to the removed one; it has no child on that side |
| SearchTree.Tree.RemoveInner | kernel/util/ds/rbtree.hpp:129-148 | replacing a node by its predecessor or successor leaves a well-formed tree of the other nodes |
| SearchTree.Tree.Splice | kernel/util/ds/rbtree.hpp:129-147 | the pointer writes, one after the other and possibly to the same nodes, amount to three map updates and the new root |
| SearchTree.AllSteps | kernel/util/ds/rbtree.hpp:129-147 | those sequential writes equal the intended simultaneous replacement, also when the spliced node is a direct child of the removed one |
| SearchTree.SplicedWellFormed | kernel/util/ds/rbtree.hpp:122-148 | the intended replacement keeps order, parent/child agreement and root, for all shapes |
| SearchTree.PrunedWellFormed | kernel/util/ds/rbtree.hpp:115-120 | cutting off a leaf or a lonely root keeps the tree well formed |
| SearchTree.OrderAfterRemoval | kernel/util/ds/rbtree.hpp:114-149 | any two well-formed trees whose node sets differ by the item have in-order sequences that differ by the item only |
| SearchTree.InOrderOfTree | kernel/util/ds/rbtree.hpp:63-89 | the in-order reading has strictly increasing keys and holds exactly the nodes of the tree |
| SearchTree.Tree.PrevOrNext | kernel/util/ds/rbtree.hpp:63-81 | returns the neighbour in the in-order sequence, null at its end |
| SearchTree.Tree.Climb | kernel/util/ds/rbtree.hpp:72-80 | climbing the parent pointers finds the closest node on that side, or null if there is none |
| SearchTree.NeighbourInverse | kernel/util/ds/rbtree.hpp:84-89 | next and previous are inverse to each other |
| SearchTree.Tree.First | kernel/util/ds/rbtree.hpp:214-220 | the first node of the in-order sequence, null for the empty tree |
| SearchTree.Tree.Last | kernel/util/ds/rbtree.hpp:223-229 | the last node of the in-order sequence, null for the empty tree |
| SearchTree.Tree.Walk | kernel/util/ds/rbtree.hpp:62-89 | starting at the first node and following next visits exactly the in-order sequence and then ends |
| Ring.Link.constructor | kernel/util/ds/list.hpp:13-13 | a new node is a ring of its own |
| Ring.Link.Unlink | kernel/util/ds/list.hpp:31-36 | the node becomes a ring of its own and the others stay a ring in the same order |
| Ring.Link.AddAfterSelf | kernel/util/ds/list.hpp:38-44 | the new node comes right after this one in the ring, the rest stays in order |
| Ring.AddThenUnlink | kernel/util/ds/list.hpp:31-44 | unlinking a node undoes adding it |
| Ring.LonelyMeansAlone | kernel/util/ds/list.hpp:27-29 | a node points to itself exactly if its ring has one node |
| Ring.Rotated | kernel/util/ds/list.hpp:5-29 | a ring may be read from any of its nodes |
| Ring.Iterate | kernel/util/ds/list.hpp:46-73 | iteration visits every node of the ring once, in order, and ends |
| Ring.Append | kernel/scheduler/task_blocking.hpp:17-19 | the node becomes the last one before the sentinel |
| Mutex.MutexObject.LockBody | kernel/scheduler/mutex.cpp:10-19 | refines the value-level acquire: takes a free mutex, or joins the end of the queue and is blocked, or is refused to the owner |
| Mutex.MutexObject.Unlock | kernel/scheduler/mutex.cpp:34-44 | refines the value-level release: frees the mutex, or hands it to the first waiter, who is no longer blocked; refused to others |
| Mutex.MutexObject.Unblock | kernel/scheduler/task_blocking.hpp:21-24 | takes exactly the first waiter out of the wait ring |
| Scheduler.PickNextTask | kernel/scheduler/init.cpp:138-143 | ends if any task of the ring is not blocked, and picks one that is not blocked and no further along the ring than any other such task |
| Scheduler.PickFinds | kernel/scheduler/init.cpp:138-143 | an unblocked task makes the search succeed and is never passed over |
| Scheduler.PickedInTime | kernel/scheduler/init.cpp:138-143 | a task that stays unblocked is picked within as many picks as its ring distance, whatever happens to the others |
| Scheduler.StepKeepsInv | kernel/scheduler/mutex.cpp:4-45 | every step of any task and every tick keeps the invariant that ties mutexes, wait queues, positions of tasks and the preemption counter together |
| Scheduler.AcquireKeepsInv | kernel/scheduler/mutex.cpp:8-19 | so does the step that takes a mutex or joins its queue |
| Scheduler.ReleaseKeepsInv | kernel/scheduler/mutex.cpp:32-44 | so does the hand-over, although the new owner is suspended inside lock() |
| Scheduler.SwitchKeepsInv | kernel/scheduler/init.cpp:146-181 | a switch at depth 0 always finds a task and keeps the invariant |
| Scheduler.LinkKeepsInv | kernel/scheduler/init.cpp:128-131 | a new task in the ring keeps the invariant |
| Scheduler.MutualExclusion | kernel/scheduler/mutex.cpp:4-45 | in every run at most one task is between lock() and unlock() of a mutex, it is the owner, waiters exist only while it is owned, and none waits twice |
| Scheduler.CounterIsDepth | kernel/scheduler/init.cpp:146-187 | in every run the preemption counter is the nesting depth of the running task and every suspended task has depth 0 |
| Scheduler.ResumedOwns | kernel/scheduler/mutex.cpp:20-24 | a task that runs again after waiting owns the mutex, also if a tick landed before yield() |
| Scheduler.StepPanics | kernel/scheduler/mutex.cpp:4-45 | which step fails which assertion, as an equivalence for each: relocking a mutex one holds, unlocking one that one does not own, lifting a preemption lock one does not hold, yielding with preemption off |
| Scheduler.OnlyClientFaults | kernel/scheduler/mutex.cpp:4-45 | no run fails the final assertion of lock() or makes pick_next_task loop for ever |
| Scheduler.PoliteKeepsCalm | kernel/scheduler/mutex.cpp:4-45 | steps that keep the rules of the interface keep the stronger invariant that excludes every assertion failure |
| Scheduler.NothingPanics | kernel/scheduler/mutex.cpp:4-45 | in every run in which tasks lock at depth 0 what they do not hold, unlock what they hold, match preempt_down with preempt_up and yield at depth 0, no assertion ever fails |
| Scheduler.FreeLock | kernel/scheduler/mutex.cpp:8-16 | lock() of a free mutex returns with the caller as owner and the counter as before |
| Scheduler.Contend | kernel/scheduler/mutex.cpp:18-22 | a contended lock() puts the caller at the end of the queue and drops the preemption lock again |
| Scheduler.ContendedLock | kernel/scheduler/mutex.cpp:4-26 | a lock() of a mutex that another task owns gets past yield() exactly if it was called with preemption on, otherwise it panics there; that it returns is stated by Progress.HandOver and Progress.ResumedReturns |
| Scheduler.ContendedPanic | kernel/scheduler/mutex.cpp:18-25 | a run from the start that ends in that panic |
| Scheduler.FirstComeFirstServed | kernel/scheduler/mutex.cpp:12-44 | over any run: waiters at the start, then arrivals, equal hand-overs, then those still waiting, as sequences |
| Progress.UnlockReturns | kernel/scheduler/mutex.cpp:28-45 | unlock() by the holder returns with the counter as before; the mutex is free or belongs to the first waiter, and nothing else changes |
| Progress.Returns | kernel/scheduler/mutex.cpp:4-45 | when tasks keep the rules, a running task inside lock() or unlock() that need not wait is outside again after one or two steps of its own, after lock() holding the mutex |
| Progress.HandOver | kernel/scheduler/mutex.cpp:20-44 | over any run after an unlock: when the first waiter runs, its next step returns from lock() and it holds the mutex, whatever happened in between |
| Progress.GivenStays | kernel/scheduler/mutex.cpp:28-45 | no step of other tasks takes a mutex away from its new owner |
| Progress.ResumedReturns | kernel/scheduler/mutex.cpp:23-26 | with preemption on, the new owner is out of lock() within one round of ticks and one step of its own |
| Progress.WindowReturns | kernel/scheduler/mutex.cpp:22-26 | within two rounds and two steps if a tick landed between preempt_down and yield |
| Progress.TicksReach | kernel/scheduler/init.cpp:146-162 | with preemption on, ticks alone reach every unblocked task within its ring distance and change nothing else |
| Progress.SwitchMoves | kernel/scheduler/init.cpp:138-188 | yield() and a tick with preemption on switch to the nearest unblocked task along the ring and change nothing else |
| Progress.LinkedIsNext | kernel/scheduler/init.cpp:128-131 | a new task is the next to run |
| Progress.UpThenDown | kernel/scheduler/init.cpp:164-171 | preempt_down undoes preempt_up |
| Progress.DepthCounts | kernel/scheduler/init.cpp:164-171 | in every run the depth of a task is what it was plus its calls of preempt_up minus those of preempt_down |
| Words.MarkAdds | kernel/util/ds/bitset.hpp:12-16 | or-ing the shifted one into its word adds exactly that index to the packed set |
| Words.ClearRemoves | kernel/util/ds/bitset.hpp:17-21 | and-ing with the complement removes exactly that index |
| Words.TestBit | kernel/util/ds/bitset.hpp:22-26 | the masked word is nonzero exactly if the bit is set |
| Words.FindFirst | kernel/util/ds/bitset.hpp:27-34 | finds the least index, and fails exactly on the empty set |
| Bitset.SetBit | kernel/util/ds/bitset.hpp:12-16 | adds the index and leaves the memory behind the set alone |
| Bitset.ClearBit | kernel/util/ds/bitset.hpp:17-21 | removes the index and leaves the memory behind the set alone |
| Bitset.HasBit | kernel/util/ds/bitset.hpp:22-26 | tells membership |
| Bitset.FindBit | kernel/util/ds/bitset.hpp:27-34 | the least member, or none exactly if the set is empty |
| Bitset.SetAllUntil | kernel/util/ds/bitset.hpp:36-44 | an empty set becomes the set of all indices below the bound; the word behind the set is overwritten exactly if the bound is its full size |
| Bitset.ClearAll | kernel/util/ds/bitset.hpp:45-49 | empties the set, whatever the memory held |
| Bitset.AllClearUntil | kernel/util/ds/bitset.hpp:60-69 | tells whether no index below the bound is in the set |
| BuddySpec.TakeStops | kernel/memory/page_allocator.cpp:223-228 | where a bit is already clear, the levels above need no change, so the upward walk may stop |
| BuddySpec.TakeWhole | kernel/memory/page_allocator.cpp:245-284 | taking a block clears exactly the bits of the blocks inside it |
| BuddySpec.GiveStops | kernel/memory/page_allocator.cpp:318-351 | where the sibling is not free, nothing above is completed |
| BuddySpec.GiveClimbs | kernel/memory/page_allocator.cpp:318-351 | where the sibling is free, the block above is completed by the same pages |
| BuddySpec.GiveWhole | kernel/memory/page_allocator.cpp:292-311 | giving a block back sets exactly the bits of the blocks inside it |
| FreeLevel.FreeLevel.MarkAlloc | kernel/memory/page_allocator.cpp:92-107 | removes one bit, tells whether it was set, and writes exactly the pointers of an unlink if no bit is left, in a well-formed list or a damaged one; a doubly linked list of exactly the regions with a nonzero bitmap stays one |
| FreeLevel.FreeLevel.MarkFree | kernel/memory/page_allocator.cpp:108-119 | adds one bit; a region that had none and has no prev pointer goes to the front, and a well-formed list stays so |
| FreeLevel.FreeLevel.Unlink | kernel/memory/page_allocator.cpp:99-103 | the pointer writes, exactly, whatever the list looks like; a well-formed list loses the region, if it is in it |
| FreeLevel.FreeLevel.PushFront | kernel/memory/page_allocator.cpp:110-114 | the pointer writes, exactly, whatever the list looks like; a well-formed list gets the region in front |
| FreeLevel.FreeLevel.ValidHead | kernel/memory/page_allocator.cpp:375-386 | the head of a well-formed list has a set bit; the list is empty exactly if all bitmaps are zero |
| FreeLevel.FreeLevel.FirstFree | kernel/memory/page_allocator.cpp:206-221 | the head region and its lowest set bit; none exactly if its bitmap is empty |
| FreeLevel.FreeLevel.Grow | kernel/memory/page_allocator.cpp:388-408 | the pointer writes, exactly; a well-formed list stays so if it was empty, and otherwise no order of the regions makes it one |
| FreeLevel.UnlinkKeepsList | kernel/memory/page_allocator.cpp:99-103 | the result of an unlink is a well-formed list without that node, at either end or in the middle |
| FreeLevel.PushKeepsList | kernel/memory/page_allocator.cpp:110-114 | the result of a push is a well-formed list with the node in front |
| FreeLevel.GrowBreaksList | kernel/memory/page_allocator.cpp:393-407 | without the missing prev write, the list is well formed exactly if it was empty |
| Buddies.BuddyMaps.Take | kernel/memory/page_allocator.cpp:201-289 | splitting: all four bitmaps become those of the free pages minus the block, other regions stay; on each level the region is unlinked exactly if its last bit goes; well-formed lists stay so, damaged ones are no obstacle |
| Buddies.BuddyMaps.TakeUp | kernel/memory/page_allocator.cpp:223-228 | the early-stopping upward walk computes the bitmaps of all levels above |
| Buddies.BuddyMaps.TakeBelow | kernel/memory/page_allocator.cpp:245-284 | clears exactly the blocks inside, on all levels below |
| Buddies.BuddyMaps.GiveUp | kernel/memory/page_allocator.cpp:313-358 | coalescing: the early-stopping upward walk computes the bitmaps of this and all levels above |
| Buddies.BuddyMaps.GiveDown | kernel/memory/page_allocator.cpp:292-311 | sets exactly the bits of all blocks strictly inside |
| Buddies.BuddyMaps.Give | kernel/memory/page_allocator.cpp:361-365 | all four bitmaps become those of the free pages plus the block; a level is linked only if the region gets its first bit there; well-formed lists stay so, damaged ones are no obstacle |
| Buddies.BuddyMaps.Grow | kernel/memory/page_allocator.cpp:388-408 | a fully free region is added on all levels; exactly the lists that were empty stay well formed |
| Kmem.AddressRoundTrip | kernel/memory/page_allocator.cpp:473-511 | the shift and mask decoding of a free recovers region and index of the allocation; addresses are aligned to the block size and inside the mapped range |
| Kmem.DisjointBytes | kernel/memory/page_allocator.cpp:203-286 | blocks without a common page have no common byte |
| Kmem.BytesOfBlock | kernel/memory/page_allocator.cpp:203-286 | the bytes of a block, 4, 8, 16 or 32 kilobytes from its address on, are exactly those of its pages |
| Kmem.LedgerTake | kernel/memory/page_allocator.cpp:201-289 | a block of free pages is disjoint from every live block, and making it live keeps "a page is free exactly if no live block owns it" |
| Kmem.LedgerGive | kernel/memory/page_allocator.cpp:361-365 | giving a live block back keeps it too |
| Kmem.Kmem.EmptyList | kernel/memory/page_allocator.cpp:375-386 | a well-formed list starts at a region with a free block, and is empty exactly if there is none |
| Kmem.Kmem.PageBit | kernel/memory/page_allocator.cpp:92-119 | a 4k bit is set exactly if no live block owns the page |
| Kmem.Kmem.ParentBit | kernel/memory/page_allocator.cpp:201-365 | each 8k/16k/32k bit is the AND of its two child bits |
| Kmem.SameBitmaps | kernel/memory/page_allocator.cpp:292-365 | two allocators with the same live blocks have the same words in every bitmap, whatever the history |
| Kmem.Kmem.FullyCoalesced | kernel/memory/page_allocator.cpp:292-365 | with nothing live every word of every bitmap is all ones, as in a new region |
| Kmem.FreesCommute | kernel/memory/page_allocator.cpp:473-511 | two frees in either order leave the same words in all bitmaps |
| Kmem.Kmem.EmptyLists | kernel/memory/page_allocator.cpp:425-435 | if the 4k list is empty then all four are |
| Kmem.Kmem.BuddyAlloc | kernel/memory/page_allocator.cpp:375-386 | in every state: null exactly if the list is empty; stuck exactly if the head region has no free block; otherwise its lowest free block becomes live |
| Kmem.Kmem.TakeBlock | kernel/memory/page_allocator.cpp:201-289 | a free block becomes live, in every state of the lists |
| Kmem.Kmem.BuddyNew | kernel/memory/page_allocator.cpp:411-423 | succeeds exactly if the next region ends below 896 megabytes and below the end of the memory, counted from the boot values; the end of kmem stays base plus 512k per region |
| Kmem.Kmem.RoomToGrow | kernel/memory/page_allocator.cpp:653-656 | the limit of growth in terms of the memory, the end of the buddy array and the number of regions |
| Kmem.Kmem.BuddyLeft | kernel/memory/page_allocator.cpp:390-390 | the assertion that the buddy array is not full never fails, in any reachable state |
| Kmem.ArrayLasts | kernel/memory/page_allocator.cpp:632-656 | as long as the regions end before kmem does, the array computed at boot has a buddy for one more |
| Kmem.Kmem.Alloc | kernel/memory/page_allocator.cpp:425-471 | from every state that requests and frees lead to: fails exactly if the list is empty and the next region would end beyond 896 megabytes or the memory, is stuck exactly if the head region has no free block, and otherwise the block was not live, shares no page with a live one, its address decodes to it, and all invariants but the lists hold again; well-formed lists stay so if the own list was nonempty or the 4k list empty, and otherwise no order of the regions makes the 4k list one |
| Kmem.Kmem.GrowAndAlloc | kernel/memory/page_allocator.cpp:428-433 | growth always lets the request succeed, out of the new region |
| Kmem.Kmem.Free | kernel/memory/page_allocator.cpp:473-511 | in every state: exactly the decoded block stops being live and its pages become free; well-formed lists stay so |
| Kmem.Kmem.AllocThenFree | kernel/memory/page_allocator.cpp:425-511 | in every state, freeing a block right after its allocation restores every bitmap; if the request made the allocator grow, one free region more is all that is left of it |
| KmemRuns.UnsafeGrowth | kernel/memory/page_allocator.cpp:461-471 | a run from boot after which a free list is no longer doubly linked |
| KmemRuns.TakeBigBlocks | kernel/memory/page_allocator.cpp:461-471 | 32k requests until there are none leave exactly the pages outside whole 32k blocks, and the 4k list loses the region exactly if that is nothing |
| KmemRuns.StuckRequest | kernel/memory/page_allocator.cpp:206-221 | a run from boot that ends in a request whose list starts at a region without a free block, although kmem could grow |
| Kmem.BootSizing | kernel/memory/page_allocator.cpp:632-643 | the first region is 32k aligned, there is a buddy for every region the pages need and no more regions than it takes, and hardly more memory is reserved than that |
| Kmem.PagesCover | kernel/memory/page_allocator.cpp:634-634 | the pages counted cover the memory exactly if rounding up does not overflow, and then without a page too many |
| Kmem.PagesMissed | kernel/memory/page_allocator.cpp:634-634 | an amount of memory of which no page is counted |
| Kmem.Kmem.constructor | kernel/memory/page_allocator.cpp:631-656 | with the sizes computed from the end of the kernel and the memory, there is one region, all free, and every invariant holds |
| PageMap.PageDirectory.MapPage | kernel/memory/page_allocator.cpp:519-548 | the page translates to the given entry and every other page as before, but for what the allocator mapped if it grew; a page table that growth made is used and the page given back exactly if growth mapped in the same four megabytes; a new directory entry has the frame and the flags given, the other entries are as before or made by growth |
| PageMap.PageDirectory.GrowthMaps | kernel/memory/page_allocator.cpp:416-419 | the mappings of a growing allocator take effect in order, the last one counts, and they use none but their own pages |
| PageMap.PageDirectory.MapOne | kernel/memory/page_allocator.cpp:536-546 | maps a page in an existing table or a new empty one; every other page translates as before |
| PageMap.PageDirectory.MapKernel | kernel/memory/page_allocator.cpp:663-668 | exactly the pages from the kernel base to the end are mapped, each at its fixed offset, present and writable in table and directory |
| PageMap.EntryParts | kernel/memory/page_allocator.cpp:531-545 | frame and flags can be read back from a directory entry |
| Slab.SizesFit | kernel/memory/slab.hpp:14-51 | for every object size below 4000, the header is as big as it lies in memory, at least one object fits behind it, no more objects would fit, and each has a bit in a bitset with no word too many |
| Slab.WasteIsShare | kernel/memory/slab.hpp:19-24 | the waste of a page size is the share of the page, in whole per cent, that holds no object |
| Slab.PageSizeSaves | kernel/memory/slab.hpp:25-41 | the page size chosen wastes over five per cent less than half of it would, and no bigger one does |
| Slab.BiggestSaving | kernel/memory/slab.hpp:31-40 | the biggest page size that wastes over five per cent less than the next smaller one, or the smallest |
| Slab.ObjectRoundTrip | kernel/memory/slab.hpp:76-83 | free recovers the slab and the bit that allocate used |
| Slab.ObjectsDisjoint | kernel/memory/slab.hpp:76-76 | different slots, of one slab or of two, share no byte |
| Slab.BitsetFull | kernel/memory/slab.hpp:61-63 | objects of 127 bytes fill the bitset of the page size chosen for them, so that set_all_until touches the word behind it |
| Slab.SlabAllocator.constructor | kernel/memory/slab.hpp:43-54 | the allocator starts without slabs and with the computed sizes |
| Slab.SlabAllocator.NewSlab | kernel/memory/slab.hpp:58-65 | on a page with any contents, exactly the slots that exist are free; other slabs stay |
| Slab.SlabAllocator.TakeSlot | kernel/memory/slab.hpp:67-76 | one free slot of the head slab is taken; a full slab leaves the list, which holds exactly the slabs with a free slot |
| Slab.SlabAllocator.Allocate | kernel/memory/slab.hpp:57-77 | the object was free, lies behind the header as it is in memory and inside the page, is a slot of a slab, and nothing else changes; a new slab only on the fresh page |
| Slab.SlabAllocator.Release | kernel/memory/slab.hpp:78-91 | exactly that slot becomes free; the list holds exactly the slabs with a free slot, each once |
| Slab.ChainPush | kernel/memory/slab.hpp:85-89 | linking a slab in front keeps the chain of next pointers |
| Slab.ChainTail | kernel/memory/slab.hpp:71-74 | dropping the head keeps it |
| HashTable.HashOfResidue | kernel/util/ds/hashtable.hpp:22-24 | the hash depends only on the key modulo the table size |
| HashTable.HashInverse | kernel/util/ds/hashtable.hpp:22-24 | the residue of a key can be computed back from its hash, so the hash is a bijection on residues |
| HashTable.HashCollides | kernel/util/ds/hashtable.hpp:22-24 | keys collide exactly if they agree modulo the table size |
| HashTable.ConsecutiveKeys | kernel/util/ds/hashtable.hpp:22-24 | as many consecutive keys as buckets, also across the 32-bit wrap, fall into different buckets |
| HashTable.Table.constructor | kernel/util/ds/hashtable.hpp:37-37 | binds nothing |
| HashTable.Table.FindLink | kernel/util/ds/hashtable.hpp:26-33 | the first link with the key, if any |
| HashTable.Table.Lookup | kernel/util/ds/hashtable.hpp:91-96 | the bound object, or null |
| HashTable.Table.Insert | kernel/util/ds/hashtable.hpp:39-57 | also in a table where keys were inserted twice: looking the key up afterwards gives the new object unless the head of its bucket binds the key already, and no other binding changes; a well-formed table stays so if and only if the key was absent |
| HashTable.Table.Remove | kernel/util/ds/hashtable.hpp:59-89 | also in a table where keys were inserted twice: the key is then bound to what the next link with it has, or not at all, and no other binding changes; in a well-formed table it is unbound, and the result is true exactly if it was bound or is the stale key of an emptied head |
| HashTable.InsertBucket | kernel/util/ds/hashtable.hpp:44-56 | inserting an absent key in a bucket binds it and no other, and an empty head implies an empty bucket |
| HashTable.InsertTwice | kernel/util/ds/hashtable.hpp:44-56 | a bound key is in the bucket twice afterwards, and which of the two objects is found |
| HashTable.InsertGet | kernel/util/ds/hashtable.hpp:44-56 | in any bucket, the new object is found unless the head link binds the key, and no other key is affected |
| HashTable.InsertAgain | kernel/util/ds/hashtable.hpp:44-56 | inserting a key twice into a fresh table keeps the first object |
| HashTable.InsertBehind | kernel/util/ds/hashtable.hpp:48-55 | behind another key of the same bucket the second object is found |
| HashTable.RemoveBucket | kernel/util/ds/hashtable.hpp:63-86 | a well-formed bucket stays so and no other link with the key is left |
| HashTable.RemoveGet | kernel/util/ds/hashtable.hpp:63-86 | in any bucket, removal in all its cases uncovers the next link with the key and affects no other key |
| HashTable.RemoveOnce | kernel/util/ds/hashtable.hpp:59-89 | a key inserted twice and removed once is still found |
| HashTable.Table.LinkCount | kernel/util/ds/hashtable.hpp:39-89 | heap links in use are the number of bound keys minus the number of buckets they hash to |
| HashTable.RemoveFromEmpty | kernel/util/ds/hashtable.hpp:59-69 | removal of key 0 from a fresh table returns true |
| Tar.ParseOct | kernel/fs/tar.cpp:7-15 | the positional octal value modulo 2^32, and so the value itself exactly if it is below 2^32 |
| Tar.SizeFits | kernel/fs/tar.cpp:22-22 | an eleven-digit size is read correctly exactly if its first digit is at most 3 |
| Tar.SizeWraps | kernel/fs/tar.cpp:22-22 | a size of four gigabytes, which is read as nothing |
| Tar.StepAdvances | kernel/fs/tar.cpp:47-47 | the 32-bit step to the next header, which is nothing exactly for 512 of the biggest sizes |
| Tar.StepStalls | kernel/fs/tar.cpp:47-47 | a size with which a scan never leaves the header |
| Tar.TarLookup | kernel/fs/tar.cpp:17-51 | the scan computes the specification on the list of entries, errors included |
| Tar.LongNames | kernel/fs/tar.cpp:18-18 | names of more than 99 characters, and only they, are too long |
| Tar.TarLookupByIndex | kernel/fs/tar.cpp:53-83 | likewise for the scan by inode number |
| Tar.ScanHeader | kernel/fs/tar.cpp:60-77 | the nested loops over one name compute its specification |
| Tar.MatchesName | kernel/fs/tar.cpp:23-24 | the byte comparison matches exactly if the name is the entry's name or one of its directories |
| Tar.IndexOfLookup | kernel/fs/tar.cpp:17-83 | the number a name got leads back to the same header and to the length of that name; the size by name is that of the header for a full name and 0 for a directory |
| Tar.SizesAgree | kernel/fs/tar.cpp:27-71 | the two scans give the same size exactly if the name is full or the file empty |
| Tar.SizesDiffer | kernel/fs/tar.cpp:27-71 | an archive and a directory for which they differ |
| Tar.InodeInjective | kernel/fs/tar.cpp:17-83 | distinct found names have distinct inode numbers |
| Tar.DirectoryFound | kernel/fs/tar.cpp:21-49 | a directory of a found name is found |
| Archives.ReadArchive | kernel/fs/tar.cpp:17-51 | the scan of an archive built from files, whatever stands in front of it, is sound and meets exactly these files with their names and sizes |
| Archives.FilesFound | kernel/fs/tar.cpp:17-51 | a name is found as the first file that answers to it, with its size, or 0 for a directory, and its number counts the files before and all slashes up to it, from 3 on |
| Archives.OthersNotFound | kernel/fs/tar.cpp:17-51 | a name to which no file answers is not found |
| Archives.DataAt | kernel/fs/tar.cpp:26-26 | the data of a file stands 512 bytes behind the place where it is found |
| Archives.OctalValue | kernel/fs/tar.cpp:7-15 | octal digits denote the number they were made from |
| Walk.NameOfFound | kernel/fs/tar.cpp:165-178 | the name an inode remembers is the name it was found under |
| Walk.ComponentsOk | kernel/fs/vfs.cpp:181-192 | the components of a path are nonempty and have no slash |
| Walk.NothingBelow | kernel/fs/vfs.cpp:194-205 | below a directory that is not found nothing is |
| Walk.WalkAgrees | kernel/fs/vfs.cpp:181-218 | from any found directory, the walk reaches an inode exactly if the direct lookup of the joined name finds that inode |
| Walk.PathResolves | kernel/fs/vfs.cpp:178-222 | a path resolves to an inode exactly if one lookup of its slash-normalised form finds that inode; a failing walk of at most 99 characters fails with no_entry |
| Paths.OneComponent | kernel/fs/vfs.cpp:189-192 | text without a slash is one component |
| Paths.SplitAtSlash | kernel/fs/vfs.cpp:181-192 | the components of a/b are those of a and then those of b; with the row before this determines the components of every path |
| Paths.ExtraSlashes | kernel/fs/vfs.cpp:182-187 | slashes in front, behind and in addition to others change nothing |
| Paths.SplitJoin | kernel/fs/vfs.cpp:181-192 | splitting undoes joining |
| Paths.WalkSlash | kernel/fs/vfs.cpp:178-218 | resolving a/b is resolving b from where a leads |
| InodeTable.TakeRef | kernel/fs/vfs.hpp:57-61 | one more reference keeps every count equal to holders plus children |
| InodeTable.DropRef | kernel/fs/vfs.hpp:65-73 | so does one less, unless it was the last |
| InodeTable.AddInode | kernel/fs/vfs.cpp:100-104 | so does a new inode with its reference to the parent |
| InodeTable.RemoveInode | kernel/fs/vfs.cpp:109-123 | so does the removal of an inode whose last reference goes, its parent's reference then being held by the release chain |
| InodeTable.KeptForAReason | kernel/fs/vfs.cpp:109-123 | if an inode other than the root is in memory then it, or one below it, is held |
| InodeTable.InMemory | kernel/fs/vfs.cpp:91-123 | besides the root, an inode is in memory exactly if something at or below it is held |
| InodeTable.TableOfHolders | kernel/fs/vfs.cpp:91-123 | the table, with all its counts, is a function of the references handed out |
| InodeTable.ReleaseHeld | kernel/fs/vfs.cpp:109-123 | releasing a held reference keeps every count right, up the whole chain of parents |
| InodeTable.ReleaseNotHeld | kernel/fs/vfs.cpp:109-123 | releasing an inode that nobody holds, root or not, always leaves a wrong count, no root, or an inode whose parent is gone |
| InodeTable.MountInv | kernel/fs/vfs.cpp:71-77 | after mounting only the root is there, with one reference |
| Vfs.FileSystem.constructor | kernel/fs/vfs.cpp:71-77 | a mounted file system satisfies the invariant |
| Vfs.FileSystem.Release | kernel/fs/vfs.cpp:109-115 | for every inode in memory: counts stay right if and only if a reference was held; the inode leaves the table exactly if its count reaches zero; the parent chain ends |
| Vfs.FileSystem.Drop | kernel/fs/vfs.cpp:109-123 | the recursion through the parents computes the specified table |
| Vfs.FileSystem.GetInode | kernel/fs/vfs.cpp:91-107 | from the table or new, one reference is handed out and all counts stay right |
| Vfs.FileSystem.Reference | kernel/fs/vfs.hpp:57-61 | one more holder |
| Vfs.FileSystem.LookupFrom | kernel/fs/tar.cpp:162-219 | the lookup through the remembered header is the lookup of the full name of the child |
| Vfs.FileSystem.Advance | kernel/fs/vfs.cpp:194-213 | one component: the reference moves from the current inode to the next, or is given back on error |
| Vfs.FileSystem.Walk | kernel/fs/vfs.cpp:173-221 | the loop computes the specified walk; a failed walk leaves the table exactly as it was; a successful one hands out one reference, none if it stays at the root |
| Vfs.ReleaseAfterWalk | kernel/fs/vfs.cpp:175-221 | releasing what a walk reached keeps the invariant exactly if the path has a component |
| Vfs.StartsWith | kernel/fs/vfs.cpp:150-156 | tells whether the path starts with the mount path |
| Vfs.ChooseMount | kernel/fs/vfs.cpp:135-167 | the first of the longest mount points that cover the path, or none exactly if none covers it |
| Paths.CoversMeans | kernel/fs/vfs.cpp:141-157 | a canonical mount point covers a path exactly if its path is a prefix as text and component by component |
| Paths.CoversByComponents | kernel/fs/vfs.cpp:141-157 | for an absolute path without two slashes in a row, exactly if its components are a prefix |
| Paths.CoveredRest | kernel/fs/vfs.cpp:178-180 | what is walked below a mount point that covers the path are the remaining components |
| Paths.RootCovers | kernel/fs/vfs.cpp:146-148 | a mount at the root takes every absolute path |
| Paths.DoubleSlash | kernel/fs/vfs.cpp:146-156 | a path with two slashes in a row that misses its mount point |
| Vfs.Traverse | kernel/fs/vfs.cpp:125-222 | the best mount point is chosen, the rest of the path is resolved there, and every mounted file system keeps its invariant; a failure leaves its table alone, a success hands out one reference unless the path ends at the mount root, and the other file systems do not change |

## Left out

- hmem pages and scoped mappings: they depend on CR3 and per-task stacks, and are not part of this model.
- The ELF loader, task exit, register frames, stacks, nested interrupts and the interrupt-context assertions.
- Serial port, TTY, keyboard, PIC, IDT, GDT, boot code; formatting and string helpers, the random generator, the plain reference count: hardware access or only easy members.
- `generic_mandatory_lock`, and the creating, unlinking, reading and writing of files.
- The debug fill of allocated pages and TLB invalidation: no effect on what is stated.
- The four template instances of the page allocator are one method with a level parameter, their unrolled calls are loops, and `index ^ 1` is the sibling; pointers to buddies are region numbers, with the four levels kept apart.
- Buddies.BuddyMaps.Take: the four instances differ in the order of the levels; the model clears the levels below first and then goes up.
- PageMap.PageDirectory.MapPage: the pages the allocator returns and the mappings its growth makes are parameters, not calls into the allocator model; a directory other than the kernel's sees no mappings by growth. The page tables that growth itself needs come from the region it has just added, so it does not grow again.
- Kmem.Kmem.BuddyNew: the loop that maps the new region (lines 416-419), and a page table that it may take out of that region, are not part of its contract; what the mappings do to a page directory is stated by `PageMap.PageDirectory.GrowthMaps`.
- Kmem.Kmem.constructor: the mapping of the first region is the separate method MapKernel.
- Bitset.SetBit: the bitset lies inside a slab header, so the bitset methods take the memory and return it changed instead of updating an array in place.
- Tar.TarLookup: inode numbers and positions in the archive are unbounded; an archive with more than four billion names would wrap around in the kernel. An archive on which the scan does not end (`Tar.StepAdvances`) is excluded.
- HashTable.Table.Insert: the links of a bucket are a sequence of values; that the ring operations on them do what is assumed is proved in `Ring.dfy`.
- Scheduler.PickNextTask: the ring of tasks is a sequence with a position; its pointer form is the one of `Ring.dfy`. Reference counts of tasks are left out, and the counter is unbounded.
- Vfs.FileSystem.Release: reference counts change atomically; contention on the inode mutex during a walk is covered by the scheduler model only.
- `all_set_until` and `all_clear` of the bitset have no caller in the core and would only repeat what is shown for the others.
