# The nginx core and the LoRa message parser, modelled and verified in Dafny

The repository vendors the core of nginx 1.29 (`nginx-source/src/core`) next to a small LoRa messaging backend. This
project models the parts of it that keep state with a delicate invariant, that run concurrently, or that encode and
decode, and proves what callers rely on. Each module follows one source file.

| module | source file | form of the model |
|---|---|---|
| `RbTree` | `ngx_rbtree.c` | nodes on the heap with parent links and one shared sentinel; a ghost tree says what the links mean |
| `Bits`, `SlabLists`, `SlabPages`, `SlabStages`, `SlabListing`, `SlabGeometry`, `SlabChunks`, `SlabState`, `SlabBlocks`, `SlabInit`, `SlabPool` | `ngx_slab.c` | an array of page descriptors with tagged links, in which slots and the free list are heads of rings, bitmaps in words, and a class whose methods are the functions of the file |
| `Shmtx` | `ngx_shmtx.c` | a step system: one atomic operation of one process at a time |
| `ThreadPool` | `ngx_thread_pool.c` | a step system: one critical section, handler call or completion at a time |
| `QueueSort`, `MergeSort` | `ngx_queue.c`, `ngx_queue.h` | nodes on the heap in rings, and the merge sort of sequences they are proved against |
| `RadixTree` | `ngx_radix_tree.c` | nodes on the heap, with a list of free nodes, for keys of any width |
| `Hash`, `WildcardHash` | `ngx_hash.c` | buckets of elements, and nested hashes of labels |
| `OpenFileCache` | `ngx_open_file_cache.c` | records at addresses, an index, a queue, and who owns which open descriptor |
| `DnsName` | `ngx_resolver.c` | bytes of a response and of a query |
| `Inet` | `ngx_inet.c` | characters and 16 bytes |
| `HttpDate` | `ngx_parse_time.c` | characters, and unsigned numbers of 64 bits |
| `Crc32` | `ngx_crc32.h`, `ngx_crc32.c`, `backend/parser.py` | words of 32 bits |
| `Chunks`, `LoraFrame` | `backend/parser.py` | strings |

Methods have the loops and the assignments of the source. They are proved against functions or predicates over values,
and lemmas state what those mean. Machine words wrap around wherever the source lets them: timer keys, the waiter
counter of the mutex, hash keys, the fields of an HTTP date and numbers of IPv4 addresses. Tag bits of the slab
allocator are a field of the descriptor, and its bitmaps are words whose bits are looked at one by one.

The operating system is a parameter: what a look at a file shows (`OpenFileCache.Probe`), what time it is, what a block
of memory holds when it is allocated, in which order processes and threads run, and how often a thread is woken for
nothing.

## Findings

Each of these is a promise the code does not keep on all inputs. The lemmas named here give an input, or the exact
condition.

- **IPv6 text.** `ngx_inet6_addr` does not accept the text that `ngx_inet6_ntop` writes for `::255.255.255.255` and
  `::ffff:255.255.255.255`, because the number of the dotted part is that of an error. All other addresses come back
  (`Inet.RoundTrip`, `Inet.PrintAndParse`).
- **HTTP dates in year 0.** A date in January or February of year 0 is accepted, and its time is 10368 seconds too late,
  because the number of years is negative and divided without sign; every other date that is accepted has the right time
  (`HttpDate.TimeRight`, `HttpDate.YearZero`).
- **HTTP dates with day 0.** What is accepted is a date if and only if its day is not 0. Day 0 counts as the day before the
  first of the month (`HttpDate.DayZero`); "Sun, 00 Nov 1994 08:49:37 GMT" is an example (`HttpDate.DayZeroAccepted`).
- **DNS names.** `ngx_resolver_create_name_query` sends labels of up to 255 bytes and any number of them. A query that
  is read by `ngx_resolver_copy` gives its name back if and only if it has at most 127 labels of at most 63 bytes
  (`DnsName.RoundTrip`).
- **Freeing a bitmap.** `ngx_slab_free_locked` does not check that an address in a page of small chunks is behind the
  bitmap of the page. For the start of a chunk that holds part of the bitmap it succeeds and breaks the pool; for every
  other address in the pages it succeeds exactly for a live block (`SlabPool.SlabPool.FreeLocked`). In a page of small
  chunks, the start of the page is such an address (`SlabBlocks.PageStartReserved`).
- **Freeing behind the last page.** The range test of `ngx_slab_free_locked` lets addresses from the end of the last page
  to the end of the memory through and reads a page descriptor for them. Exactly the addresses before the end of the last
  page have one (`SlabBlocks.NoDescriptor`).
- **A directory with the number of a file.** The open-file cache compares inode numbers only. When a name stands for a
  directory that has the inode number of the file the cache has open, as on another file system mounted there, the
  record keeps a descriptor that it does not own, and closes it again later. That is the only input on which the
  invariant of the cache is lost (`OpenFileCache.Cache.OpenCached`; an example is `OpenFileCache.SameNumber`).
- **File checksums.** The register of `file_crc32` starts with 0, so zero bytes at the start of a file do not matter
  (`Crc32.LeadingZeros`). Changes within four bytes are always seen, but not all changes of five bytes
  (`Crc32.BurstDetected`, `Crc32.FiveBytesMissed`).
- **LoRa frames.** A frame comes back as it was sent if and only if sender and message hold no bar, the sender is not
  empty, both numbers are not 0, and the fields a receiver finds behind the first bar of the checksum field are harmless:
  none is a message, the numbers among them can be read, and the last sender among them, if any, is the right one
  (`LoraFrame.RoundTrip`). The checksum "x|message:y" brings a second message (`LoraFrame.SecondMessage`). The checksum of
  the frame refuses every payload with one character replaced (`LoraFrame.SubstitutionRefused`) but none with two
  neighbours swapped (`LoraFrame.SwapUnnoticed`).
- **Chunks that are too small.** `split_into_chunks` returns parts that are too long if a character does not fit into a
  part of its own; then there is no way to cut the message at all (`Chunks.SplitIntoChunks`).
- **Deleting the empty prefix.** `ngx_radix32tree_delete` and `ngx_radix128tree_delete` follow a null pointer if and only if
  the mask is empty and the root has no children, even if the root has a value (`RadixTree.Tree.Delete`). So deleting a
  prefix that was just inserted undoes the insertion in all other cases and in no other (`RadixTree.Tree.InsertAndDelete`).
- **A hash without names.** `ngx_hash_init` divides by zero if and only if there are no names, some size is allowed and a bucket
  has 8 to 23 bytes (`Hash.Init`, `WildcardHash.Init`).

## Model

| member | source | states |
|---|---|---|
| RbTree.RbTree.Insert | nginx-source/src/core/ngx_rbtree.c:24-93 | the new node enters the in-order sequence exactly once, at the place to which the comparison of the tree sends it, no other node moves in the order or changes its key, and links, colours and black heights are valid again |
| RbTree.RbTree.Delete | nginx-source/src/core/ngx_rbtree.c:156-315 | exactly the given node leaves the in-order sequence and its key leaves the keys, and links, colours and black heights are valid again, although the parent link of the shared sentinel is written and used on the way |
| RbTree.RbTree.DeleteFix | nginx-source/src/core/ngx_rbtree.c:250-314 | starting from a place that is one black node short, where the moving node may be the sentinel, the loop ends in a valid red-black tree with the same nodes in the same order |
| RbTree.RbTree.Choose | nginx-source/src/core/ngx_rbtree.c:167-178 | the node that gives up its place has at most one child, and is the node itself or the first of its right subtree in order |
| RbTree.RbTree.LeftRotate | nginx-source/src/core/ngx_rbtree.c:318-345 | the six pointer writes turn the one subtree by a rotation to the left, and neither other nodes nor the order change; the parent of the root need not be right |
| RbTree.RbTree.RightRotate | nginx-source/src/core/ngx_rbtree.c:348-375 | the same for a rotation to the right |
| RbTree.RbTree.InsertValue | nginx-source/src/core/ngx_rbtree.c:96-118 | when the nodes with larger keys all come after the others, the new red leaf hangs exactly between the two |
| RbTree.RbTree.InsertTimerValue | nginx-source/src/core/ngx_rbtree.c:121-153 | the same for the nodes that the sign of the difference of two machine words calls later |
| RbTree.RedUncle | nginx-source/src/core/ngx_rbtree.c:53-57 | recolouring parent, uncle and grandparent leaves at most one fault, two levels up |
| RbTree.BlackUncle | nginx-source/src/core/ngx_rbtree.c:59-68 | after the turn of parent and node, the recoloured parent and grandparent are ready for the rotation that ends the loop |
| RbTree.RedSibling | nginx-source/src/core/ngx_rbtree.c:257-262 | a red sibling is rotated up, and the same place is short below a red parent with a black sibling |
| RbTree.BlackNephews | nginx-source/src/core/ngx_rbtree.c:264-266 | a black sibling with two black children turns red, and the place of the parent is the short one |
| RbTree.NearNephew | nginx-source/src/core/ngx_rbtree.c:269-274 | a red near nephew is rotated up, and the place is short beside a black sibling with a red far child |
| RbTree.FarNephew | nginx-source/src/core/ngx_rbtree.c:276-280 | with a red far nephew, the last rotation and colours make the whole tree valid |
| RbTree.ShortEnds | nginx-source/src/core/ngx_rbtree.c:314 | if the short place is the root or holds a red node, blackening it makes the whole tree valid |
| RbTree.HeightBound | nginx-source/src/core/ngx_rbtree.c:24-93 | two to the height of a valid tree of n nodes is at most the square of n + 1 |
| RbTree.RbTree.Next | nginx-source/src/core/ngx_rbtree.c:378-404 | the next node is the one behind the given node in the in-order sequence, and null exactly behind the last |
| RbTree.RbTree.Walk | nginx-source/src/event/ngx_event_timer.c:105-115 | a walk from the minimum by ngx_rbtree_next meets the nodes of the in-order sequence, all of them and in order |
| RbTree.InorderDistinct | nginx-source/src/core/ngx_rbtree.c:378-404 | no node is met twice |
| RbTree.RbTree.First | nginx-source/src/core/ngx_rbtree.h:76-84 | the minimum of a tree that is not empty is the first node of the in-order sequence |
| RbTree.ValueOrder | nginx-source/src/core/ngx_rbtree.c:96-118 | in sorted keys, the place of a new key is behind all keys that are less or equal, and the keys stay sorted |
| RbTree.TimerCompares | nginx-source/src/core/ngx_rbtree.c:128-140 | the comparison of timer keys by the sign of their difference is that of deadlines as long as both are within half the key range behind one base |
| RbTree.TimerOrder | nginx-source/src/core/ngx_rbtree.c:121-153 | in sorted deadlines within half the key range, a new one goes behind all that are not later, and they stay sorted |
| RbTree.ValueRun | nginx-source/src/core/ngx_rbtree.c:96-118 | keys are sorted after any run of inserts and deletes |
| RbTree.Rebased | nginx-source/src/core/ngx_rbtree.c:127-132 | the order of deadlines is the same for every base behind which all of them are within half the key range |
| RbTree.TimerRun | nginx-source/src/core/ngx_rbtree.c:121-153 | deadlines are sorted after any run of inserts and deletes, however often the clock wraps around in it, as long as those in the tree at one time are within half the key range behind some base |
| SlabPool.SlabPool.AllocLocked | nginx-source/src/core/ngx_slab.c:183-417 | a block that is returned was not live, becomes live, and all other live blocks stay as they were; a block of chunks has the least size of chunks that will do, and one of pages is a whole number of pages, at least as large as requested and by less than a page larger; null is returned only if no chunk of the size is clear and no page is free, or if for no number of pages that will do there is a free run of that length, and changes nothing but counters |
| SlabPool.SlabPool.FreeLocked | nginx-source/src/core/ngx_slab.c:460-674 | the pool stays valid and the call succeeds exactly for a live block if and only if the address is not the start of a chunk of a bitmap; a success takes away exactly this block, a failure changes nothing, and its reason is that of the address |
| SlabPool.SlabPool.FreeTwice | nginx-source/src/core/ngx_slab.c:460-674 | freeing an address a second time always fails and changes nothing |
| SlabPool.SlabPool.AllocPages | nginx-source/src/core/ngx_slab.c:677-730 | the first run of the free list that is long enough gives its first pages and its rest takes its place in the list; null is returned, without a change, only if every free run is shorter |
| SlabPool.SlabPool.FreePages | nginx-source/src/core/ngx_slab.c:733-810 | the pages are free, joined with the free runs on both sides, pfree grows by their number, and all other pages are in use as before |
| SlabPool.SlabPool.constructor | nginx-source/src/core/ngx_slab.c:99-164 | whatever the memory held, the new pool is valid, all its pages are free and no block is live |
| SlabPool.SlabPool.Create | nginx-source/src/core/ngx_slab.c:99-164 | the pages are aligned, behind their descriptors and inside the memory, at most one fewer than would fit without alignment, and a valid pool of them is made |
| SlabPool.SlabPool.SlotFor | nginx-source/src/core/ngx_slab.c:208-216 | the slot is the one with the least chunks that are not smaller than the request |
| SlabPool.SlabPool.HandOut | nginx-source/src/core/ngx_slab.c:226-326 | the first clear chunk of the page is set, and the page leaves its list exactly if no chunk is clear any more |
| SlabPool.SlabPool.FreshBitmap | nginx-source/src/core/ngx_slab.c:335-357 | the bitmap of a new page of small chunks marks the chunks it lies in and the one that is handed out |
| SlabPool.SlabPool.ReturnChunk | nginx-source/src/core/ngx_slab.c:497-538 | a live chunk that is returned is not live any more, nothing else in the pool changes, and the counters follow; a chunk of the bitmap is cleared, and the counters drop all the same |
| SlabPool.SlabPool.FreeBlock | nginx-source/src/core/ngx_slab.c:638-644 | a block of pages that is returned is not live any more, and all other blocks are |
| SlabPages.Pages.FreeTotal | nginx-source/src/core/ngx_slab.c:733-810 | the lengths of the runs on the free list add up to the number of free pages, which is pfree |
| SlabPages.Pages.RunsApart | nginx-source/src/core/ngx_slab.c:677-810 | no page is in two runs of the free list |
| SlabPages.Pages.JoinRightKeeps | nginx-source/src/core/ngx_slab.c:753-772 | joining the free run behind a run keeps descriptors, lists and the last page of each free run right |
| SlabPages.Pages.JoinLeftKeeps | nginx-source/src/core/ngx_slab.c:774-797 | the same for the free run before it, which is found from its last page |
| SlabPages.Pages.FinishKeeps | nginx-source/src/core/ngx_slab.c:800-809 | pushing the joined run on the free list, with its last page pointing back to its head, keeps all descriptors and lists right, and no two free runs are side by side |
| SlabPages.Pages.TakeKeeps | nginx-source/src/core/ngx_slab.c:684-718 | cutting a block off a free run keeps all descriptors and lists right |
| SlabPages.Pages.RightTest | nginx-source/src/core/ngx_slab.c:755-761 | the test of the next page is true exactly if that page is the head of a free run, whose length it gives |
| SlabPages.Pages.LeftTest | nginx-source/src/core/ngx_slab.c:774-783 | the test of the page before leads to the head of the free run that ends there, or to no free run |
| SlabStages.FreedSet | nginx-source/src/core/ngx_slab.c:733-810 | the pages that become free are exactly those of the block |
| SlabStages.NothingFits | nginx-source/src/core/ngx_slab.c:682-729 | when the walk along the free list is over, no free run is long enough |
| SlabListing.SlotTest | nginx-source/src/core/ngx_slab.c:223-226 | the page behind a slot is not its own successor exactly if the list of the slot is not empty |
| SlabLists.Lists.UnlinkKeeps | nginx-source/src/core/ngx_slab.c:258-263 | unlinking a page from its ring, by the tagged links of the page, keeps every ring |
| SlabLists.Lists.PushKeeps | nginx-source/src/core/ngx_slab.c:503-507 | pushing a page to a slot keeps every ring |
| SlabLists.Lists.SubstituteKeeps | nginx-source/src/core/ngx_slab.c:689-695 | letting a page take the place of another keeps every ring |
| SlabChunks.Chunks.FirstClear | nginx-source/src/core/ngx_slab.c:234-305 | the scan ends at the first chunk that is not taken, in each of the three kinds of bitmaps |
| SlabChunks.Chunks.Exhausted | nginx-source/src/core/ngx_slab.c:251-311 | after a chunk was marked, the test says exactly whether all chunks are taken |
| SlabChunks.Chunks.EmptyTest | nginx-source/src/core/ngx_slab.c:512-607 | the test of the bitmap words says exactly whether no chunk but those of the bitmap is taken |
| SlabChunks.Chunks.MarkedTaken | nginx-source/src/core/ngx_slab.c:241-243 | setting or clearing the bit of a chunk changes whether this chunk is taken and no other, although the descriptor word also holds the shift |
| SlabChunks.Chunks.FreshValid | nginx-source/src/core/ngx_slab.c:338-391 | in a new page the only live chunk is the first behind the bitmap, and the page is not full |
| SlabGeometry.Geometry.ReservedFits | nginx-source/src/core/ngx_slab.c:338-344 | the bitmap lies within its chunks, would not lie within one fewer, and they leave at least two others |
| SlabState.Slab.HandedKeeps | nginx-source/src/core/ngx_slab.c:226-326 | handing out a clear chunk keeps the pool valid and adds this chunk to the live ones |
| SlabState.Slab.ReservedReturned | nginx-source/src/core/ngx_slab.c:497-523 | a pool in which a chunk of a bitmap came back is not valid, and its page does not look empty |
| SlabBlocks.Disjoint | nginx-source/src/core/ngx_slab.c:183-417 | no two live blocks overlap |
| SlabBlocks.Inside | nginx-source/src/core/ngx_slab.c:183-417 | live blocks lie inside the pages of the pool |
| SlabBlocks.ClearOfBitmaps | nginx-source/src/core/ngx_slab.c:335-367 | no live block overlaps the bitmap of a page |
| SlabBlocks.EmptyPool | nginx-source/src/core/ngx_slab.c:733-810 | once no block is live, the pool is one free run over all pages |
| SlabBlocks.DoneIfLive | nginx-source/src/core/ngx_slab.c:460-674 | the reason given for an address is success exactly if a live block begins there |
| SlabBlocks.PageStartReserved | nginx-source/src/core/ngx_slab.c:484-510 | the start of a page of small chunks is a chunk of its bitmap, at which no block is live |
| SlabBlocks.NoDescriptor | nginx-source/src/core/ngx_slab.c:470-477 | of the addresses that pass the range test, exactly those before the end of the last page are in a page with a descriptor |
| SlabBlocks.AllTaken | nginx-source/src/core/ngx_slab.c:223-226 | when the list of a slot is empty, every chunk of its size is taken |
| SlabBlocks.NoFreePage | nginx-source/src/core/ngx_slab.c:724-729 | when no run of one page is found, no page is free |
| SlabBlocks.StatsAdd | nginx-source/src/core/ngx_slab.c:365-369 | after a chunk was handed out, used and total are the numbers of live chunks and of chunks of the size |
| SlabBlocks.StatsRemove | nginx-source/src/core/ngx_slab.c:535-653 | and so after a chunk came back |
| SlabBlocks.UsedUpToTotal | nginx-source/src/core/ngx_slab.c:218-369 | in a valid pool, used is at most total for each size, and equal to it exactly if every chunk of the size is handed out |
| SlabInit.FirstValid | nginx-source/src/core/ngx_slab.c:107-160 | the state after initialisation is valid, holds nothing, and all pages are free |
| SlabInit.Layout | nginx-source/src/core/ngx_slab.c:111-157 | the pages that are left lie aligned between their descriptors and the end of the memory, and alignment costs at most one page |
| Shmtx.MutualExclusion | nginx-source/src/core/ngx_shmtx.c:62-161 | in every state of every run of any number of processes, at most one process has the lock |
| Shmtx.Conservation | nginx-source/src/core/ngx_shmtx.c:100-195 | waiter counter, read with its sign, plus semaphore plus posts on their way is the number of registered waiters, and the surplus of posts is at most the number of processes |
| Shmtx.NoLostWakeup | nginx-source/src/core/ngx_shmtx.c:69-196 | whenever the lock is free and a process sleeps on an empty semaphore, some process is on its way to take the lock or to wake one |
| Shmtx.StepKeeps | nginx-source/src/core/ngx_shmtx.c:62-196 | every atomic operation keeps the invariant: who has the lock is named by it, the counts add up, and nobody asleep is forgotten |
| Shmtx.TryLockAnswer | nginx-source/src/core/ngx_shmtx.c:62-66 | whatever other processes do meanwhile, trylock takes the lock exactly if it is free at its last step, and else returns without having changed anything; it succeeds if the lock is free all the time |
| Shmtx.TryLockFree | nginx-source/src/core/ngx_shmtx.c:62-66 | in every reachable state with a free lock, two steps of a process that calls trylock end with the lock word equal to its process number and nothing else changed |
| Shmtx.LockFree | nginx-source/src/core/ngx_shmtx.c:77-80 | the same for a process that calls lock |
| Shmtx.LockLate | nginx-source/src/core/ngx_shmtx.c:103-106 | a registered waiter that finds the lock free has it after three steps, and the counter is one lower |
| Shmtx.LockTaken | nginx-source/src/core/ngx_shmtx.c:62-133 | while the lock is taken, trylock answers no, lock looks again or registers, a registered waiter goes to sleep, and nothing shared changes |
| Shmtx.LockReturns | nginx-source/src/core/ngx_shmtx.c:69-133 | lock returns only to a process whose number is in the lock word |
| Shmtx.UnlockFrees | nginx-source/src/core/ngx_shmtx.c:136-146 | the process that has the lock sets it to 0 and goes on to wake another one, in every reachable state |
| Shmtx.ForceUnlockFrees | nginx-source/src/core/ngx_shmtx.c:149-161 | unlocking by force frees the lock exactly if it is still that of the dead process |
| Shmtx.WakesOne | nginx-source/src/core/ngx_shmtx.c:164-196 | with a semaphore and a positive counter, an undisturbed wakeup takes one from the counter and adds one to the semaphore, and it returns at once otherwise |
| Shmtx.Awakes | nginx-source/src/core/ngx_shmtx.c:111-131 | a sleeping process goes on exactly by taking one from the semaphore |
| Shmtx.SignedValue | nginx-source/src/core/ngx_shmtx.c:176-180 | the counter is read as the number in the signed range that is congruent to it |
| Shmtx.GoesOn | nginx-source/src/core/ngx_shmtx.c:62-196 | a process can go on exactly if it is not dead, not asleep on an empty semaphore, and not spinning for a taken lock without a semaphore |
| Shmtx.NoDeadlock | nginx-source/src/core/ngx_shmtx.c:62-196 | in every reachable state in which the lock is not that of a dead process, while a process is in a call or has the lock, some process that is not idle can go on |
| ThreadPool.InOnePlace | nginx-source/src/core/ngx_thread_pool.c:230-394 | in every reachable state, an active task is in exactly one of the queue, the workers, the done list and the tasks being drained, once, and other tasks are in none |
| ThreadPool.FirstInFirstOut | nginx-source/src/core/ngx_thread_pool.c:262-332 | tasks are taken in the order in which they were posted, and completed in the order in which they finished |
| ThreadPool.AtMostOnce | nginx-source/src/core/ngx_thread_pool.c:230-394 | a task is completed at most as often as run, run at most as often as taken, and taken at most as often as posted |
| ThreadPool.QueueBound | nginx-source/src/core/ngx_thread_pool.c:243-314 | the counter is the length of the queue less the workers that asked for a task, and the queue has at most max_queue tasks more than there are workers |
| ThreadPool.PostAnswer | nginx-source/src/core/ngx_thread_pool.c:230-275 | in every reachable state, a task that is not active is accepted exactly if the queue is shorter than max_queue plus the number of workers that asked for a task; it becomes the last of the queue and active, and one waiting worker is woken if there is one; an active task and one too many are refused, and nothing changes |
| ThreadPool.CanPost | nginx-source/src/core/ngx_thread_pool.c:230-275 | a task can be posted in every state |
| ThreadPool.CanWork | nginx-source/src/core/ngx_thread_pool.c:278-394 | a worker can go on in every state, a waiting one because it may be woken for nothing, and the main thread can take or complete finished tasks |
| ThreadPool.NoDeadlock | nginx-source/src/core/ngx_thread_pool.c:278-394 | while a task is active, a worker is awake or there are finished tasks to be completed, if there are workers at all |
| ThreadPool.NoLostSignal | nginx-source/src/core/ngx_thread_pool.c:257-321 | while a worker waits unsignalled, there are at least as many woken workers as tasks in the queue |
| ThreadPool.StepKeeps | nginx-source/src/core/ngx_thread_pool.c:230-394 | every step keeps the invariant |
| QueueSort.SortQueue | nginx-source/src/core/ngx_queue.c:54-74 | afterwards the ring on the same head holds the merge sort of the list, made of the same nodes; the head of the second half is in no ring |
| QueueSort.MergeLists | nginx-source/src/core/ngx_queue.c:77-106 | the ring holds the merge of the two lists, and the head of the second one is not linked |
| QueueSort.Middle | nginx-source/src/core/ngx_queue.c:21-49 | the node at the middle, and the first of the second half if there are two |
| QueueSort.Divide | nginx-source/src/core/ngx_queue.h:90-96 | the second half of the list, from the middle on, is a ring with a head of its own |
| QueueSort.TakeRest | nginx-source/src/core/ngx_queue.h:99-103 | the rest of the second list, which is not empty, is appended at once |
| QueueSort.SplitRings | nginx-source/src/core/ngx_queue.h:90-96 | the five assignments of a split make two rings of one |
| QueueSort.JoinedRing | nginx-source/src/core/ngx_queue.h:99-103 | the four assignments of an addition make one ring of two, without the second head, provided the second list is not empty |
| QueueSort.MovedRing | nginx-source/src/core/ngx_queue.h:43-85 | removing a node from one ring and inserting it before a node of another moves it, and both are rings again |
| MergeSort.SortCorrect | nginx-source/src/core/ngx_queue.c:52-74 | the sort is a permutation, sorted, and keeps the order of equivalent elements, for every total preorder |
| MergeSort.SortUnique | nginx-source/src/core/ngx_queue.c:52-74 | a sorted and stable arrangement is unique, so the three properties determine the result |
| MergeSort.MergeStable | nginx-source/src/core/ngx_queue.c:96-102 | a merge keeps equivalent elements in order, those of the first list first |
| RadixTree.Tree.Find | nginx-source/src/core/ngx_radix_tree.c:236-263 | the value is that of the longest stored prefix of the key |
| RadixTree.LongestMatch | nginx-source/src/core/ngx_radix_tree.c:236-263 | that value is the value of a stored prefix and no longer one is stored, and it is the missing value exactly if no prefix is |
| RadixTree.Tree.Insert | nginx-source/src/core/ngx_radix_tree.c:108-170 | the prefix gets the value unless it has one, and then nothing changes; every other prefix keeps its value and its node |
| RadixTree.Tree.Delete | nginx-source/src/core/ngx_radix_tree.c:173-233 | a stored prefix is stored no more, all others are, and the nodes that stay are where they were; for a prefix that is not stored nothing changes; and a null pointer is followed exactly for an empty mask when the root has no children |
| RadixTree.Tree.InsertAndDelete | nginx-source/src/core/ngx_radix_tree.c:108-233 | deleting a prefix that was just inserted restores the tree node by node, unless it is the empty one and the root has no children |
| RadixTree.Tree.ShapeOf | nginx-source/src/core/ngx_radix_tree.c:108-233 | which nodes there are depends only on what is stored: the root, and the nodes at prefixes of stored prefixes |
| RadixTree.Tree.Alloc | nginx-source/src/core/ngx_radix_tree.c:463-488 | the first free node, if there is one, is handed out and free no more, and the tree is as it was |
| RadixTree.Tree.FreeNode | nginx-source/src/core/ngx_radix_tree.c:215-216 | the freed node becomes the first free one, and the free nodes stay chained and apart from the tree |
| RadixTree.Tree.Collapse | nginx-source/src/core/ngx_radix_tree.c:206-230 | a leaf goes, and so do the nodes above it that were there for it only; nothing else is lost |
| Hash.Init | nginx-source/src/core/ngx_hash.c:251-486 | a table is built if and only if the sizes are allowed, every name fits into a bucket, and some size tried makes all buckets fit or 16 bits can count every bucket at the greatest size; it holds each name in the bucket of its key; and zero is divided by exactly without names and with 8 to 23 bytes in a bucket |
| Hash.ChooseSize | nginx-source/src/core/ngx_hash.c:288-330 | the first size for which all buckets fit, or the greatest if there is none |
| Hash.Find | nginx-source/src/core/ngx_hash.c:12-48 | the value of the first element of the bucket that has the name |
| Hash.GetHeld | nginx-source/src/core/ngx_hash.c:12-48 | that is the value of the first element of the whole list that has the name |
| Hash.KeyAppend | nginx-source/src/core/ngx_hash.h:114 | a byte more multiplies the key by 31 and is added to it, in 64 bits |
| Hash.EltRoom | nginx-source/src/core/ngx_hash.c:248-249 | an element takes the least multiple of 8 bytes that holds a pointer, two bytes and the name |
| Hash.StartIs | nginx-source/src/core/ngx_hash.c:296-301 | the size tried first is 1000 below the greatest if that is above 10000 and there are less than 100 places for a name, and else the number of names by the number of smallest elements in a bucket, or 1 |
| WildcardHash.FindCompiled | nginx-source/src/core/ngx_hash.c:52-143 | in compiled tables, a lookup returns the value of the most specific wildcard that matches the name |
| WildcardHash.BestMatch | nginx-source/src/core/ngx_hash.c:52-143 | that is the value of a matching wildcard, no other match has more labels, and it is null exactly if none matches |
| WildcardHash.MatchText | nginx-source/src/core/ngx_hash.c:52-143 | .example.com matches example.com and the names that end with .example.com, and *.example.com only the latter |
| WildcardHash.ReversedName | nginx-source/src/core/ngx_hash.c:489-631 | com.example is the key of .example.com, and com.example. that of *.example.com, for any labels |
| WildcardHash.FindHead | nginx-source/src/core/ngx_hash.c:52-143 | the walk over the labels from the last one on computes the meaning of the nested tables |
| WildcardHash.Init | nginx-source/src/core/ngx_hash.c:489-631 | names in order compile into tables that answer as the list of names does, if and only if a table can be built for the first labels and, in each group, for the rest; the exception is that of no names at all |
| WildcardHash.Gather | nginx-source/src/core/ngx_hash.c:540-588 | the names of a group without their first label, exactly up to the first name with another label |
| WildcardHash.CompileGroup | nginx-source/src/core/ngx_hash.c:508-623 | the element for a group of names with one first label answers as these names do |
| WildcardHash.SubsReady | nginx-source/src/core/ngx_hash.c:540-588 | what is left of a group is in order again, without duplicates |
| OpenFileCache.Cache.OpenCached | nginx-source/src/core/ngx_open_file_cache.c:143-486 | the invariant survives a call if and only if the file system does not show, for a name that is compared with it, a directory with the number of the file whose descriptor the record holds; then the answer is what the record or the file system said, a descriptor in use stays open, the record is the latest used, the index keeps all other names but the one evicted, and a cleanup is registered exactly for an open file; whatever calls came before, the file system is left alone exactly if the name has a record with a descriptor, an error or a directory that was last looked at less than the wanted time ago, with the wanted treatment of symbolic links, and, if a number is wanted, for the file with that number, and then the answer is what that look had shown |
| OpenFileCache.Recalled | nginx-source/src/core/ngx_open_file_cache.c:143-486 | after every call each record of the index holds what the last look for it had shown, but that its descriptor may have been closed; a call that looks answers what the file system shows, with the descriptor that is held for the same file, and keeps an error exactly if errors are wanted; and a record counts the calls that found it |
| OpenFileCache.GoodIff | nginx-source/src/core/ngx_open_file_cache.c:230-241 | the test of the code whether to look is this condition on the last look |
| OpenFileCache.SameNumber | nginx-source/src/core/ngx_open_file_cache.c:846-855 | with descriptor 3 of file 7 in the cache and a directory with number 7, descriptor 3 is closed and stays in an unused record |
| OpenFileCache.State.MistakenStray | nginx-source/src/core/ngx_open_file_cache.c:295-341 | after such a look the record of the name, which nobody uses, holds the descriptor without owning it |
| OpenFileCache.Cache.Cleanup | nginx-source/src/core/ngx_open_file_cache.c:1017-1028 | a user gives a record back: the descriptor is closed exactly if it was the last user and the record left the index or was used too little, and up to two inactive records are dropped after that |
| OpenFileCache.Cache.CloseCached | nginx-source/src/core/ngx_open_file_cache.c:1031-1074 | the same for ngx_close_cached_file alone |
| OpenFileCache.Cache.ExpireOld | nginx-source/src/core/ngx_open_file_cache.c:1094-1142 | the least recently used records go, inactive ones but for one by force, and the walk stops at the first that is not inactive |
| OpenFileCache.Cache.MakeRoom | nginx-source/src/core/ngx_open_file_cache.c:362-364 | a full cache loses its least recently used record, in use or not, and others only if they are inactive |
| OpenFileCache.InUse | nginx-source/src/core/ngx_open_file_cache.c:1017-1074 | as long as a cleanup for a record is to come, its descriptor is open, is the same, and is owned by no other record |
| OpenFileCache.Cache.constructor | nginx-source/src/core/ngx_open_file_cache.c:56-85 | the new cache is valid and empty, and every record of it holds what was seen |
| DnsName.RoundTrip | nginx-source/src/core/ngx_resolver.c:3663-4069 | a name that is sent in a question of either kind is read back in lower case if and only if it has at most 127 labels of at most 63 bytes |
| DnsName.Copy | nginx-source/src/core/ngx_resolver.c:3975-4069 | a name is returned exactly if following labels and pointers from the offset ends within 128 steps and inside the response, and it is the labels in lower case with dots between |
| DnsName.Measure | nginx-source/src/core/ngx_resolver.c:3987-4022 | the first pass accepts exactly these, and counts the bytes of the text |
| DnsName.Write | nginx-source/src/core/ngx_resolver.c:4038-4064 | the second pass, which counts no steps, ends, reads inside the response and writes exactly the bytes that were counted |
| DnsName.NoLoop | nginx-source/src/core/ngx_resolver.c:3987-4019 | a name whose pointers lead back to themselves is never accepted, whatever the limit |
| DnsName.DecodeMore | nginx-source/src/core/ngx_resolver.c:3987-4019 | a name that is accepted within a limit is the same with any higher one |
| DnsName.CreateQuery | nginx-source/src/core/ngx_resolver.c:3663-3787 | the query for IPv4 addresses and the one for IPv6 addresses have the identifier, the flag that desires recursion and no other, one question and no other record, the lengths and bytes of the labels, a zero byte, type 1 and type 28, and class 1; there are none exactly if the name is empty, begins or ends with a dot, has two dots side by side or 256 bytes without a dot |
| DnsName.SendableIff | nginx-source/src/core/ngx_resolver.c:3729-3755 | the labels between the dots are all of 1 to 255 bytes exactly for these names |
| DnsName.ReadsCompressed | nginx-source/src/core/ngx_resolver.c:3987-4019 | labels that end in a pointer (section 4.1.4 of RFC 1035) are read as these labels and those of the name it points to |
| DnsName.LowerLetters | nginx-source/src/core/ngx_string.h:47 | the letters A to Z become a to z, and no other byte changes |
| DnsName.WriteName | nginx-source/src/core/ngx_resolver.c:3711-3755 | writing the labels from the last byte to the first yields the lengths in front of the labels |
| DnsName.DecodeOnlyIf | nginx-source/src/core/ngx_resolver.c:3987-4019 | a name with a longer label or more labels is never read back |
| Inet.RoundTrip | nginx-source/src/core/ngx_inet.c:64-369 | reading the text of an address yields the address, unless it is one of the two exceptions, and then an error |
| Inet.HexWritten | nginx-source/src/core/ngx_inet.c:295-369 | groups are written with small letters and without leading zeros |
| Inet.DecWritten | nginx-source/src/core/ngx_inet.c:276-278 | the parts of an IPv4 address are written without leading zeros |
| Inet.LoopbackText | nginx-source/src/core/ngx_inet.c:295-369 | the loopback address is ::1 |
| Inet.EmbeddedText | nginx-source/src/core/ngx_inet.c:338-345 | IPv4 addresses in the last two words, behind five zero words and ffff or behind six zero words |
| Inet.LastWordText | nginx-source/src/core/ngx_inet.c:338-345 | behind seven zero words, a word is written as an IPv4 address only if its first byte is not 0 and its second is not 1 |
| Inet.PrintAndParse | nginx-source/src/core/ngx_inet.c:64-369 | the 16 bytes that are printed and parsed come back if and only if they are not one of the exceptions |
| Inet.Inet6Addr | nginx-source/src/core/ngx_inet.c:64-177 | the loop over the characters accepts exactly the texts that are groups with at most one gap and perhaps an IPv4 address at the end, and stores their bytes |
| Inet.Inet6Ntop | nginx-source/src/core/ngx_inet.c:295-369 | the text has the groups of the address, the leftmost longest run of two or more zero words left out, and fits into the buffer; in a shorter buffer there is none |
| Inet.FindRun | nginx-source/src/core/ngx_inet.c:309-336 | the run that is found is the leftmost of the longest of at least two zero words |
| Inet.LongestUnique | nginx-source/src/core/ngx_inet.c:309-336 | there is only one such run |
| Inet.PrintedLength | nginx-source/src/core/ngx_inet.c:295-369 | a text has at most 43 characters |
| Inet.InetAddr | nginx-source/src/core/ngx_inet.c:19-59 | the number is, in network order, that of four decimal parts up to 255 between dots, and all ones for any other text |
| Inet.DottedNumber | nginx-source/src/core/ngx_inet.c:19-59 | the number of four parts is that of four bytes, the first part the highest |
| Inet.Swapped | nginx-source/src/core/ngx_inet.c:55 | on a machine that stores the lowest byte first, the four bytes change their order |
| Inet.NetworkTwice | nginx-source/src/core/ngx_inet.c:120-125 | converting a number to network order and back yields the number |
| Inet.BytesOfAll | nginx-source/src/core/ngx_inet.c:295-369 | the words of 16 bytes are stored as these bytes |
| HttpDate.TimeRight | nginx-source/src/core/ngx_parse_time.c:241-276 | the time of an accepted date is its number of seconds after 1970 by the calendar if and only if the date is not in the first two months of year 0, and 10368 seconds more if it is |
| HttpDate.GaussCounts | nginx-source/src/core/ngx_parse_time.c:241-266 | the formula is the number of days counted by month lengths and leap years, in 64 bits without sign, for every year from 1 on and for year 0 from March on |
| HttpDate.ConsecutiveNumbers | nginx-source/src/core/ngx_parse_time.c:241-266 | the day after a date has the next number |
| HttpDate.DifferentDays | nginx-source/src/core/ngx_parse_time.c:241-266 | a later date has a larger number |
| HttpDate.YearZero | nginx-source/src/core/ngx_parse_time.c:241-266 | in January and February of year 0 the formula is off by a constant |
| HttpDate.DayZero | nginx-source/src/core/ngx_parse_time.c:223-234 | an accepted point in time has a date of the calendar if and only if its day is not 0, and day 0 counts as the day before the first of the month |
| HttpDate.DayZeroAccepted | nginx-source/src/core/ngx_parse_time.c:223-234 | Sun, 00 Nov 1994 08:49:37 GMT is accepted and means the last day of October |
| HttpDate.ParseHttpTime | nginx-source/src/core/ngx_parse_time.c:14-277 | a text is accepted exactly if it is in one of the three formats with a time of day and a day of the month in range, and the result is the time of its date |
| HttpDate.AllDates | nginx-source/src/core/ngx_parse_time.c:223-234 | every date of the calendar with a time of day from 00:00:00 to 23:59:59 is accepted, day 0 of a month too, and nothing else |
| HttpDate.Narrow | nginx-source/src/core/ngx_parse_time.c:268-274 | where a time_t has 32 bits, the times from 1970 on that fit are accepted and no others |
| HttpDate.Example | nginx-source/src/core/ngx_parse_time.c:14-277 | the example of section 5.6.7 of RFC 9110 is read in each of its three formats |
| HttpDate.ExampleTime | nginx-source/src/core/ngx_parse_time.c:241-276 | it is 784111777 seconds after 1970 |
| HttpDate.ParseStamp | nginx-source/src/core/ngx_parse_time.c:30-221 | what is read is what the formats say, and no character behind the end of the text is looked at |
| HttpDate.ReadBack822 | nginx-source/src/core/ngx_parse_time.c:52-137 | a date printed as in section 5.6.7 of RFC 9110 is read back, whatever the name of the weekday |
| HttpDate.ReadBack850 | nginx-source/src/core/ngx_parse_time.c:139-147 | a date printed with a year of two digits is read back if it is from 1970 to 2069 |
| HttpDate.ReadBackIsoc | nginx-source/src/core/ngx_parse_time.c:149-221 | a date printed by asctime is read back |
| Crc32.Short | nginx-source/src/core/ngx_crc32.h:20-35 | the loop over half bytes with the short table computes the checksum bit by bit |
| Crc32.Long | nginx-source/src/core/ngx_crc32.h:38-50 | the loop over bytes with the long table computes the same checksum |
| Crc32.CheckValue | nginx-source/src/core/ngx_crc32.h:38-50 | the checksum of the text 123456789 is CBF43926 |
| Crc32.Register.Update | nginx-source/src/core/ngx_crc32.h:57-69 | the register after more bytes is that of the bits of these bytes |
| Crc32.Pieces | nginx-source/src/core/ngx_crc32.h:53-73 | updating with the pieces of a text, one after the other, is updating with the text |
| Crc32.InPieces | nginx-source/src/http/modules/ngx_http_geo_module.c:1504-1542 | a register that starts with ones, is updated with the pieces of a text and is inverted at the end holds the checksum that ngx_crc32_long gives for the whole text |
| Crc32.ShortTable | nginx-source/src/core/ngx_crc32.c:26-31 | the short table holds the registers that four bits leave behind |
| Crc32.LongTable | nginx-source/src/core/ngx_crc32.c:34-99 | the long table holds the registers that eight bits leave behind |
| Crc32.FileCrc32 | backend/parser.py:160-178 | reading in blocks, the result is the eight digits of the same fold, started with 0, or a text of its own for a file that is not there |
| Crc32.Hex8Injective | backend/parser.py:176 | different checksums have different digits |
| Crc32.Hex8Value | backend/parser.py:176 | the eight digits in upper case stand for the checksum |
| Crc32.CheckCrcDiffs | backend/parser.py:194-205 | two files differ if both are there and their checksums do; they always do if files of one length differ, and only within four consecutive bytes |
| Crc32.BurstDetected | backend/parser.py:165-175 | texts of one length that differ only within four consecutive bytes have different checksums |
| Crc32.FiveBytesMissed | backend/parser.py:165-175 | two texts of five bytes have the same checksum |
| Crc32.LeadingZeros | backend/parser.py:165-175 | zero bytes at the start do not change the checksum |
| Chunks.SplitIntoChunks | backend/parser.py:236-258 | each part stands behind a bar, the letter c, its number from 1 on in decimal digits without leading zeros, and a bar; the parts make up the message, and no way to cut it within the limit has fewer; if every character fits, no part is empty or too long, and otherwise there is no way to cut it |
| Chunks.MarkedExample | backend/parser.py:249 | part 12 that holds ab is |c12|ab |
| Chunks.WidthIsLeast | backend/parser.py:248 | a character takes the least number of bytes whose free bits hold its number (section 3 of RFC 3629) |
| Chunks.Fewest | backend/parser.py:246-253 | parts that leave no room for the next character are the fewest |
| Chunks.FourBytesFit | backend/parser.py:238-248 | with a limit of four bytes or more, every character fits |
| LoraFrame.RoundTrip | backend/parser.py:25-110 | what was sent is received, and nothing else, if and only if sender and message hold no bar, the sender is not empty, the numbers are not 0, and the fields behind the first bar of the checksum field hold no message, no number that cannot be read and no other sender in the last place |
| LoraFrame.NoExtra | backend/parser.py:71 | a checksum field without a bar adds no fields |
| LoraFrame.SecondMessage | backend/parser.py:90-97 | with the checksum field x|message:y, a frame that is sendable otherwise is not received as it was sent |
| LoraFrame.SubstitutionRefused | backend/parser.py:63-68 | a payload in which one character was replaced is refused |
| LoraFrame.SwapUnnoticed | backend/parser.py:63-68 | a payload in which two neighbours were swapped is taken as it is |
| LoraFrame.ParseMessage | backend/parser.py:43-110 | the loop over the fields says what the fields say one after the other, up to the first error |
| LoraFrame.Prepare | backend/parser.py:25-41 | the frame is the six fields with bars between, a star and the checksum |
| LoraFrame.PayloadText | backend/parser.py:31-39 | the six fields by name, in their order, with bars between |
| LoraFrame.HexWritten | backend/parser.py:23 | a checksum has two digits in upper case or more, with a zero in front only if it would be one digit, and they stand for it |
| LoraFrame.CrcParity | backend/parser.py:17-22 | each bit of the checksum is the parity of that bit over all characters |
| LoraFrame.SmallLetters | backend/parser.py:66 | the letters of a checksum may be small ones |
| LoraFrame.IntIs | backend/parser.py:80-91 | a number is read exactly if it is digits, with single underscores between them, an optional sign in front, and blanks around; the underscores and blanks mean nothing |
| LoraFrame.NoStar | backend/parser.py:59-61 | the missing delimiter is reported exactly for texts without a star |
| LoraFrame.Verdict | backend/parser.py:43-110 | a result is valid exactly if no error is reported |
| LoraFrame.CrcSwaps | backend/parser.py:17-23 | two neighbours that change places leave the checksum as it is |

## Left out

Weaker or narrower than the source:

- SlabPool.SlabPool.FreeLocked: addresses from the end of the last page to the end of the memory are excluded, because the code reads a descriptor there that does not exist.
- SlabPool.SlabPool.AllocLocked: the three cases of chunks are one, over a view of a page as numbered chunks with a bitmap; the branch "page is busy" cannot be reached and is not there. Filling freed memory with junk, logging and ngx_slab_calloc are left out.
- SlabPool.SlabPool.Create: addresses count from the start of the pages; the sizes of slots and statistics in front of the descriptors are part of the given start. With room for no page there is no pool, where the code makes one without pages.
- SlabPool.SlabPool.FreeTwice: addresses at which FreeLocked breaks the pool are excluded.
- RbTree.RbTree.Insert: keys are machine words; the open-file cache and the resolver use comparison functions of their own, which are not part of this model.
- Shmtx.NoLostWakeup: spinning is a number of further looks at the lock. A process dies in the critical section and nowhere else, ngx_shmtx_unlock is called by the process that has the lock, and ngx_shmtx_force_unlock for dead processes; the branch without atomic operations, which locks a file, is left out, and sem_wait fails only when it is interrupted.
- ThreadPool.InOnePlace: a critical section is one step, the lists are sequences, and locks and signals do not fail. Creating and stopping threads is left out.
- QueueSort.SortQueue: the comparison is a function of two nodes. The links of a removed node are not set to null, as in builds without debugging.
- RadixTree.Tree.Insert: keys and masks are sequences of bits of any fixed width, so the functions for 32 and for 128 bits are one. Preallocation of levels and failures to allocate are left out.
- RadixTree.Tree.Find: the 128-bit version looks at a byte behind the key after the last bit; which of two null links it takes then is not modelled.
- Hash.Init: buckets are sequences; their layout in memory, names with a null key, lower-casing of names and failures to allocate are left out, and a cache line has 64 bytes.
- Hash.Find: the key of the name is computed and not passed in.
- WildcardHash.Init: names are in the order of ngx_dns_strcmp, in lower case, without duplicates and without a name both with and without a star, and values are not null; the two tag bits of a value are constructors. Reversing the names given in the configuration is left out, and so are wildcards at the end of a name.
- OpenFileCache.Cache.OpenCached: looking at a file and opening it is one step. Vnode events, opening relative to a directory with checks of symbolic links, probes that only test, calls without a cache, failures to allocate, and the other properties of a file, such as its time and size, are left out. The index is a map from names to records.
- DnsName.CreateQuery: failures to allocate are left out, and so is the field of 16 bits for the length of a query, which is too short for names of more than 65517 bytes.
- HttpDate.ParseHttpTime: a time_t of 32 bits is the parameter `narrow`.
- Crc32.Short: copying the short table to a cache line of its own is left out.
- Chunks.SplitIntoChunks: characters are those that UTF-8 can encode; lone surrogates are excluded.
- LoraFrame.ParseMessage: int() reads ASCII digits, with a sign, blanks and underscores, and no digits of other scripts, and has no limit on their number; upper() is that of the characters that can become hexadecimal digits.

Not modelled:

- `server.js`, `html/static/app.js`, `backend/main.py`, `backend/RX.py`, `backend/TX.py`, `backend/lora_engine.py` and `backend/stream.py`: calls to the web, the user interface, files and the radio. Chunks are put together again without taking the mark of a chunk off, so there is no round trip to state.
- The rest of nginx: sockets, configuration, cycles, logging, modules, and the parts of the resolver that keep timers and handlers.
- Digests, base64, pools and arrays, reader-writer locks and number parsing: they would add easy members only.
