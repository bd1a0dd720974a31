# Pintos, modelled and verified

A Dafny model of the parts of this Pintos kernel that are hardest to get right, with
proofs of what they are for. The source is C for a 32-bit x86 machine. Code that
updates structures in place is modelled by classes and methods whose contracts tie the
new state to the old one; protocols between threads are state machines in which every
section with interrupts off, or single access to shared memory, is one step; code that
only computes is modelled by functions. Wrap-around of machine words is written out.

- **File system.** `Cache` is the 64-slot write-back cache and shows that it cannot be
  told from a plain array of sectors. `Inode`, on that array, has the inode with its
  123 direct pointers, one indirect and one doubly indirect table; `InodeLayout` holds
  the paths through the tables and the proofs that a file is a plain byte sequence and
  that no sector is reached twice. `FreeMaps` is the free map, on the packed bitmap.
  `OpenInodes` counts references. `DirEntries` and `Directories` are directories, on
  files, as maps from names to sectors.
- **Containers and sorting.** `Lists` and `ListOps` work on real `prev` and `next`
  links; `ListOrder` says what the sort computes and proves it stable. `HashBits` and
  `Hash` are the hash table that rehashes itself. `HeapSort` is the array sort.
- **Allocators.** `Bitmaps` packs bits into words, `Palloc` gives out pages, and
  `MallocLayout`, `MallocRuns` and `Mallocs` are the heap allocator on top of it.
- **Threads.** `Semaphores`, `Monitors` (a lock with its condition variables),
  `Threads` (the scheduler), `Sleep` (timed sleep on the linked list) and `SleepSteps`
  (the same with interrupts on between the steps of a sleeping thread).
- **Bits and arithmetic.** `Arithmetic` is 64-bit division out of one 64-by-32-bit
  divide; `PageDir` and `PageDirDestroy` are the two-level page directory, and
  `AddressSpaces` is what any sequence of updates makes of it.
- **Encoders and decoders.** `Printf` and `Ustar` write and read archive headers;
  `Tokens` and `UserStack` build the stack of a new process; `Segments` loads an
  executable's segments.

`BitRuns`, `BitOps`, `CStrings`, `Counting`, `Device`, `Nonlinear`, `Options`, `Pages`
and `SectorWords` are shared.

Four properties that one might expect are false of the code, and the exact condition
under which they hold is proved instead:

- A block from `malloc` can be smaller than asked for: for requests so close to 4 GB
  that adding the header wraps around, and only for them (`MallocRuns.MallocGives`,
  `MallocRuns.WrapExample`); `realloc` then copies beyond the new block exactly if the
  old one was larger than a page less its header (`MallocRuns.CopyFits`).
- A sleeping thread can miss its wakeup: `thread_sleep` initialises its semaphore after
  it has joined the list with interrupts on. With n timer ticks between the two, it
  sleeps for ever exactly if n is at least 1 and the clock, n ticks on, is past its
  time; and if the thread has never slept before, the kernel panics then, because the
  tick finds a semaphore that is all zeros (`SleepSteps.LostExactlyWhenTooLate`,
  `SleepSteps.LateInitExample`).
- After deallocation the sectors that extension took are free exactly if the file is
  not empty: an empty file has one sector, which stays taken
  (`Inode.FileSystem.Deallocate`).
- A ustar header for a regular file of negative size is composed but does not parse;
  every other one does (`Ustar.RoundTrip`).

## Model

| member | source | states |
|---|---|---|
| Cache.BufferCache.InCache | pintos/src/filesys/cache.c:71-94 | returns the slot that holds the sector, locked, or shows that none does |
| Cache.BufferCache.FindEmpty | pintos/src/filesys/cache.c:96-115 | returns an empty slot, locked, or shows that there is none |
| Cache.BufferCache.FlushBlock | pintos/src/filesys/cache.c:205-228 | a dirty slot's data goes to the disk and the slot is emptied; a clean one is left alone; what the cache stands for is unchanged |
| Cache.BufferCache.TryToEmpty | pintos/src/filesys/cache.c:117-171 | takes the first idle slot, going round from where the hand last stopped, and leaves it clean; none exactly if every slot is in use |
| Cache.BufferCache.CacheLock | pintos/src/filesys/cache.c:254-307 | through hit, empty slot or eviction, the sector ends in one slot, locked as asked and counted; it fails only when every slot is busy |
| Cache.BufferCache.CacheRead | pintos/src/filesys/cache.c:309-328 | the slot then holds what the sector is meant to hold, wherever its newest copy was |
| Cache.BufferCache.CacheWrite | pintos/src/filesys/cache.c:330-345 | the sector array changes by exactly the bytes written |
| Cache.BufferCache.CacheUnlock | pintos/src/filesys/cache.c:374-391 | counts the operation out by the kind of lock it held, and the cache is quiet again |
| Cache.BufferCache.FullRead | pintos/src/filesys/cache.c:407-420 | copies the bytes that the plain sector array has there, and changes nothing that a caller can see |
| Cache.BufferCache.FullWrite | pintos/src/filesys/cache.c:423-442 | lays the bytes over that sector of the plain array and changes no other sector |
| Cache.BufferCache.CacheFlush | pintos/src/filesys/cache.c:230-244 | afterwards the disk equals the plain array and no slot is dirty |
| Cache.BufferCache.CleanSlotIsOnDisk | pintos/src/filesys/cache.c:205-228 | a slot that is up to date and clean equals the disk |
| Cache.Run | pintos/src/filesys/cache.c:71-442 | any sequence of reads, writes and flushes answers as a plain sector array would and leaves the same contents; after a final flush the disk has them |
| InodeLayout.IndicesFollowPath | pintos/src/filesys/inode.c:414-448 | the indices computed for a sector number lead through the tables to the place of that sector |
| InodeLayout.IndicesInjective | pintos/src/filesys/inode.c:414-448 | different sector numbers get different indices |
| InodeLayout.FewestSectors | pintos/src/filesys/inode.c:595-752 | a file has the fewest sectors that hold its bytes, and at least one |
| FreeMaps.FreeMap.constructor | pintos/src/filesys/free-map.c:13-25 | at first exactly the two sectors at fixed places are taken |
| FreeMaps.FreeMap.Allocate | pintos/src/filesys/free-map.c:27-46 | takes the lowest run of so many free sectors, exactly if there is one, on the packed bits |
| FreeMaps.FreeMap.Release | pintos/src/filesys/free-map.c:48-56 | undoes the allocation of those sectors: the free map is what it was before, whatever was taken besides |
| Inode.FileSystem.constructor | pintos/src/filesys/free-map.c:13-25 | a formatted disk satisfies the invariant that the operations below keep |
| Inode.FileSystem.AddSector | pintos/src/filesys/inode.c:595-752 | adds the next sector of a file, with the tables it needs, and takes exactly so many sectors, or fails because there are too few; other files keep their sectors |
| Inode.TablesTaken | pintos/src/filesys/inode.c:595-752 | how many sectors a file of n data sectors takes with its tables, in closed form |
| Inode.FileSystem.ExtendDisk | pintos/src/filesys/inode.c:595-752 | on success the file's sectors are its old ones and zeroed new ones; on failure its readable bytes are as they were; every sector is accounted for in both cases |
| Inode.FileSystem.ExtendFile | pintos/src/filesys/inode.c:595-752 | the contents become the old ones padded with zeros, or stay; no other file changes; succeeds exactly if an inode can have the length and the free sectors suffice for data and tables |
| Inode.FileSystem.GetDataBlock | pintos/src/filesys/inode.c:450-520 | returns the sector that holds the byte, direct, indirect or doubly indirect, or none beyond the end when not allocating |
| Inode.FileSystem.ReadAt | pintos/src/filesys/inode.c:523-590 | copies the bytes of the file from the offset on, as many as asked for unless the file ends before: a short read has reached the end of the file; the rest of the buffer is left |
| Inode.FileSystem.WriteAt | pintos/src/filesys/inode.c:754-835 | after a successful extension, the file is its old bytes padded with zeros with the buffer laid over them; every other file is unchanged; the extension succeeds exactly if there is room; nothing is written while writes are denied |
| InodeLayout.WrittenByte | pintos/src/filesys/inode.c:754-835 | byte by byte: the new bytes in their range, the old ones elsewhere, and zeros in a gap |
| Inode.FileSystem.ReachedOnce | pintos/src/filesys/inode.c:595-752 | every data, indirect and table sector of any file is marked in the free map and is reached by exactly one path of one file |
| Inode.FileSystem.InodeCreate | pintos/src/filesys/inode.c:158-205 | a new file of the given type reads as zeros of the given length, exactly if the free sectors suffice; other files are unchanged |
| Inode.FileSystem.Deallocate | pintos/src/filesys/inode.c:317-401 | for files of direct sectors, frees the sectors that extension took and no others, exactly if the file is not empty, and leaves every other file intact |
| OpenInodes.InodeTable.Open | pintos/src/filesys/inode.c:207-248 | one structure per sector: an open one is found and counted up, a new one is put in front with one reference; the counts equal the references held |
| OpenInodes.InodeTable.Reopen | pintos/src/filesys/inode.c:250-260 | adds one reference to that inode and no other |
| OpenInodes.InodeTable.Close | pintos/src/filesys/inode.c:285-315 | the structure leaves the list at the last reference and only then, and deallocation is asked for exactly if the file had been removed |
| OpenInodes.Run | pintos/src/filesys/inode.c:207-410 | in every run of opens, reopens, removals and closes, the counts are the references held, and blocks are deallocated exactly at the last close of a file that has been removed since it was first opened |
| DirEntries.InListing | pintos/src/filesys/directory.c:87-117 | a name is in the directory's map exactly if a slot is in use for it, with that slot's sector |
| DirEntries.AddedListing | pintos/src/filesys/directory.c:184-188 | writing a new name to a free slot or to the end adds that one key to the map and keeps names unique |
| DirEntries.RemovedListing | pintos/src/filesys/directory.c:218-221 | clearing a slot's flag removes that one key |
| Directories.DirCreate | pintos/src/filesys/directory.c:25-31 | a new directory of so many entries has no names, exactly if there is room; other files are unchanged |
| Directories.Dir.Lookup | pintos/src/filesys/directory.c:92-117 | finds the entry exactly if the name is in the map |
| Directories.Dir.Add | pintos/src/filesys/directory.c:147-192 | adds exactly the one new key or changes nothing, and succeeds exactly if the name is valid and new, writes are not denied, and a slot is free or the file can grow; a deleted slot is used again and then the file does not grow; no other file changes |
| Directories.Dir.Remove | pintos/src/filesys/directory.c:197-230 | succeeds exactly if the name is there, its inode can be opened and writes are not denied, and then removes that one key |
| Directories.Dir.ReadDir | pintos/src/filesys/directory.c:235-251 | returns the next name in use and moves past it, or says that there is none |
| Directories.Dir.ListAll | pintos/src/filesys/directory.c:232-251 | reading from position 0 until the end lists every name in use exactly once |
| Lists.Insert | pintos/src/lib/kernel/list.c:165-178 | four link updates put the element just before the other one |
| Lists.Remove | pintos/src/lib/kernel/list.c:248-255 | the element is out of the list; its own links keep their values, so a traversal can go on from it |
| Lists.Splice | pintos/src/lib/kernel/list.c:180-204 | six link updates exchange two neighbouring stretches, and the result is a well-formed list of the same elements |
| Lists.SpliceAcross | pintos/src/lib/kernel/list.c:180-204 | the same updates between two lists: the stretch leaves one and is in the other, and both are well-formed |
| Lists.FindEndOfRun | pintos/src/lib/kernel/list.c:352-372 | returns the end of the longest nondecreasing run |
| Lists.InplaceMerge | pintos/src/lib/kernel/list.c:374-399 | moving elements of the second run forward leaves the merge of the two runs, in place |
| Lists.SortPass | pintos/src/lib/kernel/list.c:411-436 | merges the runs of the list in pairs and counts them |
| Lists.ListSort | pintos/src/lib/kernel/list.c:401-440 | leaves a well-formed list of the same nodes in the order of the natural merge sort, and terminates |
| ListOrder.MergeSorted | pintos/src/lib/kernel/list.c:374-399 | for any strict weak order, merging sorted runs gives a sorted run |
| ListOrder.MergeStable | pintos/src/lib/kernel/list.c:374-399 | equivalent elements keep their order through a merge |
| ListOrder.PassStable | pintos/src/lib/kernel/list.c:411-436 | a pass loses no element and keeps equivalent ones in order |
| ListOrder.PassHalvesRuns | pintos/src/lib/kernel/list.c:401-440 | a pass leaves at most half as many runs, rounded up |
| ListOrder.NaturalSortCorrect | pintos/src/lib/kernel/list.c:401-440 | the result is sorted, a permutation, and stable |
| ListOps.SortIsInsertion | pintos/src/lib/kernel/list.c:401-459 | sorting gives the very order that inserting the elements one by one in order gives |
| ListOps.StableSortUnique | pintos/src/lib/kernel/list.c:401-440 | there is only one sorted and stable order |
| ListOps.InsertOrdered | pintos/src/lib/kernel/list.c:442-459 | the element goes, on the links, where the specification of ordered insertion puts it |
| ListOps.InsertedCorrect | pintos/src/lib/kernel/list.c:442-459 | a sorted list stays sorted and the new element comes behind those equivalent to it |
| ListOps.Reverse | pintos/src/lib/kernel/list.c:324-337 | exchanging every element's links and then the ends leaves the well-formed list backwards |
| ListOps.Unique | pintos/src/lib/kernel/list.c:461-486 | keeps the first of each run of equivalent elements and moves the others, in order, to the end of the second list if there is one |
| ListOps.UniqueCorrect | pintos/src/lib/kernel/list.c:461-486 | of a sorted list, what is kept is strictly increasing, nothing is lost, and every element is equivalent to one that is kept |
| HashBits.MaskIsRemainder | pintos/src/lib/kernel/hash.c:306-310 | masking with a power of two less one takes the remainder |
| HashBits.TurnOffKeepsTop | pintos/src/lib/kernel/hash.c:328-340 | turning off the lowest bit keeps the highest; nothing is left exactly for a power of two, which is what the test recognises |
| HashBits.RoundDown | pintos/src/lib/kernel/hash.c:368-372 | rehash's loop finds the greatest power of two that is not larger |
| Hash.HashTable.Find | pintos/src/lib/kernel/hash.c:129-135 | returns the element equal to the key, or shows that no element is |
| Hash.HashTable.Insert | pintos/src/lib/kernel/hash.c:94-110 | adds the element if no equal one is there and otherwise returns that one; elements stay in their buckets and keys unique; with memory, fewer than four elements a bucket, and at least two if there are more than four buckets |
| Hash.HashTable.Replace | pintos/src/lib/kernel/hash.c:112-127 | the equal element, if any, gives way to the new one |
| Hash.HashTable.Delete | pintos/src/lib/kernel/hash.c:137-154 | removes exactly the equal element |
| Hash.HashTable.Rehash | pintos/src/lib/kernel/hash.c:347-413 | loses and duplicates no element; the number of buckets is the power of two that was aimed at, or as before without memory |
| Hash.Next | pintos/src/lib/kernel/hash.c:210-235 | returns the element after those passed, skipping empty buckets, or none when all were passed |
| Hash.VisitAll | pintos/src/lib/kernel/hash.c:182-235 | an iteration visits every element exactly once |
| HeapSort.Heapify | pintos/src/lib/stdlib.c:93-123 | floats an element down until the heap property holds from it on, moving only elements of the heap |
| HeapSort.RootIsMax | pintos/src/lib/stdlib.c:146-151 | the root of a heap is at least every element |
| HeapSort.Sort | pintos/src/lib/stdlib.c:125-152 | for any total preorder, the array is sorted and a permutation of what it was |
| HeapSort.BinarySearch | pintos/src/lib/stdlib.c:185-207 | in a sorted array, returns a match exactly if there is one |
| Bitmaps.ViewUpdate | pintos/src/lib/kernel/bitmap.c:33-47 | an or, and-not or xor of one word changes one bit of the sequence that the words stand for |
| Bitmaps.Bitmap.Mark | pintos/src/lib/kernel/bitmap.c:156-167 | sets that bit and no other |
| Bitmaps.Bitmap.Reset | pintos/src/lib/kernel/bitmap.c:169-180 | clears that bit and no other |
| Bitmaps.Bitmap.Flip | pintos/src/lib/kernel/bitmap.c:182-195 | inverts that bit and no other |
| Bitmaps.Bitmap.Test | pintos/src/lib/kernel/bitmap.c:197-204 | reads the bit |
| Bitmaps.Bitmap.SetMultiple | pintos/src/lib/kernel/bitmap.c:217-229 | sets exactly the bits of the range |
| Bitmaps.Bitmap.Contains | pintos/src/lib/kernel/bitmap.c:249-264 | true exactly if some bit of the range has the value |
| Bitmaps.Bitmap.FindRun | pintos/src/lib/kernel/bitmap.c:292-311 | finds the least run of that many bits at or after the start, or shows that there is none |
| Bitmaps.Bitmap.ScanAndFlip | pintos/src/lib/kernel/bitmap.c:313-327 | flips that least run and nothing else |
| Palloc.BitmapFits | pintos/src/threads/palloc.c:149-168 | the bitmap of the pages that are left fits into the pages taken for it, and for all pages one page less would not do |
| Palloc.PageAllocator.GetMultiple | pintos/src/threads/palloc.c:64-100 | takes the least fitting run of its own pool, zeroed if asked for, or changes nothing |
| Palloc.PageAllocator.FreeMultiple | pintos/src/threads/palloc.c:117-146 | frees exactly those pages in the pool they belong to, and overwrites them |
| Palloc.AllRunsExact | pintos/src/threads/palloc.c:64-146 | in every run the groups handed out are apart and inside the pool, and the bitmap marks exactly their pages |
| Palloc.GroupStays | pintos/src/threads/palloc.c:64-146 | a group stays out, with its size, until it is freed |
| Palloc.ServeGives | pintos/src/threads/palloc.c:64-146 | a request is met by a group of its own exactly if there are so many free pages in a row, and a freed group is out no more and free |
| MallocLayout.BlockInPage | pintos/src/threads/malloc.c:284-294 | every block of an arena lies behind the header and inside the page |
| MallocLayout.NoRoomForMore | pintos/src/threads/malloc.c:70-85 | an arena has as many blocks as fit |
| MallocLayout.LiveApart | pintos/src/threads/malloc.c:87-264 | live blocks do not overlap, within arenas and across them |
| MallocLayout.HeaderClear | pintos/src/threads/malloc.c:87-264 | no live block touches an arena header |
| MallocLayout.HeldForLive | pintos/src/threads/malloc.c:216-264 | the pages held are exactly those of arenas with a live block and of big blocks |
| MallocLayout.BigBlockFits | pintos/src/threads/malloc.c:105-118 | a big block is large enough, by less than a page too much, exactly if the request does not wrap around; just below that it is refused |
| MallocRuns.MallocGives | pintos/src/threads/malloc.c:87-154 | a block is handed out exactly if pages can be had; it was not live, it is large enough unless the request wraps around, small blocks waste less than half, and other live blocks are as they were |
| MallocRuns.FreeGives | pintos/src/threads/malloc.c:216-264 | the other live blocks keep their sizes |
| MallocRuns.ReallocGives | pintos/src/threads/malloc.c:188-214 | realloc to size 0 frees; otherwise the new block takes the place of the old, which is kept exactly if there is no memory |
| MallocRuns.NoPageLost | pintos/src/threads/malloc.c:70-264 | in every run of malloc, realloc and free, the pages in use are those in use before and those of live blocks; when all blocks are freed the pool is as it was |
| MallocRuns.WrapExample | pintos/src/threads/malloc.c:105-118 | the largest request gets one page |
| MallocRuns.CopyFits | pintos/src/threads/malloc.c:188-214 | realloc's copy stays inside the new block exactly if the request does not wrap around or the old block fits in one page |
| MallocRuns.EveryRun | pintos/src/threads/malloc.c:70-264 | in every run of malloc, realloc and free, with other users of the pool in between: live blocks are apart, clear of headers and as large as asked for; pages are held only for live blocks |
| Mallocs.Heap.constructor | pintos/src/threads/malloc.c:70-85 | seven descriptors with the block sizes and counts that the proofs are about |
| Mallocs.Heap.Malloc | pintos/src/threads/malloc.c:87-154 | takes the allocator from state to state as specified, new arena or big block included, and leaves memory alone |
| Mallocs.Heap.Free | pintos/src/threads/malloc.c:216-264 | takes the allocator to the specified state, an arena without live blocks going back, and leaves every live block's bytes alone |
| Mallocs.Heap.Realloc | pintos/src/threads/malloc.c:188-214 | the bytes that fit are in the new block, the old one is free, every other live block's bytes are unchanged; without memory nothing changes |
| Mallocs.Heap.BlockToArena | pintos/src/threads/malloc.c:266-282 | finds the arena of a live block; the alignment that is asserted holds |
| Mallocs.Heap.BlockSizeOf | pintos/src/threads/malloc.c:177-186 | the bytes that the block has |
| Semaphores.AllInterleavings | pintos/src/threads/synch.c:60-121 | over all interleavings, the value and the downs that got through add up to the initial value and the ups, counted on the steps; and no wakeup is lost: a positive value with a thread waiting means that a woken thread is about to get through |
| Semaphores.FirstComeFirstServed | pintos/src/threads/synch.c:107-121 | a thread with k others before it in the queue is woken by the (k+1)th up, whatever happens in between |
| Semaphores.BlockedIsServed | pintos/src/threads/synch.c:60-121 | a thread that blocks behind k others is woken by the (k+1)th up from then on |
| Semaphores.UpThenThrough | pintos/src/threads/synch.c:107-121 | the thread at the front gets through if its next pass directly follows the up |
| Semaphores.ThroughExactlyIfPositive | pintos/src/threads/synch.c:60-105 | a pass of sema_down or sema_try_down lets its thread through exactly if the value is positive, and otherwise sema_down blocks it |
| Semaphores.StepInv | pintos/src/threads/synch.c:60-121 | every step keeps the queue equal to the blocked threads, and only a blocked thread is unblocked |
| Monitors.StepInv | pintos/src/threads/synch.c:192-322 | every step of locks and conditions, and every gap inside them, keeps the invariant |
| Monitors.AllInterleavings | pintos/src/threads/synch.c:192-236 | at most one thread holds the lock, the holder field names it, and no wakeup of the lock is lost |
| Monitors.Acquires | pintos/src/threads/synch.c:192-201 | lock_acquire takes a lock that is free |
| Monitors.Contends | pintos/src/threads/synch.c:192-201 | a thread that finds the lock taken blocks behind those that wait already, and cannot go on before an up |
| Monitors.TryAcquires | pintos/src/threads/synch.c:209-221 | takes the lock exactly if it is free, and otherwise changes nothing |
| Monitors.Releases | pintos/src/threads/synch.c:228-236 | frees the lock and wakes the thread that has waited longest, which gets it if it tries next |
| Monitors.SignalReaches | pintos/src/threads/synch.c:311-322 | a signal reaches its thread wherever that is in cond_wait, also between lock_release and sema_down |
| Monitors.SignalTakesFirst | pintos/src/threads/synch.c:311-322 | a signal takes the thread that has waited longest off the list, and with the next step its semaphore is up, so that it is signalled |
| Monitors.KthSignalled | pintos/src/threads/synch.c:287-322 | a thread with k others before it on the list is signalled by the (k+1)th signal, whatever happens in between |
| Monitors.WaiterIsSignalled | pintos/src/threads/synch.c:287-322 | so is a thread that starts to wait when k others are waiting |
| Monitors.WaitGivesUpTheLock | pintos/src/threads/synch.c:287-302 | cond_wait without interference puts the thread last on the list, frees the lock and blocks |
| Monitors.ComesBackWithTheLock | pintos/src/threads/synch.c:287-302 | a signalled thread returns from cond_wait with the lock, if that is free |
| Monitors.SignalNotLost | pintos/src/threads/synch.c:287-322 | whatever happens after a signal, its thread does not block on its semaphore and its next try gets it through |
| Monitors.NoWaiterForgotten | pintos/src/threads/synch.c:287-322 | a thread blocked in cond_wait is on the condition's list or is just being woken |
| Threads.StepInv | pintos/src/threads/thread.c:327-429 | the ready list holds exactly the ready threads but idle, each once, and one thread runs |
| Threads.EveryRun | pintos/src/threads/thread.c:761-842 | in every reachable state that holds, and schedule() runs idle exactly if no other thread is ready |
| Threads.KthIsNext | pintos/src/threads/thread.c:766-842 | a thread at index k of the ready list is run by the (k+1)th following schedule() |
| Threads.UnblockedRuns | pintos/src/threads/thread.c:345-357 | a thread that is unblocked stays ready until the schedule() that follows those for the threads before it, and that runs it |
| Threads.CreatedRuns | pintos/src/threads/thread.c:196-254 | so does a new thread |
| Threads.YieldedRuns | pintos/src/threads/thread.c:415-429 | a thread other than idle that yields runs again after each thread that was ready has had its turn |
| Threads.BlockBlocks | pintos/src/threads/thread.c:327-335 | the running thread is blocked and another runs, but for idle with no thread ready, which goes on |
| Threads.StaysBlocked | pintos/src/threads/thread.c:327-357 | a blocked thread other than idle stays blocked until it is unblocked |
| Threads.ExitDies | pintos/src/threads/thread.c:394-411 | a thread that exits is dying for ever and never runs again |
| Threads.OthersUnchanged | pintos/src/threads/thread.c:327-429 | a call changes the status of no thread but the one it names, the running one and the next |
| Threads.Scheduler.Schedule | pintos/src/threads/thread.c:828-842 | picks the front of the list, or idle, as the transition says |
| Threads.Scheduler.ThreadBlock | pintos/src/threads/thread.c:327-335 | the running thread is blocked and the next one runs; no other status changes; the invariant is kept |
| Threads.Scheduler.ThreadUnblock | pintos/src/threads/thread.c:345-357 | the thread is ready and last on the list; nothing else changes, and the invariant is kept |
| Threads.Scheduler.ThreadYield | pintos/src/threads/thread.c:415-429 | the running thread is ready and the next one runs; no other status changes; the invariant is kept |
| Threads.Scheduler.ThreadExit | pintos/src/threads/thread.c:394-411 | the running thread is dying and the next one runs; no other status changes; the invariant is kept |
| Threads.Scheduler.ThreadCreate | pintos/src/threads/thread.c:196-254 | a new thread is ready and last on the list; nothing else changes, and the invariant is kept |
| Sleep.ThreadSleep | pintos/src/threads/thread.c:1027-1038 | the sleeper is in the list behind those that wake no later |
| Sleep.WakeRoutine | pintos/src/threads/thread.c:986-1024 | the sweep, removing elements while it walks along the links, wakes exactly the sleepers whose time is past, in order, and keeps the others |
| Sleep.EveryRun | pintos/src/threads/thread.c:986-1055 | in every run each call waits or has been woken, once and not both, at the first tick past its time and not before; those that one tick wakes are woken by time and, among equals, by arrival; none overdue is left asleep |
| Sleep.EachCall | pintos/src/threads/thread.c:986-1055 | each call of timer_sleep, by the clock at its start and the ticks it asked for: it waits or was woken once, and then at the first tick at which the clock is past the start by more than those ticks, or at the next tick if that is later |
| SleepSteps.LostExactlyWhenTooLate | pintos/src/threads/thread.c:986-1041 | from any reachable state, with any steps of other threads in between: a call is lost exactly if the clock passes its time between the insertion and sema_init, the kernel panics instead if the thread never slept before, and otherwise the call stays on course |
| SleepSteps.OnCourseWakes | pintos/src/threads/thread.c:986-1041 | a call that is on course is swept off the list by the next tick after its time, and then one pass of sema_down gets it through |
| SleepSteps.LateInitExample | pintos/src/threads/thread.c:1035-1041 | one thread and one tick: lost if it has slept before, a panic if not |
| Arithmetic.NlzCountsLeadingZeros | pintos/src/lib/arithmetic.c:39-73 | shifting by the result puts the highest 1 bit at the top |
| Arithmetic.LongDivision | pintos/src/lib/arithmetic.c:79-91 | dividing digit by digit, with the remainder carried over, divides the whole |
| Arithmetic.LossIsSmall | pintos/src/lib/arithmetic.c:92-126 | what the shifted divisor leaves out is too little to lower the estimate by more than one |
| Arithmetic.UdivIsFloor | pintos/src/lib/arithmetic.c:75-127 | for all 64-bit operands the quotient is exact, and no divide traps on the way |
| Arithmetic.SdivTruncates | pintos/src/lib/arithmetic.c:137-146 | signed division truncates, and wraps around only for the least number divided by -1 |
| PageDir.PteRoundTrip | pintos/src/threads/pte.h:109-122 | frame, presence, the user and the writable flag come back out of an entry |
| PageDir.PlaceIsPage | pintos/src/threads/pte.h:39-47 | two addresses share an entry exactly if they are in one page |
| PageDir.FlagUpdates | pintos/src/userprog/pagedir.c:139-215 | an update of one flag changes no other field of an entry |
| PageDir.EntryStored | pintos/src/userprog/pagedir.c:56-119 | storing an entry changes it for the addresses of that page only |
| PageDir.TableAdded | pintos/src/userprog/pagedir.c:66-81 | a new table changes no entry |
| PageDir.UserAccess | pintos/src/threads/pte.h:77-123 | through both levels, user mode may read exactly the pages in the map and write exactly the writable ones |
| PageDir.PageDirectory.SetPage | pintos/src/userprog/pagedir.c:98-119 | the map from pages to frames gains exactly that page, open to the user and writable as asked, or, without memory for a table, nothing changes |
| PageDir.PageDirectory.GetPage | pintos/src/userprog/pagedir.c:125-137 | the frame of the page plus the offset, exactly if the page is in the map |
| PageDir.PageDirectory.ClearPage | pintos/src/userprog/pagedir.c:143-157 | the page leaves the map and the entry's other fields stay |
| PageDir.PageDirectory.SetDirty | pintos/src/userprog/pagedir.c:172-186 | changes that flag of that page and nothing else |
| PageDir.PageDirectory.SetAccessed | pintos/src/userprog/pagedir.c:201-215 | changes that flag of that page and nothing else |
| PageDir.PageDirectory.IsDirty | pintos/src/userprog/pagedir.c:163-168 | reads the flag; false without a table |
| PageDir.PageDirectory.IsAccessed | pintos/src/userprog/pagedir.c:192-197 | reads the flag; false without a table |
| PageDirDestroy.Destroy | pintos/src/userprog/pagedir.c:27-48 | the pages handed back, in order: for each table its frames and itself, and then the directory |
| PageDirDestroy.DestroyFreesOnce | pintos/src/userprog/pagedir.c:27-48 | these are exactly the frames of the user pages in the map, the user tables and the directory, each once |
| AddressSpaces.Run | pintos/src/userprog/pagedir.c:98-215 | any sequence of installations, removals and flag updates takes the map from pages to frames to where those that succeed take it; an installation fails only if the page is mapped or there is no memory for a table |
| AddressSpaces.LastFrameWins | pintos/src/userprog/pagedir.c:98-215 | a page is mapped exactly if it was given a frame and not cleared since, to the last one it was given |
| AddressSpaces.RunAndGet | pintos/src/userprog/pagedir.c:98-157 | after any such sequence on an empty address space, pagedir_get_page finds the last frame that the page was given, plus the offset, or nothing; user mode may read exactly then, and write if that frame was given as writable |
| AddressSpaces.CreatedIsEmpty | pintos/src/userprog/pagedir.c:12-25 | a directory without user tables is an empty address space |
| Printf.FormatInteger | pintos/src/lib/stdio.c:462-555 | the output is padding, sign, prefix, zeros and digits as the flags, width and precision ask for |
| Printf.RenderedValue | pintos/src/lib/stdio.c:462-555 | in every base, with or without commas, whatever the flags, the digits put out have the value |
| Printf.BufferedShape | pintos/src/lib/stdio.c:480-510 | no zero in front of the digits but those that the precision, or one by default, or # with base 8 asks for; a comma behind each group and nowhere else |
| Printf.RenderedShape | pintos/src/lib/stdio.c:462-555 | unless both left-justified and zero-padded: the sign that is due, the prefix, and the digits, padded to the width in front, between prefix and digits, or behind |
| Printf.OctalFieldValue | pintos/src/lib/stdio.c:469-547 | a number that fits is printed as that many octal digits with its value |
| Ustar.StripStrips | pintos/src/lib/ustar.c:56-73 | a stripped name has none of the prefixes, is neither empty nor "..", and is left alone when stripped again |
| Ustar.StripRemovesPrefixes | pintos/src/lib/ustar.c:56-73 | stripping removes a number of such prefixes and nothing else, and makes "." of a name that is then empty or ".." |
| Ustar.StripAntisocialPrefixes | pintos/src/lib/ustar.c:56-73 | the loop strips as specified |
| Ustar.CalculateChksum | pintos/src/lib/ustar.c:35-54 | the sum of the bytes with the checksum field taken as spaces |
| Ustar.ParseOctalField | pintos/src/lib/ustar.c:120-162 | reads the field as specified, with its ends, overflow and bad characters |
| Ustar.FieldAccepted | pintos/src/lib/ustar.c:120-162 | a field is accepted, with the value of its digits, exactly if it begins with octal digits that a space or a null ends, of a number that fits 32 bits |
| Ustar.OctalFieldRoundTrip | pintos/src/lib/ustar.c:102-162 | a printed octal field is read back as the number |
| Ustar.BlankedChksum | pintos/src/lib/ustar.c:35-54 | the checksum does not depend on its own field |
| Ustar.MakeHeader | pintos/src/lib/ustar.c:75-118 | succeeds exactly if the stripped name has at most 99 bytes |
| Ustar.OtherFields | pintos/src/lib/ustar.c:99-112 | the mode by the type, owner and group 0 and "root", the fixed time, magic and version are read back from the fields |
| Ustar.ParseHeader | pintos/src/lib/ustar.c:175-227 | accepts and refuses headers as specified, in the order of the checks |
| Ustar.ParsedExactly | pintos/src/lib/ustar.c:163-227 | the end of the archive exactly for all zeros; an entry exactly for the ustar magic and version, the right checksum, a name that ends in its field, and a directory or a regular file whose size fits an int |
| Ustar.RoundTrip | pintos/src/lib/ustar.c:56-227 | parsing a composed header gives back the stripped name, the type and the size, exactly if the size is not negative or the file is a directory |
| Ustar.OneByteCorruption | pintos/src/lib/ustar.c:175-227 | a header that parses does not parse any more when any one byte outside the checksum field is changed |
| Tokens.StrtokR | pintos/src/lib/string.c:201-275 | returns the first token, terminated in place, and saves where the rest of the string begins |
| Tokens.WordsComeBack | pintos/src/lib/string.c:201-275 | splitting a line gives back its words, however they are spaced |
| UserStack.SetupStack | pintos/src/userprog/process.c:556-635 | a program that starts with the final stack pointer finds argc, argv, each token as a null-terminated string, and a null pointer at the end |
| Segments.ValidInUserSpace | pintos/src/userprog/process.c:450-493 | the checks accept exactly the segments that lie in user memory, off page 0, without wrapping around |
| Segments.LoadSegment | pintos/src/userprog/process.c:495-552 | the pages hold the file's bytes and then zeros and are writable as asked; no other page is installed or changed; it succeeds exactly if the pages are free, the file is long enough and there is memory |
| Segments.LoadPhdr | pintos/src/userprog/process.c:398-427 | succeeds exactly if the header is valid, its pages are free, the file has its bytes and there is memory; then every byte of the segment is that of the file, or zero beyond the size it has there, and its pages are writable as the header says; pages that were there are unchanged |

## Left out

- Deallocate: files beyond the direct sectors are excluded, because the code frees its buffers inside the loop there; the inode's own sector is not released by the code either.
- Add: after a failed extension the code goes on and writes an entry through pointers that are not set; as with WriteAt, the model stops and promises that nothing has changed.
- GetDataBlock: bytes beyond the sectors that a file has, where the code follows pointers that are not set, are excluded; reads and writes never ask for them, but for writes after a failed extension.
- WriteAt: the code goes on writing after a failed extension; the model stops there and promises only that the file is unchanged.
- Realloc: requests that wrap around while the old block is larger than a page less its header are excluded; CopyFits shows that exactly these copy beyond the new block.
- SetupStack: at most 128 tokens, and a frame that fits the page, are required as the code relies on both; the page's installation is not modelled.
- CacheLock: sleeping and trying again when every slot is busy is modelled as a failed attempt.
- Concurrent cache misses, the data_lock and the locks of the sequential models: operations run one after the other there. `in_cache` skips slots that are locked, so two threads missing on one sector can load it twice.
- cache_zero, cache_free and the flush daemon's timing.
- The inode layer works on the array of sectors that the cache is proved to stand for, not on the cache's slots; memory for temporary buffers is always available there.
- Memory allocation of list elements, directories and inodes, but where a parameter says whether it succeeds.
- The free map's own file: only the bits in memory are modelled, so allocating and releasing never fail to write it.
- Free-list and bucket links: lists inside `malloc` and the hash table are sequences; links are modelled in `Lists`, `ListOps` and `Sleep`. List operations that the source gives only elements get the list and its indexes as ghost arguments, and a sleeper is a fresh element for each call.
- Malloc: the bytes of arena headers and of free-list links are not in the modelled memory, so that malloc leaves memory alone; that they lie apart from live blocks is HeaderClear and LiveApart.
- malloc's magic number and calloc with its overflow check.
- PAL_ASSERT: a panic when no page is left.
- Thread structures: stacks, names, the all-threads list, priorities (which the code stores and ignores) and the context switch.
- cond_broadcast has no steps of its own: it is repeated signals, and KthSignalled says whom each reaches.
- umod64 and smod64, whose remainders may not fit their result types.
- TLB invalidation and the loading of CR3; kernel page tables are those of one directory.
- printf's other conversions, and the 64-byte bound of the digit buffer.
- hash functions, hash_clear, hash_destroy and hash_apply; bitmap_count, bitmap file input and output.
- Devices, boot, interrupts, system calls, path walking, file descriptors, process_wait and process_execute.
