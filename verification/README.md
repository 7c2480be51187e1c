# A verified model of the Pintos kernel's core

This project models, in Dafny, the parts of a Pintos kernel (and of a small Java pair) where the
work is done by data structures, protocols and arithmetic, and proves what they are for:

- **Memory allocation.** `Bitmaps` (packed words as a sequence of bits), `Palloc` (bits as page
  groups) and `Malloc` (pages as blocks): three layers, each proved against the simpler view of
  the one below. Over every run, live blocks are disjoint and large enough, free lists and
  counts are exact, and nothing wholly free is kept.
- **File system.** `FileSystem` and `FileSys` (free map, inodes, directory, delete while open):
  every reachable inode's sectors are marked and its own. `InodeIO` (chunked byte I/O refines
  slices of one byte sequence) and `FileIsolation`, which joins the two.
- **Threads.** `Semaphore` and `Monitor` (semaphores, a lock and its Mesa condition variables) as
  step relations in which each interrupts-off section is one step, with invariants over all
  interleavings; `Scheduler` (round robin with bounded waiting).
- **Containers and arithmetic.** `LinkedNodes`, `ListOrder` and `LinkedList` (natural merge sort
  on real pointers), `HashTable` and `PowersOfTwo`, `HeapOrder` and `HeapSort`, `Arithmetic`
  (64-bit division from a 64/32 divide).
- **Address spaces and loading.** `PageAddress`, `PageTables`, `PageFreeing` and `Paging`
  (two-level page tables in the words of one memory, with the translation cache), `Loader` and
  `ElfFiles` (ELF segments and files), `Tokens` and `ArgStack` (the argument stack).
- **Formats.** `Numerals`, `Printf`, `Conversions`, `Vprintf` and `Atoi`; `OctalFields` and
  `Ustar`, after the section "ustar Interchange Format" of the pax utility in IEEE Std
  1003.1-2001.
- **Knapsack.** A dynamic program against exhaustive search.

`Integers`, `Sequences`, `Bits`, `Bytes`, `Vaddr` and `Options` hold shared definitions. Where the
source updates state in place the model is a class or a method with loops, and each is proved
against a value. I/O
errors, allocation failures and thread scheduling are parameters or step choices, so that the
statements hold for all of them. Page allocation in `Paging` and `Loader` is a page, or none, on
offer; comparison and hash functions are parameters with the laws the source asks of them.

Where the code does not do what its text says, the code is modelled and the exact extent proved:

- `push_args` says that it pushes a word-alignment value, but the stack pointer ends up aligned
  only by chance (`ArgStack.PushArgs`, `ArgStack.Misaligned`). The five zero bytes it pushes
  do provide the null pointer at the end of argv.
- `format_integer` pads twice where '-' and '0' come together, which `parse_conversion` lets
  through for a '0' flag with a negative '*' width (`Printf.FieldWidth`, `Conversions.WidthMet`,
  `Conversions.WidthExample`).
- `format_integer` counts commas as digits for the precision, and caps it at 63
  (`Printf.PrecisionMet`, `Printf.PrecisionExample`), where section 7.19.6.1 of ISO/IEC 9899:1999
  has it as a least number of digits without limit.
- `dir_add` relies on short reads at end of file only; a read that fails for want of memory can
  make it overwrite an entry in use or add a second entry of one name
  (`FileSys.OverwritesExactly`, `FileSys.OverwriteExample`, `FileSys.AddUnique`,
  `FileSys.DuplicateExample`).
- `filesys_create` allocates before it looks at the name, and leaves the data sectors marked when
  the name is refused (`FileSys.Volume.Create`, `FileSys.RefusedNames`, `FileSys.LeakExample`).
- `list_splice` moves elements before any other, but onto any place inside the block it breaks the list
  (`LinkedList.List.SpliceInside`).
- `sdiv64` wraps for INT64_MIN / -1, and `umod64` and `smod64` truncate remainders wider than 32
  bits (`Arithmetic.SDiv64Truncates`, `Arithmetic.UMod64Exact`, `Arithmetic.SMod64Exact`).
- `ustar_make_header` accepts negative sizes, which `ustar_parse_header` refuses for regular
  files (`Ustar.HeaderRoundTrip`).
- Both knapsack programs add ints that wrap (`Knapsack.GetSolutionMatrix`,
  `Knapsack.MatrixExample`, `Knapsack.BruteForce.Run`, `Knapsack.OverflowExample`).

## Model

| member | source | states |
|---|---|---|
| Bitmaps.Bitmap.Mark | pintos-project2-userprog/src/lib/kernel/bitmap.c:156-166 | In the sequence of bits that the packed 32-bit words stand for, bit idx becomes true and no other bit changes |
| Bitmaps.Bitmap.Reset | pintos-project2-userprog/src/lib/kernel/bitmap.c:169-179 | Bit idx becomes false and no other bit changes |
| Bitmaps.Bitmap.Test | pintos-project2-userprog/src/lib/kernel/bitmap.c:197-203 | The mask test on the packed word is the bit of the sequence |
| Bitmaps.Bitmap.SetMultiple | pintos-project2-userprog/src/lib/kernel/bitmap.c:217-228 | Exactly the cnt bits from start take the value |
| Bitmaps.Bitmap.Contains | pintos-project2-userprog/src/lib/kernel/bitmap.c:250-263 | True exactly when some bit of the range has the value |
| Bitmaps.Bitmap.All | pintos-project2-userprog/src/lib/kernel/bitmap.c:283-287 | True exactly when every bit of the range is set |
| Bitmaps.Bitmap.Scan | pintos-project2-userprog/src/lib/kernel/bitmap.c:295-310 | The first group of cnt equal bits at or after start, and an error exactly when there is none |
| Bitmaps.Bitmap.ScanAndFlip | pintos-project2-userprog/src/lib/kernel/bitmap.c:319-326 | The first such group is flipped and nothing else; no change when there is none |
| Palloc.Pool.constructor | pintos-project2-userprog/src/threads/palloc.c:153-170 | The pool hands out exactly the pages left after the least number that hold its own bitmap, and none is in use |
| Palloc.PageAllocator.constructor | pintos-project2-userprog/src/threads/palloc.c:45-62 | Free memory is split into two disjoint pools, half or the limit for user programs, less their bitmaps |
| Palloc.Pool.Get | pintos-project2-userprog/src/threads/palloc.c:70-101 | Pages handed out were all unused and contiguous in the pool and become used; a failure means that every group of that size holds a used page |
| Palloc.Pool.Free | pintos-project2-userprog/src/threads/palloc.c:117-142 | Exactly the given used pages become unused; the assertion that all are marked holds |
| Palloc.Pool.FromPool | pintos-project2-userprog/src/threads/palloc.c:174-182 | True exactly for the pages of the pool |
| Palloc.PageAllocator.GetMultiple | pintos-project2-userprog/src/threads/palloc.c:70-101 | The chosen pool alone changes; no page is given twice; no pages asked for gives null |
| Palloc.PageAllocator.FreeMultiple | pintos-project2-userprog/src/threads/palloc.c:117-142 | Pages return to the pool they came from and to no other; a null pointer and an empty group are ignored |
| Malloc.InitDescs | pintos-project2-userprog/src/threads/malloc.c:71-85 | The seven size classes, powers of two from 16 to 1024, with the number of blocks that fit a page after the header |
| Malloc.BlockRoundTrip | pintos-project2-userprog/src/threads/malloc.c:267-294 | block_to_arena and arena_to_block undo each other for every block, and blocks stay inside their page |
| Malloc.LiveDisjoint | pintos-project2-userprog/src/threads/malloc.c:89-154 | In every state of the invariant two live blocks never overlap and none touches an arena header |
| Malloc.ArenaHasLive | pintos-project2-userprog/src/threads/malloc.c:218-264 | Every arena kept between calls holds a live block: no wholly free arena survives |
| Malloc.NothingLiveNothingHeld | pintos-project2-userprog/src/threads/malloc.c:218-264 | Once nothing is live malloc holds no page at all |
| Malloc.CarveWf | pintos-project2-userprog/src/threads/malloc.c:124-146 | Cutting a new page into blocks keeps lists, counts and live blocks consistent |
| Malloc.TakeWf | pintos-project2-userprog/src/threads/malloc.c:148-153 | Popping the front block keeps them consistent, and that block was not live |
| Malloc.GiveWf | pintos-project2-userprog/src/threads/malloc.c:238-242 | Pushing a freed block keeps them consistent, with its arena alone perhaps wholly free |
| Malloc.RetireWf | pintos-project2-userprog/src/threads/malloc.c:241-253 | Unlinking a wholly free arena restores the invariant with no wholly free arena |
| Malloc.Allocator.FindDesc | pintos-project2-userprog/src/threads/malloc.c:100-104 | The smallest size class that is large enough, or none |
| Malloc.Allocator.Malloc | pintos-project2-userprog/src/threads/malloc.c:89-154 | A block that was not live becomes live with its size and nothing else does; it comes from the smallest size class that is large enough or else from an arena of just as many pages as size and header need; failure only for size 0 or where every group of that many pages, for a small request of one, holds a used one, and then nothing changes; no live block moves, shrinks or loses a byte; pages of others are untouched; the invariant is kept, whatever calls came before |
| Malloc.Allocator.MallocBig | pintos-project2-userprog/src/threads/malloc.c:105-120 | A request above the size classes gets whole pages of its own, the least n with size + 12 <= 4096 n, and none only where every group of n pages holds a used one |
| Malloc.Allocator.Free | pintos-project2-userprog/src/threads/malloc.c:218-264 | Exactly the freed block stops being live; no other live block changes in size or in any byte; the source's assertions hold; the invariant is kept |
| Malloc.Allocator.ReturnArena | pintos-project2-userprog/src/threads/malloc.c:241-253 | A wholly free arena leaves its list and its page goes back to the page allocator |
| Malloc.Allocator.Realloc | pintos-project2-userprog/src/threads/malloc.c:175-214 | On success the old block is exchanged for the new one, whose first min(old block size, new size) bytes are the old ones; on failure, which comes only where malloc fails, it stays live, and a new size of 0 frees it; the new block is as malloc would choose it; no byte of any other block changes |
| Malloc.OneOwner | pintos-project2-userprog/src/threads/malloc.c:267-294 | Two live blocks share no byte of their whole capacity |
| Malloc.FreeNotLive | pintos-project2-userprog/src/threads/malloc.c:218-264 | No byte of a free block, where links and fill bytes are written, is live |
| Malloc.HeaderNotLive | pintos-project2-userprog/src/threads/malloc.c:89-154 | No byte of an arena header is live |
| InodeIO.Device.ReadAt | pintos-project2-userprog/src/filesys/inode.c:200-250 | The bytes returned are the slice of the file's bytes at offset, of exactly the length a read can move, without a bounce buffer the leading whole sectors |
| InodeIO.ByteInExtent | pintos-project2-userprog/src/filesys/inode.c:26-54 | Exactly the positions before the end of the file have a sector, and it is the one of the extent that holds them, which is as short as it can be |
| InodeIO.Device.WriteAt | pintos-project2-userprog/src/filesys/inode.c:257-318 | Exactly the written prefix of the buffer is stored from offset on, and no other byte of the device changes; nothing while writes are denied |
| InodeIO.MovedStep | pintos-project2-userprog/src/filesys/inode.c:208-246 | One turn of either loop moves the chunk up to the next sector boundary, or stops for want of a bounce buffer |
| InodeIO.WriteUpdatesSlice | pintos-project2-userprog/src/filesys/inode.c:257-318 | A write is a slice update of the file's byte sequence |
| InodeIO.WriteLeavesOthers | pintos-project2-userprog/src/filesys/inode.c:257-318 | The bytes and the sectors, slack included, of every file with another extent are unchanged |
| InodeIO.WriteLeavesSlack | pintos-project2-userprog/src/filesys/inode.c:257-318 | The bytes after end of file in the last sector are unchanged |
| InodeIO.ReadAfterWrite | pintos-project2-userprog/src/filesys/inode.c:200-318 | Any slice of the written range reads back what was written |
| FileIsolation.WriteIsolated | pintos-project2-userprog/src/filesys/inode.c:257-318 | Under the ownership invariant, writing one reachable inode leaves the bytes and the inode sector of every other reachable one, even a removed one still open, and its own inode sector |
| FileSystem.FreshUnowned | pintos-project2-userprog/src/filesys/free-map.c:25-35 | Sectors the free map shows as free belong to no system, named or open inode |
| FileSystem.WriteInodeInv | pintos-project2-userprog/src/filesys/inode.c:72-106 | Writing a new inode and zeroing its data disturbs no owner |
| FileSystem.AddEntryInv | pintos-project2-userprog/src/filesys/directory.c:141-179 | A directory entry for a marked inode that was nobody's keeps all extents marked and pairwise disjoint |
| FileSystem.EraseEntryInv | pintos-project2-userprog/src/filesys/directory.c:184-216 | Erasing an entry keeps them so |
| FileSystem.DropOpenInv | pintos-project2-userprog/src/filesys/inode.c:163-186 | The last close of a removed inode leaves its sectors marked and unowned, so that the assertions of both releases hold |
| FileSys.Volume.FreeMapAllocate | pintos-project2-userprog/src/filesys/free-map.c:25-35 | Succeeds exactly when the free map can be written and there are that many consecutive free sectors; then the first such group becomes marked, else nothing changes |
| FileSys.Volume.FreeMapRelease | pintos-project2-userprog/src/filesys/free-map.c:38-42 | Exactly the given marked sectors become free |
| FileSys.Volume.InodeCreate | pintos-project2-userprog/src/filesys/inode.c:72-106 | Succeeds exactly when memory, a free-map write and consecutive sectors are to be had; then an inode of the length asked for has the first data sectors that were free, just as many as the length needs, else nothing changes |
| FileSys.Volume.InodeOpen | pintos-project2-userprog/src/filesys/inode.c:111-142 | One struct inode per sector: its opener count goes up by one and no other count changes |
| FileSys.Volume.InodeReopen | pintos-project2-userprog/src/filesys/inode.c:145-151 | The opener count goes up by one |
| FileSys.Volume.InodeClose | pintos-project2-userprog/src/filesys/inode.c:163-186 | The opener count goes down by one; sectors become free exactly at the last close of a removed inode, and exactly its own |
| FileSys.Volume.InodeRemove | pintos-project2-userprog/src/filesys/inode.c:190-195 | The inode is marked for deletion and nothing is freed or closed |
| FileSys.Volume.WriteData | pintos-project2-userprog/src/filesys/inode.c:257-318 | A write to an owner's data overwrites no owner's inode |
| FileSys.Volume.constructor | pintos-project2-userprog/src/filesys/free-map.c:12-18 | At the start exactly the two system sectors are marked |
| FileSys.Volume.Lookup | pintos-project2-userprog/src/filesys/directory.c:91-112 | A slot in use with the name, and none only if no readable slot has it |
| FileSys.Volume.DirAdd | pintos-project2-userprog/src/filesys/directory.c:141-179 | Succeeds exactly when the name is valid, no slot that the lookup reads has it, there is a slot to write and the write succeeds; then exactly the slot that the search ends at gets the entry, else nothing changes |
| FileSys.OverwritesExactly | pintos-project2-userprog/src/filesys/directory.c:155-174 | dir_add overwrites an entry in use exactly when a read fails before a free slot is met |
| FileSys.OverwriteExample | pintos-project2-userprog/src/filesys/directory.c:155-174 | In any directory of the root's size whose first entry is in use and cannot be read, that entry is lost |
| FileSys.AddUnique | pintos-project2-userprog/src/filesys/directory.c:151-174 | Whatever slot the search ends at, an added name leaves all names different exactly when those in the other slots are and none of them is it |
| FileSys.AddNew | pintos-project2-userprog/src/filesys/directory.c:141-179 | So where the reads succeed an added name leaves all names different exactly when it was not there |
| FileSys.AcceptedNew | pintos-project2-userprog/src/filesys/directory.c:151-153 | With all reads of its lookup succeeding dir_add takes only new names |
| FileSys.DuplicateExample | pintos-project2-userprog/src/filesys/directory.c:151-153 | In a root directory with two names and one readable slot, adding the first name again overwrites the other and leaves two entries of the first |
| FileSys.Volume.Create | pintos-project2-userprog/src/filesys/filesys.c:45-59 | Succeeds exactly when the inode can be made and dir_add accepts the name; then the file's sectors were all free, the data sectors are just as many as the size needs, exactly these become marked, and all names are different afterwards exactly when those outside the slot written were and none of them is the name; a failure changes the directory not at all and leaks sectors exactly when the inode was made and the name refused, namely the data sectors of the file |
| FileSys.RefusedNames | pintos-project2-userprog/src/filesys/filesys.c:49-55 | Empty and over-long names, and present ones that can be read, are refused whatever happens |
| FileSys.LeakExample | pintos-project2-userprog/src/filesys/filesys.c:49-55 | So on a disk of six sectors, just formatted, creating a one-byte file without a name leaks a sector |
| FileSys.Volume.Open | pintos-project2-userprog/src/filesys/filesys.c:66-77 | Opens the inode of an entry with that name, once, and nothing else; failure with memory and a readable directory only if the name is absent |
| FileSys.Volume.Remove | pintos-project2-userprog/src/filesys/filesys.c:83-91 | The entry goes; a file nobody has open loses its sectors at once, an open one keeps all of them marked until its last close; with memory, reads and writes a present name is always removed; names stay different |
| FileSys.Volume.Format | pintos-project2-userprog/src/filesys/filesys.c:94-103 | Succeeds exactly with memory, writes that work and room for the free map's file and the root directory; then a blank device becomes a volume that meets the ownership invariant, with an empty root directory of 320 bytes, the free-map file open and exactly the sectors up to them marked |
| FileSys.OpenedCounts | pintos-project2-userprog/src/filesys/inode.c:111-186 | An inode is on the open list exactly when its opener count is positive |
| Semaphore.StepKeepsInv | pintos-project2-userprog/src/threads/synch.c:60-120 | Every atomic step of sema_down, sema_try_down and sema_up by any thread keeps the invariant: the waiters list is exactly the blocked threads, and units are claimed while anyone waits |
| Semaphore.RunKeepsInv | pintos-project2-userprog/src/threads/synch.c:60-120 | So does every interleaving of any number of threads |
| Semaphore.NoLostWakeup | pintos-project2-userprog/src/threads/synch.c:60-120 | In every reachable state with a blocked thread and units left, at least value woken threads have yet to retry, and one of them will succeed |
| Semaphore.NextSteps | pintos-project2-userprog/src/threads/synch.c:60-120 | Only a blocked thread cannot go on; one outside may begin or try a down |
| Semaphore.TryTakesExactly | pintos-project2-userprog/src/threads/synch.c:82-99 | sema_try_down takes a unit exactly where there is one, and else changes nothing |
| Semaphore.WokenInTurn | pintos-project2-userprog/src/threads/synch.c:106-120 | The thread at place k of the waiters list is woken by the (k+1)-st up and by no earlier one, whatever happens between |
| Semaphore.JoinsAtBack | pintos-project2-userprog/src/threads/synch.c:60-76 | A thread that finds no unit joins at the back |
| Semaphore.UnitsConserved | pintos-project2-userprog/src/threads/synch.c:60-120 | Value is initial plus ups minus downs in every reachable state |
| Monitor.StepKeepsInv | pintos-project2-userprog/src/threads/synch.c:191-337 | Every atomic step of lock and condition operations, on any number of conditions of one lock, keeps the invariant and violates no assertion |
| Monitor.TraceKeepsInv | pintos-project2-userprog/src/threads/synch.c:191-337 | So does every step of every interleaving, from start on |
| Monitor.MutualExclusion | pintos-project2-userprog/src/threads/synch.c:191-235 | The lock's semaphore value plus the threads between their down and their up is 1, and the holder is that thread |
| Monitor.AcquiresExactly | pintos-project2-userprog/src/threads/synch.c:191-222 | lock_acquire and lock_try_acquire get the lock at once exactly when nobody has it; else the first queues at the back and the second changes nothing |
| Monitor.NextSteps | pintos-project2-userprog/src/threads/synch.c:191-337 | Only sleepers cannot go on, and the holder may release the lock or call any operation on any condition |
| Monitor.WaitReleases | pintos-project2-userprog/src/threads/synch.c:286-301 | Having queued, cond_wait releases the lock before it waits |
| Monitor.LockNotStranded | pintos-project2-userprog/src/threads/synch.c:191-235 | A free lock with blocked threads has a woken thread that can take it |
| Monitor.WaitReturnsSignalled | pintos-project2-userprog/src/threads/synch.c:286-301 | cond_wait returns with the lock held, after exactly one signal on its condition popped its own element |
| Monitor.SignalNotLost | pintos-project2-userprog/src/threads/synch.c:286-321 | A signalled waiter, even one between its lock_release and its sema_down, will go on, or is about to be upped by the lock's holder |
| Monitor.SleepersUnsignalled | pintos-project2-userprog/src/threads/synch.c:286-301 | A thread asleep on its element has not been signalled, or is being signalled now, and is on the list of one condition only |
| Monitor.OldestFirst | pintos-project2-userprog/src/threads/synch.c:310-321 | A signal goes to the waiter of its condition that queued first, and touches no other condition |
| Monitor.BroadcastReleasesAll | pintos-project2-userprog/src/threads/synch.c:329-337 | When a broadcast ends every waiter that was queued on its condition has been popped and upped |
| Monitor.BroadcastUndisturbed | pintos-project2-userprog/src/threads/synch.c:329-337 | No step of another thread touches any condition while a broadcast is under way |
| Scheduler.ScheduleInv | pintos-project2-userprog/src/threads/thread.c:536-610 | schedule's assertions hold and it leaves exactly one running thread and an exact ready list |
| Scheduler.StepInv | pintos-project2-userprog/src/threads/thread.c:123-363 | Ticks, yields, blocks, unblocks, exits and creations keep: one running thread, a duplicate-free ready list that holds exactly the ready threads but idle |
| Scheduler.RunInv | pintos-project2-userprog/src/threads/thread.c:123-363 | So does every sequence of them |
| Scheduler.RunsWithinSchedules | pintos-project2-userprog/src/threads/thread.c:536-610 | A thread at place k of the ready list runs by the (k+1)-st schedule call |
| Scheduler.TicksForceSwitches | pintos-project2-userprog/src/threads/thread.c:123-140 | Every full slice of delivered ticks forces a schedule call |
| Scheduler.RunsWithinTicks | pintos-project2-userprog/src/threads/thread.c:123-140 | So that thread runs within (k+1) time slices of ticks |
| Scheduler.WholeSlice | pintos-project2-userprog/src/threads/thread.c:123-140 | From any schedule call on, the thread it runs keeps the processor until TIME_SLICE ticks have come unless it yields, blocks or exits; that tick hands it to the front of the ready list and puts the thread at its back |
| Scheduler.FreedExactly | pintos-project2-userprog/src/threads/thread.c:561-610 | A thread's memory is freed at the schedule call by which it exits, never otherwise, and never the initial thread's |
| Scheduler.NeverFreed | pintos-project2-userprog/src/threads/thread.c:561-610 | So over any run a thread that does not exit keeps its memory |
| Scheduler.Threads.ThreadTick | pintos-project2-userprog/src/threads/thread.c:123-140 | The imperative code makes the step of the model |
| Scheduler.Threads.ThreadYield | pintos-project2-userprog/src/threads/thread.c:350-363 | The imperative code makes the step of the model |
| Scheduler.Threads.ThreadBlock | pintos-project2-userprog/src/threads/thread.c:265-272 | The imperative code makes the step of the model |
| Scheduler.Threads.ThreadUnblock | pintos-project2-userprog/src/threads/thread.c:282-293 | The imperative code makes the step of the model |
| Scheduler.Threads.ThreadExit | pintos-project2-userprog/src/threads/thread.c:329-346 | The imperative code makes the step of the model |
| LinkedList.List.Splice | pintos-project2-userprog/src/lib/kernel/list.c:185-206 | The pointer stores move the block, in order, before any element outside it, back, forth or nowhere, and leave a well-formed doubly linked list; an empty block changes nothing |
| LinkedList.List.SpliceInside | pintos-project2-userprog/src/lib/kernel/list.c:185-206 | With before anywhere inside the block the same stores cut the block out and close it into one cycle or two, every link exact: no well-formed list that ends at the tail holds before any more |
| LinkedList.List.FindEndOfRun | pintos-project2-userprog/src/lib/kernel/list.c:359-374 | The end of the maximal nondecreasing run |
| LinkedList.List.InplaceMerge | pintos-project2-userprog/src/lib/kernel/list.c:381-401 | Two adjacent sorted runs become one sorted run, stably; the rest of the list stays |
| LinkedList.List.SortPass | pintos-project2-userprog/src/lib/kernel/list.c:406-442 | A pass over r runs leaves at most ceil(r/2), and its count is exactly that |
| LinkedList.List.Sort | pintos-project2-userprog/src/lib/kernel/list.c:406-442 | Ends with a well-formed list that is a sorted, stable rearrangement, for every strict weak order |
| ListOrder.MergeMoveUp | pintos-project2-userprog/src/lib/kernel/list.c:381-401 | Moving the smaller head of the second run up keeps the merge on course, past strictly larger elements only |
| ListOrder.PassEnds | pintos-project2-userprog/src/lib/kernel/list.c:406-442 | The runs counted are those left, half of what there was |
| HashTable.BucketIdxIsMod | pintos-project2-userprog/src/lib/kernel/hash.c:305-310 | Masking with a power of two less one selects hash mod bucket_cnt |
| HashTable.Hash.Insert | pintos-project2-userprog/src/lib/kernel/hash.c:98-110 | The element is added exactly when no equal one is there, which is otherwise returned |
| HashTable.Hash.Replace | pintos-project2-userprog/src/lib/kernel/hash.c:114-127 | The element takes the place of the equal one, which is returned |
| HashTable.Hash.Find | pintos-project2-userprog/src/lib/kernel/hash.c:131-135 | An equal element exactly when there is one |
| HashTable.Hash.Delete | pintos-project2-userprog/src/lib/kernel/hash.c:144-154 | The equal element is removed and returned, or nothing changes |
| HashTable.Hash.Rehash | pintos-project2-userprog/src/lib/kernel/hash.c:351-413 | The same elements, each in its bucket; with memory the bucket count becomes the largest power of two at most max(4, elem_cnt / 2); without it nothing changes |
| HashTable.Iterator.Next | pintos-project2-userprog/src/lib/kernel/hash.c:218-235 | The calls return the elements one after another, each once, and then null |
| PowersOfTwo.OnlyPowersPass | pintos-project2-userprog/src/lib/kernel/hash.c:329-340 | is_power_of_2 accepts only powers of two |
| PowersOfTwo.LeadingPower | pintos-project2-userprog/src/lib/kernel/hash.c:364-372 | Clearing low bits until the test passes gives the largest power of two not above the start |
| Arithmetic.NlzNormalises | pintos-project2-userprog/src/lib/arithmetic.c:41-73 | Shifting by the leading-zero count sets the top bit and loses no bit |
| Arithmetic.SmallDivisor | pintos-project2-userprog/src/lib/arithmetic.c:80-112 | Two 64/32 divisions, neither of which traps, give the quotient by a 32-bit divisor |
| Arithmetic.EstimateBound | pintos-project2-userprog/src/lib/arithmetic.c:113-126 | The shifted estimate does not trap and is the quotient or one more |
| Arithmetic.UDiv64Correct | pintos-project2-userprog/src/lib/arithmetic.c:77-127 | floor(n / d) for all 64-bit n and nonzero d; a trap for zero |
| Arithmetic.UMod64Exact | pintos-project2-userprog/src/lib/arithmetic.c:131-135 | The true remainder exactly when it fits 32 bits, else its low 32 bits |
| Arithmetic.TruncDivMeaning | pintos-project2-userprog/src/lib/arithmetic.c:139-154 | Truncated division by its remainder: smaller than the divisor and of the dividend's sign |
| Arithmetic.SDiv64Truncates | pintos-project2-userprog/src/lib/arithmetic.c:139-146 | Truncation toward zero for exactly all operands but INT64_MIN / -1, which gives INT64_MIN |
| Arithmetic.SMod64Exact | pintos-project2-userprog/src/lib/arithmetic.c:150-154 | The truncated remainder exactly when it fits 32 bits |
| Arithmetic.SDiv64ByZero | pintos-project2-userprog/src/lib/arithmetic.c:139-154 | Division by zero traps |
| PageAddress.PdeRoundTrip | pintos-project2-userprog/src/threads/pte.h:71-81 | A directory entry is nonzero, present, meets ptov's assertion and leads back to its table |
| PageAddress.PteFrame | pintos-project2-userprog/src/threads/pte.h:87-104 | An entry made for a frame leads back to it whatever the accessed and dirty bits |
| PageAddress.PdeRights | pintos-project2-userprog/src/threads/pte.h:71-74 | A directory entry is present, for user code and writable |
| PageAddress.PteRights | pintos-project2-userprog/src/threads/pte.h:87-98 | The entry of a page is present, for user code, and writable exactly when it was made so |
| PageAddress.SplitInjective | pintos-project2-userprog/src/threads/pte.h:32-39 | Directory index, table index and offset determine an address |
| PageTables.TranslateIsFlat | pintos-project2-userprog/src/userprog/pagedir.c:16-157 | The processor's two-level walk over the words of memory, present, writable and user bits included, is the flat map from user pages to frames, plus the offset: user code may use every mapped page, and write to it exactly where the mapping is writable |
| PageTables.WriteEntry | pintos-project2-userprog/src/userprog/pagedir.c:98-117 | Writing one page's entry changes the mapping of that page alone and no directory word |
| PageTables.AddTable | pintos-project2-userprog/src/userprog/pagedir.c:66-81 | A zeroed page hung into an empty entry adds a table that maps nothing |
| Paging.Machine.PagedirCreate | pintos-project2-userprog/src/userprog/pagedir.c:16-23 | A new address space without user mappings that shares the kernel's entries; every other keeps its meaning |
| Paging.Machine.Lookup | pintos-project2-userprog/src/userprog/pagedir.c:56-86 | The address of the entry, exactly when there is a table for it |
| Paging.Machine.LookupOrCreate | pintos-project2-userprog/src/userprog/pagedir.c:56-86 | A missing table is made of one new page and maps nothing; failure exactly without a page |
| Paging.Machine.SetPage | pintos-project2-userprog/src/userprog/pagedir.c:98-117 | The page maps to the frame with the permission given, and the processor's walk grants just that at every address of it; all other translations of this and of every other directory, and the kernel entries, stay; failure exactly when a table is missing and there is no page for it |
| Paging.Machine.GetPage | pintos-project2-userprog/src/userprog/pagedir.c:125-136 | At every address of a mapped page its frame plus the offset, null elsewhere, and always what the processor's walk gives |
| Paging.Machine.ClearPage | pintos-project2-userprog/src/userprog/pagedir.c:143-157 | The page alone is unmapped, the other bits of its entry stay, and the translation cache keeps no stale entry |
| Paging.Machine.TestFlag | pintos-project2-userprog/src/userprog/pagedir.c:163-168 | The flag of the entry, false where there is none |
| Paging.Machine.SetFlag | pintos-project2-userprog/src/userprog/pagedir.c:172-216 | The flag reads back as set, no other word and no mapping changes, and the translation cache is emptied where the active directory has a flag cleared |
| Paging.Machine.Activate | pintos-project2-userprog/src/userprog/pagedir.c:219-231 | The directory in force changes and the cache is emptied |
| Paging.Machine.Resolve | pintos-project2-userprog/src/userprog/pagedir.c:246-263 | Through the cache or by walking, the processor always gets the active directory's current mapping and permission |
| Paging.Machine.Destroy | pintos-project2-userprog/src/userprog/pagedir.c:27-48 | Every present frame, every page table and the directory are freed, each once and each while in use; the others keep their meaning; no freed page is read |
| Paging.Machine.DestroyTable | pintos-project2-userprog/src/userprog/pagedir.c:36-46 | One table: all frames it maps and then itself |
| Tokens.WordsOfSpell | pintos-project2-userprog/src/lib/string.c:195-250 | Splitting undoes writing words with arbitrary nonempty gaps between them |
| Tokens.NextToken | pintos-project2-userprog/src/lib/string.c:214-250 | The next word is made a string of its own, earlier bytes and the unread rest stay, and the rest holds the other words |
| Tokens.StrlCpy | pintos-project2-userprog/src/lib/string.c:295-310 | The string, cut to the buffer, and a null byte, nothing behind it, and the length of the whole string; an empty buffer takes nothing |
| Tokens.CountTokens | pintos-project2-userprog/src/userprog/process.c:574-579 | The number of words |
| Tokens.Tokenize | pintos-project2-userprog/src/userprog/process.c:583-588 | The first argc words, in order, end up as null-terminated strings of the buffer |
| ArgStack.Stack.Push | pintos-project2-userprog/src/userprog/process.c:593-606 | Bytes go below the stack pointer, or, exactly when they would leave the page, nothing is written |
| ArgStack.PushArgs | pintos-project2-userprog/src/userprog/process.c:556-649 | Pushes exactly when it has memory for its copy and everything fits one page; then a reader from the final stack pointer, which is stated, finds a zero return address, argc, and argv with exactly the words in order and a null pointer at its end; that stack pointer is word-aligned exactly when the strings and one more byte fill whole words; without memory nothing changes |
| ArgStack.StackDecodes | pintos-project2-userprog/src/userprog/process.c:556-649 | The byte image of any words decodes so |
| ArgStack.Misaligned | pintos-project2-userprog/src/userprog/process.c:556-649 | push_args on the command line "a" leaves the stack pointer at 1 modulo 4 |
| Loader.ValidateMeaning | pintos-project2-userprog/src/userprog/process.c:447-487 | The 32-bit checks accept exactly the segments that lie, unwrapped, in [PGSIZE, PHYS_BASE) with matching page offsets, file offset in the file and sizes in order |
| Loader.PlanGood | pintos-project2-userprog/src/userprog/process.c:382-405 | For every accepted header nothing wraps, load_segment's assertions hold, all pages lie in [PGSIZE, PHYS_BASE) and cover the segment |
| Loader.UserMemory.LoadSegment | pintos-project2-userprog/src/userprog/process.c:503-545 | Succeeds exactly when every page gets a frame, is read in full, for which a part of a sector needs a bounce buffer, and can be mapped where nothing was; then the pages hold the file bytes and zeros; a failure keeps a prefix of the pages and loses no frame |
| Loader.UserMemory.LoadPage | pintos-project2-userprog/src/userprog/process.c:511-543 | One turn of the loop |
| Loader.SegmentLoaded | pintos-project2-userprog/src/userprog/process.c:382-405 | The page arithmetic and the loop together put every file byte and every zero at the address the header gives it |
| ElfFiles.EhdrRead | pintos-project2-userprog/src/userprog/process.c:253-269 | In the bytes of any executable header, laid out field after field, the check and the loop read the fields they name |
| ElfFiles.PhdrRead | pintos-project2-userprog/src/userprog/process.c:274-299 | In those of any program header too: PT_LOAD is loaded, PT_DYNAMIC, PT_INTERP and PT_SHLIB are refused, others ignored, and pages are writable exactly with PF_W |
| ElfFiles.LoadExecutable | pintos-project2-userprog/src/userprog/process.c:346-411 | Succeeds exactly when the executable header is right and the program headers lie in the file, can be read, are acceptable and load one after another; then all their segments are in memory together, beside what was mapped before |
| ElfFiles.LoadHeaders | pintos-project2-userprog/src/userprog/process.c:356-411 | The same for the loop over the program headers |
| ElfFiles.ExtendsUnique | pintos-project2-userprog/src/userprog/process.c:503-545 | The pages a segment adds are determined |
| Numerals.EvalDigits | pintos-project2-userprog/src/lib/stdio.c:504-513 | Digits written in base 8, 10 or 16, grouped or not, evaluate back to the value |
| Numerals.CommaPlaces | pintos-project2-userprog/src/lib/stdio.c:504-513 | Grouped, every fourth (base 16: fifth) character from the right is a comma and no other |
| Printf.BufferFits | pintos-project2-userprog/src/lib/stdio.c:475-524 | No 64-bit value overruns the 64-byte buffer under any flags and precision |
| Printf.BodyValue | pintos-project2-userprog/src/lib/stdio.c:501-524 | The digits of every conversion evaluate to the value |
| Printf.PrecisionMet | pintos-project2-userprog/src/lib/stdio.c:501-524 | The precision asked for, a least number of digits, is met up to 63 where there are no commas; with commas exactly up to the digits of the value, and one more for # in octal |
| Printf.BodyLength | pintos-project2-userprog/src/lib/stdio.c:501-524 | Just how many characters the digits take: commas between groups, zeros up to the precision or 63, and one more for # in octal |
| Printf.PrecisionExample | pintos-project2-userprog/src/lib/stdio.c:501-524 | 1234567 grouped with precision 9 has nine characters and seven digits |
| Printf.FieldWidth | pintos-project2-userprog/src/lib/stdio.c:526-547 | A field is exactly as wide as asked, or as its content, exactly when it does not have both - and 0, or needs no padding; with both it is padded twice |
| Conversions.ReadWrite | pintos-project2-userprog/src/lib/stdio.c:339-460 | Every proper specification, written before a conversion letter, is read back as it is |
| Conversions.ParseConversion | pintos-project2-userprog/src/lib/stdio.c:339-460 | On any string the loops and branches read the specification it starts with and store its meaning with the arguments its stars take |
| Conversions.FieldPlaced | pintos-project2-userprog/src/lib/stdio.c:339-547 | In terms of what the caller wrote: sign, prefix, digits and padding, and on which side each goes |
| Conversions.WidthMet | pintos-project2-userprog/src/lib/stdio.c:372-416 | In terms of what the caller wrote: the width is met exactly unless 0 without - meets a negative * width and no precision, and padding is needed |
| Conversions.WidthExample | pintos-project2-userprog/src/lib/stdio.c:372-416 | 42 with flag 0 and a * width of -8 takes fourteen characters |
| Conversions.StarsWritten | pintos-project2-userprog/src/lib/stdio.c:372-425 | A specification takes one argument for each star written in it |
| Conversions.ReadExample | pintos-project2-userprog/src/lib/stdio.c:339-460 | The string 0*d is read as flag 0 and a * width |
| Printf.FormatInteger | pintos-project2-userprog/src/lib/stdio.c:469-547 | The characters output are that field, once and in order |
| Printf.Sink.Output | pintos-project2-userprog/src/lib/stdio.c:45-52 | One more character of output, stored only while there is room |
| Vprintf.VPrintf | pintos-project2-userprog/src/lib/stdio.c:156-333 | The loop over the format prints what the format means, directive by directive |
| Vprintf.Vsnprintf | pintos-project2-userprog/src/lib/stdio.c:25-42 | For any format and fitting arguments the buffer holds exactly the prefix of the output that fits and a terminator, nothing is written past it, and the result is the full length |
| Vprintf.PrintsDecimal | pintos-project2-userprog/src/lib/stdio.c:156-230 | Whatever flags, width, precision and type are written for d or i, the field of the argument under their meaning is printed, and then what follows |
| Vprintf.PlainDecimal | pintos-project2-userprog/src/lib/stdio.c:180-227 | %d prints a minus sign where the number is negative and just its digits |
| Vprintf.PrintsUnsigned | pintos-project2-userprog/src/lib/stdio.c:228-281 | u, o, x and X print the argument modulo the range of its type in base 10, 8 and 16, with lower-case letters for x and upper-case ones for X |
| Vprintf.TypeRanges | pintos-project2-userprog/src/lib/stdio.c:188-268 | The range of the type that each length modifier names |
| Vprintf.PrintsPointer | pintos-project2-userprog/src/lib/stdio.c:305-315 | p prints 0x and the address in base 16, without 0x for null, at the right of its width whatever the flags |
| Vprintf.PrintsText | pintos-project2-userprog/src/lib/stdio.c:291-303 | s prints the text or as many of its characters as the precision says, at the left exactly with - or a negative width; null prints as (null) |
| Vprintf.PrintsChar | pintos-project2-userprog/src/lib/stdio.c:283-289 | c prints one character in its width |
| Vprintf.PrintsRemark | pintos-project2-userprog/src/lib/stdio.c:317-330 | Conversions not supported print a remark and take no argument |
| Vprintf.PrintsLiteral | pintos-project2-userprog/src/lib/stdio.c:160-177 | Other characters are copied, and %% prints a percent sign |
| Vprintf.AtoiOfPrintf | pintos-project2-userprog/src/lib/stdlib.c:10-41 | atoi reads back what printf prints for any int and any proper specification exactly without digit groups or up to three digits |
| Atoi.ParseInt | pintos-project2-userprog/src/lib/stdlib.c:10-41 | The number the string starts with, without overflow at any step when the number is an int |
| Atoi.SpacesSkipped | pintos-project2-userprog/src/lib/stdlib.c:18-20 | Any run of the six white-space characters before a number is skipped |
| Atoi.NothingElseSkipped | pintos-project2-userprog/src/lib/stdlib.c:18-41 | What starts with neither white space, a sign nor a digit is zero |
| Atoi.AtoiUndoesPrintf | pintos-project2-userprog/src/lib/stdlib.c:10-41 | atoi undoes every ungrouped signed decimal conversion, whatever its flags, width and precision, on all ints |
| Atoi.AtoiUndoesGrouped | pintos-project2-userprog/src/lib/stdlib.c:10-41 | With digit groups it does exactly for numbers of at most three digits |
| Ustar.StripSocial | pintos-project2-userprog/src/lib/ustar.c:66-73 | Stripping ends with a name that starts with none of /, ./ and ../, is neither empty nor .., and is a suffix or ".", changes exactly the names that need it, and is idempotent |
| Ustar.StripPrefixes | pintos-project2-userprog/src/lib/ustar.c:66-73 | The loop computes that name |
| Ustar.SumIgnoresField | pintos-project2-userprog/src/lib/ustar.c:37-54 | The checksum does not depend on its own field |
| Ustar.ChecksumIs | pintos-project2-userprog/src/lib/ustar.c:37-54 | The checksum is the sum of the bytes outside its field and eight spaces |
| Ustar.ChecksumFits | pintos-project2-userprog/src/lib/ustar.c:37-54 | It is at most 130560 and fits seven octal digits |
| Ustar.CastPack | pintos-project2-userprog/src/lib/ustar.c:10-33 | The 512 bytes of a header, cast back, are its fields |
| Ustar.MakeHeader | pintos-project2-userprog/src/lib/ustar.c:83-118 | All fields of the header; none exactly when the stripped name exceeds 99 bytes |
| Ustar.HeaderFields | pintos-project2-userprog/src/lib/ustar.c:83-118 | What each byte range of a composed header means: name, mode 0644 or 0755, owner 0 and root, size, time, type, magic, version, and a checksum that is right |
| Ustar.ParseAccepts | pintos-project2-userprog/src/lib/ustar.c:178-227 | Just which 512 bytes are taken for a file, of which name, type and size, and which for the end of the archive |
| Ustar.HeaderRoundTrip | pintos-project2-userprog/src/lib/ustar.c:83-227 | Parsing undoes composing: stripped name, type and size for a regular file of size >= 0, size 0 for a directory, and "file too large" exactly for a regular file of negative size |
| OctalFields.OctalIs | pintos-project2-userprog/src/lib/ustar.c:102-115 | A value of at most that many digits fills the octal field exactly and evaluates back |
| OctalFields.ParseOctalField | pintos-project2-userprog/src/lib/ustar.c:130-162 | Digits ended by a space or null give their value, and the overflow test refuses exactly the values above 32 bits |
| OctalFields.FieldMeans | pintos-project2-userprog/src/lib/ustar.c:130-162 | Just which fields have a value: octal digits, a space or a null byte in the field, no more than 2^32 - 1 |
| OctalFields.FieldRoundTrip | pintos-project2-userprog/src/lib/ustar.c:102-162 | A printed field parses back |
| HeapOrder.FloatDown | pintos-project2-userprog/src/lib/stdlib.c:97-123 | One turn of heapify moves the only violation down to the larger child |
| HeapOrder.RootIsMax | pintos-project2-userprog/src/lib/stdlib.c:97-152 | The root of a heap is a maximum |
| HeapSort.DoSwap | pintos-project2-userprog/src/lib/stdlib.c:67-79 | The byte loop exchanges two elements and nothing else, also where they are one |
| HeapSort.Heapify | pintos-project2-userprog/src/lib/stdlib.c:97-123 | Restores the heap below its start index, rearranging only the first cnt elements, and terminates |
| HeapSort.Sort | pintos-project2-userprog/src/lib/stdlib.c:132-152 | A sorted permutation of the fixed-size elements, for every total preorder |
| HeapSort.BinarySearch | pintos-project2-userprog/src/lib/stdlib.c:185-207 | Finds an equal element exactly when there is one |
| Knapsack.BestStep | fun/logicpro/ds/Knapsack.java:36-48 | The recurrence gives the maximum over all selections of one more item |
| Knapsack.BestIs | fun/logicpro/ds/Knapsack.java:36-48 | Iterated, it gives the maximum over all selections |
| Knapsack.GetSolutionMatrix | fun/logicpro/ds/Knapsack.java:36-48 | In ints that wrap, every entry [i][j] is the maximum value over all selections of the first i items of weight at most j, exactly when the maximum of all is an int; so is the corner entry exactly then |
| Knapsack.BestBelowGains | fun/logicpro/ds/Knapsack.java:36-48 | For which it is enough that the positive values together are |
| Knapsack.GetOptimalSubset | fun/logicpro/ds/Knapsack.java:60-74 | The traceback gives different items within the capacity, worth the corner entry |
| Knapsack.BruteForce.Solve | fun/logicpro/ds/KnapsackBruteForce.java:90-120 | All completions of the choices made are tried, with sums that wrap: the best so far bounds them and is attained by the saved solution |
| Knapsack.MatrixExample | fun/logicpro/ds/Knapsack.java:36-48 | Two items of weight 1, worth INT_MAX and 1, in a capacity of 2 give a corner entry that is not the maximum |
| Knapsack.BruteForce.Run | fun/logicpro/ds/KnapsackBruteForce.java:56-83 | Where sums fit an int the search ends with the maximum and a selection that attains it; for positive weights and values in ints whose values add up to an int it ends with the maximum exactly when the weights add up to an int |
| Knapsack.NotBest | fun/logicpro/ds/KnapsackBruteForce.java:90-120 | Where the weights overflow, some selection of no more than twice INT_MAX seems feasible and is worth more than every feasible one |
| Knapsack.OverflowExample | fun/logicpro/ds/KnapsackBruteForce.java:56-104 | Three items of weight 0x3fffffff in a capacity of INT_MAX, which the constructor can draw, end with a value that is not the maximum |
| Knapsack.Agree | fun/logicpro/ds/Knapsack.java:36-74 | The dynamic program's corner entry, worth the subset it returns, equals the exhaustive search's best value exactly when the weights add up to an int, for positive weights and values in ints whose values add up to an int |

## Left out

- Malloc.Allocator.Malloc: sizes whose rounding to pages wraps a 32-bit size_t are excluded by its precondition.
- Malloc.Allocator.Realloc: the same sizes are excluded.
- Malloc.Allocator.Free: the values of list links and of the bytes that fill freed blocks are not modelled, only where they are written; lists are sequences of addresses.
- Palloc.PageAllocator.GetMultiple: zeroing the pages, and panicking instead of returning null, are not modelled.
- LinkedList.List.Splice: splicing between two lists is not modelled.
- FileSys.Volume.InodeRemove: the inode must have lost its name, as it has where dir_remove calls it.
- FileSys.Volume.WriteData: which bytes are written is the matter of InodeIO.Device.WriteAt.
- Paging.Machine.Lookup: kernel addresses, whose tables are made at boot, are not looked up.
- Paging.Machine.TestFlag: nor are they here.
- Paging.Machine.SetFlag: nor here.
- Paging.Machine.SetPage: the frame must be in use and hold no page table.
- Paging.Machine.Resolve: the processor's own setting of the accessed and dirty bits is not modelled.
- Paging.Machine.Destroy: the directory is not active and its frames are mapped once, as process_exit arranges.
- ArgStack.PushArgs: the two variable-length arrays of argc pointers are taken to fit the kernel stack.
- ElfFiles.LoadExecutable: making the page directory, opening the file and setting up the stack page are not modelled.
- Vprintf.VPrintf: the same formats and arguments are excluded as in Vprintf.Vsnprintf.
- Vprintf.Vsnprintf: a format that ends inside a conversion, where the source reads past its end, and arguments of other kinds than the format asks for are excluded; the int that counts the output, a width of INT_MIN and widths or precisions in digits are taken not to overflow.
- Knapsack.BruteForce.Run: for items whose values are not all positive, or add up to more than an int, nothing is said about the true maximum where sums overflow.
- Ustar.MakeHeader: names are sequences of characters below 256, as C strings are.
- Semaphore.RunKeepsInv: interrupt handlers that call sema_up are threads like any other.
- Locks inside malloc, palloc and the page pools: each call is atomic here.
- calloc, and the mutual exclusion of concurrent file-system calls.
- Byte encodings of directory entries and inodes on disk, bitmap_read and bitmap_write: the free map's file is only a write that may fail.
- file.c positions and its deny-write counts, and dir_readdir: easy beside the rest.
- The other list functions (insertion in order, uniqueness, reversal, minimum and maximum) and hash_apply, hash_clear, hash_destroy: easy beside the rest.
- Blocking behaviour of process_wait, exec_process and process_exit, system calls and user-pointer checks.
- The boot phase before the idle thread exists, priorities, and the statistics of thread_tick.
- Device drivers, interrupt handling, console and debugging code.
- pintos-project3-vm, which repeats this code, and the rest of fun/logicpro/ds.
