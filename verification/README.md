# Maya OS: verified core

A Dafny model of the parts of the Maya OS kernel where correctness is not evident from one function:
the heap and the page tables, the blocking primitives, the two schedulers, the raster routines, the
packet layers, and the chunked file reads.

Most components come in two forms. A class with the source's own fields, loops and in-place updates is
proved to compute a value-level operation, and the properties are then proved of the value-level
operation over whole runs: any sequence of calls, and for code that runs concurrently any interleaving.
What every run keeps is stated beside what each step of a run does, when it does it, and what has to
come of it in the end.
Where a property the design suggests does not hold of the code, the code is kept, the condition under
which the property holds is proved in both directions, over whole runs where the property is about
runs, and a concrete run or input shows the failure. For the mutex the exact condition is that of lock
calls matching ownership; exclusion itself can outlive a recursive lock for a while, and is broken by a
continuation that every recursive lock has.

| files | component |
|---|---|
| `Heap`, `HeapSafety`, `HeapAsWritten`, `HeapOverlap`, `HeapReuse`, `HeapList` | best-fit heap with splitting and two-way coalescing |
| `Paging` | two-level page table against a flat map |
| `Mutex`, `MutexHandover`, `WaiterQueue`, `Spinlock`, `SpinlockProgress` | locks, at the grain of interrupt-disabled sections and of single instructions |
| `MessageQueue`, `MessageQueueSafety`, `MessageQueueProgress`, `MessageList`, `MessageSections` | bounded message queue as a monitor, with its condition variables |
| `Pipe`, `PipeProgress` | byte ring shared by readers and writers |
| `Scheduler`, `SchedulerOrder`, `SchedulerRuns`, `SchedulerTicks`, `TaskArray` | priority scheduler: order, dispatch, quanta, accounting |
| `ProcessTable`, `ProcessHistory`, `ProcessArray` | process table and round-robin |
| `Line`, `LineErrors`, `Graphics`, `Blend` | line drawing and alpha blend |
| `Checksum`, `Packets`, `PacketBuffers`, `RoundTrips`, `WireLayout`, `Tampering`, `Dhcp` | Ethernet, IP, ICMP, UDP and DHCP options |
| `Ext2`, `Fat32`, `FatChains`, `FatDirectory`, `FatEntries` | file reads and directory listing |
| `Words`, `Arithmetic`, `Sequences`, `Bytes` | machine words and shared lemmas |

`dafny verify dfyconfig.toml` checks everything.

## Where the code differs from its own intent

- `kernel/memory.c:157` starts a split-off block's payload at its own descriptor; line 324 and all size
  accounting put the descriptor in front. The heap takes the layout as a parameter: the main safety
  theorems are about the descriptor-first layout, and the bookkeeping theorems and best fit hold of
  both. `HeapAsWritten.RunsWithRoomAreSafe` says when the line as written keeps payloads apart,
  `HeapOverlap.FreeIsSafeIffRoom` that this is exact, and `HeapAsWritten.AsWrittenOverlaps` is a run in
  which it hands out overlapping memory.
- `kernel/memory.c:59-95` sets the MMU flag after the identity mapping that requires it.
- `kernel/memory.c:306` counts pages from the size alone, so an unaligned region can miss its last page.
- `kernel/memory.c:207-208` frees again whatever is at the address; a double free unbalances `used_memory`.
- `kernel/mutex.c:18` and `:106` share a name; the first is the compare-and-swap helper, the second a
  wrapper around it. A recursive `mutex_lock` returns without having locked.
- `kernel/message_queue.c:132-138` frees a place without signalling `not_full`, and `:152-157` tests
  `closed` before taking the lock only.
- `kernel/scheduler.c:88-95` makes one bubble pass per addition, and nothing keeps a listed process from
  being added again. Line 130 makes the current process READY before the search, so a first task is
  dispatched again and again.
- `gui/graphics.c:93` can take the signed error term below -2^31 on steep lines.
- `kernel/process.c:90` says `id` where the field is `pid`.
- `net/ip.c:160` compares checksums for equality, which rejects 0xFFFF where the all-ones test accepts it.
- `net/udp.c:34-78` adds words as stored and the protocol number unswapped: sender and receiver agree with
  each other, which is what is proved.
- `fs/ext2.c:162` has a typo in a field name. `fs/ext2.c:73-74` looks neither at a zero
  pointer, so that a sparse file without a pointer table is read through disk block 0, nor at a failed
  read, after which a fresh buffer's contents are taken for pointers. `Ext2.LookupIsReliable` is the
  exact condition, and `Ext2.MissingTableIsRead` and `Ext2.UnreadTableIsUsed` are the failing inputs.
- `fs/fat32.c:79` allocates 512 bytes for `cluster_buffer`, and lines 176, 210 and 245 read whole clusters
  into it: clusters of more than one sector overrun it.
- `fs/fat32.c:181-194` searches labels and deleted entries too, so a volume label can be opened in place
  of a file of the same name.
- `fs/fat32.c:240-262` is the cut-off tail of `fat32_read_file`; the model joins it to lines 151-200.

## Model

| member | source | states |
|---|---|---|
| HeapSafety.EveryRunIsSafe | kernel/memory.c:127-232 | After any sequence of `kmalloc` and `kfree` calls, descriptors and payloads tile the heap window in address order, 4-byte aligned, every pointer handed out and not yet freed starts a used block as large as was asked, and no pointer is handed out while a client holds it |
| HeapSafety.LiveRegionsAreDisjoint | kernel/memory.c:127-232 | In every run each live region is word aligned and inside the heap, two of them do not overlap, and no pointer was ever handed out while a client held it |
| HeapSafety.NextRegionIsFree | kernel/memory.c:139-169 | After any run, what the next `kmalloc` returns is no live pointer, and its region overlaps no live one |
| HeapSafety.EveryByteHasOneBlock | kernel/memory.c:154-169 | Every byte of the heap window lies in exactly one block, descriptor or payload |
| HeapSafety.KmallocServesSmallestFit | kernel/memory.c:139-169 | After any run, in either layout, `kmalloc` fails exactly when no free block fits, changing nothing, and otherwise serves a smallest fitting block, the first of equals |
| HeapSafety.StartsArePositive | kernel/memory.c:127-232 | In every run of either layout no payload starts at address 0, so that null always means failure |
| HeapSafety.KmallocHonoursSize | kernel/memory.c:132-169 | The block served is as large as the request exactly when rounding up does not wrap; above 0xFFFFFFFC it is smaller |
| HeapSafety.CallKeepsBooks | kernel/memory.c:135-169 | Whatever the layout, one call keeps sizes plus one header per block constant and leaves no two free neighbours; `used_memory` stays right exactly when the call does not free a block that is already free |
| HeapSafety.EveryRunBalances | kernel/memory.c:199-232 | So in every run no byte is lost and no two neighbouring blocks are both free |
| HeapSafety.RunsThatFreeOnceCount | kernel/memory.c:166-208 | Over a whole run `used_memory` is the total size of the used blocks throughout exactly when no call is a double free |
| HeapSafety.DoubleFreeMiscounts | kernel/memory.c:206-208 | Allocate two, free the first twice: the counter is wrong, in both layouts |
| HeapSafety.HugeRequestGetsNothing | kernel/memory.c:133 | A request above 0xFFFFFFFC is granted with a block of no bytes |
| HeapAsWritten.MergeStaysSeparated | kernel/memory.c:210-226 | Payloads stay apart across one merge exactly when the gaps around the swallowed block hold one descriptor, or nothing follows it |
| HeapAsWritten.ReleaseJoins | kernel/memory.c:210-226 | The two merges of one `kfree` come to one block in the place of the free blocks joined |
| HeapAsWritten.ReleaseStaysSeparated | kernel/memory.c:204-228 | Payloads stay apart across a whole `kfree` exactly when nothing follows the blocks joined, or the spare bytes from the first of them to behind the last make up one descriptor per merge: the condition that line 157 as written can miss |
| HeapAsWritten.SeparationOverRuns | kernel/memory.c:127-232 | In either layout payloads stay apart throughout a run exactly when every free had that room |
| HeapAsWritten.RunsWithRoomAreSafe | kernel/memory.c:127-232 | In such a run, with requests that round up without wrapping, live regions are as large as asked and disjoint, and no pointer was handed out while a client held it |
| HeapAsWritten.HeaderFirstAlwaysHasRoom | kernel/memory.c:323-325 | In the descriptor-first layout every free of every run has room |
| HeapAsWritten.TiledIsSeparated | kernel/memory.c:323-325 | With the descriptor in front of every payload, as `heap_init` lays it out, every gap is one descriptor |
| HeapAsWritten.TakeKeepsSeparated | kernel/memory.c:155-164 | Splitting keeps payloads apart in both layouts, and leaves a gap of 16 bytes or, as written, of none |
| HeapAsWritten.AsWrittenOverlaps | kernel/memory.c:156-158 | With line 157 as written: allocate A, B, C, free B, free A, allocate again, and the new payload covers the start of C |
| HeapOverlap.FreeIsSafeIffRoom | kernel/memory.c:199-232 | After a run whose frees all had room and whose requests round up without wrapping, a free leaves the regions of all clients apart, whatever is requested after it, exactly when it has room: without room some sequence of requests ends with one client's region reaching into another's |
| HeapOverlap.OrdinaryRunsAreHeld | kernel/memory.c:127-232 | In such runs every used block is one that a client holds, and all sizes are whole words |
| HeapOverlap.RoomMeans | kernel/memory.c:210-226 | To have room is for the joined block to end before the next payload |
| HeapReuse.RequestTakesLittle | kernel/memory.c:132-169 | After any run, in either layout, a granted request gets its size rounded up to words and at most 20 bytes more, and exactly that if a block was split for it, whose other part is free and has 8 bytes or more |
| HeapReuse.SizesAreWords | kernel/memory.c:127-232 | In every run of either layout all block sizes are multiples of 4 |
| HeapReuse.NothingForNothing | kernel/memory.c:128-202 | A request of no bytes takes nothing, and freeing null or an unknown pointer changes nothing |
| HeapReuse.EveryRunIsHeld | kernel/memory.c:127-232 | In every run of the descriptor-first layout each used block is one that a client holds |
| HeapReuse.EverythingComesBack | kernel/memory.c:199-232 | Once every pointer handed out has been given back, the heap is the one block it began with, all its bytes in it, and if nothing was freed twice the counter is 0 |
| HeapReuse.EverythingComesBackWithRoom | kernel/memory.c:199-232 | So it is in the layout as written, in a run whose frees all had room |
| HeapSafety.SizesFitTheSearch | kernel/memory.c:137-148 | In every balanced heap the block sizes stay below the initial best size, so the search never overlooks a fitting block |
| HeapList.Allocator.HeapInit | kernel/memory.c:317-330 | The linked list becomes the one-block heap, unless it was initialised before |
| HeapList.Allocator.FindBestFit | kernel/memory.c:135-148 | The search loop finds the best fit of the abstract heap |
| HeapList.Allocator.Kmalloc | kernel/memory.c:127-170 | The linked list with in-place splitting refines the value-level `kmalloc`, pointer and counter included |
| HeapList.Allocator.Kfree | kernel/memory.c:199-232 | The linked list with two-way coalescing refines the value-level `kfree` |
| HeapList.Allocator.FindPrevious | kernel/memory.c:216-220 | The walk for the previous block ends at it, or at null for the list head |
| Heap.BestFit | kernel/memory.c:135-148 | The index chosen is a best fit, or -1 when nothing fits |
| Heap.Find | kernel/memory.c:204-206 | The first block whose payload starts at the pointer, or -1 |
| Heap.TakeKeepsTiled | kernel/memory.c:154-166 | Splitting and marking a block keeps the tiling of the heap window |
| Heap.ReleaseKeepsTiled | kernel/memory.c:207-226 | Freeing and coalescing keeps the tiling |
| Paging.Mmu.PageMap | kernel/memory.c:97-125 | The two-level table refines a flat page-to-frame map: the page gets the frame, all other pages keep theirs, and no two directory entries share a table; refused before the MMU is up or without a fresh table |
| Paging.Mmu.GetPhysical | kernel/memory.c:272-285 | Translation is the flat map applied to the page plus the offset, identity below 4 MB, and 0 for an unmapped page |
| Paging.Mmu.MapRegion | kernel/memory.c:302-312 | The loop maps each page of the run whose table was there or was supplied to it or an earlier page under the same entry, passes over the rest, and leaves every other page alone |
| Paging.Mmu.VmmInit | kernel/memory.c:59-95 | The 1024 identity mappings are all refused, because the flag they test is set only afterwards: the directory ends up empty; a second call, or one without a page for the directory, changes nothing |
| Paging.RegionIsCovered | kernel/memory.c:306-310 | A region that does not wrap is covered by the pages mapped exactly when its unaligned head and its size together need no further page |
| Paging.UnalignedRegionMissesPage | kernel/memory.c:306 | Two bytes across a page boundary get one page, and the second byte is not on it |
| Paging.PageCountIsCeiling | kernel/memory.c:306 | The pages mapped are the size over the page size rounded up, and none for a size within a page of 2^32 |
| Paging.RegionKeepsOffsets | kernel/memory.c:304-310 | Addresses of the region translate at the same distance exactly when both starts have the same page offset |
| Mutex.EveryRunIsSound | kernel/mutex.c:37-142 | In every interleaving `locked` is 1 exactly when there is an owner, the owner is inside and not waiting, and the waiter list holds each process in the wait loop exactly once |
| Mutex.DisciplinedRunsExclude | kernel/mutex.c:37-142 | If no process locks a mutex it is inside of, at most one process is inside, and it is the owner |
| Mutex.OwnershipOverRuns | kernel/mutex.c:37-142 | Over a whole run, being inside, once, means owning the lock throughout exactly when no process locks a mutex it is inside of |
| Mutex.RecursionBreaksExclusion | kernel/mutex.c:51-57 | From every disciplined state a second lock by the owner returns as if it had succeeded, and its first unlock then lets any process that is not waiting in beside it |
| Mutex.WithoutRemoves | kernel/mutex.c:91-100 | Unlinking takes exactly the one waiter off the list |
| MutexHandover.LockInRun | kernel/mutex.c:42-80 | In every run a lock call takes a mutex nobody owns, returns at once to its owner, and otherwise puts the caller at the end of the waiters |
| MutexHandover.RetryInRun | kernel/mutex.c:80-100 | In every run a waiter that retries gets the mutex if nobody owns it: owner and lock word set, one deeper inside, off the list, whose others keep their order; otherwise nothing changes |
| MutexHandover.TryLockInRun | kernel/mutex.c:106-115 | A try gets the mutex exactly if nobody owns it |
| MutexHandover.ReleaseInRun | kernel/mutex.c:118-142 | An unlock frees the mutex exactly when the owner makes it, and leaves the waiters listed |
| MutexHandover.WaitersStandInLine | kernel/mutex.c:66-100 | In every run the waiter list is the processes waiting, in the order in which they began to |
| MutexHandover.LongestWaitingIsWoken | kernel/mutex.c:134-137 | An owner's unlock wakes the one that has waited longest, and no other unlock wakes anybody |
| MutexHandover.EveryoneGetsIn | kernel/mutex.c:80-142 | From every disciplined state, the owner's unlock and then a pass and an unlock of each waiter in line let each of them own the mutex, and leave it free with nobody inside or waiting |
| Mutex.KernelMutex.Try | kernel/mutex.c:18-25 | The compare-and-swap takes a free lock and records the owner, and changes nothing otherwise |
| Mutex.KernelMutex.LockFirst | kernel/mutex.c:42-80 | The first section of `mutex_lock` on the linked waiter list refines the value-level step |
| Mutex.KernelMutex.LockAgain | kernel/mutex.c:80-100 | A later pass of the wait loop wins and unlinks its own waiter, or leaves everything as it was; the unlink walk always finds the waiter |
| Mutex.KernelMutex.UnlockSection | kernel/mutex.c:118-142 | Only the owner unlocks, and the first waiter is the one woken |
| WaiterQueue.Waiters.Append | kernel/mutex.c:66-78 | The walk to the end appends one waiter |
| WaiterQueue.Waiters.PopFront | kernel/condition.c:75-81 | The first waiter leaves the list, if there is one |
| WaiterQueue.Waiters.Unlink | kernel/mutex.c:92-100 | The given waiter leaves the list, the others keep their order |
| Spinlock.EveryRunIsHeld | kernel/spinlock.c:19-106 | With any number of CPUs at single-instruction steps there is at most one holder, `locked` is set exactly while there is one, and `cpu` names a CPU only while it holds the lock |
| Spinlock.AtMostOneHolder | kernel/spinlock.c:37-49 | Two CPUs between a successful test-and-set and the store that frees the lock are the same CPU |
| Spinlock.RecursionTestIsExact | kernel/spinlock.c:30-35 | The recursion test fires exactly on a CPU that holds the lock |
| Spinlock.StrayReleaseIsHarmless | kernel/spinlock.c:89-93 | A release by a CPU that does not hold the lock changes nothing |
| SpinlockProgress.ReleaseFrees | kernel/spinlock.c:83-105 | A holder that calls release has freed the lock with its third step, whatever the steps of other CPUs in between |
| SpinlockProgress.SwapInRun | kernel/spinlock.c:37-42 | The test-and-set takes the lock exactly when nobody holds it; otherwise a try returns and an acquire spins |
| SpinlockProgress.SpinInRun | kernel/spinlock.c:39-41 | The inner loop is left exactly when nobody holds the lock |
| SpinlockProgress.UncontendedEnters | kernel/spinlock.c:19-81 | An acquire or a try of a free lock, nobody else moving, is inside after three steps |
| SpinlockProgress.TryIsTurnedAway | kernel/spinlock.c:52-81 | A try while another CPU holds the lock returns without it and leaves it to its holder |
| MessageQueue.EveryRunIsFifo | kernel/message_queue.c:59-247 | In every interleaving of send, receive, both tries and close: messages received followed by messages queued are the messages sent, in order and unaltered, and the count never exceeds the limit |
| MessageQueue.SectionConserves | kernel/message_queue.c:64-192 | Each locked section moves messages in at the back and out at the front only, a receive into a short buffer included |
| MessageQueueSafety.EveryRunIsMonitored | kernel/message_queue.c:59-247 | No wake-up for a message is lost: while a receiver is listed and the queue is open, the messages queued are at most the receivers woken and not yet run; waiter lists hold exactly the blocked processes; and once every close has returned nobody is listed |
| MessageQueueSafety.WaitingReceiverImpliesWokenOne | kernel/message_queue.c:113-116 | If a receiver waits beside a message in an open queue, another one has been woken and is about to run |
| MessageQueueSafety.StepKeepsWakeups | kernel/message_queue.c:99-146 | One step keeps the bound for messages always, and the one for free places exactly when it is not a dequeue into a short buffer while the free places equal the senders woken and another sender is listed |
| MessageQueueSafety.PlacesOverRuns | kernel/message_queue.c:99-146 | Over a whole run freed places are matched by woken senders throughout exactly when no such dequeue occurs |
| MessageQueueSafety.LongBuffersLoseNoPlace | kernel/message_queue.c:145-148 | In particular in every run in which no buffer is too short |
| MessageQueueSafety.ShortBufferLosesPlace | kernel/message_queue.c:132-138 | One short buffer leaves a sender asleep before an empty queue |
| MessageQueueSafety.OnlyTrySendIsLate | kernel/message_queue.c:152-192 | On a closed queue a step still enqueues exactly when it is the section of a `try_send` that passed its unlocked test before the close and finds room |
| MessageQueueSafety.LateMessagesAreBounded | kernel/message_queue.c:152-157 | After a close at most as many messages enter as there were `try_send` calls in flight |
| MessageQueueSafety.TrySendCanBeLate | kernel/message_queue.c:152-157 | And one such call does enqueue after the close |
| MessageQueueProgress.CallsInRun | kernel/message_queue.c:59-62 | In every run the unlocked tests take up a send exactly with a message that is not empty, not too long, and on an open queue, and a receive exactly on an open queue |
| MessageQueueProgress.SendInRun | kernel/message_queue.c:64-102 | In every run a sending process that runs fails on a closed queue, waits last in line on a full one, and otherwise appends its message and wakes the first receiver in line |
| MessageQueueProgress.TrySendInRun | kernel/message_queue.c:157-190 | A try fails on a full queue and otherwise does the same, closed or not |
| MessageQueueProgress.ReceiveInRun | kernel/message_queue.c:111-148 | A receiving process that runs takes the first message exactly when there is one, closed or not: copied, waking the first sender in line, if it fits, and lost if not; from an empty queue it fails when that is closed and waits when not |
| MessageQueueProgress.TryReceiveInRun | kernel/message_queue.c:199-231 | A receiving try does the same, but fails on an empty queue |
| MessageQueueProgress.CloseInRun | kernel/message_queue.c:240-246 | A close marks the queue, then wakes every sender and then every receiver in line, and nobody else |
| MessageQueueProgress.EverythingSentIsReceived | kernel/message_queue.c:194-232 | From every state of an open queue, an idle process that keeps trying receives everything that was sent, in order, and leaves the queue empty |
| MessageSections.KernelQueue.SendSection | kernel/message_queue.c:64-102 | The section of a send on the linked list, count, closed flag and condition variables refines the value-level one: wait, refusal, or enqueue and signal |
| MessageSections.KernelQueue.ReceiveSection | kernel/message_queue.c:111-148 | So does that of a receive, with the message copied into the buffer exactly when it fits and its size reported |
| MessageSections.KernelQueue.TrySendSection | kernel/message_queue.c:157-190 | So does that of a try, which does not look at `closed` again |
| MessageSections.KernelQueue.TryReceiveSection | kernel/message_queue.c:199-231 | So does that of a receiving try |
| MessageSections.KernelQueue.CloseSection | kernel/message_queue.c:240-242 | The locked part of a close sets the flag only |
| MessageSections.KernelQueue.WakeSenders | kernel/message_queue.c:245 | The first broadcast empties the senders' list and wakes all of it |
| MessageSections.KernelQueue.WakeReceivers | kernel/message_queue.c:246 | The second does so for the receivers |
| MessageList.Messages.Append | kernel/message_queue.c:83-97 | The linked list from `first` to `last` gains the copied message at its end, `count` with it |
| MessageList.Messages.TakeFirst | kernel/message_queue.c:123-141 | The first message leaves the list in either case, and is copied exactly when the buffer is long enough; its size is reported |
| MessageList.Condition.Enlist | kernel/condition.c:34-54 | The waiting process goes to the end of the waiter list |
| MessageList.Condition.Signal | kernel/condition.c:67-84 | Exactly the first waiter is woken and unlinked |
| MessageList.Condition.Broadcast | kernel/condition.c:86-103 | All waiters are woken, in order, and the list is empty |
| Pipe.EveryRunConserves | kernel/pipe.c:73-173 | In every interleaving of many readers and writers the bytes written are the bytes read followed by the ring, at most 4096, and each process wrote and read its own bytes in order |
| PipeProgress.CallsInRun | kernel/pipe.c:73-76 | In every run a call is taken up exactly with something to move, on an open pipe |
| PipeProgress.WriterMoves | kernel/pipe.c:134-148 | A writer in its section puts in its next bytes until they are all in or the ring is full |
| PipeProgress.ReaderMoves | kernel/pipe.c:90-104 | A reader in its section takes the first bytes until it has all or the ring is empty |
| PipeProgress.CallGoesOn | kernel/pipe.c:80-113 | Between sections a call returns exactly when the pipe is closed or it has moved everything, and otherwise goes on to its next section |
| PipeProgress.WholeRequestsAreMet | kernel/pipe.c:73-160 | On a pipe still open, what a process wrote followed by what its current call still has to put in is exactly what it asked to write, and it got as many bytes as it asked for less those its current call waits for |
| PipeProgress.IdleIsDone | kernel/pipe.c:73-160 | So an idle process on an open pipe has written all it ever asked to, and read as much |
| Pipe.Ring.WriteSection | kernel/pipe.c:134-148 | The copy loop appends as much of the data as there is room for |
| Pipe.Ring.ReadSection | kernel/pipe.c:90-104 | The copy loop takes as many bytes from the front as are wanted and there |
| Pipe.Ring.Put | kernel/pipe.c:142-146 | One byte enters at the back; `write_pos` stays `read_pos` plus `count` modulo 4096 |
| Pipe.Ring.Take | kernel/pipe.c:98-102 | One byte leaves at the front |
| Scheduler.PassRanks | kernel/scheduler.c:88-95 | The single bubble pass sorts the array exactly when no task is outranked by two tasks behind it |
| Scheduler.PassIsStable | kernel/scheduler.c:88-95 | The pass never changes the order of tasks of one priority, and loses or doubles none |
| Scheduler.AddKeepsOrder | kernel/scheduler.c:73-98 | Adding keeps a sorted array sorted exactly under that condition; always when the process is not listed or keeps its priority |
| Scheduler.AddIsStable | kernel/scheduler.c:85-95 | A process not yet listed, or listed with that priority, goes behind all tasks of its priority, and no two others of one priority change places |
| SchedulerOrder.StableOverRuns | kernel/scheduler.c:73-117 | Over a whole run the tasks of every priority stand in the array in the order in which they were added, those removed since left out, throughout exactly when no listed process is added with another priority than it has |
| SchedulerOrder.OrderOverRuns | kernel/scheduler.c:73-117 | Over a whole run the array is in order throughout exactly when every addition met the condition |
| SchedulerOrder.OrderedUnlessReranked | kernel/scheduler.c:73-117 | In particular in every run that never adds a listed process with another priority |
| SchedulerOrder.RaisingBreaksOrder | kernel/scheduler.c:86-95 | Adding a listed task again above a task before it always leaves the array out of order |
| SchedulerOrder.ReaddingCanBreakOrder | kernel/scheduler.c:86-95 | A five-step run that does so, and in which the order of arrival is lost as well |
| SchedulerOrder.DispatchServesHighest | kernel/scheduler.c:133-145 | Dispatch serves the highest priority with a ready task, the running process counting as ready, and within it the first task; the idle process exactly if no task is ready |
| SchedulerOrder.FirstTaskKeepsProcessor | kernel/scheduler.c:25-39 | Quanta do not rotate equals: the first task of the array, once running, keeps the processor through every tick and yield |
| SchedulerRuns.Exec | kernel/scheduler.c:25-157 | In every run at most one process is RUNNING, the current one; no quantum exceeds 10; every listed process exists and at most 256 are listed |
| SchedulerRuns.EveryRunIsAccounted | kernel/scheduler.c:124-150 | In every run, modulo 2^32, the run times of all processes plus what re-adding dropped are the ticks from the first switch to the last |
| SchedulerRuns.TicksAreShared | kernel/scheduler.c:124-150 | The run times alone are exactly when what re-adding dropped is 0 modulo 2^32; always when processes are added only before they first run |
| SchedulerRuns.ReaddingLosesTicks | kernel/scheduler.c:79-83 | A process charged for some ticks and added again: the run times no longer add up |
| SchedulerRuns.StepKeepsTime | kernel/scheduler.c:31-38 | The current process keeps 1 to 10 ticks across a step exactly unless a tick uses up the last one while no task is listed; the next tick or yield that finds a task makes it good |
| SchedulerRuns.TimeOverRuns | kernel/scheduler.c:31-38 | Over a whole run the current process has 1 to 10 ticks left throughout exactly when no such tick occurs |
| SchedulerRuns.QuantumCanRunOut | kernel/scheduler.c:31-38 | The only task is taken off the list while it runs; ten ticks later its quantum is 0 |
| SchedulerTicks.TimerInRun | kernel/scheduler.c:25-39 | In every run a tick does nothing before there is a current process, takes one off its quantum if that leaves some, and otherwise makes exactly one switch |
| SchedulerTicks.NineTicksOnlyCount | kernel/scheduler.c:25-39 | From a dispatch on, up to nine timer interrupts change nothing but the quantum of the process dispatched, which is 10 less their number |
| SchedulerTicks.TenthTickSwitches | kernel/scheduler.c:25-39 | And the tenth makes exactly one switch |
| SchedulerTicks.YieldInRun | kernel/scheduler.c:119-157 | A yield with tasks listed makes one switch: the process that ran is charged up to now and ready, the first listed one that can run, or else the idle process, runs with 10 ticks, the switches go up by one modulo 2^32, and no other record changes |
| SchedulerTicks.AddInRun | kernel/scheduler.c:73-98 | An addition resets the record and lists the process once more, keeping all entries, with a task of the highest priority in front; a full array refuses it |
| SchedulerTicks.RemoveInRun | kernel/scheduler.c:100-117 | A removal takes out the first entry for the process, the others keeping their order, and nothing if there is none |
| SchedulerTicks.RunTimesAreTimesCurrent | kernel/scheduler.c:124-150 | In every run the run time of each process is, modulo 2^32, the time for which it was the current one since it was last added, up to the last switch |
| TaskArray.TaskScheduler.AddTask | kernel/scheduler.c:73-98 | The record and the pointer array updated in place refine the value-level addition; a full array is refused |
| TaskArray.TaskScheduler.BubblePass | kernel/scheduler.c:88-95 | The exchange loop computes the pass |
| TaskArray.TaskScheduler.RemoveTask | kernel/scheduler.c:100-117 | The first entry for the process goes, the rest keeps its order; nothing happens when there is none |
| TaskArray.TaskScheduler.SwitchTask | kernel/scheduler.c:119-157 | Charging, search and dispatch through pointers refine the value-level switch |
| TaskArray.TaskScheduler.FindReady | kernel/scheduler.c:133-140 | The loop finds the first ready task |
| TaskArray.TaskScheduler.TimerCallback | kernel/scheduler.c:25-39 | Counting down the quantum and switching at zero refine the value-level tick |
| ProcessTable.Exec | kernel/process.c:34-140 | In every run of create, destroy and schedule no record is listed twice, `processes[i].pid` is i, and the current process is none or a listed one |
| ProcessHistory.TableIsAlive | kernel/process.c:34-123 | In every run the table lists exactly the processes created with a stack while there was room and not destroyed since, oldest first, each with its place as its pid |
| ProcessHistory.CreationReturns | kernel/process.c:34-93 | A creation returns the new process exactly if it has a stack and fewer than 256 are alive |
| ProcessHistory.EveryoneAliveIsSelected | kernel/process.c:125-140 | In every run one round of schedules selects every process that is alive exactly once |
| ProcessTable.RoundIsFair | kernel/process.c:125-140 | Any `process_count` schedules in a row select every process exactly once |
| ProcessTable.SelectedInOrder | kernel/process.c:130-136 | They go once around the table from the place after the current process, or from the front |
| ProcessTable.DestroyRemoves | kernel/process.c:95-123 | Exactly the process destroyed leaves the table and is cleared as current, the others keep their order; an unlisted one leaves table and pids alone |
| ProcessTable.DestroyKeepsSound | kernel/process.c:95-123 | The rest are renumbered to their places, and the current process stays a listed one or none |
| ProcessTable.DestroyKeepsTurn | kernel/process.c:95-123 | Destroying a process that is neither running nor next takes nobody's turn |
| ProcessArray.Manager.Create | kernel/process.c:34-93 | A new record goes to the end with its place as pid; a full table or a failed stack allocation leaves the table as it was |
| ProcessArray.Manager.Destroy | kernel/process.c:95-123 | The shift and renumber loop refines the value-level removal |
| ProcessArray.Manager.Schedule | kernel/process.c:125-140 | Selection through the current record's pid refines the value-level round-robin |
| Line.HalfAPixel | gui/graphics.c:82-95 | Every point (i, j) plotted satisfies abs(2(i dy - j dx)) <= max(dx, dy), and the longer axis moves on every pass |
| Line.BoxAndArrival | gui/graphics.c:89-95 | The walk stays in the bounding box and is at the far corner exactly on pass max(dx, dy) |
| Line.EightConnected | gui/graphics.c:92-94 | Every move is to one of the eight neighbours |
| Line.ExactWalk | gui/graphics.c:86-94 | After k passes the walk is k along the longer axis and, along the other, at the ideal displacement rounded to the nearest whole, ties toward the start |
| Line.CursorTracks | gui/graphics.c:86-94 | The error term is always the first error less the cross product with the ideal direction |
| Graphics.Screen.DrawLine | gui/graphics.c:77-96 | The loop ends, and paints exactly the visible points of that walk |
| Graphics.Screen.PutPixel | gui/graphics.c:67-75 | A visible point is set and nothing else; an invisible one changes nothing |
| Graphics.LineSpansItsEndpoints | gui/graphics.c:82-95 | In screen coordinates, for all endpoints: the walk starts at one, ends at the other, and never leaves the box between them |
| LineErrors.ErrorsFit | gui/graphics.c:86-94 | Given distances that fit, every value of the error variable fits 32 bits exactly when the line is flat or no sideways move starts deeper than 2^31 less the height, the depth of the i-th being the remainder of dy/2 + i dy by dx |
| LineErrors.ShortLinesFit | gui/graphics.c:86-94 | Lines whose distances add up to at most 2^31 + 1 all fit |
| LineErrors.SteepLineOverflows | gui/graphics.c:93 | A line of 3 by 2^31 - 1 does not |
| Graphics.IndexIdentifies | gui/graphics.c:74 | Different visible points have different framebuffer places |
| Graphics.RowsFollow | gui/graphics.c:74 | Pixels lie row after row, each from left to right |
| Blend.PackedIsPerChannel | gui/graphics.c:178-183 | For every pixel, colour and alpha the packed products neither overflow 32 bits nor carry between channels, each channel is (d(255 - a) + s a) / 256, and the top byte is cleared |
| Graphics.Screen.FillRectAlpha | gui/graphics.c:171-186 | Exactly the visible part of the rectangle changes, each pixel to its blend |
| Checksum.Compute | net/ip.c:42-60 | The accumulator and carry loops compute the complement of the folded sum, odd lengths included; the 32-bit accumulator does not wrap up to 128 KiB, and keeps the sum modulo 2^32 beyond |
| Checksum.Fold | net/ip.c:55-57 | Carrying ends, keeps the residue modulo 65535, and is zero only for a zero sum |
| Checksum.FoldIsCanonical | net/ip.c:55-57 | Sums of one residue, both zero or neither, fold to one value |
| Checksum.SameWireOctets | net/ip.c:42-60 | The octets put on the wire are those of a big-endian computation (section 2(B) of RFC 1071) |
| Checksum.FoldsAreSwapped | net/ip.c:42-60 | Folding the little-endian sum gives the octet swap of folding the big-endian one |
| Checksum.AcceptsIffAllOnes | net/ip.c:157-163 | A packet is accepted exactly when it passes the all-ones test of section 1 of RFC 1071 and a checksum of 0xFFFF stands over zero data only |
| RoundTrips.AllOnesWordIsRefused | net/ip.c:157-163 | A checksum of 0xFFFF that is right by that test, over data that is not all zero, is refused |
| RoundTrips.HeaderCanBeRefused | net/ip.c:157-163 | A well-formed 20-octet header from 10.0.0.1 to 10.0.0.2 that passes the all-ones test is dropped by the host it is for |
| Checksum.SealedIsAccepted | net/ip.c:114-122 | Whatever the checksum word held, writing the checksum over the rest into it makes a packet that receivers accept, and the all-ones test too |
| PacketBuffers.IpLayer.Send | net/ip.c:87-141 | The buffer filled in place is the abstract packet, the hop is chosen by the mask, and the identifier counts up modulo 2^16 exactly when a packet goes out |
| PacketBuffers.IpLayer.Handle | net/ip.c:143-181 | The in-place header test refines the abstract handler and restores the packet unless it drops it |
| RoundTrips.IpRoundTrips | net/ip.c:87-181 | Handling a packet as sent gives back source, protocol and data, whatever padding follows |
| RoundTrips.HeaderFields | net/ip.c:104-122 | The header holds each field where the handler reads it |
| WireLayout.HeaderOctets | net/ip.c:104-122 | The header octet by octet, as section 3.1 of RFC 791 lays it out: 0x45, total length and identifier high octet first, no fragments, 64 hops, protocol, checksum, and both addresses |
| WireLayout.HeaderDecides | net/ip.c:143-181 | What an intact header makes of a packet: dropped by other hosts, undefined if its total length is less than the header or more than arrived, and otherwise delivered that far |
| WireLayout.OptionsAreSkipped | net/ip.c:143-181 | Options of up to ten words are checked with the header and skipped |
| WireLayout.PacketIsForDestination | net/ip.c:165-168 | A packet is delivered exactly by the host whose address it carries |
| WireLayout.NextHopByBits | net/ip.c:125-129 | A packet goes straight to its destination exactly when that agrees with the own address in every bit the mask sets, and to the gateway otherwise |
| Tampering.ChangedHeaderIsDropped | net/ip.c:150-163 | With any one octet of its header changed a packet is dropped by every host; in the first octet, when the version or a length below five words shows it |
| Tampering.ChangedOctetIsRefused | net/ip.c:157-163 | Whatever is accepted is refused with any one octet changed, the checksum's own included |
| RoundTrips.PacketArrives | net/ip.c:87-181 | A packet from one host to another in reach arrives whole, through IP and a padded frame |
| RoundTrips.PingRoundTrips | net/icmp.c:68-162 | Request, peer handler, reply and own handler return the same identifier, sequence and data |
| RoundTrips.PingEndToEnd | net/icmp.c:68-162 | And do so between two hosts through IP and Ethernet: what the peer answers, sent to the address it names, is the reply the asker hears |
| WireLayout.EchoOctets | net/icmp.c:83-95 | An echo message octet by octet: type, code 0, checksum, identifier and sequence number high octet first, data |
| WireLayout.MessageIsHandled | net/icmp.c:104-162 | Any intact message: a request is answered by its own octets under type 0 with a checksum that is accepted, a reply is handed on with identifier, sequence number and data, and nothing else has an effect |
| Tampering.ChangedEchoIsIgnored | net/icmp.c:112-118 | An echo message with any one octet changed is ignored |
| RoundTrips.EchoRequestCanBeRefused | net/icmp.c:112-118 | An echo request of eight octets that passes the all-ones test is ignored |
| PacketBuffers.EchoRequestBuffer | net/icmp.c:83-95 | The buffer filled in place is the abstract request; data too long for IP gets the checksum of the wrapped sum |
| PacketBuffers.Verify | net/icmp.c:112-118 | Zeroing the checksum word, computing anew and comparing decides acceptance, and an accepted packet is restored |
| PacketBuffers.ReplyBuffer | net/icmp.c:128-135 | The reply is the request with the type changed and the checksum made anew |
| PacketBuffers.HandleIcmpBuffer | net/icmp.c:104-162 | The in-place test refines the abstract handler and restores the packet when it reacts |
| RoundTrips.UdpRoundTrips | net/udp.c:140-217 | A datagram as sent is heard by the socket bound to its port, with the source port and the data |
| RoundTrips.UdpEndToEnd | net/udp.c:140-217 | And between two hosts through IP and Ethernet |
| WireLayout.DatagramOctets | net/udp.c:154-166 | A datagram octet by octet: both ports and the length high octet first, data behind the checksum |
| Tampering.HeardIffSumsUp | net/udp.c:34-78 | Exactly which datagrams are heard, from the octets: those to a bound port whose sum of address words, 17, ports, twice the length and each data octet at its weight makes a multiple of 65535 with the checksum word, that word not being 0xFFFF |
| Tampering.ReplacedDataIsHeardIff | net/udp.c:58-70 | A datagram whose data was replaced by as much other data is heard exactly when the two data sums, octet by octet by position, agree modulo 65535 |
| Tampering.ChangedOctetIsUnheard | net/udp.c:205-210 | One changed data octet is always noticed |
| Tampering.OtherSourceIsHeardIff | net/udp.c:40-46 | Under another source address a datagram is heard exactly when the sums of the two addresses' words agree modulo 65535 |
| Tampering.OtherPortIsHeardIff | net/udp.c:52-58 | With another source port it is heard exactly when the ports are the same or 0 and 65535 |
| PacketBuffers.ComputeUdp | net/udp.c:34-78 | The loops compute the pseudo-header checksum as written, skipping the checksum word, within 32 bits |
| PacketBuffers.UdpLayer.CreateSocket | net/udp.c:93-125 | Port 0 stands for the next dynamic port, which counts up and wraps into its range; fails exactly when the port is taken or no slot is free, and otherwise binds a free slot that datagrams to the port then find |
| PacketBuffers.UdpLayer.Send | net/udp.c:140-180 | The buffer filled in place is the abstract datagram; empty or over-long data is refused |
| PacketBuffers.UdpLayer.Handle | net/udp.c:182-217 | The socket search and the in-place test refine the abstract handler |
| Packets.FindSocket | net/udp.c:195-198 | The first socket in use on the port, or none |
| RoundTrips.FrameRoundTrips | net/ethernet.c:52-134 | A frame as sent is handled at its destination with source, type and data, the data followed by zero padding up to the minimum |
| WireLayout.FrameIsHandled | net/ethernet.c:95-134 | Any frame of 14 to 1514 octets is handled exactly by the host whose address it starts with, or by all if it starts with six 0xFF, and hands on sender, type and everything behind |
| WireLayout.FrameSizes | net/ethernet.c:52-100 | No other size is handled; sending takes 1 to 1500 octets of data and makes 60 octets at least |
| PacketBuffers.SendFrameBuffer | net/ethernet.c:52-93 | The frame filled and padded in place is the abstract frame; empty data and frames over the maximum are refused |
| PacketBuffers.HandleFrameBuffer | net/ethernet.c:95-134 | The address loops accept broadcast and the own address only |
| Dhcp.OptionsRoundTrip | net/dhcp.c:68-109 | For any options with padding between, closed by END: the parser returns the first option with the tag when it fits the buffer and nothing otherwise, and never looks past the area |
| Dhcp.GetSkipsItem | net/dhcp.c:80-106 | One option in front is either the answer or skipped whole |
| Dhcp.CutOffEnds | net/dhcp.c:76-109 | An area cut off in an entry, or behind the last one, yields what it held before that |
| Dhcp.DiscoverOctets | net/dhcp.c:255-272 | The options of the discover message, octet by octet |
| Dhcp.RequestOctets | net/dhcp.c:305-330 | And those of the request: 53, 50, 54 and 55 in this order, with the offered address and the server's |
| Dhcp.AddOption | net/dhcp.c:68-74 | Type, length and data go to the offset, which moves behind them; the octets before and behind stay |
| Dhcp.GetOption | net/dhcp.c:76-109 | The loop ends and computes the parser's answer, whatever octet lies behind the area |
| Dhcp.BuildDiscover | net/dhcp.c:255-272 | The discover options stay within the 32 reserved octets and read back |
| Dhcp.BuildRequest | net/dhcp.c:305-330 | So do those of the request: message type, offered address and server |
| Ext2.Read | fs/ext2.c:162-201 | Returns that slice of the file, clipped to the size asked and the file's end, and touches nothing else; every block a returned byte lies in was there, it is short exactly at the first zero block, and -1 exactly when the first wanted block that cannot be copied is no hole: always in terms of the blocks the lookup finds, and in terms of the blocks the inode means when those of the request are dependable |
| Ext2.ReadBlocks | fs/ext2.c:169-201 | The block loop, for a request already clipped: the same slice, stop and error conditions |
| Ext2.DeliveredAsMeant | fs/ext2.c:162-201 | A read that delivers what the lookup finds delivers the file the inode means if every block it touches is dependable |
| Ext2.LookupIsFlat | fs/ext2.c:63-86 | The lookup of a block agrees with the inode's own list, direct pointers and then the table's words or holes where there is no table, exactly when the block is dependable or the word read instead of a missing table happens to be zero |
| Ext2.LookupIsReliable | fs/ext2.c:63-86 | It agrees whatever block 0 and fresh buffers hold exactly when the block is direct, past single indirection, or the table's pointer is not zero and the table can be read |
| Ext2.MissingTableIsRead | fs/ext2.c:73-74 | A sparse file without a table: the first hole behind the direct blocks reads as the block that the first word of block 0 names |
| Ext2.UnreadTableIsUsed | fs/ext2.c:73-74 | A table that cannot be read: what a fresh buffer held is taken for its words |
| Ext2.ContentsAt | fs/ext2.c:63-76 | The byte read at a position is the one there when the file's blocks are laid end to end |
| Ext2.TableReadsBack | fs/ext2.c:73-76 | The pointers of a table stored low octet first are read back one by one |
| Ext2.NextBlock | fs/ext2.c:190-197 | One pass copies exactly the wanted bytes of its block |
| Ext2.LastBlock | fs/ext2.c:170 | The last block of the loop is that of the last byte wanted |
| Fat32.ReadData | fs/fat32.c:240-262 | The data loop copies the chain's clusters end to end, cut at the size, and touches nothing else; false exactly when a cluster it needs cannot be read |
| Fat32.CutIsStable | fs/fat32.c:244-259 | Cutting at the file's size loses nothing: following the chain further, or to its end, gives the same bytes |
| Fat32.NeededIsCeiling | fs/fat32.c:250-257 | The clusters visited are the size over the cluster size, rounded up |
| Fat32.ClustersAreApart | fs/fat32.c:135-138 | Clusters within the volume's count lie in disjoint sectors between the data start and the volume's end |
| FatEntries.ChainGoesOn | fs/fat32.c:135-150 | A chain stops at a number below 2 or from 0x0FFFFFF8 on; any other cluster of the volume is read at the data start plus its number less two, times the sectors of a cluster, and the table says what follows |
| FatEntries.FileByteAt | fs/fat32.c:244-259 | Byte k of the i-th cluster of a chain is as many whole clusters and k bytes from the start of the file |
| FatChains.EndsIffAcyclic | fs/fat32.c:209-235 | A chain comes to an end, and then within the cluster count, exactly when it repeats no cluster |
| FatDirectory.Readdir | fs/fat32.c:202-237 | On an acyclic chain the index-th live entry before the end marker, counted over the directory as one flat list of slots; nothing past the last |
| FatDirectory.ScanCluster | fs/fat32.c:215-233 | The inner loop over the slots of one cluster |
| FatEntries.FieldsComeBack | fs/fat32.c:48-60 | For every name, attribute octet, cluster and size, the fields read from an entry laid out octet by octet, the cluster's low half at 26-27, its high half at 20-21 and the size at 28-31, each low octet first, are those again |
| FatEntries.EntryIsListed | fs/fat32.c:215-219 | Such an entry is listed exactly when no slot before it starts with 0x00, it starts with neither 0x00 nor 0xE5, and bit 3 of its attributes is clear; what is listed around it does not depend on it, unless it ends the directory |
| FatEntries.EntryIsShownAndOpened | fs/fat32.c:181-229 | The listing shows it with its name and cluster, and opening its name finds its cluster and size, if no slot before it has the name |
| FatEntries.CommonAttributes | fs/fat32.c:218 | Labels (0x08) and parts of long names (0x0F) are passed over, directories (0x10) and archived files (0x20) are not |
| FatDirectory.SlotsOfWalk | fs/fat32.c:209-235 | The slots of a directory are those of its first cluster followed by those of the rest of the chain |
| FatDirectory.ShowName | fs/fat32.c:221-228 | The two copy loops show base, dot and extension without fillers |
| FatDirectory.NameReadsBack | fs/fat32.c:156-168 | A name as listed converts back to its own eleven bytes exactly when these are canonical: no zero byte, no dot in the base, fillers only at the end |
| FatEntries.NameConverts | fs/fat32.c:156-168 | A typed name octet by octet: up to eight octets from before its first dot, up to three from behind it and none of a longer rest, filled with spaces |
| FatDirectory.ListedCanBeOpened | fs/fat32.c:156-199 | An entry listed from the root is the one opened under the name shown exactly when its name is canonical and it is the first slot that carries it |
| FatDirectory.LabelShadowsFile | fs/fat32.c:156-222 | A volume label with the name of a file behind it: the file is listed, and its name opens the label |
| FatDirectory.FirstNamedMeans | fs/fat32.c:170-199 | The slot found is the first with those eleven bytes, and none is found exactly when no slot has them |
| FatDirectory.DottedNameCannotBeOpened | fs/fat32.c:156-228 | An entry with a dot in its base is listed, and the name shown finds at most another one behind it |
| FatDirectory.Search | fs/fat32.c:170-199 | The first slot of the whole chain with the name, the end marker notwithstanding |
| FatDirectory.ReadFile | fs/fat32.c:151-262 | Search and data loop together: size and bytes are those of the entry found; without one nothing is written |

## Left out

- `process_block` and `process_wake` are not part of the repository. A wake-up is modelled as remembered by the process it is for; the window between giving up the spinlock and blocking is not.
- Interrupt-disabled sections of the mutex are single steps, as they are on one CPU. The locked sections of the message queue and the pipe are single steps because the mutex excludes.
- Spinlock: the saved interrupt flags, which are overwritten before the lock is owned, and nested calls: a CPU's own belief about how often it holds the lock is not tracked, only whether it does. Modelled on values, since every step is one instruction.
- HeapAsWritten: in the layout as written every split-off descriptor lies under its own payload; the model keeps descriptors out of reach of what clients write, so what it says of that layout is about payloads.
- MessageQueue: interleavings are of whole sections, which `MessageSections` refines. Messages returned to a caller are recorded, return codes are not.
- Pipe: semaphores are arbitrary scheduling points, since a woken waiter does not take a permit. Return values are not recorded; `pipe_write` returns -1 on a close even after a partial write.
- Out-of-memory branches inside locks: small allocations succeed there.
- `kmalloc_aligned`, which can return an address outside the block it owns: page tables come from a supply of distinct fresh frames, and running out is the supply saying so.
- TLB invalidation, loading of control registers, and `pmm_init`.
- Graphics.Screen.DrawLine: lines on which a distance or the error term overflows its signed 32-bit variable, which C leaves undefined; `LineErrors.ErrorsFit` says exactly which these are.
- Graphics.Screen.FillRectAlpha: the rectangle's far edges are below 2^31, because beyond that the loop bounds overflow their signed variables. Edges below -2^31 overflow in the same way in C; in the model such a rectangle is empty.
- Scheduler: every operation is one step. `scheduler.c` runs them with interrupts enabled, so a timer interrupt can fall into the middle of one; what then happens to the array is not modelled.
- Scheduler.Switch: `process_switch` is the change of the current process only; registers and stacks are not modelled. Processes destroyed while still listed are not modelled.
- ProcessTable: names, entry points and the initial stack frame; other fields than the pid.
- PacketBuffers: the handlers' registered callbacks are the returned reaction.
- RoundTrips.PacketArrives: address resolution is a function from address to hardware address, and the call from the frame handler to the IP handler for type 0x0800 is assumed, as it is not part of the repository.
- PacketBuffers.IpLayer.Handle: a header that announces more data than arrived, which the source passes on with a length past the buffer, is the outcome `Undefined`.
- Dhcp: the client's state machine and the fixed fields of its messages.
- Ext2: inode lookup, directories, and the doubly and triply indirect blocks that the source does not implement; blocks beyond single indirection read as zero, as its final return gives. The lookup's own allocation does not fail; in the source a failure reads as a hole.
- Fat32.ReadData: clusters of any size are read into a buffer that holds them; the source's buffer holds one sector, so for larger clusters the model says what the loop copies and not what the overrun destroys. The same goes for the directory loops.
- Fat32: mounting; a cluster number beyond the table cannot occur because the table covers the clusters counted. The drive answers a cluster's sectors together.
- FatDirectory.Readdir: the chain is acyclic, since the loop has no other bound; `FatChains.EndsIffAcyclic` says what that means.
- FatDirectory.Search: the same.
- Semaphores, TCP, ARP and DNS caches, capability and file-descriptor tables, input rings, the VFS and syscall layers, device drivers and the desktop: thin wrappers, hardware effects, or easier versions of the structures above; TCP has no complete state machine to state a claim about.
