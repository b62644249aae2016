# Verification of the UDMA queues, the timing wheel, the message ring and the allocators

This project models the stateful cores of the repository in Dafny and proves what they promise.

* **Send queue** (`Words`, `RingBytes`, `SqeLayout`, `SendRing`, `SqeFill`, `SendQueue`, `SendQueueRun`).
  Work requests of one to four 64-byte blocks are written, byte by byte and with wrapping, into a
  power-of-two ring with free-running 32-bit counters. The ghost `log` is the list of unretired
  requests. The invariant says that the bytes of each of them are in its blocks. `SendQueueRun` runs
  any sequence of list posts and completions in step with a plain queue of requests, and flushes.
* **Completion queue** (`CompletionRing`, `CompletionQueue`). The device is a concurrent party that
  may write CQEs between any two steps of the host, also while a deleted jetty is cleaned up.
* **Receive queue** (`BitWords`, `ReceiveRing`, `ReceiveQueue`, `ReceivePath`). Slots come from a bitmap,
  go to the device through an index ring and come back in any order. `ReceivePath` joins a receive queue,
  shared by any number of jetties, with the completion queue that reports its receives.
* **Timing wheel** (`TimerSpec`, `WheelModel`, `TimingWheel`). `TimerSpec` is a plain map from timers
  to deadlines and the runs it accepts. The wheel carries its run as a ghost trace, and every method
  keeps it accepted. Whatever other threads do while a callback runs is part of the model.
* **Message ring** (`MsgRing`, `MsgChannel`). `MsgRing` interleaves single steps of producer and
  consumer, down to one copied byte. `MsgChannel` has the calls themselves
  and ties each to the steps it stands for.
* **Allocators** (`PoolModel`, `Pool`, `BitmapScan`, `IdGenerator`, `Slab`, `QueueSizing`,
  `HugePages`, `DoorbellPage`, `DoorbellPages`).

`x & (n - 1)` for a power of two n is written `x % n`, and `x >> k` is `x / 2^k`. 32-bit wrap-around is
written out. A 64-bit bitmap word is the sequence of its bits. Free-running counters have a ghost
unbounded twin. Each region that the source runs under a lock is one method.

## Findings

Where a property does not hold of the code, the code is kept and the exact condition is proved:

* A flushed read or atomic that carries the inline flag is reported with length 0
  (`SqeLayout.FlushedLengthExact`, `SqeLayout.FlushedLengthFails`).
* The running inline-length check can wrap (`SqeLayout.InlineCheckExact`, `SqeLayout.InlineCheckWraps`).
* Cleaning a completion queue removes nothing when `ci + cnt` wraps 32 bits
  (`CompletionQueue.CompletionQueue.Clean`, `CompletionQueue.CleanMissesOnWrap`).
* A queue whose rounded-up size is 2^32 bytes or more gets a buffer of one page (`QueueSizing.QueueBlocks`,
  `QueueSizing.SizeWraps`).
* A batch poll of the message ring leaves the state of its single polls exactly when all its messages fit
  the buffer or the oldest does not (`MsgRing.BatchPollIsSingles`, `MsgRing.BatchPollDiffers`).
* The slab's 32-bit byte offsets wrap for slabs of more than 2^32 bytes (`Slab.OffsetsExact`,
  `Slab.OffsetWraps`).
* A fired one-shot timer keeps its magic number in the pool, so its old owner can restart it; handing it out
  then breaks the slot lists (`WheelModel.CreateKeepsIff`, `TimingWheel.RestartedInPool`).
* A periodic timer that its own callback starts or restarts is linked a second time by its next round
  (`WheelModel.ScheduleKeepsIff`, `TimingWheel.RestartedInCallback`).
* The backward loop of a clean subtracts signed indices, which is right if and only if the range does not
  cross 2^31 (`CompletionQueue.SignedSafeExact`).
* `find_next_bit` may answer with an index beyond the size (`BitmapScan.NextBitExact`,
  `BitmapScan.NextBitOvershoots`); the identifier generator tests for it.
* 16-bit indices identify send blocks only on rings of at most 2^16 blocks
  (`SendQueue.CompletionIndexNeedsSmallRing`), and a receive doorbell shows a completely full, unfetched
  queue of 2^16 slots as empty (`ReceiveQueue.DoorbellExact`).

## Assumptions

* Device limits of a send queue: at most 13 elements and 208 inline bytes. Inline lengths of a posted
  request sum to less than 2^32. The inline flag is bit 0x40 of the flag word.
* A send completion names an outstanding block; for a flush, the last block of its request. A receive
  completion names a slot in flight, and the device fetches index entries in order.
* The completion queue has fewer than 2^22 entries, the width of its doorbell. Cleaning requires that
  the signed 32-bit comparisons do not overflow (`SignedSafe`).
* The timer backlog stays below 2^27, and nobody starts or restarts the timer whose callback is running.
  A timer in the pool is not started or restarted by its old owner, so the pool hands out only timers that
  are neither linked nor running.
* Batch posts to the message ring stay within the slot size, because the source does not check it there.
  Its depth is at most 2^31. Memory barriers order the copies and the index updates of the ring.
* A pool has at least one element per block. The last object of a slab starts below byte 2^32. Queue
  sizes ask for at least one entry, and block and page sizes are powers of two.
* While a completion queue is cleaned, the device reports receives it already holds, and each at most once.
  A local identifier in a CQE names one receive queue (`ReceivePath`).
* No other thread allocates between the unlocked read of the identifier generator's cursor and its lock.
* Elements given back to the pool, the slab, the identifier generator and the doorbell page were handed
  out by it.
* Allocation, mapping, and the time a callback takes are free choices of the environment.

## Model

| member | source | states |
|---|---|---|
| `SendQueueRun.RunAndFlush` | src/urma/hw/udma/udma_u_jfs.c:771-1040 | For every run of list posts and completions from creation or reset, of any length: each completion reports the context of the request it names, and a full flush returns one record per request still outstanding in a plain queue, in posting order, with its context, length, peer and immediate data or token; the ring ends empty |
| `SendQueueRun.RunOps` | src/urma/hw/udma/udma_u_jfs.c:771-843 | The ring, after any run, holds exactly the requests that a plain bounded queue holds, and its consumer stands at the same block |
| `SendQueueRun.AcceptPrefix` | src/urma/hw/udma/udma_u_jfs.c:808-843 | A list post takes exactly the longest prefix of acceptable requests that fit |
| `SendQueueRun.EndOf` | src/urma/hw/udma/udma_u_jfc.c:377-379 | The last block of the n-th outstanding request is found by summing block counts, and the next request starts right behind it |
| `SendQueue.SendQueue.PostList` | src/urma/hw/udma/udma_u_jfs.c:808-843 | Commits exactly the requests before the refused one, which does not fit or is not acceptable; no byte of an unretired block changes; the doorbell shows the new producer index, or the only request carries it in its direct WQE |
| `SendQueue.SendQueue.PostOne` | src/urma/hw/udma/udma_u_jfs.c:771-806 | Accepts if and only if the request is acceptable and its blocks are free; the log grows by it, or nothing changes; blocks in use keep their bytes |
| `SendQueue.SendQueue.SetSqe` | src/urma/hw/udma/udma_u_jfs.c:728-769 | The stored bytes are the content owed for the request with the owner bit of its lap; only free blocks are written, also on refusal |
| `SendQueue.SendQueue.Overflow` | src/urma/hw/udma/udma_u_jfs.c:666-726 | The quick test and the exact count together refuse exactly when the request does not fit (or is too long inline) on a nearly full ring, also after the counters wrapped |
| `SendQueue.SendQueue.StoreWrapped` | src/urma/hw/udma/udma_u_jfs.c:333-345 | A copy that runs over the end of the buffer lands in the window as if the ring were linear |
| `SendQueue.SendQueue.FillInline` | src/urma/hw/udma/udma_u_jfs.c:375-388 | Wherever the WQE starts and wherever an element straddles the end, the window holds the concatenation of the buffers; refused exactly when the sum exceeds the limit |
| `SendQueue.SendQueue.FillSges` | src/urma/hw/udma/udma_u_jfs.c:390-399 | Exactly the non-empty elements are stored, in order, behind the control part |
| `SendQueue.SendQueue.FillSend` | src/urma/hw/udma/udma_u_jfs.c:359-411 | Body, header fields and block count are those owed for the send; refusal exactly when unacceptable |
| `SendQueue.SendQueue.FillWrite` | src/urma/hw/udma/udma_u_jfs.c:413-472 | The same for writes, before their extra control fields |
| `SendQueue.SendQueue.FillWriteExtra` | src/urma/hw/udma/udma_u_jfs.c:594-664 | Immediate data or notify fields are added without disturbing the payload |
| `SendQueue.SendQueue.FillRead` | src/urma/hw/udma/udma_u_jfs.c:474-513 | The same for reads, whose inline flag is ignored |
| `SendQueue.SendQueue.FillAtomic` | src/urma/hw/udma/udma_u_jfs.c:515-592 | Compare-and-swap and fetch-and-add: accepted exactly for the lengths 4, 8 (and 16 for compare-and-swap), operands stored behind the element |
| `SendQueue.SendQueue.SetContexts` | src/urma/hw/udma/udma_u_jfs.c:801-802 | Every block of the new request carries its context; the contexts of all outstanding blocks survive |
| `SendQueue.SendQueue.WriteDirect` | src/urma/hw/udma/udma_u_jfs.c:269-278 | Stamping the block index into the only WQE keeps the queue invariant |
| `SendQueue.SendQueue.Complete` | src/urma/hw/udma/udma_u_jfc.c:377-379 | A completion naming outstanding block k moves the consumer to k + 1, returns the context of the request that owns k and retires everything before it; the consumer never passes the producer |
| `SendQueue.SendQueue.FlushDone` | src/urma/hw/udma/udma_u_jfc.c:373-375 | The flush-done completion only raises the flag |
| `SendQueue.CompletionIndex` | src/urma/hw/udma/udma_u_jfc.c:377 | The 16-bit block index names the right block however often the counters wrapped, for rings up to 2^16 blocks |
| `SendQueue.CompletionIndexNeedsSmallRing` | src/urma/hw/udma/udma_u_jfc.c:377 | It does so for every block if and only if the ring has at most 2^16 blocks |
| `SendQueue.SendQueue.CopyFromSq` | src/urma/hw/udma/udma_u_jfs.c:908-924 | The temporary copy is four blocks from the consumer in ring order, also over the end of the buffer |
| `SendQueue.FillCr` | src/urma/hw/udma/udma_u_jfs.c:962-997 | The element loop computes the decoded record |
| `SendQueue.SendQueue.FlushOne` | src/urma/hw/udma/udma_u_jfs.c:999-1015 | The oldest request gives its owed record and the consumer lands on the next request |
| `SendQueue.SendQueue.Flush` | src/urma/hw/udma/udma_u_jfs.c:1017-1040 | One record per unretired request in order, until the ring is empty (then ci equals pi) or the array is full; nothing without the flush flag |
| `SendQueue.SendQueue.Reset` | src/urma/hw/udma/udma_u_jfs.c:863-869 | An empty queue again |
| `SqeLayout.EncodeRoundTrip` | src/urma/hw/udma/udma_u_jfs.h:17-50 | The header fields are read back from their bytes |
| `SqeLayout.CalWqebbNumIsCeiling` | src/urma/hw/udma/udma_u_jfs.h:135-140 | The 32-bit formula equals the rounded-up byte count, also for zero elements, where it wraps through 2^32 |
| `SqeLayout.InlineWqebbNumIsCeiling` | src/urma/hw/udma/udma_u_jfs.c:387-388 | The same for inline payloads |
| `SqeLayout.StoredBlocksAgree` | src/urma/hw/udma/udma_u_jfs.c:42-70 | The count derived from the stored header equals the blocks the request took |
| `SqeLayout.HeaderBlocksAgree` | src/urma/hw/udma/udma_u_jfs.c:42-70 | The count as a function of header fields equals the count computed while filling |
| `SqeLayout.AcceptableFits` | src/urma/hw/udma/udma_u_jfs.c:280-331 | An acceptable request takes one to four blocks and its header fits the bit-fields |
| `SqeLayout.FlushRoundTrip` | src/urma/hw/udma/udma_u_jfs.c:926-997 | Decoding the stored bytes of a request gives the record owed for it |
| `SqeLayout.FlushedLengthExact` | src/urma/hw/udma/udma_u_jfs.c:978-997 | The flushed length equals the length of the request if and only if it is not a read or atomic of non-zero length with the inline flag set |
| `SqeLayout.FlushedLengthFails` | src/urma/hw/udma/udma_u_jfs.c:978-997 | A request the queue accepts: a 5-byte read with the inline flag is reported with length 0 |
| `SqeLayout.InlineCheckExact` | src/urma/hw/udma/udma_u_jfs.c:375-383 | The running 32-bit check decides "sum within the limit" if and only if the sum is below 2^32 or some wrapped running total exceeds the limit |
| `SqeLayout.InlineCheckSafe` | src/urma/hw/udma/udma_u_jfs.c:375-383 | When every length is below 2^32 minus the limit the check is exact |
| `SqeLayout.InlineCheckWraps` | src/urma/hw/udma/udma_u_jfs.c:375-383 | A list whose wrapped total passes a limit its sum exceeds |
| `SqeFill.CountBlocks` | src/urma/hw/udma/udma_u_jfs.c:666-726 | The slow path counts exactly the blocks the fill functions use, at most four, and refuses exactly too long inline payloads |
| `SqeFill.OverflowExact` | src/urma/hw/udma/udma_u_jfs.h:123-127 | The test on wrapped 32-bit counters compares the true block numbers |
| `SqeFill.SqeFits` | src/urma/hw/udma/udma_u_jfs.h:123-127 | Whatever passes the element checks needs at most four blocks, so the quick test is sound |
| `RingBytes.WindowRead` | src/urma/hw/udma/udma_u_common.h:351-356 | A window written through wrapped addresses reads back as written, and nothing outside it changed |
| `RingBytes.WindowSparesBlock` | src/urma/hw/udma/udma_u_jfs.c:728-769 | A window of free blocks shares no byte with a block in use |
| `SendRing.InvAppend` | src/urma/hw/udma/udma_u_jfs.c:771-806 | Appending a stored request keeps every older request stored |
| `SendRing.InvRetire` | src/urma/hw/udma/udma_u_jfc.c:377-379 | Retiring any prefix of the blocks, also inside a request, keeps the rest stored |
| `CompletionQueue.CompletionQueue.Poll` | src/urma/hw/udma/udma_u_jfc.c:466-492 | Whatever the device writes meanwhile, CQEs come out in production order, none lost or repeated; a CQE that does not parse is consumed and ends the batch |
| `CompletionQueue.CompletionQueue.PollOne` | src/urma/hw/udma/udma_u_jfc.c:446-464 | Returns a CQE exactly when one is unread, namely the oldest |
| `CompletionRing.NextExact` | src/urma/hw/udma/udma_u_jfc.c:415-427 | At every position of the coming lap, across laps and the 32-bit wrap, the owner bit reads as fresh exactly for unread CQEs |
| `CompletionRing.ReadableExact` | src/urma/hw/udma/udma_u_jfc.c:415-427 | The owner test on the 32-bit index equals the test on the unbounded position |
| `CompletionRing.ProduceOk` | src/urma/hw/udma/udma_u_jfc.c:415-427 | A CQE written by the device with the bit of its lap extends the queue |
| `CompletionRing.ConsumeOk` | src/urma/hw/udma/udma_u_jfc.c:454-455 | A consumed slot reads as not yet produced on the next lap without being written |
| `CompletionQueue.CompletionQueue.UpdateDoorbell` | src/urma/hw/udma/udma_u_jfc.c:483-486 | The 22-bit doorbell tells the device the exact consumer position |
| `CompletionQueue.DoorbellExact` | src/urma/hw/udma/udma_u_jfc.c:483-486 | The consumer position is recovered from its low 22 bits |
| `CompletionQueue.CompletionQueue.Clean` | src/urma/hw/udma/udma_u_jfc.c:641-697 | Cleaning in place is a stable filter with the right owner bits at the new positions, with the device writing meanwhile; the receive slots of dropped CQEs are reported; unless the device writes, no CQE of the jetty is left if and only if ci + cnt fits 32 bits or there was none |
| `CompletionQueue.SignedSafeExact` | src/urma/hw/udma/udma_u_jfc.c:669 | The int difference of the backward loop is the distance for all its positions if and only if SignedSafe holds |
| `CompletionQueue.CompletionQueue.ScanEnd` | src/urma/hw/udma/udma_u_jfc.c:664-667 | The scan ends behind the last unread CQE, or at once when its 32-bit bound wraps |
| `CompletionQueue.CompletionQueue.CleanStep` | src/urma/hw/udma/udma_u_jfc.c:669-687 | One turn drops or moves one CQE and keeps the pass invariant |
| `CompletionQueue.ScanBound` | src/urma/hw/udma/udma_u_jfc.c:664-667 | The bound test never fires while ci + cnt fits 32 bits and fires at the first CQE when it wraps |
| `CompletionQueue.CleanMissesOnWrap` | src/urma/hw/udma/udma_u_jfc.c:664-667 | A state in which nothing is removed: an unread CQE of the jetty at position 2^32 - 1 of a ring of 64 is still first after the clean |
| `CompletionQueue.ContentOk` | src/urma/hw/udma/udma_u_jfc.c:415-427 | Every position and every queue of unread CQEs is a state of the ring |
| `CompletionRing.CleaningMove` | src/urma/hw/udma/udma_u_jfc.c:680-686 | Moving a kept CQE over a vacated slot with the owner bit of its destination keeps the pass invariant |
| `CompletionRing.CleaningDrop` | src/urma/hw/udma/udma_u_jfc.c:673-679 | Dropping a CQE keeps it |
| `CompletionRing.CleaningProduce` | src/urma/hw/udma/udma_u_jfc.c:669-687 | So does a CQE that the device writes during the pass |
| `CompletionRing.CleaningEnd` | src/urma/hw/udma/udma_u_jfc.c:689-693 | At the end the ring holds the filtered CQEs from the new consumer position, and the vacated slots read as not yet produced |
| `ReceiveQueue.ReceiveQueue.Outstanding` | src/urma/hw/udma/udma_u_jfr.c:434-465 | In every reachable state the free indices plus pi - ci are all the slots, so an index is free whenever the overflow check passes |
| `ReceiveRing.Conservation` | src/urma/hw/udma/udma_u_jfr.c:434-465 | The same over values, for any order of completions |
| `ReceiveQueue.ReceiveQueue.PostOne` | src/urma/hw/udma/udma_u_jfr.c:434-465 | EINVAL exactly for too many elements, ENOMEM exactly when full; otherwise a slot that was not outstanding holds the request, its context and its place at the end of the index ring; the index allocation cannot fail |
| `ReceiveQueue.ReceiveQueue.PostList` | src/urma/hw/udma/udma_u_jfr.c:467-494 | Exactly the requests before the bad one are posted, in distinct new slots, in order, while the device fetches; the doorbell shows them all |
| `ReceiveQueue.ReceiveQueue.FillSlot` | src/urma/hw/udma/udma_u_jfr.c:413-432 | The slot holds the non-empty elements followed by empty ones; no other slot changes; the long-sleep flag follows the 32-bit total |
| `ReceiveQueue.ReceiveQueue.PublishSlot` | src/urma/hw/udma/udma_u_jfr.c:400-411 | The new index ring entry overwrites none that the device has still to fetch |
| `ReceiveRing.PublishedPost` | src/urma/hw/udma/udma_u_jfr.c:400-411 | Because the ring position of a new entry differs from all unfetched ones |
| `ReceiveQueue.ReceiveQueue.Fetch` | src/urma/hw/udma/udma_u_jfr.h:20-23 | The device fetches the posted slots in order; it sees an entry exactly when the 16-bit doorbell difference is not 0 |
| `ReceiveQueue.DoorbellExact` | src/urma/hw/udma/udma_u_jfr.c:487 | The 16-bit producer index gives the number of waiting entries if and only if it is below 2^16 |
| `ReceiveQueue.ReceiveQueue.Complete` | src/urma/hw/udma/udma_u_jfc.c:317-333 | A completion of any slot in flight returns the context posted with it, scatters an inline payload into the posted buffers and frees exactly that slot |
| `ReceiveQueue.ReceiveQueue.ScatterInline` | src/urma/hw/udma/udma_u_jfc.c:203-233 | The payload goes to the posted buffers in order; the reported length is the smaller of payload and capacity; an error exactly when it does not fit |
| `ReceiveRing.ScatterStored` | src/urma/hw/udma/udma_u_jfr.c:413-432 | Skipping empty elements and padding changes neither the destination nor the capacity |
| `ReceiveRing.ScatterRoundTrip` | src/urma/hw/udma/udma_u_jfc.c:203-233 | What is scattered over separate buffers is read back unchanged |
| `ReceiveRing.ScatterOutside` | src/urma/hw/udma/udma_u_jfc.c:203-233 | No byte outside the posted buffers is written |
| `ReceiveQueue.ReceiveQueue.ReleaseAll` | src/urma/hw/udma/udma_u_jfc.c:673-677 | The receives of cleaned CQEs free their slots |
| `ReceiveQueue.ReceiveQueue.Reset` | src/urma/hw/udma/udma_u_jfr.c:343-350 | All slots are free again |
| `ReceivePath.Run` | src/urma/hw/udma/udma_u_jfc.c:272-353 | For every sequence of posting, fetching, reporting, polling with its doorbell, cleaning any jetty, and receives of other queues: every slot in flight has one jetty as its owner and is either with the device or reported by exactly one unread CQE of that jetty |
| `ReceivePath.RunFromNew` | src/urma/hw/udma/udma_u_jfc.c:272-353 | The same for every run that starts with new queues |
| `ReceivePath.Poll` | src/urma/hw/udma/udma_u_jfc.c:466-492 | A batch poll while the device fetches and reports: CQEs in order, every receive of this queue completed, credit given back exactly when something was polled |
| `ReceivePath.EverySlotOnce` | src/urma/hw/udma/udma_u_jfr.c:434-465 | Free slots, slots waiting in the index ring, slots with the device and slots reported but not polled add up to all slots |
| `ReceivePath.CleanAndRelease` | src/urma/hw/udma/udma_u_jfc.c:669-687 | Cleaning one of the jetties that share the queue frees distinct slots, all taken by that jetty, and no others; every receive of it reported before is among them unless ci + cnt wraps |
| `ReceivePath.PollReceive` | src/urma/hw/udma/udma_u_jfc.c:317-353 | A polled receive names a slot its jetty has taken, returns the context posted with it, scatters inline data with the length error, and frees the slot |
| `ReceivePath.Post` | src/urma/hw/udma/udma_u_jfr.c:467-494 | Posting keeps the accounts while the device fetches |
| `ReceivePath.DeviceReports` | src/urma/hw/udma/udma_u_jfc.c:415-427 | So does a device that reports each receive it holds at most once |
| `ReceivePath.DeviceFetches` | src/urma/hw/udma/udma_u_jfr.c:434-465 | So does the device fetching slots for any of the jetties |
| `ReceivePath.CleanReports` | src/urma/hw/udma/udma_u_jfc.c:669-687 | The dropped CQEs name each of the jetty's reported receives once, and the kept ones exactly the reports of the others |
| `BitWords.UseIdx` | src/urma/hw/udma/udma_u_db.c:41-66 | Takes the least free index below the bound and fails exactly when there is none, leaving the words alone |
| `BitWords.FreeIdx` | src/urma/hw/udma/udma_u_db.c:68-80 | Adds the index to the free ones; one beyond the words is ignored |
| `BitWords.InitBitmap` | src/urma/hw/udma/udma_u_db.c:19-23 | Every index is free |
| `TimerSpec.TickAccounting` | src/urpc/util/urpc_timer.c:429-473 | The clock plus its backlog count the tick events exactly |
| `TimerSpec.FiresOnTime` | src/urpc/util/urpc_timer.c:358-413 | Every callback was armed and runs exactly at the deadline of its last arming |
| `TimerSpec.NeverPassed` | src/urpc/util/urpc_timer.c:429-473 | The clock never moves past a deadline that is still armed |
| `TimerSpec.FiresAfterDelay` | src/urpc/util/urpc_timer.c:650-692 | A timer started with t ticks and left alone fires only after at least t + 1 further tick events |
| `TimerSpec.PeriodicSpacing` | src/urpc/util/urpc_timer.c:394-399 | In every accepted run any two firings of a timer started once with t ticks are at least t tick events apart, whatever restarts and cancellations lie between |
| `TimerSpec.OneShotFiresOnce` | src/urpc/util/urpc_timer.c:394-396 | A one-shot timer fires a second time only after a restart |
| `TimerSpec.DeadlineIs` | src/urpc/util/urpc_timer.c:650-717 | A start sets the deadline t + 1 beyond all tick events so far, a restart or next round t |
| `TimingWheel.TimingWheel.FiringsApart` | src/urpc/util/urpc_timer.c:358-413 | The spacing and the one-shot rule for the run of every wheel |
| `TimingWheel.TimingWheel.Process` | src/urpc/util/urpc_timer.c:455-473 | One tick event: the run stays one the timer specification accepts, ticks plus backlog grow by exactly one, at most 1000 callbacks run, either a callback runs or the whole backlog is paid off, and the call ends |
| `TimingWheel.TimingWheel.ProcessOneSlot` | src/urpc/util/urpc_timer.c:358-413 | Runs due timers only, within its budget, and at least one unless the slot is empty; a positive result means the slot is empty |
| `TimingWheel.TimingWheel.RunFirst` | src/urpc/util/urpc_timer.c:366-411 | One callback; if the version did not change, the remembered successor is still the next entry |
| `TimingWheel.TimingWheel.FireFirst` | src/urpc/util/urpc_timer.c:366-384 | The first entry of the current slot is due at exactly this tick, so the branch that schedules an early one again is never taken |
| `TimingWheel.TimingWheel.Callback` | src/urpc/util/urpc_timer.c:385-393 | Any calls of the interface by any thread while a callback runs keep the invariant and leave the running timer alone |
| `TimingWheel.TimingWheel.FinishRun` | src/urpc/util/urpc_timer.c:394-403 | A periodic timer is armed one period after all tick events so far and never into the slot being walked; a one-shot timer leaves the wheel and goes to the pool once |
| `TimingWheel.TimingWheel.Rearrange` | src/urpc/util/urpc_timer.c:415-427 | Empties the level-1 slot under the cursor without pushing into it; no deadline is lost |
| `TimingWheel.TimingWheel.StepForward` | src/urpc/util/urpc_timer.c:429-453 | The cursors stay the base-16384 digits of the clock; no due timer is left behind |
| `TimingWheel.TimingWheel.Schedule` | src/urpc/util/urpc_timer.c:319-350 | The level search picks the slot of the placement function |
| `TimingWheel.TimingWheel.Start` | src/urpc/util/urpc_timer.c:650-692 | Refuses exactly bad arguments; otherwise arms the timer at t + 1 beyond all tick events so far and touches no other timer |
| `TimingWheel.TimingWheel.Restart` | src/urpc/util/urpc_timer.c:694-717 | The same with the stored period |
| `TimingWheel.TimingWheel.Destroy` | src/urpc/util/urpc_timer.c:735-753 | A running timer only loses its next round; any other leaves the wheel and is in the pool |
| `TimingWheel.TimingWheel.Create` | src/urpc/util/urpc_timer.c:632-648 | The first timer of the pool becomes an unarmed one; fails exactly on an empty pool |
| `TimingWheel.TimingWheel.PutBack` | src/urpc/util/urpc_timer.c:234-252 | A timer goes to the front of the pool unless it is in it already |
| `WheelModel.CreateKeepsIff` | src/urpc/util/urpc_timer.c:640-645 | Handing out a timer keeps the slot lists in order if and only if it is in none of them |
| `WheelModel.ScheduleKeepsIff` | src/urpc/util/urpc_timer.c:397-400 | Scheduling a timer keeps the slot lists in order if and only if it is in none of them |
| `TimingWheel.RestartedInPool` | src/urpc/util/urpc_timer.c:694-717 | A run from a new wheel to a pooled timer that is linked: a one-shot timer fires and its old owner restarts it |
| `TimingWheel.RestartedInCallback` | src/urpc/util/urpc_timer.c:385-400 | A run to a periodic timer that restarts itself in its callback and would be linked twice |
| `WheelModel.ScheduleFresh` | src/urpc/util/urpc_timer.c:319-350 | A new timer goes to a slot that is reached no later than its deadline, never the one under the level-1 cursor |
| `WheelModel.ScheduleMoved` | src/urpc/util/urpc_timer.c:415-427 | A rearranged timer is well placed again after at most two moves and never returns to the slot being emptied |
| `WheelModel.FeedsUnderIff` | src/urpc/util/urpc_timer.c:319-350 | A timer lands under the level-1 cursor if and only if its distance is a whole number of rounds |
| `WheelModel.DueIff` | src/urpc/util/urpc_timer.c:358-384 | A timer is due exactly when it is in the level-0 slot under the cursor |
| `WheelModel.TickKeeps` | src/urpc/util/urpc_timer.c:429-453 | A tick leaves every timer that is not due well placed |
| `WheelModel.OkMove` | src/urpc/util/urpc_timer.c:415-427 | Moving one timer keeps lists, placements and deadlines |
| `WheelModel.OkTick` | src/urpc/util/urpc_timer.c:429-453 | With an empty current slot every armed deadline is later than now |
| `MsgRing.PolledIsPrefix` | src/urpc/umq/msg_ring.c:148-262 | For every interleaving of the single steps of both sides the polled messages are a prefix, byte for byte, of the posted ones, and at most depth - 1 are in between |
| `MsgRing.InvNext` | src/urpc/umq/msg_ring.c:148-262 | Every step of either side keeps the ring invariant |
| `MsgRing.NoOverwrite` | src/urpc/umq/msg_ring.c:148-202 | The producer never writes a slot that is posted and not yet consumed |
| `MsgRing.BatchIsSingles` | src/urpc/umq/msg_ring.c:148-202 | A batch post leaves the ring exactly as the same messages posted one by one |
| `MsgRing.PollDelivers` | src/urpc/umq/msg_ring.c:204-262 | A poll with a buffer of slot size delivers everything posted, up to its maximum |
| `MsgRing.PollAlone` | src/urpc/umq/msg_ring.c:204-262 | Any poll delivers all the messages it asks for or none, the latter exactly when one of them exceeds the buffer |
| `MsgRing.BatchPollIsSingles` | src/urpc/umq/msg_ring.c:204-262 | A batch poll ends in the state of that many single polls if and only if every message it asks for fits the buffer or the oldest does not; otherwise the singles deliver the messages before the first that is too long |
| `MsgRing.BatchPollDiffers` | src/urpc/umq/msg_ring.c:248-252 | Two messages, the second too long: the batch delivers nothing, the singles the first |
| `MsgRing.FailedPoll` | src/urpc/umq/msg_ring.c:248-252 | A poll into too small a buffer consumes nothing, also in the middle of a batch |
| `MsgRing.RoomExact` | src/urpc/umq/msg_ring.c:181-182 | The free count computed from the stored indices is the true one |
| `MsgRing.ReadyExact` | src/urpc/umq/msg_ring.c:234-240 | So is the unread count, and equal indices mean empty |
| `MsgRing.FullExact` | src/urpc/umq/msg_ring.c:158-161 | The full test of a single post agrees with the free count of a batch |
| `MsgChannel.MsgChannel.PostTx` | src/urpc/umq/msg_ring.c:148-175 | Too big, full or appended, each exactly in its case; the state is the one its steps lead to |
| `MsgChannel.MsgChannel.PostTxBatch` | src/urpc/umq/msg_ring.c:177-202 | All messages are appended, or none, the latter exactly when they do not all fit; the state is the one its steps lead to |
| `MsgChannel.MsgChannel.PollTx` | src/urpc/umq/msg_ring.c:204-228 | Returns the oldest message if there is one and it fits; the state is the one its steps lead to |
| `MsgChannel.MsgChannel.PollTxBatch` | src/urpc/umq/msg_ring.c:230-262 | Returns the oldest messages up to the maximum; fails, consuming nothing, exactly when one of them is too long; the state is the one its steps lead to |
| `Pool.Pool.Get` | src/urpc/util/urpc_pool.c:175-216 | The element was in nobody's hands and is now in the caller's; nothing else changes hands; last put, first out in a thread; a block is carved only when cache and global list are empty, and never beyond the limit; fails exactly when needed memory is not granted or the limit is reached |
| `Pool.Pool.Put` | src/urpc/util/urpc_pool.c:218-253 | The element leaves the caller's hands for the top of the thread's cache, or is lost exactly when needed memory is not granted; nothing else changes hands |
| `Pool.Pool.ThreadExit` | src/urpc/util/urpc_pool.c:39-58 | The cache becomes a global container; no element moves |
| `Pool.Pool.LocalInit` | src/urpc/util/urpc_pool.c:155-173 | A new empty cache, or failure without effect |
| `Pool.Pool.Refill` | src/urpc/util/urpc_pool.c:187-193 | A filled container's elements move to the cache and the container becomes spare; nothing changes hands |
| `Pool.Pool.Carve` | src/urpc/util/urpc_pool.c:194-213 | The new block's elements are all in the cache and nowhere else |
| `Pool.Pool.Spill` | src/urpc/util/urpc_pool.c:233-250 | A full cache moves to a spare or new container on the global list |
| `PoolModel.OwnedMove` | src/urpc/util/urpc_pool.c:187-193 | Copying a container and giving up the source keeps every element in exactly one place |
| `PoolModel.InvExit` | src/urpc/util/urpc_pool.c:39-58 | A thread exit keeps every container in exactly one role |
| `BitmapScan.Scan` | src/urpc/util/urpc_bitmap.c:26-55 | Equals a linear scan of the bits |
| `BitmapScan.FindNextBit` | src/urpc/util/urpc_bitmap.c:57-95 | Equals a linear scan over whole words |
| `BitmapScan.NextBitInRange` | src/urpc/util/urpc_bitmap.c:57-95 | A result below the size is that of the linear scan, and there is one exactly when the scan finds one |
| `BitmapScan.NextBitExact` | src/urpc/util/urpc_bitmap.c:57-95 | The result equals the linear scan if and only if there is a hit up to the size or none in the unused bits of the last word |
| `BitmapScan.NextBitOvershoots` | src/urpc/util/urpc_bitmap.c:57-95 | A bitmap on which the result lies beyond the size |
| `IdGenerator.IdGenerator.AllocAutoInc` | src/urpc/util/urpc_id_generator.c:104-131 | Fails if and only if the minimum has its top bit set or every identifier from minimum mod total on is taken; otherwise takes the first free one from the last on, else from the minimum |
| `IdGenerator.IdGenerator.Alloc` | src/urpc/util/urpc_id_generator.c:81-102 | The same failure condition; takes the least free identifier |
| `IdGenerator.IdGenerator.Free` | src/urpc/util/urpc_id_generator.c:133-140 | Only that identifier becomes free |
| `Slab.Slab.constructor` | src/urpc/util/urpc_slab.c:16-32 | The chain lists all objects in order |
| `Slab.Slab.Alloc` | src/urpc/util/urpc_slab.c:39-69 | Returns an unused object at its byte offset and fails only when there is none; never leaves the object array, whatever the memory holds |
| `Slab.OffsetsExact` | src/urpc/util/urpc_slab.c:57 | The 32-bit byte offsets of all objects are right if and only if that of the last one is below 2^32 |
| `Slab.OffsetWraps` | src/urpc/util/urpc_slab.c:57 | 65537 objects of 65536 bytes: the last gets the offset of the first |
| `Slab.Slab.Free` | src/urpc/util/urpc_slab.c:71-77 | The object becomes the first of the chain |
| `Slab.Slab.FirstUsed` | src/urpc/util/urpc_slab.c:80-101 | The least used object, none exactly when all are free; ends also on a corrupt chain |
| `Slab.ChainUnique` | src/urpc/util/urpc_slab.c:80-101 | Following the links determines the chain |
| `QueueSizing.QueueBlocks` | src/urma/hw/udma/udma_u_buf.c:17-25 | The block count is always a power of two of at least one page; it covers the requested entries if and only if their rounded-up size is below 2^32 bytes, and is then no larger than needed |
| `QueueSizing.SizeWraps` | src/urma/hw/udma/udma_u_buf.c:19-24 | 2^26 entries of 64 bytes: the 32-bit product is 0 and the buffer one page of 64 blocks |
| `QueueSizing.RoundupIsLeast` | src/urma/hw/udma/udma_u_common.h:279-282 | The least power of two that is not smaller |
| `QueueSizing.AlignPower2` | src/urma/hw/udma/udma_u_common.h:358-366 | The least sufficient shift; none exactly above 2^31, where the source would shift by 32 |
| `HugePages.HugePages.Alloc` | src/urma/hw/udma/udma_u_buf.c:169-202 | A new buffer, disjoint from all live ones and inside its mapping; fails exactly when its descriptor is not granted, or the newest mapping is too small and no new one is granted; a new mapping becomes the newest |
| `HugePages.HugePages.Free` | src/urma/hw/udma/udma_u_buf.c:204-221 | The mapping is released exactly with its last live buffer |
| `HugePages.BumpApart` | src/urma/hw/udma/udma_u_buf.c:193-198 | The next bump allocation meets no live buffer |
| `DoorbellPages.DoorbellPages.Alloc` | src/urma/hw/udma/udma_u_db.c:132-160 | A cleared record that was not in use, on a page with room or a new one; fails exactly when all pages are full and none is granted |
| `DoorbellPages.DoorbellPages.Free` | src/urma/hw/udma/udma_u_db.c:162-200 | The page is found from the address and only that record is released; a page is dropped exactly with its last record; an address on no page is ignored |
| `DoorbellPages.AddressParts` | src/urma/hw/udma/udma_u_db.c:171-195 | An address leads back to its page and record |
| `DoorbellPage.DoorbellPage.Take` | src/urma/hw/udma/udma_u_db.c:148-155 | With room on the page the index search succeeds and returns an unused record |
| `DoorbellPage.DoorbellPage.Return` | src/urma/hw/udma/udma_u_db.c:180-196 | The count stays the number of taken bits; the page is released exactly with its last record |

## Left out

- SendQueue.SendQueue.FlushOne: requires a consumer at the start of a request, as Flush does.
- SendQueue.SendQueue.Flush: requires that completions named the last block of a request, because the source parses from the consumer position.
- CompletionQueue.CompletionQueue.Clean: requires SignedSafe; outside it the signed differences overflow (CompletionQueue.SignedSafeExact).
- SqeFill.InlineTotal: requires an inline sum below 2^32; the wrap itself is stated by SqeLayout.InlineCheckExact.
- MsgChannel.MsgChannel.PostTxBatch: requires messages within the slot size, which the source leaves to its callers.
- TimingWheel.TimingWheel.Callback: leaves out starting or restarting the running timer, which the source would link twice (TimingWheel.RestartedInCallback).
- TimingWheel.TimingWheel.Create: excludes a linked or running timer, because the source would leave a broken slot list (WheelModel.CreateKeepsIff).
- Slab.Slab.constructor: requires offsets below 2^32; beyond, Slab.OffsetsExact shows them wrong.
- CompletionQueue.CompletionQueue.Poll: the effects of parsing a CQE are not part of it; SendQueue.Complete and ReceivePath.PollReceive have them.
- QueueSizing.QueueBlocks: a request for no entries is not modelled; the source would then shift by the logarithm of 2^64 - 1.
- HugePages.HugePages.Alloc: a buffer length of 0 is not modelled; queue buffers have at least one page.
- Device commands, mapping and unmapping, sockets, epoll, timer file descriptors and logging: foreign calls.
- Locks and lock order: a locked region is one step.
- Tables of jetties and receive queues, status code translation beyond validity, and the other fields of completion records: lookups without state of their own.
- Receive WQE elements are modelled as records, not bytes; send WQEs are modelled as bytes.
- Message slots are modelled as a size word and payload bytes, not as offsets in one shared mapping; the receive ring twins in msg_ring.c:264-352 have the same code.
- Pool, slab and mapping teardown, and reuse of a pool after it: only one lifetime is modelled.
- Timer pools per channel and their statistics: one pool is modelled, and what it may hand out is an assumption.
- 64-bit overflow of tick counters: ticks are unbounded.
- urpc_bitmap_equal, hash maps, strings, status tables and command-line tools: easier members that add little.
