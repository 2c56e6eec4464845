# Verification of the NVMe-over-Fabrics benchmark suite

A Dafny model of the parts of the suite whose correctness is a matter of whole runs rather than of
single calls, with proofs that hold for every input, every schedule and every answer of the kernel,
the RDMA device, the peer or the network that the model's environment allows; what it is assumed never
to do is stated with each component and under "Left out".

- **The credit-controlled pipeline** (`src/benchmark.cc`): a worker posts RDMA reads, reaps them in
  polls of up to 16, turns each into an io_uring write, submits writes in batches that the kernel may
  take in parts, and blocks only when a credit counter reaches zero. `Worker.dfy` follows the nested
  loops method by method; `Devices.dfy` holds the io_uring ring and the queue pair as objects that
  answer in every permitted way; `Cursors.dfy` the two wrapping cursors; `Copier.dfy` the reference,
  a copier that moves one block at a time with no queue at all. `SlotReuse.dfy` has the same loop as
  steps that carry the devices' answers, to decide when pool slots and file blocks are used again
  too early; `Batches.dfy` the address a queued write is submitted with; `Launch.dfy` what becomes of a
  worker whose counters do not start at zero.
- **The two-thread submit/complete protocol** (`src/file_target.cc`; the same shape is in
  `src/file_rw_nvmeof.cc`): `SubmitComplete.dfy` and, for linked write/close pairs,
  `LinkedPairs.dfy`. A run is any sequence of enabled steps of the stream thread, the completion
  thread and the kernel; a submission takes any number of entries, so it may split a pair.
- **The network layer** (`src/net.h`): `AsyncCalls.dfy` (call objects that replace and delete
  themselves), `Tcp.dfy` (exact transfer over partial sends and receives), `BlockGeometry.dfy` (byte
  lengths as zero-based block counts), `SharedArgs.dfy` (concurrent block writes over one static
  argument block).
- **File names and fair dealing** (`FileNames.dfy`) and **libaio batching** (`AioBatching.dfy`, and
  `AioThreads.dfy` for the interleavings of its two threads).
- `Ids.dfy`, `Sequences.dfy` and `Arithmetic.dfy` hold what the others share.

## How to read the model

Environment objects choose nondeterministically how much they accept, in which order they complete
and when they fail. Their one restriction is fairness: the number of fruitless answers still to come
(`stalls`) is arbitrary but finite, so a wait ends if there is something to wait for. A wait with
nothing to wait for is an outcome of its own (`RingStuck`, `RdmaStuck`), so that freedom from deadlock
is a statement about outcomes. Each object keeps a ghost record of what it answered (results, statuses,
failures, refusals, empty answers), and contracts are stated over that record: an error is reported
exactly when one was answered. The expiry of the runtime is the parameter `ticks`: since it is
arbitrary, what holds at the end of a run holds at every loop head. A read carries its three addresses:
where it puts the block, where it takes it from, and its `wr_id`.

Main results, and where the code falls short of what one would expect of it:

1. At every loop head and every exit the writes prepared so far are exactly those of the
   one-block-at-a-time copier, in its order (`DoIoUserRdma`, `PipelineState`, `CopyClosedForm`). The
   kernel takes them with the copier's file offsets, but not with its addresses: all queued writes point
   to one iovec, so write k takes the block of the last write of its batch,
   k / batch * batch + batch - 1 (`IssuedClosedForm`). At a loop head the writes taken are the copier's
   exactly when nothing was submitted, or a batch or the pool is a single block (`RefinesCopierIff`).
2. Credits, reads in flight, queued, submitted, completed and counted writes always add up, and each
   completion is counted once, error exits included (`PipelineState`, `CompletionsCountedOnce`). Every
   write prepared is of a read that succeeded, every completion counted is of a write that succeeded, and
   a run fails exactly if a device has answered with a failure, with that failure (`DoIoUserRdma`,
   `DoIoIoUring`). Since every 16th post the completion queue has been seen empty.
3. Given the time, a worker deadlocks exactly when the batch size is zero or exceeds the io_uring
   depth: then the credits run out before a batch is full and nothing is ever submitted. Otherwise each
   blocking reap waits for more than depth - batch writes really submitted, or for exactly
   rdma_queue_depth reads.
4. Reads in flight are disjoint exactly while they are no more than the slots of the pool cycle.
5. A read credit returns when a block's write has been queued, not when it has completed. So a slot is
   never read into before the write of its block is done, in every run, exactly when the batch is the
   whole io_uring depth d and 2d + rdma_queue_depth - 2 slots exist; with a smaller batch one slow write
   is overtaken however large the pool (`SlotsApartIff`). For the slot that a submitted write really
   takes its block from, the exact number with that batch is d + rdma_queue_depth - 1
   (`TakenApartIff`), and for two unfinished writes to one file block it is 2d - 1 blocks
   (`FileApartIff`). If writes are reaped in
   submission order, slots enough for both depths are enough (`OrderedSlotReuse`).
6. A submitted write takes its block from where its read put it exactly when nothing was submitted, or
   the pool has the same address on both sides (the address written down is the read's `wr_id`, a remote
   one) and a batch or the pool is a single block (`WritesReadTheirSlotIff`; the one further case is a
   run that broke off after a single write).
7. The benchmark does not touch the whole file: the strict wrap test leaves out the last block, except
   when the file is a single block (`WholeFileCoveredIff`).
8. The `memset` of `launch_worker` clears only the size of a pointer, so three counters start with what
   the memory holds. No run of the write loop hangs exactly when io_uring_sqe_queued starts at zero and
   the batch fits into the depth (`NeverHangsIff`); a run can go on beyond the depth at all exactly when
   the batch fits beside the gap that the start leaves, so otherwise the worker stops for ever within one
   depth of writes (`EndlessIff`). Every write lies inside the file exactly when the first does
   (`AlwaysInsideIff`), and after its first lap the cursor is the intended one (`CursorFromClosedForm`).
9. The join of the two threads can return exactly when M >= N (for linked pairs: and the ring has two
   slots), every run is finite, and with whole submissions every maximal run tears the ring down under
   the same condition; with submissions of any size, exactly when the stream was read to its end and
   enough entries were taken (`MaximalRun`). That 2N completions free N buffers holds in every run
   exactly when M <= N or N = 0 or no run ends.
10. That no descriptor is closed before its write has completed holds in every run in which no
    submission splits a pair; in every run at all exactly when M = 1 or the ring has fewer than three
    slots (`WriteFirstIff`). Left-over entries can make the stream thread ask for ever for a slot for a
    close exactly when the ring has fewer slots than the stream has entries (`SpinsIff`).
11. A rounded block length is right exactly when 0 < size <= 65536 blocks; a zero size asks for 65536
    blocks. The payload is copied unchecked: a caller who sends exactly `size` bytes overruns the buffer
    exactly when size exceeds 65536 blocks (`HonestOverrunIff`).
12. Concurrent block writes share a static argument block. Whatever any two of them ask for, some
    schedule sends a buffer nobody filled (`AlwaysRightIff`); no schedule writes a payload at another
    call's start block exactly when all ask for the same one (`NeverMisplacedIff`); none overruns a buffer,
    or reports a wrong end block, exactly when all ask for the same count (`NeverOverrunsIff`,
    `EndsOwnIff`); and a schedule lets every call delete its own buffer exactly when no two are ever
    between allocation and deletion (`OwnFreedIff`).
13. Two streams share a file exactly when a multiple of 2^32 draws lies between them.
14. The libaio test ends exactly when every io_submit took its whole batch and no io_getevents failed,
    because a negative answer is added to the count; with whole batches every control block is deleted
    and every descriptor closed exactly once, in every interleaving of its threads (`TestSmallAio`,
    `CollectedOnce`). A single failure keeps it from ending for ever (`EndsUnlessFailed`).
15. Messages sent and received over TCP with the same lengths arrive unchanged, whatever the chunks and
    interrupts, exactly unless a system call fails (`Exchange`).

## Model

| member | source | states |
|---|---|---|
| Cursors.CursorClosedForm | src/benchmark.cc:179-181 | after n transfers a cursor is at block n mod P, with P = max(1, ceil(size/bs) - 1), for every size and block size |
| Cursors.TransfersInBounds | src/benchmark.cc:576-578 | every transfer of a run lies inside the file or pool exactly when one block fits into it |
| Cursors.TransferEnd | src/benchmark.cc:728-730 | no transfer ends after byte P * bs, which is within the size |
| Cursors.DisjointTransfers | src/benchmark.cc:728-730 | two transfers are disjoint exactly when their numbers differ modulo P |
| Cursors.WindowDisjointIff | src/benchmark.cc:724-730 | any window of consecutive transfers hits pairwise disjoint ranges exactly when it is no longer than P |
| Cursors.WindowsDisjointIff | src/benchmark.cc:724-730 | two adjoining windows of transfers are disjoint exactly when one is empty or together they are no longer than P |
| Cursors.CoverageExact | src/benchmark.cc:179-181 | the bytes ever touched are exactly the first P blocks |
| Cursors.WholeFileCoveredIff | src/benchmark.cc:179-181 | the whole file is touched only when it is one block; otherwise the last block never is |
| Cursors.MachineCursorsExact | src/benchmark.cc:724-730 | the 32-bit pool cursor and the 64-bit file cursor never wrap on their own positions |
| Copier.CopyClosedForm | src/benchmark.cc:556-578 | the reference, which has no queue and so no shared iovec: its k-th block goes from the wr_id address of slot k mod Pp to file block k mod Pf |
| Copier.CopyGrows | src/benchmark.cc:556-578 | running the copier on only appends, so every prefix of a run is its own reference |
| Batches.IssueMore | src/benchmark.cc:571-593 | entries submitted out of a whole batch, in however many parts, all carry the address that the last block of the batch put into the iovec |
| Batches.RightAddressIff | src/benchmark.cc:571-593 | n writes that take the last block of their batch find their own blocks, at a pool of the given address, only in trivial cases: equal addresses and a batch or pool of one block, or a single write |
| Devices.Ring.Submit | src/benchmark.cc:187-195 | io_uring_submit takes any number of the oldest queued entries or refuses, for as long as completions lie untaken; every entry stays in exactly one place and keeps its result |
| Devices.Ring.PeekCqe | src/benchmark.cc:108-112 | before each look the kernel may complete any of its entries in any order with any result, fixed from then on; the look shows the result of the head |
| Devices.Ring.ReapedOnce | src/benchmark.cc:113-116 | reaped completions name distinct submitted entries that are nowhere else |
| Devices.QueuePair.PostSend | src/benchmark.cc:733-736 | a read is refused for lack of room exactly when max_send_wr reads are outstanding |
| Devices.QueuePair.PollCq | src/benchmark.cc:549-555 | a poll delivers at most the asked number of completions, in posting order, and its statuses, failures and empty answers are recorded |
| Workers.Worker.constructor | src/benchmark.cc:761-770 | credits equal the queue depths; the start is the intended one exactly when the memory that memset does not reach is zero (what other starts lead to: Launch.NeverHangsIff, Launch.EndlessIff, Launch.AlwaysInsideIff) |
| Launch.NeverHangsIff | src/benchmark.cc:165-203 | over all kernels, no run of the write loop ends in a loop for ever exactly when io_uring_sqe_queued starts at zero and 1 <= batch <= depth |
| Launch.EndlessIff | src/benchmark.cc:184-203 | some run writes more than any given number of blocks, and some run more than the depth, exactly when batch >= 1 and (2^32 - start) mod 2^32 + batch <= depth |
| Launch.AlwaysInsideIff | src/benchmark.cc:177-181 | from any start of cur_offset every write lies inside the file exactly when the first does |
| Launch.CursorFromClosedForm | src/benchmark.cc:177-181 | from any start the cursor goes block by block to the end of its lap and then is the cursor of a worker that started at zero |
| Launch.ViewInv | src/benchmark.cc:164-203 | a worker between two writes is a state of the same step relation started at zero |
| Workers.Worker.RetireHead | src/benchmark.cc:113-116 | one successful completion is retired, counted once, and returns one credit |
| Workers.Worker.DrainCq | src/benchmark.cc:108-117 | the for-each loop retires all that is visible, or stops exactly when the entry at the head has a negative result, leaving it there; everything retired has succeeded, with all counters exact either way |
| Workers.Worker.ReapIoUringCq | src/benchmark.cc:102-121 | at least min completions are retired on success and the queue is found empty, once if min is zero; it fails exactly if it saw a failed write, left at the head; stuck only if fewer than min were outstanding |
| Workers.Worker.AcquireSlot | src/benchmark.cc:168-174 | a submission slot is free at the first request, so the retry loop never repeats |
| Workers.Worker.Prepare | src/benchmark.cc:175-184 | one write at the file cursor is appended, one credit taken, the cursor moved by one step |
| Workers.Worker.SubmitBatch | src/benchmark.cc:186-195 | however often the kernel refuses or takes a part, the queue is emptied, or a completion error ends it; it reaps once for each refusal; all that is taken carries the last address put into the iovec |
| Workers.Worker.SubmitIfFull | src/benchmark.cc:185-196 | a submission happens exactly when a batch is complete, and afterwards the queue is strictly below the batch size, so the equality test never misses one |
| Workers.Worker.AwaitCredit | src/benchmark.cc:198-202 | the worker waits exactly at zero credits, never for work that was not handed over when the batch fits, and goes on with a credit |
| Workers.Worker.QueueWrite | src/benchmark.cc:563-601 | one block becomes exactly one write at the file cursor; stuck exactly when the batch does not fit and the depth is used up |
| Workers.Worker.DoIoIoUring | src/benchmark.cc:164-206 | after any number of iterations write k is at file block k mod P and, from the one buffer, submitted as prepared; it fails exactly if a failed write was seen; the loop deadlocks exactly when the batch does not fit and it runs for at least the depth |
| Workers.Worker.Conservation | src/benchmark.cc:165-203 | writes prepared = queued + in the kernel + unseen + io_completed, and io_completed = prepared - (depth - credits), at every point |
| Workers.Worker.CompletionsCountedOnce | src/benchmark.cc:102-121 | io_completed is the number of distinct submitted writes reaped, none of them still under way |
| Workers.Worker.PipelineState | src/benchmark.cc:722-748 | at every loop head: credits + in flight = depth, posted = in flight + prepared, prepared splits into its four places, the lag is below the depth, no completion queue overflows, writes and reads in flight follow block order, write k is submitted with the address of block k / batch * batch + batch - 1, every prepared write's read and every reaped write succeeded, and the last empty poll is less than 16 posts ago |
| Workers.Worker.InFlightDisjoint | src/benchmark.cc:722-736 | the reads in flight target disjoint pool ranges exactly while they are at most P, hence always if the RDMA depth is at most P |
| Workers.Worker.OrderedSlotReuse | src/benchmark.cc:605-606 | if writes are reaped in submission order, no read in flight targets the slot of an unfinished write exactly while both together fit into the P slots, hence always if the two depths exceed P by at most one |
| Workers.Worker.IssuedClosedForm | src/benchmark.cc:571-593 | at every exit, submitted write k is at file block k mod Pf with the remote address of the slot of the last block of its batch |
| Workers.Worker.RefinesCopierIff | src/benchmark.cc:556-601 | the submitted writes have the copier's file offsets in its order; they are its writes exactly when nothing was submitted, or a batch or the pool is one block (or a run broke off after one write that ends in slot 0) |
| Workers.Worker.WritesReadTheirSlotIff | src/benchmark.cc:571-573 | each submitted write takes its block from where its read put it exactly when nothing was submitted, or the pool has the same address on both sides and a batch or the pool is one block (or a run broke off after one write with a fitting address, never at a loop head with batch > 1) |
| Workers.Worker.SchedulesAgree | src/benchmark.cc:720-748 | of two runs over the same geometry, whatever their depths, batches and answers, one has prepared a prefix of the writes of the other |
| Workers.Worker.CopyOne | src/benchmark.cc:556-601 | one reaped read becomes the copier's next prepared write; its wr_id overwrites the iovec all queued writes point to |
| Workers.Worker.CopyPolled | src/benchmark.cc:556-603 | the reads of one poll become the copier's next writes, in order, if all succeeded; it stops with a read error at the first that did not, with all before it written; on an error the log is still the copier's |
| Workers.Worker.PollOnce | src/benchmark.cc:549-607 | at most 16 reads are reaped, return their credits after they have become writes, and failures are reported as answered |
| Workers.Worker.PollUntilEmpty | src/benchmark.cc:548-608 | polling ends at an empty completion queue with credits and reads in flight still adding up |
| Workers.Worker.ReapRdmaCq | src/benchmark.cc:548-611 | at least min reads are reaped on success and none is left completed; without a minimum it is over at the first empty poll; it fails exactly as a call or completion did; stuck only if fewer than min were in flight |
| Workers.Worker.StepPoolCursor | src/benchmark.cc:727-730 | the machine computation moves the pool cursor from position n to position n + 1 |
| Workers.Worker.PostNext | src/benchmark.cc:723-736 | the next slot in cyclic order is posted, never refused for want of a send slot |
| Workers.Worker.OpportunisticReap | src/benchmark.cc:738-741 | every 16th post, and no other, is followed by polls up to one empty one; the credits may exceed the depth by one, and only here |
| Workers.Worker.TakeCredit | src/benchmark.cc:743-747 | the credit never underflows; the worker waits exactly when it was the last, with exactly rdma_queue_depth reads in flight |
| Workers.Worker.PostAndReap | src/benchmark.cc:722-747 | one iteration leads from loop head to loop head or ends with the failure that was answered |
| Workers.Worker.DoIoUserRdma | src/benchmark.cc:720-751 | for every runtime the prepared writes are the copier's, each of a read that succeeded; since every 16th post the completion queue has been seen empty, and if no poll misses what is due all reads up to then are written; each error is reported exactly if answered; no wait is for nothing, no post is refused for room, and a batch that fits never deadlocks |
| SlotReuse.RunInv | src/benchmark.cc:548-608 | in every run the write and read credits add up, the queue stays below the batch, polls return at most 16, exactly the sixteenth posts are followed by polls before they are paid for, submissions end with whole batches, and with batch = depth the kernel holds only writes of the last depth submitted |
| SlotReuse.NeededSpan | src/benchmark.cc:579-606 | with batch = depth d no block is needed 2d - 2 + rdma_queue_depth posts later, nor its write unfinished 2d - 1 writes later |
| SlotReuse.HoldBack | src/benchmark.cc:579-606 | a run in which write 0 is not reaped while w blocks are copied, for every w if the batch is a proper part of the depth, else for w up to 2d - 2 (d - 1 if no batch can be completed) |
| SlotReuse.PollSizesIff | src/benchmark.cc:549-555 | a poll can return n completions exactly for n up to 16 and up to the read depth |
| SlotReuse.InterruptedIff | src/benchmark.cc:186-195 | a submission can stop in the middle of a batch, with what was submitted reaped at a refusal, exactly if the batch fits and has two blocks |
| SlotReuse.SlotsApartIff | src/benchmark.cc:722-747 | no read is ever in flight into a slot whose block is still needed exactly when batch = d and 2d - 2 + rdma_queue_depth <= P (d - 1 in place of 2d - 2 if no batch can be completed) |
| SlotReuse.FileApartIff | src/benchmark.cc:573-578 | no two unfinished writes ever go to the same file block exactly when batch = d and 2d - 2 < P of the file |
| SlotReuse.TakenApartIff | src/benchmark.cc:571-606 | no read is ever in flight into the slot a submitted, unfinished write takes its block from (that of the last block of its batch) exactly when batch = d and d + rdma_queue_depth - 1 <= P, or no batch can be completed |
| SlotReuse.ViewInv | src/benchmark.cc:720-748 | every loop head of the worker is a state that the step relation's invariant admits |
| SlotReuse.WorkerSlotsApart | src/benchmark.cc:720-748 | the worker itself, with batch = d and enough slots, has at no loop head a read in flight into the slot of an unfinished write, whatever the order of completions |
| SubmitComplete.RunInv | src/file_target.cc:170-221 | in every interleaving each buffer is with the stream thread, with the kernel or completed, and exactly a prefix of the completions has been freed |
| SubmitComplete.PostedByKernel | src/file_target.cc:199-219 | the completions a run has produced are those the kernel posted in it, in order |
| SubmitComplete.SlotsInOrder | src/file_target.cc:199-219 | never more entries are queued than the ring has slots, the handler gives up only with all of them taken, and entries are queued and submitted in the order of their buffers |
| SubmitComplete.ExitIsFinal | src/file_target.cc:221-223 | after the tear-down nothing moves and nothing completes |
| SubmitComplete.BufferOwnership | src/file_target.cc:173-186 | buffers are freed once each, in completion order, after their own completion and never while the stream thread or kernel can use them |
| SubmitComplete.JoinExact | src/file_target.cc:221-223 | after the join M >= N, exactly N buffers are freed, M - N are outstanding, and none is exactly when M = N |
| SubmitComplete.RunsAreFinite | src/file_target.cc:170-223 | the two threads and the kernel take a bounded number of steps in every interleaving |
| SubmitComplete.MaximalRun | src/file_target.cc:199-223 | a run that cannot go on has torn the ring down exactly when the handler found its slots and at least N entries were taken by the kernel |
| SubmitComplete.EagerRunsTerminateIff | src/file_target.cc:173-223 | with whole submissions every maximal run tears the ring down exactly when M >= N |
| SubmitComplete.ServeRest | src/file_target.cc:199-223 | from any idle point the rest of a stream with M >= N can be served up to the tear-down |
| SubmitComplete.JoinPossibleIff | src/file_target.cc:221-223 | some run gets past the join exactly when M >= N |
| LinkedPairs.RunInv | src/file_target.cc:342-402 | in every interleaving and with submissions of any size, the posted completions are exactly those the phases of the submitted pairs call for |
| LinkedPairs.Ownership | src/file_target.cc:355-360 | no buffer is freed twice or before its write completed and no descriptor closed twice; without split pairs no descriptor is closed before its write completed, and exactly the finished successful writes have had theirs closed |
| LinkedPairs.TwoCompletionsEach | src/file_target.cc:390-401 | a finished linked pair has produced exactly two completions: the close is cancelled exactly if the write failed, and may fail by itself otherwise |
| LinkedPairs.JoinExact | src/file_target.cc:345-361 | after the join M >= N and at most min(2N, M) buffers are freed, at least N if no pair was split; with M = N exactly N in any case, and everything is over |
| LinkedPairs.WriteFirstIff | src/file_target.cc:390-401 | no descriptor is closed before its write completed, in every run with submissions of any size, exactly when there is one request or the ring has fewer than three slots |
| LinkedPairs.CloseOvertakes | src/file_target.cc:392-401 | a run in which split submissions let a close complete before its write |
| LinkedPairs.JoinPossibleIff | src/file_target.cc:345-404 | some run gets past the join exactly when the ring has two slots and M >= N |
| LinkedPairs.Schedule | src/file_target.cc:345-404 | for any w writes and c <= w closes with w + c = 2N some run reaches the tear-down with w buffers freed |
| LinkedPairs.RunsAreFinite | src/file_target.cc:342-406 | the two threads and the kernel take a bounded number of steps in every interleaving |
| LinkedPairs.MaximalRun | src/file_target.cc:342-406 | with submissions of any size, a run that cannot go on has torn the ring down exactly when all M requests were begun, none lacks a slot for its close, and at least 2N entries were taken by the kernel |
| LinkedPairs.SpinsIff | src/file_target.cc:371-397 | some run leaves the stream thread asking for ever for a close's slot exactly when the ring has fewer than 2M slots |
| LinkedPairs.AnyResultIff | src/file_target.cc:390-401 | a pair can end closed, with a failed close or cancelled, exactly if the ring holds a pair |
| LinkedPairs.ExitIsFinal | src/file_target.cc:402-406 | after the tear-down nothing moves and nothing completes |
| LinkedPairs.EagerRunsTerminateIff | src/file_target.cc:376-401 | with whole submissions every maximal run tears the ring down exactly when the ring has two slots and M >= N |
| LinkedPairs.Overshoot | src/file_target.cc:345-361 | for 0 < N < M some run frees N + 1 buffers at 2N completions |
| LinkedPairs.CountExactIff | src/file_target.cc:345-361 | 2N completions free exactly N buffers in every run exactly when M <= N, N = 0, or the ring cannot hold a pair so that no run ends |
| AsyncCalls.Handler.Construct | src/net.h:658-661 | a constructed object is live, waits for a request and has one outstanding tag |
| AsyncCalls.Handler.Proceed | src/net.h:663-678 | the three status transitions with their effect on objects, tags, accepted, answered and retired requests |
| AsyncCalls.Handler.Turn | src/net.h:811-817 | one turn of the event loop, whichever tag is delivered, keeps the loop-head state and accepts or retires exactly one request |
| AsyncCalls.Handler.Exec | src/net.h:805-819 | after any number of turns: one object waits and the others are answered, one tag per live object and none for a dead one, every accepted request answered once, live = 1 + accepted - retired |
| AsyncCalls.AcceptTurn | src/net.h:667-672 | accepting, replacing and answering keeps the loop-head state |
| AsyncCalls.RetireTurn | src/net.h:673-677 | deleting an answered object keeps the loop-head state |
| Tcp.TCPConnection.Send | src/net.h:363-378 | -1 exactly if a call failed for another reason than an interrupt, leaving a proper prefix behind; otherwise len, after exactly the buffer has been delivered in order, each call offering all that is left; a length that is not positive sends nothing |
| Tcp.TCPConnection.Recv | src/net.h:380-398 | -1 exactly if a call failed for another reason than an interrupt; otherwise len with exactly the next len bytes in the buffer and no more taken, or, exactly if the peer closes before, a shorter count with everything it sent |
| Tcp.TCPConnection.SendAll | src/net.h:363-378 | a run of sends succeeds exactly if no call failed, and then delivers the concatenation of the messages |
| Tcp.TCPConnection.RecvAll | src/net.h:380-398 | a run of receives succeeds exactly if no call failed and the peer sends enough, and then splits the stream into messages of the given lengths |
| Tcp.FramingUnique | src/net.h:363-398 | a byte stream splits into messages of given lengths in one way only |
| Tcp.Exchange | src/net.h:363-398 | messages sent and received with the same lengths arrive, unchanged under any chunking and interrupts on either side, exactly unless a call fails |
| BlockGeometry.LengthExactIff | src/net.h:500-505 | size <= actual_len < size + block size exactly when 0 < size <= 65536 blocks |
| BlockGeometry.ZeroSize | src/net.h:502-505 | a zero size asks for 65536 blocks |
| BlockGeometry.EndBlockIsLast | src/net.h:538-538 | the reported end block is the block of the last byte |
| BlockGeometry.DirectPathAgrees | src/block_rw_nvmeof.cc:34-37 | the direct path computes the same count, for every size |
| BlockGeometry.BlockWritesCommute | src/net.h:525-525 | writes with disjoint block ranges commute |
| BlockGeometry.HonestOverrunIff | src/net.h:502-516 | a payload of exactly size bytes is copied past its buffer exactly when size > 65536 blocks |
| BlockGeometry.OverrunAt32MB | src/net.h:502-516 | one byte more than 32 MB on a device with 512-byte blocks: the buffer has one block |
| BlockGeometry.GRPCSyncServer.WriteBlock | src/net.h:487-540 | for a call alone: the payload overruns its buffer exactly when it is longer than the rounded length; otherwise one command is sent and its answer decides: the payload reads back byte for byte and no byte outside the reported blocks changes, or nothing changes |
| SharedArgs.AlwaysRightIff | src/net.h:489-538 | every schedule of the calls sends only commands with their sender's start, count, length, buffer and payload, deletes own buffers and reports own end blocks exactly when there is at most one call |
| SharedArgs.NeverMisplacedIff | src/net.h:497-525 | no schedule writes one call's payload at another's start block exactly when all calls ask for the same start |
| SharedArgs.LengthsAgreeIff | src/net.h:500-525 | no schedule sends a command whose length and block count disagree exactly when all calls ask for the same count |
| SharedArgs.NeverOverrunsIff | src/net.h:505-516 | no schedule copies a payload past the end of a buffer exactly when all calls ask for the same count |
| SharedArgs.EndsOwnIff | src/net.h:538-538 | no schedule reports another call's end block exactly when all calls ask for the same count |
| SharedArgs.NeverMixedIff | src/net.h:511-516 | no schedule copies a payload into another call's buffer exactly when there is at most one call |
| SharedArgs.RunLocal | src/net.h:498-511 | in every schedule each buffer is as large as its call measured and each announced length is one that some call measured |
| SharedArgs.OwnFreedIff | src/net.h:511-527 | in a schedule that leaves no call between allocation and deletion, every call has deleted the buffer it allocated exactly when no two calls were ever between them at once |
| FileNames.FileNameInjective | src/file_target.cc:277-277 | two file names are equal exactly when nonce and index are, negative nonces included |
| FileNames.FileNameReads | src/file_target.cc:277-277 | a file name is the prefix, the nonce and the index in decimal notation without leading zeros |
| FileNames.GRPCFileServerSync.DrawNonce | src/file_target.cc:275-275 | the k-th stream draws the 32-bit wrapped value of k |
| FileNames.SharedFileIff | src/file_target.cc:275-278 | two streams share a file exactly when a multiple of 2^32 draws lies between them and the index is the same |
| FileNames.StreamsShareNoFile | src/file_target.cc:275-278 | streams drawn within 2^32 of each other never share a file |
| FileNames.GRPCFileServerSync.DealOut | src/file_target.cc:285-305 | file i receives exactly the requests congruent to i modulo fn, and its share of them |
| FileNames.FairShares | src/file_target.cc:302-302 | the shares of two files differ by at most one |
| AioBatching.AioTest.SubmitAll | src/file_rw_nvmeof.cc:382-397 | the batches concatenate to 0, ..., N - 1, all are full but perhaps the last, there are ceil(N / queue_depth), and what io_submit accepted is distinct, and complete exactly if no call took less than its batch |
| AioBatching.AioTest.CollectAll | src/file_rw_nvmeof.cc:363-379 | whatever was accepted is closed and deleted; the thread ends exactly if all was accepted and io_getevents recorded no failure |
| AioBatching.AioTest.TestSmallAio | src/file_rw_nvmeof.cc:344-400 | with the loops run one after the other: the test ends exactly when every io_submit took its whole batch and no io_getevents failed; nothing is closed or deleted twice, and with whole batches every control block is, once |
| AioThreads.CollectedOnce | src/file_rw_nvmeof.cc:363-397 | in every interleaving of the two threads: nothing is deleted twice, the collecting thread has ended only if all of 0, ..., N - 1 are deleted, and once nothing is left to collect it has ended exactly if every io_submit was whole and no io_getevents failed |
| AioThreads.EndsUnlessFailed | src/file_rw_nvmeof.cc:363-397 | after one io_submit and one io_getevents a batch, all whole, the test has ended, but not if one further io_getevents failed, whatever its number |
| AioThreads.ShortNeverEnds | src/file_rw_nvmeof.cc:363-397 | one block not accepted is enough for the collecting thread to wait for ever |
| AioBatching.DeletedAtMostOnce | src/file_rw_nvmeof.cc:373-376 | blocks collected from those accepted are distinct and among 0, ..., N - 1 |
| AioBatching.AllDeleted | src/file_rw_nvmeof.cc:373-376 | N collected blocks are all of 0, ..., N - 1 |

## Left out

- RDMA set-up, handshake and termination, and the server side: a straight sequence of library calls.
- Workers.Worker.ReapRdmaCq: only polling mode is modelled; the event mode of `reap_rdma_cq` waits on a completion channel first, and its wake-ups depend on verbs semantics outside the repository.
- Contents of the blocks copied: addresses, slots and offsets are modelled. The kernel is taken to read the iovec when an entry is submitted; it cannot read it earlier, as the ring is set up without submission polling. All calls of `reap_rdma_cq` are taken to keep that local variable in one place, as calls from one function do.
- Workers.Worker.constructor: io_completed, which only the statistics use, is off by what it starts with; Launch leaves it out.
- Launch.AlwaysInsideIff: takes the file size plus the block size to be below 2^64, as the option parser produces; an `int` depth is below 2^32. Launch.CursorFromClosedForm leaves out starts within two blocks of 2^64.
- Set-up is assumed to have checked that depths are positive and sizes fit: block size and pool below 2^32, file size plus block size at most 2^64, as the option parser produces.
- Two threads of `src/file_target.cc` as Dafny methods: interleaving is the point, so they are a step relation on values and not methods on shared objects; for the same reason `SlotReuse.dfy` and `Launch.dfy` repeat the loop of `Worker.dfy` as steps, and tie it to the worker by its loop-head states, not step by step.
- Failing `open`, `posix_memalign` and `io_uring_wait_cqe` in the streaming handlers, which return while the other thread still runs.
- A close that reports an error is taken to have released its descriptor, and a close submitted apart from its write to be unlinked from it, as Linux does.
- That a close entry carries null user data is an assumption: the code never sets it, so it rests on the preparation call of the library, which is not part of this model. Without it a buffer could be freed at the completion of a close as well.
- Shutting down the asynchronous handler while calls are pending: the event loop asserts that the queue never closes. The reply's constant end block is not modelled.
- SharedArgs.AlwaysRightIff: nvme_write reads the argument block in one step, a deleted buffer keeps its contents, and a payload is as many blocks as its request's count says.
- BlockGeometry.GRPCSyncServer.WriteBlock: sums are unbounded; in the code they stay below 2^31 for the block sizes devices have. After an overrun nothing is said.
- AioBatching.AioTest.SubmitAll: requires a positive depth; with depth zero its loop never advances.
- AioBatching.AioTest.TestSmallAio: runs the collecting loop after the submitting one; AioThreads.CollectedOnce is about every order, with an io_submit and the completion of what it took never overlapping.
- `ReadBlock` and the read and statistics call objects (one device command or counter dump per call), the blocking and polling test loops (one system call per iteration), argument parsing, clocks, printing, random block selection, scripts and result files.
