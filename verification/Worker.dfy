/**
 A worker thread of src/benchmark.cc: the credit-controlled loops that turn blocks into batched
 io_uring writes, fed either from one data buffer (do_io_io_uring) or from RDMA reads
 (do_io_user_rdma, polling mode).
 */
module Workers {
  import opened Arithmetic
  import opened Batches
  import opened Copier
  import opened Cursors
  import opened Devices
  import opened Ids

  const POLL_BATCH: nat := 16
  const RDMA_REAP_FREQ: nat := 16

  /** The options of the benchmark, and the pool size learnt in the RDMA handshake. */
  datatype Config = Config(
    geometry: Geometry,
    ioDepth: nat,     // io_uring_queue_depth
    rdmaDepth: nat,   // rdma_queue_depth
    batch: nat)       // io_uring_batch_submit
  {
    /** What a finished set-up guarantees: positive depths and sizes that fit their types. */
    predicate Valid() {
      && geometry.Valid()
      && ioDepth > 0
      && rdmaDepth > 0
      && geometry.bs < TWO_TO_THE_32
      && geometry.poolSize < TWO_TO_THE_32
      && geometry.fileSize + geometry.bs <= TWO_TO_THE_64
    }

    /** The batch size with which a batch can ever be completed before the credits run out. */
    predicate BatchFits() {
      1 <= batch <= ioDepth
    }
  }

  datatype Failure = CompletionError | PollError | ReadError | PostQueueFull | PostError

  /** How a call ends. The two `...Stuck` cases are waits that can never end: the worker waits for
      a completion although nothing has been handed over that could complete. */
  datatype Outcome = Done | Failed(why: Failure) | RingStuck | RdmaStuck

  /** The k-th write goes to the k-th position of the file cursor. */
  ghost predicate FileOrder(writes: seq<Write>, g: Geometry) {
    forall k :: 0 <= k < |writes| ==> writes[k].fileOffset == After(k, g.bs, g.fileSize)
  }

  /** The read of the slot at `offset`. Its identifier is made from the remote address. */
  function ReadAt(offset: nat, g: Geometry): Read {
    Read(g.poolAddr + offset, g.rmtAddr + offset, g.rmtAddr + offset)
  }

  /** The k-th read is of the slot at the k-th position of the pool cursor. */
  ghost predicate PoolOrder(posted: seq<Read>, g: Geometry) {
    forall k :: 0 <= k < |posted| ==> posted[k] == ReadAt(After(k, g.bs, g.poolSize), g)
  }

  /** The writes are those of the one-block-at-a-time copier, in its order. */
  ghost predicate CopierLog(writes: seq<Write>, g: Geometry) {
    writes == Copy(|writes|, g).log
  }

  /** The first n reads polled all succeeded. */
  ghost predicate ReadsSucceeded(statuses: seq<bool>, n: nat) {
    n <= |statuses| && forall k :: 0 <= k < n ==> statuses[k]
  }

  ghost predicate AllWithin(counts: seq<nat>, lo: int, hi: int) {
    forall i :: 0 <= i < |counts| ==> lo <= counts[i] <= hi
  }

  class Worker {
    const cfg: Config
    const ring: Ring
    const qp: QueuePair
    var sqeQueued: nat           // io_uring_sqe_queued
    var rdmaPosted: nat          // rdma_wr_posted
    var curOffset: nat           // cur_offset
    var ioCompleted: nat         // io_completed
    var freeIo: nat              // free_io_units_io_uring
    var freeRdma: nat            // free_io_units_rdma
    var stopped: bool
    var iovBase: Source          // iovecs.iov_base: one cell, to which every queued write points
    ghost var writes: seq<Write>   // every write ever prepared, in order, with the address then put there
    ghost var issued: seq<Write>   // every write the kernel took, with the address it found there
    ghost var ringWaits: seq<nat>  // writes outstanding in the kernel at each blocking ring reap
    ghost var rdmaWaits: seq<nat>  // reads in flight at each blocking RDMA reap

    /** launch_worker and set-up. The memset there clears no more than the size of a pointer, so the
        counters it does not assign afterwards start with what the fresh memory holds; the worker
        starts as intended exactly if that is zero. */
    constructor (cfg: Config, entries: nat, ringStalls: nat, qpStalls: nat,
                 sqeQueued: nat, curOffset: nat, ioCompleted: nat)
      requires cfg.Valid() && entries >= cfg.ioDepth
      ensures this.cfg == cfg && fresh(ring) && fresh(qp)
      ensures Launched() <==> sqeQueued == 0 && curOffset == 0 && ioCompleted == 0
    {
      this.cfg := cfg;
      ring := new Ring(entries, ringStalls);
      qp := new QueuePair(cfg.rdmaDepth, qpStalls);
      this.sqeQueued, this.curOffset, this.ioCompleted := sqeQueued, curOffset, ioCompleted;
      rdmaPosted := 0;
      freeIo, freeRdma, stopped := cfg.ioDepth, cfg.rdmaDepth, false;
      writes, issued, ringWaits, rdmaWaits := [], [], [], [];
    }

    ghost predicate Launched()
      reads this, ring, qp
    {
      && AtRest()
      && qp.Valid() && qp.maxSend == cfg.rdmaDepth && qp.cqCapacity == 2 * cfg.rdmaDepth
      && qp.posted == [] && qp.polled == 0
      && qp.asked == {} && ring.faults == 0 && qp.pollErrors == 0 && qp.postErrors == 0
      && rdmaPosted == 0 && freeRdma == cfg.rdmaDepth && !stopped
      && writes == [] && ringWaits == [] && rdmaWaits == []
    }

    /** What every path keeps, error exits included. */
    ghost predicate Accounted()
      reads this, ring
    {
      && cfg.Valid()
      && ring.Valid() && cfg.ioDepth <= ring.entries
      && ring.queued == sqeQueued
      && ring.next == |writes|
      && ioCompleted == |ring.reaped|
      && Succeeded(ring.reaped, ring.results)
      && freeIo + |writes| == cfg.ioDepth + ioCompleted
      && curOffset == After(|writes|, cfg.geometry.bs, cfg.geometry.fileSize)
      && FileOrder(writes, cfg.geometry)
      && |issued| + sqeQueued == |writes|
      && (cfg.BatchFits() ==> IssuedInBatches(issued, writes, cfg.batch))
      && (cfg.BatchFits() ==> AllWithin(ringWaits, cfg.ioDepth - cfg.batch + 1, cfg.ioDepth))
      && (!cfg.BatchFits() ==> ring.Outstanding() == 0 && ioCompleted == 0)
    }

    /** Between two writes: a credit is free and no full batch is waiting. */
    ghost predicate AtRest()
      reads this, ring
    {
      && Accounted()
      && freeIo > 0
      && Batched()
    }

    /** Whole batches have been submitted, and if a batch is the whole depth, all but the last of
        them have been reaped. */
    ghost predicate Batched()
      reads this, ring
    {
      && (cfg.BatchFits() ==> sqeQueued < cfg.batch && Aligned(|issued|, cfg.batch))
      && (cfg.BatchFits() && cfg.batch == cfg.ioDepth ==>
            OldReaped(ring.reaped, |issued|, cfg.ioDepth))
    }

    /** A batch is complete, and nothing of it has been submitted. */
    ghost predicate BatchReady()
      reads this, ring
    {
      && cfg.BatchFits() && sqeQueued == cfg.batch && Aligned(|issued|, cfg.batch)
      && writes != [] && iovBase == writes[|writes| - 1].source
    }

    /** Every write ever prepared is queued, in the kernel, completed but unseen, or counted. */
    lemma Conservation()
      requires Accounted()
      ensures |writes| == sqeQueued + |ring.kernel| + |ring.cq| + ioCompleted
      ensures freeIo + sqeQueued + ring.Outstanding() == cfg.ioDepth
      ensures ioCompleted == |writes| - (cfg.ioDepth - freeIo)
    {
    }

    /** One successful completion is marked seen and counted, and its credit returns. */
    method RetireHead()
      requires Accounted() && ring.cq != [] && !ring.HeadFailed()
      modifies this`ioCompleted, this`freeIo, ring`cq, ring`reaped
      ensures Accounted()
      ensures ring.reaped == old(ring.reaped) + [old(ring.cq)[0]] && ring.cq == old(ring.cq)[1..]
      ensures ioCompleted == old(ioCompleted) + 1
    {
      assert ring.cq[0] in ring.cq;
      ring.SeenCqe();
      ioCompleted := ioCompleted + 1;
      freeIo := freeIo + 1;
    }

    /** io_uring_for_each_cqe: retires completions until none is visible, or fails at one that
        carries an error, which stays in the queue. */
    method DrainCq() returns (reaped: nat, failed: bool)
      requires Accounted()
      modifies this`ioCompleted, this`freeIo, ring`kernel, ring`cq, ring`results, ring`stalls, ring`reaped, ring`emptyLooks, ring`faults
      ensures Accounted()
      ensures old(ring.reaped) <= ring.reaped
      ensures ring.stalls <= old(ring.stalls)
      ensures ioCompleted == old(ioCompleted) + reaped
      ensures ring.Outstanding() + reaped == old(ring.Outstanding())
      ensures if failed then ring.HeadFailed() else ring.cq == []
      ensures ring.faults == old(ring.faults) + if failed then 1 else 0
      ensures ring.emptyLooks == old(ring.emptyLooks) + if failed then 0 else 1
      ensures !failed && ring.kernel != multiset{} ==> ring.stalls < old(ring.stalls)
    {
      hide SharedOut, FileOrder, AllWithin, IssuedInBatches, Aligned, OldReaped;
      reaped := 0;
      var some, res := ring.PeekCqe();
      while some
        invariant Accounted()
        invariant old(ring.reaped) <= ring.reaped
        invariant ring.stalls <= old(ring.stalls)
        invariant ioCompleted == old(ioCompleted) + reaped
        invariant ring.Outstanding() + reaped == old(ring.Outstanding())
        invariant some <==> ring.cq != []
        invariant some ==> res == ring.results[ring.cq[0]]
        invariant ring.faults == old(ring.faults) + if ring.HeadFailed() then 1 else 0
        invariant ring.emptyLooks == old(ring.emptyLooks) + if some then 0 else 1
        invariant !some && ring.kernel != multiset{} ==> ring.stalls < old(ring.stalls)
        decreases ring.Outstanding()
      {
        if res < 0 {
          return reaped, true;
        }
        RetireHead();
        reaped := reaped + 1;
        some, res := ring.PeekCqe();
      }
      failed := false;
    }

    /** reap_io_uring_cq: drains the completion queue until at least `min` completions are done. */
    method ReapIoUringCq(min: nat) returns (o: Outcome)
      requires Accounted()
      modifies this`ioCompleted, this`freeIo, ring`kernel, ring`cq, ring`results, ring`stalls, ring`reaped, ring`emptyLooks, ring`faults
      ensures Accounted()
      ensures old(ring.reaped) <= ring.reaped
      ensures ring.stalls <= old(ring.stalls)
      ensures o == Done || o == Failed(CompletionError) || o == RingStuck
      ensures if o == Failed(CompletionError) then ring.HeadFailed() else ring.cq == []
      ensures ring.faults == old(ring.faults) + if o == Failed(CompletionError) then 1 else 0
      ensures o == Done ==> ioCompleted >= old(ioCompleted) + min
      // without a minimum it is over as soon as the queue is found empty
      ensures o == Done && min == 0 ==> ring.emptyLooks == old(ring.emptyLooks) + 1
      ensures o == RingStuck ==> old(ring.Outstanding()) < min
      ensures old(ring.Outstanding()) == 0 ==>
        ioCompleted == old(ioCompleted) && o == if min == 0 then Done else RingStuck
    {
      var reaped := 0;
      while true
        invariant Accounted()
        invariant old(ring.reaped) <= ring.reaped
        invariant ring.stalls <= old(ring.stalls)
        invariant ioCompleted == old(ioCompleted) + reaped
        invariant ring.Outstanding() + reaped == old(ring.Outstanding())
        invariant ring.faults == old(ring.faults)
        invariant 0 <= reaped && (min == 0 ==> ring.emptyLooks == old(ring.emptyLooks))
        decreases ring.stalls
      {
        var n, failed := DrainCq();
        if failed {
          return Failed(CompletionError);
        }
        reaped := reaped + n;
        if reaped >= min {
          return Done;
        }
        if ring.kernel == multiset{} {
          return RingStuck;
        }
      }
    }

    /** The inner submission loop: hands over the whole batch, however often the kernel refuses. All
        that the kernel takes it takes with the address of the batch's last block. */
    method SubmitBatch() returns (o: Outcome)
      requires Accounted() && BatchReady()
      modifies this`sqeQueued, this`ioCompleted, this`freeIo, this`issued
      modifies ring`queued, ring`kernel, ring`cq, ring`results, ring`stalls, ring`reaped, ring`refusals
      modifies ring`emptyLooks, ring`faults
      ensures Accounted()
      ensures old(ring.reaped) <= ring.reaped
      ensures o == Done || o == Failed(CompletionError)
      ensures Blamed(o)
      ensures o == Done ==> sqeQueued == 0 && Batched()
      // it reaps once for every refusal, and at no other time
      ensures o == Done ==>
        ring.emptyLooks - old(ring.emptyLooks) == ring.refusals - old(ring.refusals)
    {
      hide SharedOut, FileOrder, AllWithin, IssuedInBatches, Aligned, OldReaped, Succeeded, Recorded, Kept;
      AlignedStep(|issued|, cfg.batch);
      if cfg.batch == cfg.ioDepth {
        AllReaped();
      }
      while sqeQueued != 0
        invariant Accounted() && Aligned(|writes|, cfg.batch) && sqeQueued <= cfg.batch
        invariant old(ring.reaped) <= ring.reaped
        invariant cfg.batch == cfg.ioDepth ==> OldReaped(ring.reaped, |writes|, cfg.ioDepth)
        invariant ring.faults == old(ring.faults)
        invariant ring.emptyLooks - old(ring.emptyLooks) == ring.refusals - old(ring.refusals)
        decreases sqeQueued, ring.stalls, if ring.cq == [] then 0 else 1
      {
        var taken := HandOver();
        if !taken {
          ghost var before := ring.reaped;
          o := ReapIoUringCq(0);
          if o != Done {
            return;
          }
          if cfg.batch == cfg.ioDepth {
            OldReapedGrows(before, ring.reaped, |writes|, cfg.ioDepth);
          }
        }
      }
      o := Done;
    }

    /** One io_uring_submit; `taken` says whether the kernel took anything. It need not refuse for ever
        once its completions are taken. */
    method HandOver() returns (taken: bool)
      requires Accounted() && cfg.BatchFits() && Aligned(|writes|, cfg.batch)
      requires 0 < sqeQueued <= cfg.batch && iovBase == writes[|writes| - 1].source
      modifies this`sqeQueued, this`issued
      modifies ring`queued, ring`kernel, ring`cq, ring`results, ring`stalls, ring`refusals
      ensures Accounted()
      ensures if taken then sqeQueued < old(sqeQueued) else sqeQueued == old(sqeQueued)
      ensures ring.stalls <= old(ring.stalls)
      ensures ring.refusals == old(ring.refusals) + if taken then 0 else 1
      ensures !taken && old(ring.cq) == [] ==> ring.stalls < old(ring.stalls)
    {
      hide SharedOut, FileOrder, AllWithin, IssuedInBatches, Aligned, Succeeded, Recorded, Kept;
      ghost var results := ring.results;
      var ret := ring.Submit();
      SucceededKept(ring.reaped, results, ring.results);
      taken := ret > 0;
      if taken {
        sqeQueued := sqeQueued - ret;
        IssueMore(issued, writes, ret, cfg.batch);
        issued := issued + Taken(writes, |issued|, ret, iovBase);
      }
    }

    /** A completion error is reported exactly if one was seen, which is then left at the head. */
    twostate predicate Blamed(o: Outcome)
      reads ring
    {
      && ring.faults == old(ring.faults) + (if o == Failed(CompletionError) then 1 else 0)
      && (o == Failed(CompletionError) ==> ring.HeadFailed())
    }

    /** With as many writes queued as there are credits, none is left with the kernel. */
    lemma AllReaped()
      requires Accounted() && sqeQueued == cfg.ioDepth
      ensures OldReaped(ring.reaped, |writes|, cfg.ioDepth)
    {
      Conservation();
      forall k: nat | k < |issued| ensures k in ring.reaped {
        assert ring.kernel[k] + multiset(ring.cq)[k] + multiset(ring.reaped)[k] == 1;
        assert ring.kernel == multiset{} && ring.cq == [];
      }
    }

    /** One block becomes one queued write; a full batch is submitted, and the worker waits when it
        has no credit left. */
    method QueueWrite(source: Source) returns (o: Outcome)
      requires AtRest()
      modifies this`sqeQueued, this`curOffset, this`ioCompleted, this`freeIo, this`writes, this`ringWaits
      modifies this`iovBase, this`issued, ring
      ensures Accounted()
      ensures old(ring.reaped) <= ring.reaped
      ensures writes == old(writes) + [Write(source, old(curOffset))] && iovBase == source
      ensures o == Done || o == Failed(CompletionError) || o == RingStuck
      ensures Blamed(o)
      ensures o == Done ==> AtRest()
      ensures cfg.BatchFits() ==> o != RingStuck
      ensures !cfg.BatchFits() ==> o == if |writes| < cfg.ioDepth then Done else RingStuck
    {
      hide SharedOut, FileOrder, AllWithin, IssuedInBatches, Aligned, OldReaped, Succeeded, Recorded, Kept;
      Prepare(source);
      o := SubmitIfFull();
      if o == Done {
        o := AwaitCredit();
      }
    }

    /** Submits exactly when the queued writes make up a batch. */
    method SubmitIfFull() returns (o: Outcome)
      requires Accounted() && sqeQueued > 0
      requires cfg.BatchFits() ==> if sqeQueued == cfg.batch then BatchReady() else Batched()
      modifies this`sqeQueued, this`ioCompleted, this`freeIo, this`issued
      modifies ring`queued, ring`kernel, ring`cq, ring`results, ring`stalls, ring`reaped, ring`refusals
      modifies ring`emptyLooks, ring`faults
      ensures Accounted()
      ensures old(ring.reaped) <= ring.reaped
      ensures o == Done || o == Failed(CompletionError)
      ensures Blamed(o)
      ensures o == Done ==> Batched()
      ensures old(sqeQueued) == cfg.batch && o == Done ==> sqeQueued == 0
      ensures old(sqeQueued) != cfg.batch ==> o == Done && sqeQueued == old(sqeQueued)
      ensures !cfg.BatchFits() ==> o == Done
    {
      Conservation();
      o := Done;
      if sqeQueued == cfg.batch {
        o := SubmitBatch();
      }
    }

    /** Blocks for one completion when no credit is left. */
    method AwaitCredit() returns (o: Outcome)
      requires Accounted() && Batched()
      modifies this`ioCompleted, this`freeIo, this`ringWaits
      modifies ring`kernel, ring`cq, ring`results, ring`stalls, ring`reaped, ring`emptyLooks, ring`faults
      ensures Accounted()
      ensures old(ring.reaped) <= ring.reaped
      ensures o == Done || o == Failed(CompletionError) || o == RingStuck
      ensures Blamed(o)
      ensures o == Done ==> freeIo > 0 && Batched()
      // it waits exactly when it must, and then records how much the kernel owes it
      ensures ringWaits == old(ringWaits) + if old(freeIo) == 0 then [old(ring.Outstanding())] else []
      ensures old(freeIo) > 0 ==> ioCompleted == old(ioCompleted) && o == Done
      ensures cfg.BatchFits() ==> o != RingStuck
      ensures !cfg.BatchFits() ==> o == if |writes| < cfg.ioDepth then Done else RingStuck
    {
      hide SharedOut, FileOrder, IssuedInBatches, Aligned, OldReaped, Succeeded, Recorded, Kept;
      Conservation();
      if freeIo == 0 {
        ringWaits := ringWaits + [ring.Outstanding()];
        ghost var before := ring.reaped;
        o := ReapIoUringCq(1);
        if o != Done {
          return;
        }
        if cfg.BatchFits() && cfg.batch == cfg.ioDepth {
          OldReapedGrows(before, ring.reaped, |issued|, cfg.ioDepth);
        }
      }
      o := Done;
    }

    /** Moves the file cursor past the n-th block. */
    method StepFileCursor(ghost n: nat)
      requires cfg.Valid() && curOffset == After(n, cfg.geometry.bs, cfg.geometry.fileSize)
      modifies this`curOffset
      ensures curOffset == After(n + 1, cfg.geometry.bs, cfg.geometry.fileSize)
    {
      MachineCursorsExact(n, cfg.geometry.bs, cfg.geometry.fileSize);
      curOffset := (curOffset + cfg.geometry.bs) % TWO_TO_THE_64;
      if (curOffset + cfg.geometry.bs) % TWO_TO_THE_64 >= cfg.geometry.fileSize {
        curOffset := 0;
      }
    }

    /** A submission slot is free at the first request, so the retry loop around it never repeats. */
    method AcquireSlot()
      requires AtRest()
      modifies ring`next, ring`queued
      ensures ring.Valid()
      ensures ring.next == old(ring.next) + 1 && ring.queued == old(ring.queued) + 1
    {
      Conservation();
      var ok := ring.GetSqe();
      assert ok;
    }

    /** Fills one submission slot with a write at the file cursor and takes one credit for it. */
    method Prepare(source: Source)
      requires AtRest()
      modifies this`sqeQueued, this`curOffset, this`freeIo, this`writes, this`iovBase
      modifies ring`next, ring`queued
      ensures Accounted()
      ensures writes == old(writes) + [Write(source, old(curOffset))] && iovBase == source
      ensures sqeQueued == old(sqeQueued) + 1 && freeIo == old(freeIo) - 1
    {
      hide SharedOut, AllWithin, IssuedInBatches, Aligned, OldReaped, Succeeded, Recorded, Kept;
      AcquireSlot();
      ghost var n := |writes|;
      iovBase := source;
      if cfg.BatchFits() {
        IssuedGrows(issued, writes, Write(source, curOffset), cfg.batch);
      }
      writes := writes + [Write(source, curOffset)];
      StepFileCursor(n);
      freeIo := freeIo - 1;
      sqeQueued := sqeQueued + 1;
    }

    /** do_io_io_uring: `ticks` is the number of iterations before the runtime is exceeded. */
    method DoIoIoUring(ticks: nat) returns (o: Outcome)
      requires Launched()
      modifies this, ring
      ensures Accounted()
      // one write per iteration, each at the cursor of the copier's file
      ensures forall k :: 0 <= k < |writes| ==>
        writes[k] == Write(DataBuffer, FileOffset(k))
      // and the kernel takes them as they were prepared
      ensures issued <= writes
      ensures o == Done ==> AtRest() && |writes| == ticks
      ensures stopped <==> o == Done
      ensures o == Done || o == Failed(CompletionError) || o == RingStuck
      // it fails exactly if it has seen a failed write, which is not counted
      ensures o == Failed(CompletionError) <==> ring.faults > 0
      ensures o == Failed(CompletionError) ==> ring.HeadFailed()
      // it deadlocks exactly when the batch can never be filled within the credits
      ensures cfg.BatchFits() ==> o != RingStuck
      ensures !cfg.BatchFits() ==> o == if ticks < cfg.ioDepth then Done else RingStuck
    {
      hide SharedOut, FileOrder, AllWithin, IssuedInBatches, Aligned, OldReaped, Succeeded, Recorded, Kept;
      for t := 0 to ticks
        invariant AtRest() && |writes| == t && !stopped && ring.faults == 0
        invariant forall k :: 0 <= k < |writes| ==> writes[k].source == DataBuffer
        invariant !cfg.BatchFits() ==> t < cfg.ioDepth
      {
        o := QueueWrite(DataBuffer);
        if o != Done {
          FileOffsets();
          IssuedAsPrepared();
          return;
        }
      }
      stopped := true;
      FileOffsets();
      IssuedAsPrepared();
      o := Done;
    }

    /** Where the k-th block belongs in the file. */
    function FileOffset(k: nat): nat
      requires cfg.Valid()
    {
      cfg.geometry.bs * (k % Period(cfg.geometry.bs, cfg.geometry.fileSize))
    }

    /** The file offsets of all prepared writes in closed form. */
    lemma FileOffsets()
      requires Accounted()
      ensures forall k :: 0 <= k < |writes| ==> writes[k].fileOffset == FileOffset(k)
    {
      forall k | 0 <= k < |writes| ensures writes[k].fileOffset == FileOffset(k) {
        CursorClosedForm(k, cfg.geometry.bs, cfg.geometry.fileSize);
      }
    }

    /** One buffer for all blocks makes the shared iovec harmless. */
    lemma IssuedAsPrepared()
      requires Accounted()
      requires forall k :: 0 <= k < |writes| ==> writes[k].source == DataBuffer
      ensures issued <= writes
    {
      NothingIssued();
    }

    // ------------------------------------------------------------------ RDMA reads feeding writes

    /** What every path of the RDMA loops keeps, error exits included. */
    ghost predicate RdmaAccounted()
      reads this, ring, qp
    {
      && Accounted()
      && qp.Valid() && qp.maxSend == cfg.rdmaDepth && qp.cqCapacity == 2 * cfg.rdmaDepth
      && PoolOrder(qp.posted, cfg.geometry)
      && CopierLog(writes, cfg.geometry)
      && |writes| <= qp.polled && ReadsSucceeded(qp.statuses, |writes|)
      && qp.asked <= {16}
      && AllWithin(rdmaWaits, cfg.rdmaDepth, cfg.rdmaDepth)
    }

    /** Every polled read has become a write. */
    ghost predicate CaughtUp()
      reads this, ring, qp
    {
      RdmaAccounted() && AtRest() && |writes| == qp.polled
    }

    /** The loop head of do_io_user_rdma. */
    ghost predicate RdmaHead()
      reads this, ring, qp
    {
      && CaughtUp()
      && rdmaPosted == |qp.posted|
      && freeRdma > 0
      && freeRdma + |qp.sendq| == cfg.rdmaDepth
      // since every sixteenth post, the completion queue has been seen empty
      && rdmaPosted - rdmaPosted % 16 <= qp.drainedAt
    }

    /** The next completion polled is of a read that failed. */
    ghost predicate ReadFailed()
      reads this`writes, qp`statuses
    {
      |writes| < |qp.statuses| && !qp.statuses[|writes|]
    }

    lemma NoneFailed()
      requires CaughtUp()
      ensures !ReadFailed()
    {
    }

    /** Every kind of failure is reported exactly if a call answered with it. */
    twostate predicate RdmaBlamed(o: Outcome)
      reads this, ring, qp
    {
      && Blamed(o)
      && qp.pollErrors == old(qp.pollErrors) + (if o == Failed(PollError) then 1 else 0)
      && qp.postErrors == old(qp.postErrors) + (if o == Failed(PostError) then 1 else 0)
      && (o == Failed(ReadError) <==> ReadFailed() && o != Failed(CompletionError) && o != RingStuck)
    }

    lemma LaunchedAtHead()
      requires Launched()
      ensures RdmaHead()
    {
    }

    /** Where the k-th block waits in the pool. */
    function PoolOffset(k: nat): nat
      requires cfg.Valid()
    {
      cfg.geometry.bs * (k % Period(cfg.geometry.bs, cfg.geometry.poolSize))
    }

    /** Conservation and order over the whole pipeline at every loop head: no read and no write is
        lost or counted twice, reads and writes both follow block order, and neither completion
        queue can overflow. */
    lemma PipelineState()
      requires RdmaHead()
      ensures freeRdma + |qp.sendq| == cfg.rdmaDepth
      ensures rdmaPosted == |qp.sendq| + |writes|
      ensures |writes| == sqeQueued + |ring.kernel| + |ring.cq| + ioCompleted
      ensures ioCompleted == |writes| - (cfg.ioDepth - freeIo) && |writes| - ioCompleted < cfg.ioDepth
      ensures rdmaPosted - rdmaPosted % 16 <= qp.drainedAt <= rdmaPosted
      ensures qp.prompt ==> |writes| >= rdmaPosted - rdmaPosted % 16
      ensures forall k :: 0 <= k < |writes| ==> qp.statuses[k]
      ensures forall i :: 0 <= i < |ring.reaped| ==> ring.results[ring.reaped[i]] >= 0
      ensures qp.ready <= qp.maxSend < qp.cqCapacity && ring.Outstanding() <= ring.entries
      ensures forall k :: 0 <= k < |writes| ==>
        writes[k] == Write(Memory(cfg.geometry.rmtAddr + PoolOffset(k)), FileOffset(k))
      ensures |issued| == |writes| - sqeQueued
      ensures forall k :: 0 <= k < |issued| ==>
        && cfg.BatchFits()
        && issued[k] ==
             Write(Memory(cfg.geometry.rmtAddr + PoolOffset(BatchEnd(k, cfg.batch))), FileOffset(k))
      ensures forall i :: 0 <= i < |qp.sendq| ==>
        qp.sendq[i] == ReadAt(PoolOffset(|writes| + i), cfg.geometry)
    {
      hide SharedOut, FileOrder, AllWithin, BatchEnd, Aligned, OldReaped;
      Conservation();
      IssuedClosedForm();
      CopyClosedForm(|writes|, cfg.geometry);
      forall i | 0 <= i < |qp.sendq|
        ensures qp.sendq[i] == ReadAt(PoolOffset(|writes| + i), cfg.geometry)
      {
        assert qp.sendq[i] == qp.posted[|writes| + i];
        CursorClosedForm(|writes| + i, cfg.geometry.bs, cfg.geometry.poolSize);
      }
    }

    /** What the kernel is given: write k goes to its own place in the file, but takes the block that
        the iovec pointed to when its batch was submitted, the last of the batch. */
    lemma IssuedClosedForm()
      requires RdmaAccounted()
      ensures forall k :: 0 <= k < |issued| ==>
        && cfg.BatchFits()
        && issued[k] ==
             Write(Memory(cfg.geometry.rmtAddr + PoolOffset(BatchEnd(k, cfg.batch))), FileOffset(k))
    {
      hide SharedOut, FileOrder, AllWithin, BatchEnd, Aligned, OldReaped, Succeeded, Recorded, Kept;
      if issued != [] {
        NothingIssued();
        CopyClosedForm(|writes|, cfg.geometry);
      }
    }

    lemma NothingIssued()
      requires Accounted()
      ensures !cfg.BatchFits() ==> issued == []
    {
      Conservation();
    }

    /** One reaped read becomes the copier's next write. */
    method CopyOne(wc: Wc) returns (o: Outcome)
      requires RdmaAccounted() && AtRest() && |writes| < qp.polled
      requires wc.wrId == qp.posted[|writes|].wrId && qp.statuses[|writes|]
      modifies this`sqeQueued, this`curOffset, this`ioCompleted, this`freeIo, this`writes, this`ringWaits
      modifies this`iovBase, this`issued, ring
      ensures RdmaAccounted()
      ensures old(ring.reaped) <= ring.reaped
      ensures |writes| == old(|writes|) + 1 && iovBase == Memory(wc.wrId)
      ensures Blamed(o)
      ensures o == Done || o == Failed(CompletionError) || o == RingStuck
      ensures o == Done ==> AtRest()
      ensures cfg.BatchFits() ==> o != RingStuck
      ensures !cfg.BatchFits() ==> o == if |writes| < cfg.ioDepth then Done else RingStuck
    {
      hide SharedOut, FileOrder, AllWithin, IssuedInBatches, Aligned, OldReaped, Succeeded, Recorded, Kept;
      CopyClosedForm(|writes|, cfg.geometry);
      o := QueueWrite(Memory(wc.wrId));
    }

    /** The loop over one poll's completions. */
    method CopyPolled(wcs: seq<Wc>) returns (o: Outcome)
      requires RdmaAccounted() && AtRest() && |writes| + |wcs| == qp.polled
      requires InPostingOrder(wcs, qp.posted, |writes|)
      requires forall i :: 0 <= i < |wcs| ==> wcs[i].ok == qp.statuses[|writes| + i]
      modifies this`sqeQueued, this`curOffset, this`ioCompleted, this`freeIo, this`writes, this`ringWaits
      modifies this`iovBase, this`issued, ring
      ensures RdmaAccounted()
      ensures old(ring.reaped) <= ring.reaped
      // it stops at the first read that failed, or is done with all of them
      ensures o == Done ==> CaughtUp() && forall i :: 0 <= i < |wcs| ==> wcs[i].ok
      ensures o == Failed(ReadError) ==>
        var i := |writes| - old(|writes|);
        0 <= i < |wcs| && !wcs[i].ok && forall j :: 0 <= j < i ==> wcs[j].ok
      ensures RdmaBlamed(o) && o != Failed(PollError)
      ensures o != RdmaStuck && o != Failed(PostQueueFull) && o != Failed(PostError)
      ensures cfg.BatchFits() ==> o != RingStuck
      ensures !cfg.BatchFits() ==>
        && (o == RingStuck ==> |writes| == cfg.ioDepth)
        && (o == Done ==> |writes| < cfg.ioDepth)
    {
      hide SharedOut, FileOrder, PoolOrder, CopierLog, AllWithin, IssuedInBatches, Aligned, OldReaped, Succeeded, Recorded, Kept;
      for i := 0 to |wcs|
        invariant RdmaAccounted() && AtRest()
        invariant old(ring.reaped) <= ring.reaped
        invariant |writes| == old(|writes|) + i
        invariant forall j :: 0 <= j < i ==> wcs[j].ok
        invariant ring.faults == old(ring.faults)
        invariant !cfg.BatchFits() ==> |writes| < cfg.ioDepth
      {
        if !wcs[i].ok {
          return Failed(ReadError);
        }
        o := CopyOne(wcs[i]);
        if o != Done {
          return;
        }
      }
      o := Done;
    }

    /** reap_rdma_cq: polls until the completion queue is empty, again until `min` reads are done. */
    method ReapRdmaCq(min: nat) returns (o: Outcome)
      requires CaughtUp()
      modifies this`sqeQueued, this`curOffset, this`ioCompleted, this`freeIo, this`freeRdma
      modifies this`writes, this`iovBase, this`issued, this`ringWaits
      modifies ring, qp`sendq, qp`ready, qp`stalls, qp`polled
      modifies qp`statuses, qp`drainedAt, qp`emptyPolls, qp`asked, qp`pollErrors
      ensures RdmaAccounted()
      ensures old(ring.reaped) <= ring.reaped
      ensures o == Done ==>
        && CaughtUp()
        && freeRdma + |qp.sendq| == old(freeRdma + |qp.sendq|)
        && qp.polled >= old(qp.polled) + min
        && qp.ready == 0 && qp.drainedAt == |qp.posted|
      ensures RdmaBlamed(o) && old(qp.drainedAt) <= qp.drainedAt
      // without a minimum it is over at the first poll that finds nothing
      ensures o == Done && min == 0 ==> qp.emptyPolls == old(qp.emptyPolls) + 1
      ensures o == RdmaStuck ==> old(|qp.sendq|) < min
      ensures cfg.BatchFits() ==> o != RingStuck
      ensures o != Failed(PostQueueFull) && o != Failed(PostError)
      ensures !cfg.BatchFits() && o == RingStuck ==> |writes| == cfg.ioDepth
    {
      hide SharedOut, FileOrder, PoolOrder, CopierLog, AllWithin, IssuedInBatches, Aligned, OldReaped, Succeeded, Recorded, Kept, ReadFailed, Unpolled, ReadsSucceeded;
      NoneFailed();
      var reaped := 0;
      while true
        invariant CaughtUp()
        invariant old(ring.reaped) <= ring.reaped
        invariant freeRdma + |qp.sendq| == old(freeRdma + |qp.sendq|)
        invariant qp.polled == old(qp.polled) + reaped
        invariant RdmaBlamed(Done) && old(qp.drainedAt) <= qp.drainedAt
        invariant 0 <= reaped && (min == 0 ==> qp.emptyPolls == old(qp.emptyPolls))
        decreases qp.stalls
      {
        var n;
        o, n := PollUntilEmpty();
        if o != Done {
          return;
        }
        reaped := reaped + n;
        if reaped >= min {
          return Done;
        }
        if qp.sendq == [] {
          return RdmaStuck;
        }
      }
    }

    /** The polling loop: ends at the first poll that finds nothing. */
    method PollUntilEmpty() returns (o: Outcome, reaped: nat)
      requires CaughtUp()
      modifies this`sqeQueued, this`curOffset, this`ioCompleted, this`freeIo, this`freeRdma
      modifies this`writes, this`iovBase, this`issued, this`ringWaits
      modifies ring, qp`sendq, qp`ready, qp`stalls, qp`polled
      modifies qp`statuses, qp`drainedAt, qp`emptyPolls, qp`asked, qp`pollErrors
      ensures RdmaAccounted()
      ensures old(ring.reaped) <= ring.reaped
      ensures o == Done ==>
        && CaughtUp()
        && freeRdma + |qp.sendq| == old(freeRdma + |qp.sendq|)
        && qp.polled == old(qp.polled) + reaped
        && qp.ready == 0 && qp.drainedAt == |qp.posted|
        && qp.emptyPolls == old(qp.emptyPolls) + 1
        && (qp.sendq != [] ==> qp.stalls < old(qp.stalls))
      ensures RdmaBlamed(o) && old(qp.drainedAt) <= qp.drainedAt
      ensures o != RdmaStuck && o != Failed(PostQueueFull) && o != Failed(PostError)
      ensures cfg.BatchFits() ==> o != RingStuck
      ensures !cfg.BatchFits() && o == RingStuck ==> |writes| == cfg.ioDepth
    {
      hide SharedOut, FileOrder, PoolOrder, CopierLog, AllWithin, IssuedInBatches, Aligned, OldReaped, Succeeded, Recorded, Kept, ReadFailed, Unpolled, ReadsSucceeded;
      NoneFailed();
      reaped := 0;
      while true
        invariant CaughtUp()
        invariant old(ring.reaped) <= ring.reaped
        invariant freeRdma + |qp.sendq| == old(freeRdma + |qp.sendq|)
        invariant qp.polled == old(qp.polled) + reaped
        invariant qp.stalls <= old(qp.stalls) && qp.emptyPolls == old(qp.emptyPolls)
        invariant RdmaBlamed(Done) && old(qp.drainedAt) <= qp.drainedAt
        decreases |qp.sendq|
      {
        var n;
        o, n := PollOnce();
        if o != Done || n == 0 {
          return;
        }
        reaped := reaped + n;
      }
    }

    /** One poll: its reads become writes and their credits return. */
    method PollOnce() returns (o: Outcome, n: nat)
      requires CaughtUp()
      modifies this`sqeQueued, this`curOffset, this`ioCompleted, this`freeIo, this`freeRdma
      modifies this`writes, this`iovBase, this`issued, this`ringWaits
      modifies ring, qp`sendq, qp`ready, qp`stalls, qp`polled
      modifies qp`statuses, qp`drainedAt, qp`emptyPolls, qp`asked, qp`pollErrors
      ensures RdmaAccounted()
      ensures old(ring.reaped) <= ring.reaped
      ensures o == Done ==>
        && CaughtUp()
        && freeRdma == old(freeRdma) + n
        && |qp.sendq| == old(|qp.sendq|) - n
        && qp.polled == old(qp.polled) + n
        && qp.stalls <= old(qp.stalls)
        && n <= 16
        && qp.emptyPolls == old(qp.emptyPolls) + (if n == 0 then 1 else 0)
        && (n == 0 ==> qp.ready == 0 && qp.drainedAt == |qp.posted|)
        && (n == 0 && qp.sendq != [] ==> qp.stalls < old(qp.stalls))
      ensures RdmaBlamed(o) && old(qp.drainedAt) <= qp.drainedAt
      ensures o != RdmaStuck && o != Failed(PostQueueFull) && o != Failed(PostError)
      ensures cfg.BatchFits() ==> o != RingStuck
      ensures !cfg.BatchFits() && o == RingStuck ==> |writes| == cfg.ioDepth
    {
      hide SharedOut, FileOrder, PoolOrder, CopierLog, AllWithin, IssuedInBatches, Aligned, OldReaped, Succeeded, Recorded, Kept;
      var poll := qp.PollCq(POLL_BATCH);
      if poll.PollFailed? {
        return Failed(PollError), 0;
      }
      n := |poll.wcs|;
      o := CopyPolled(poll.wcs);
      if o == Done {
        freeRdma := freeRdma + n;
      }
    }

    /** do_io_user_rdma, the client's loop: `ticks` iterations before the runtime is exceeded. */
    method DoIoUserRdma(ticks: nat) returns (o: Outcome)
      requires Launched()
      modifies this, ring, qp
      // at every loop head and every exit the prepared writes are those of the one-block copier
      ensures RdmaAccounted()
      ensures o == Done ==> RdmaHead() && rdmaPosted == ticks
      ensures stopped <==> o == Done
      // at every loop head the completion queue has been seen empty since every sixteenth post; if no
      // poll misses a read that is due, all reads up to then have become writes
      ensures o == Done ==> ticks - ticks % 16 <= qp.drainedAt <= ticks
      ensures o == Done && qp.prompt ==> |writes| >= ticks - ticks % 16
      // it fails exactly if a call has failed, or a completion was seen that reports a failure
      ensures o == Failed(CompletionError) <==> ring.faults > 0
      ensures o == Failed(CompletionError) ==> ring.HeadFailed()
      ensures o == Failed(PollError) <==> qp.pollErrors > 0
      ensures o == Failed(PostError) <==> qp.postErrors > 0
      ensures o == Failed(ReadError) <==> ReadFailed() && ring.faults == 0 && o != RingStuck
      // a read is never refused for want of a send slot, and no wait is for nothing
      ensures o != Failed(PostQueueFull) && o != RdmaStuck
      ensures cfg.BatchFits() ==> o != RingStuck
      ensures !cfg.BatchFits() ==>
        && (o == RingStuck ==> |writes| == cfg.ioDepth)
        && (o == Done ==> ticks < cfg.ioDepth + cfg.rdmaDepth)
    {
      hide SharedOut, FileOrder, PoolOrder, CopierLog, AllWithin, IssuedInBatches, Aligned, OldReaped, Succeeded, Recorded, Kept, ReadFailed, Unpolled, ReadsSucceeded, Copy, Period, ReadAt;
      LaunchedAtHead();
      var offset: nat := 0;
      for t := 0 to ticks
        invariant RdmaHead() && rdmaPosted == t && !stopped
        invariant ring.faults == 0 && qp.pollErrors == 0 && qp.postErrors == 0
        invariant offset == After(t, cfg.geometry.bs, cfg.geometry.poolSize)
        invariant !cfg.BatchFits() ==> |writes| < cfg.ioDepth
      {
        o, offset := PostAndReap(offset);
        if o != Done {
          return;
        }
      }
      NoneFailed();
      stopped := true;
      o := Done;
    }

    /** One iteration of the loop: post a read, reap at every sixteenth, pay for it. */
    method PostAndReap(offset: nat) returns (o: Outcome, next: nat)
      requires RdmaHead()
      requires offset == After(rdmaPosted, cfg.geometry.bs, cfg.geometry.poolSize)
      modifies this`rdmaPosted, this`sqeQueued, this`curOffset, this`ioCompleted, this`freeIo, this`freeRdma
      modifies this`writes, this`iovBase, this`issued, this`ringWaits, this`rdmaWaits
      modifies ring, qp
      ensures RdmaAccounted() && RdmaBlamed(o)
      ensures o == Done ==>
        && RdmaHead() && rdmaPosted == old(rdmaPosted) + 1
        && next == After(rdmaPosted, cfg.geometry.bs, cfg.geometry.poolSize)
      ensures o != Failed(PostQueueFull) && o != RdmaStuck
      ensures cfg.BatchFits() ==> o != RingStuck
      ensures !cfg.BatchFits() && o == RingStuck ==> |writes| == cfg.ioDepth
    {
      hide SharedOut, FileOrder, PoolOrder, CopierLog, AllWithin, IssuedInBatches, Aligned, OldReaped, Succeeded, Recorded, Kept, ReadFailed, Unpolled, ReadsSucceeded, After, Copy, Period, ReadAt;
      o, next := PostNext(offset);
      if o != Done {
        return;
      }
      o := OpportunisticReap();
      if o != Done {
        return;
      }
      o := TakeCredit();
    }

    /** Moves the pool cursor past the n-th slot. */
    method StepPoolCursor(offset: nat, ghost n: nat) returns (next: nat)
      requires cfg.Valid() && offset == After(n, cfg.geometry.bs, cfg.geometry.poolSize)
      ensures next == After(n + 1, cfg.geometry.bs, cfg.geometry.poolSize)
    {
      MachineCursorsExact(n, cfg.geometry.bs, cfg.geometry.poolSize);
      next := (offset + cfg.geometry.bs) % TWO_TO_THE_32;
      if (next + cfg.geometry.bs) % TWO_TO_THE_64 >= cfg.geometry.poolSize {
        next := 0;
      }
    }

    /** Posts the read of the slot at the pool cursor and moves the cursor. */
    method PostNext(offset: nat) returns (o: Outcome, next: nat)
      requires RdmaHead()
      requires offset == After(rdmaPosted, cfg.geometry.bs, cfg.geometry.poolSize)
      modifies this`rdmaPosted, qp`sendq, qp`posted, qp`postErrors
      ensures RdmaAccounted()
      ensures rdmaPosted == old(rdmaPosted) + 1
      ensures next == After(rdmaPosted, cfg.geometry.bs, cfg.geometry.poolSize)
      ensures o == Done || o == Failed(PostError)
      ensures RdmaBlamed(o) && |writes| == qp.polled
      ensures o == Done ==>
        && CaughtUp()
        && qp.posted == old(qp.posted) + [ReadAt(offset, cfg.geometry)]
        && rdmaPosted == |qp.posted|
        && freeRdma + |qp.sendq| == cfg.rdmaDepth + 1
    {
      hide SharedOut, FileOrder, CopierLog, AllWithin, IssuedInBatches, Aligned, OldReaped, Succeeded, Recorded, Kept;
      next := StepPoolCursor(offset, rdmaPosted);
      rdmaPosted := rdmaPosted + 1;
      var posting := qp.PostSend(ReadAt(offset, cfg.geometry));
      if posting == QueueFull {
        o := Failed(PostQueueFull);
      } else if posting == DeviceError {
        o := Failed(PostError);
      } else {
        o := Done;
      }
    }

    /** Every RDMA_REAP_FREQ posts the worker reaps what happens to be there. The read just posted
        has not been paid for yet, so the credits may exceed the depth, by one at most. */
    method OpportunisticReap() returns (o: Outcome)
      requires CaughtUp() && freeRdma > 0 && freeRdma + |qp.sendq| == cfg.rdmaDepth + 1
      modifies this`sqeQueued, this`curOffset, this`ioCompleted, this`freeIo, this`freeRdma
      modifies this`writes, this`iovBase, this`issued, this`ringWaits
      modifies ring, qp`sendq, qp`ready, qp`stalls, qp`polled
      modifies qp`statuses, qp`drainedAt, qp`emptyPolls, qp`asked, qp`pollErrors
      ensures RdmaAccounted()
      ensures old(ring.reaped) <= ring.reaped
      ensures o == Done ==>
        && CaughtUp()
        && 0 < freeRdma <= cfg.rdmaDepth + 1
        && freeRdma + |qp.sendq| == cfg.rdmaDepth + 1
        && (if rdmaPosted % RDMA_REAP_FREQ == 0 then qp.ready == 0 else freeRdma == old(freeRdma))
        && (if rdmaPosted % 16 == 0 then qp.drainedAt == |qp.posted| else qp.drainedAt == old(qp.drainedAt))
        && qp.emptyPolls == old(qp.emptyPolls) + (if rdmaPosted % 16 == 0 then 1 else 0)
      ensures RdmaBlamed(o)
      ensures o != Failed(PostQueueFull) && o != RdmaStuck
      ensures cfg.BatchFits() ==> o != RingStuck
      ensures !cfg.BatchFits() && o == RingStuck ==> |writes| == cfg.ioDepth
    {
      hide SharedOut, FileOrder, PoolOrder, CopierLog, AllWithin, IssuedInBatches, Aligned, OldReaped, Succeeded, Recorded, Kept;
      o := Done;
      if rdmaPosted % RDMA_REAP_FREQ == 0 {
        o := ReapRdmaCq(0);
      }
    }

    /** Pays for the read; without a credit left the worker waits, with every slot in flight. */
    method TakeCredit() returns (o: Outcome)
      requires CaughtUp() && rdmaPosted == |qp.posted|
      requires freeRdma > 0 && freeRdma + |qp.sendq| == cfg.rdmaDepth + 1
      requires rdmaPosted - rdmaPosted % 16 <= qp.drainedAt
      modifies this`sqeQueued, this`curOffset, this`ioCompleted, this`freeIo, this`freeRdma
      modifies this`writes, this`iovBase, this`issued, this`ringWaits, this`rdmaWaits
      modifies ring, qp`sendq, qp`ready, qp`stalls, qp`polled
      modifies qp`statuses, qp`drainedAt, qp`emptyPolls, qp`asked, qp`pollErrors
      ensures RdmaAccounted()
      ensures old(ring.reaped) <= ring.reaped
      ensures o == Done ==> RdmaHead()
      ensures RdmaBlamed(o)
      // it waits exactly when the last credit is gone, and then every slot is in flight
      ensures rdmaWaits == old(rdmaWaits) + if old(freeRdma) == 1 then [cfg.rdmaDepth] else []
      ensures old(freeRdma) > 1 ==>
        o == Done && freeRdma == old(freeRdma) - 1 && qp.polled == old(qp.polled) && writes == old(writes)
      ensures o != Failed(PostQueueFull) && o != RdmaStuck
      ensures cfg.BatchFits() ==> o != RingStuck
      ensures !cfg.BatchFits() && o == RingStuck ==> |writes| == cfg.ioDepth
    {
      hide SharedOut, FileOrder, PoolOrder, CopierLog, IssuedInBatches, Aligned, OldReaped, Succeeded, Recorded, Kept, ReadFailed, Unpolled, ReadsSucceeded, After;
      freeRdma := freeRdma - 1;
      if freeRdma > 0 {
        NoneFailed();
        return Done;
      }
      rdmaWaits := rdmaWaits + [|qp.sendq|];
      o := ReapRdmaCq(1);
    }

    /** The reads in flight are a window of the cyclic slot sequence, so they target pairwise
        disjoint pool ranges at every moment if the depth is at most the number of slots. */
    lemma InFlightDisjoint()
      requires RdmaAccounted()
      ensures |qp.sendq| <= Period(cfg.geometry.bs, cfg.geometry.poolSize)
         <==> forall i, j :: 0 <= i < j < |qp.sendq| ==>
                Disjoint(qp.sendq[i].dest, qp.sendq[j].dest, cfg.geometry.bs)
      ensures cfg.rdmaDepth <= Period(cfg.geometry.bs, cfg.geometry.poolSize)
         ==> forall i, j :: 0 <= i < j < |qp.sendq| ==>
                Disjoint(qp.sendq[i].dest, qp.sendq[j].dest, cfg.geometry.bs)
    {
      hide SharedOut, FileOrder, CopierLog, AllWithin, IssuedInBatches, Aligned, OldReaped, After, Period, Succeeded, Recorded, Kept;
      var bs, size, base := cfg.geometry.bs, cfg.geometry.poolSize, cfg.geometry.poolAddr;
      WindowDisjointIff(qp.polled, |qp.sendq|, bs, size);
      forall i | 0 <= i < |qp.sendq| ensures qp.sendq[i].dest == base + After(qp.polled + i, bs, size) {
        assert qp.sendq[i] == qp.posted[qp.polled + i];
      }
      if WindowDisjoint(qp.polled, |qp.sendq|, bs, size) {
        forall i, j | 0 <= i < j < |qp.sendq| ensures Disjoint(qp.sendq[i].dest, qp.sendq[j].dest, bs) {
          assert Disjoint(After(qp.polled + i, bs, size), After(qp.polled + j, bs, size), bs);
        }
      } else {
        var i: nat, j: nat :| qp.polled <= i < j < qp.polled + |qp.sendq|
          && !Disjoint(After(i, bs, size), After(j, bs, size), bs);
        assert !Disjoint(qp.sendq[i - qp.polled].dest, qp.sendq[j - qp.polled].dest, bs);
      }
    }

    /** "Each submitted write takes its block from where its read put it" is not what the code does:
        its address is a remote one, and that of the last block of its batch. It holds exactly when
        both sides have the pool at the same address and a batch, or the pool, is a single block; or
        a run broke off with one write submitted, whose address happens to be right. */
    lemma WritesReadTheirSlotIff()
      requires RdmaAccounted()
      ensures (forall k :: 0 <= k < |issued| ==> issued[k].source == Memory(qp.posted[k].dest))
         <==> || issued == []
              || (&& cfg.geometry.rmtAddr == cfg.geometry.poolAddr
                  && (cfg.batch == 1 || Period(cfg.geometry.bs, cfg.geometry.poolSize) == 1))
              || (&& |issued| == 1 && cfg.batch > 0
                  && cfg.geometry.rmtAddr + PoolOffset(cfg.batch - 1) == cfg.geometry.poolAddr)
      ensures CaughtUp() && |issued| == 1 ==> cfg.batch == 1
    {
      hide SharedOut, FileOrder, CopierLog, AllWithin, OldReaped, BatchEnd, Period, RightAddress, IssuedInBatches, Copy, CeilDiv, Succeeded, Recorded, Kept;
      var g, p, b := cfg.geometry, Period(cfg.geometry.bs, cfg.geometry.poolSize), cfg.batch;
      NothingIssued();
      IssuedClosedForm();
      if issued != [] {
        RightAddressIff(|issued|, b, p, g.bs, g.rmtAddr, g.poolAddr);
        forall k: nat | k < |issued|
          ensures issued[k].source == Memory(qp.posted[k].dest)
             <==> RightAddress(k, b, p, g.bs, g.rmtAddr, g.poolAddr)
        {
          CursorClosedForm(k, g.bs, g.poolSize);
          Addresses(k, g.rmtAddr, g.poolAddr);
        }
        if b > 1 { SmallMod(1, b); }
      }
    }

    /** The two addresses of block k, in a pool at `at` and in one at `from`. */
    lemma Addresses(k: nat, from: nat, at: nat)
      requires cfg.Valid() && cfg.batch > 0
      ensures RightAddress(k, cfg.batch, Period(cfg.geometry.bs, cfg.geometry.poolSize), cfg.geometry.bs, from, at)
         <==> from + PoolOffset(BatchEnd(k, cfg.batch)) == at + PoolOffset(k)
    {
    }

    /** The submitted writes go to the copier's places in its order; they are its writes exactly when a
        batch, or the pool, is a single block. (Or a run broke off after one submitted write, and the
        batch ends in the slot of block 0.) */
    lemma RefinesCopierIff()
      requires RdmaAccounted()
      ensures forall k :: 0 <= k < |issued| ==> issued[k].fileOffset == Copy(|writes|, cfg.geometry).log[k].fileOffset
      ensures issued <= Copy(|writes|, cfg.geometry).log
         <==> || issued == [] || cfg.batch == 1 || Period(cfg.geometry.bs, cfg.geometry.poolSize) == 1
              || (|issued| == 1 && cfg.batch > 0 && PoolOffset(cfg.batch - 1) == 0)
      ensures CaughtUp() && |issued| == 1 ==> cfg.batch == 1
    {
      hide SharedOut, FileOrder, AllWithin, OldReaped, BatchEnd, Period, RightAddress, IssuedInBatches, PoolOrder, Copy, CeilDiv, Succeeded, Recorded, Kept;
      var g, p, b := cfg.geometry, Period(cfg.geometry.bs, cfg.geometry.poolSize), cfg.batch;
      CopyClosedForm(|writes|, g);
      NothingIssued();
      IssuedClosedForm();
      if issued != [] {
        RightAddressIff(|issued|, b, p, g.bs, 0, 0);
        assert issued <= writes <==> forall k: nat :: k < |issued| ==> issued[k] == writes[k];
        forall k: nat | k < |issued| ensures issued[k] == writes[k] <==> RightAddress(k, b, p, g.bs, 0, 0) {
          Addresses(k, 0, 0);
        }
        if b > 1 { SmallMod(1, b); }
      }
    }

    /** Two runs over the same geometry, whatever their depths, batches and schedules, prepare the
        same writes as far as the shorter of them got. */
    lemma SchedulesAgree(other: Worker)
      requires RdmaAccounted() && other.RdmaAccounted() && other.cfg.geometry == cfg.geometry
      ensures writes <= other.writes || other.writes <= writes
    {
      if |writes| <= |other.writes| {
        CopyGrows(|writes|, |other.writes|, cfg.geometry);
      } else {
        CopyGrows(|other.writes|, |writes|, cfg.geometry);
      }
    }

    /** The write of block k has not been reaped. */
    ghost predicate Unfinished(k: nat)
      reads this, ring
    {
      k < |writes| && k !in ring.reaped
    }

    /** No read in flight targets the pool slot of an unfinished write. */
    ghost predicate SlotsApart()
      requires CaughtUp()
      reads this, ring, qp
    {
      forall k: nat, i: nat :: Unfinished(k) && i < |qp.sendq| ==>
        Disjoint(qp.posted[k].dest, qp.sendq[i].dest, cfg.geometry.bs)
    }

    /** If writes are reaped in submission order, the slots are apart exactly as long as reads in
        flight and unfinished writes together fit into the cycle of slots; so always if the two depths
        do. */
    lemma OrderedSlotReuse()
      requires CaughtUp()
      requires forall i :: 0 <= i < |ring.reaped| ==> ring.reaped[i] == i
      ensures SlotsApart()
         <==> || |writes| == ioCompleted || qp.sendq == []
              || |writes| - ioCompleted + |qp.sendq| <= Period(cfg.geometry.bs, cfg.geometry.poolSize)
      ensures cfg.ioDepth + cfg.rdmaDepth <= Period(cfg.geometry.bs, cfg.geometry.poolSize) + 1
         ==> SlotsApart()
    {
      hide SharedOut, FileOrder, CopierLog, AllWithin, IssuedInBatches, Aligned, OldReaped, After, Period, Succeeded, Recorded, Kept;
      var bs, size, base := cfg.geometry.bs, cfg.geometry.poolSize, cfg.geometry.poolAddr;
      var c, w, n := ioCompleted, |writes|, |qp.sendq|;
      Conservation();
      WindowsDisjointIff(c, w, n, bs, size);
      forall k: nat ensures Unfinished(k) <==> c <= k < w {
        if k < c { assert ring.reaped[k] == k; }
      }
      forall i | 0 <= i < n ensures qp.sendq[i].dest == base + After(w + i, bs, size) {
        assert qp.sendq[i] == qp.posted[w + i];
      }
      forall k | 0 <= k < w ensures qp.posted[k].dest == base + After(k, bs, size) {
      }
      if WindowsDisjoint(c, w, n, bs, size) {
        forall k: nat, i: nat | Unfinished(k) && i < n ensures Disjoint(qp.posted[k].dest, qp.sendq[i].dest, bs) {
          assert Disjoint(After(k, bs, size), After(w + i, bs, size), bs);
        }
      } else {
        var k: nat, j: nat :| c <= k < w <= j < w + n && !Disjoint(After(k, bs, size), After(j, bs, size), bs);
        assert Unfinished(k) && !Disjoint(qp.posted[k].dest, qp.sendq[j - w].dest, bs);
      }
    }

    /** io_completed counts distinct submitted writes, and none that is still under way. */
    lemma CompletionsCountedOnce()
      requires Accounted()
      ensures ioCompleted == |ring.reaped| && NoRepeats(ring.reaped)
      ensures forall i :: 0 <= i < |ring.reaped| ==>
        && ring.reaped[i] < |writes| - sqeQueued
        && ring.reaped[i] !in ring.kernel
        && ring.reaped[i] !in ring.cq
    {
      ring.ReapedOnce();
    }
  }
}
