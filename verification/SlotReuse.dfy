/**
 When a pool slot or a file block is used again. The loop of do_io_user_rdma in src/benchmark.cc
 returns an RDMA credit when a block's write has been queued, not when it has completed, so a new
 read may be posted into a slot whose old block is still waiting to be written. Here the same loop is
 a step relation on values whose steps carry the answers of the two devices, so that a run can be
 exhibited as well as bounded. A run ended by an error is a prefix of one that is not.
 */
module SlotReuse {
  import opened Arithmetic
  import opened Batches
  import opened Cursors
  import opened Ids
  import opened Workers

  /** Where the worker is. */
  datatype Place =
    | Head         // the loop head of do_io_user_rdma
    | Paying       // before free_io_units_rdma--
    | Polling      // in reap_rdma_cq, before ibv_poll_cq
    | Copying      // before the next completion of a poll becomes a write
    | Submitting   // in the loop around io_uring_submit
    | Waiting      // in reap_io_uring_cq(worker, 1)

  /** Blocks are numbered in posting order, which is also the order of polling and of writing. */
  datatype State = State(
    place: Place,
    posted: nat,        // reads posted
    polled: nat,        // reads polled
    submitted: nat,     // writes handed to the kernel
    queued: nat,        // writes prepared after them
    kernel: set<nat>,   // submitted writes that have not been reaped
    freeIo: int,
    freeRdma: int,
    left: nat,          // completions of the current poll still to be copied
    credit: nat,        // completions of the current poll
    owed: bool,         // reap_rdma_cq has not reaped its minimum yet
    paid: bool,         // the newest read has been paid for
    drained: nat)       // reads posted when a poll last found nothing

  datatype Step =
    | Post
    | Pay
    | Poll(n: nat)          // ibv_poll_cq returns n completions
    | CopyOut               // get_sqe, prep_writev, counters
    | Submit(taken: nat)    // io_uring_submit takes some of the oldest
    | Refuse(ids: set<nat>) // it takes none, and reap_io_uring_cq(worker, 0) finds these complete
    | Reap(ids: set<nat>)   // the blocking reap ends with these

  function Init(cfg: Config): State {
    State(Head, 0, 0, 0, 0, {}, cfg.ioDepth, cfg.rdmaDepth, 0, 0, false, true, 0)
  }

  predicate Enabled(cfg: Config, s: State, step: Step) {
    match step
    case Post => s.place.Head?
    case Pay => s.place.Paying?
    case Poll(n) => s.place.Polling? && n <= POLL_BATCH && s.polled + n <= s.posted
    case CopyOut => s.place.Copying? && s.left > 0
    case Submit(taken) => s.place.Submitting? && 0 < taken <= s.queued
    case Refuse(ids) => s.place.Submitting? && ids <= s.kernel
    case Reap(ids) => s.place.Waiting? && ids <= s.kernel && ids != {}
  }

  /** n consecutive numbers. */
  function Blocks(first: nat, n: nat): set<nat> {
    if n == 0 then {} else Blocks(first, n - 1) + {first + (n - 1)}
  }

  /** The rest of an iteration over a poll's completions, after the submission test. */
  function AfterSubmission(s: State): State {
    if s.freeIo == 0 then s.(place := Waiting) else AfterWait(s)
  }

  /** The next completion of the poll; after the last one the poll's credits return. */
  function AfterWait(s: State): State {
    if s.left > 0 then s.(place := Copying)
    else s.(place := Polling, owed := false, freeRdma := s.freeRdma + s.credit, credit := 0)
  }

  /** Completions are reaped. */
  function Reaped(s: State, ids: set<nat>): State {
    s.(kernel := s.kernel - ids, freeIo := s.freeIo + |ids|)
  }

  function Next(cfg: Config, s: State, step: Step): State
    requires Enabled(cfg, s, step)
  {
    match step
    case Post =>
      s.(posted := s.posted + 1, paid := false, owed := false,
         place := if (s.posted + 1) % RDMA_REAP_FREQ == 0 then Polling else Paying)
    case Pay =>
      s.(freeRdma := s.freeRdma - 1, paid := true, owed := true,
         place := if s.freeRdma == 1 then Polling else Head)
    case Poll(n) =>
      if n > 0 then s.(place := Copying, polled := s.polled + n, left := n, credit := n)
      else if s.owed then s.(drained := s.posted)
      else s.(drained := s.posted, place := if s.paid then Head else Paying)
    case CopyOut =>
      var t := s.(queued := s.queued + 1, freeIo := s.freeIo - 1, left := s.left - 1);
      if t.queued == cfg.batch then t.(place := Submitting) else AfterSubmission(t)
    case Submit(taken) =>
      var t := s.(submitted := s.submitted + taken, queued := s.queued - taken,
                  kernel := s.kernel + Blocks(s.submitted, taken));
      if t.queued > 0 then t else AfterSubmission(t)
    case Refuse(ids) => Reaped(s, ids)
    case Reap(ids) => AfterWait(Reaped(s, ids))
  }

  /** Every step of the sequence is enabled when it is taken. */
  predicate Legal(cfg: Config, s: State, steps: seq<Step>)
    decreases |steps|
  {
    steps == [] || (Enabled(cfg, s, steps[0]) && Legal(cfg, Next(cfg, s, steps[0]), steps[1..]))
  }

  function Run(cfg: Config, s: State, steps: seq<Step>): State
    requires Legal(cfg, s, steps)
    decreases |steps|
  {
    if steps == [] then s else Run(cfg, Next(cfg, s, steps[0]), steps[1..])
  }

  /** Block k is in its pool slot and still needed there: read, and its write not reaped. */
  predicate Needed(s: State, k: nat) {
    k in s.kernel || s.submitted <= k < s.polled
  }

  /** The write of block k has been prepared and not reaped. */
  predicate Unfinished(s: State, k: nat) {
    k in s.kernel || s.submitted <= k < s.submitted + s.queued
  }

  /** Block k is being read. */
  predicate InFlight(s: State, k: nat) {
    s.polled <= k < s.posted
  }

  /** No read in flight is into a slot whose block is still needed. */
  ghost predicate SlotsApart(cfg: Config, s: State) {
    forall k: nat, j: nat :: Needed(s, k) && InFlight(s, j) ==>
      Disjoint(After(k, cfg.geometry.bs, cfg.geometry.poolSize),
               After(j, cfg.geometry.bs, cfg.geometry.poolSize), cfg.geometry.bs)
  }

  /** No two unfinished writes go to the same part of the file. */
  ghost predicate FileApart(cfg: Config, s: State) {
    forall k: nat, j: nat :: Unfinished(s, k) && Unfinished(s, j) && k < j ==>
      Disjoint(After(k, cfg.geometry.bs, cfg.geometry.fileSize),
               After(j, cfg.geometry.bs, cfg.geometry.fileSize), cfg.geometry.bs)
  }

  // ---------------------------------------------------------------------------- upper bound

  /** The batch is the whole depth, or nothing is ever submitted. */
  predicate InStep(cfg: Config) {
    cfg.BatchFits() ==> cfg.batch == cfg.ioDepth
  }

  /** How many writes may have been prepared since the oldest unfinished one, that one included,
      while the worker has a write credit. */
  function Lag(cfg: Config): nat
    requires cfg.ioDepth > 0
  {
    if cfg.BatchFits() then 2 * cfg.ioDepth - 2 else cfg.ioDepth - 1
  }

  /** A write credit is at hand. */
  predicate Resting(s: State) {
    !s.place.Submitting? && !s.place.Waiting?
  }

  /** The write credits. */
  ghost predicate Ring(cfg: Config, s: State) {
    && s.freeIo + s.queued + |s.kernel| == cfg.ioDepth
    && (Resting(s) ==> s.freeIo > 0 && (cfg.BatchFits() ==> s.queued < cfg.batch))
    && (s.place.Waiting? ==> s.freeIo == 0 && (cfg.BatchFits() ==> s.queued < cfg.batch))
    && (s.place.Submitting? ==> s.freeIo >= 0 && 0 < s.queued <= cfg.batch)
    && (!cfg.BatchFits() ==> s.kernel == {} && s.submitted == 0 && !s.place.Submitting?)
  }

  /** The read credits. */
  ghost predicate Reads(cfg: Config, s: State) {
    && s.submitted + s.queued + s.left == s.polled <= s.posted
    && s.freeRdma + s.posted - s.polled + s.credit == cfg.rdmaDepth + (if s.paid then 0 else 1)
    && s.left <= s.credit <= 16
    && (s.place.Head? ==> s.paid && s.freeRdma > 0)
    && (s.place.Paying? ==> !s.paid)
    && (s.place.Polling? && s.paid && !s.owed ==> s.freeRdma > 0)
    && s.freeRdma >= (if s.paid then 0 else 1)
    && (s.place.Head? || s.place.Paying? || s.place.Polling? ==> s.left == 0 && s.credit == 0)
    && (s.place.Submitting? || s.place.Waiting? ==> s.left < s.credit)
  }

  /** Before a read is paid for, it is followed by polls, up to an empty one, exactly if it is a
      sixteenth. */
  ghost predicate Drains(s: State) {
    && s.drained <= s.posted
    && (s.place.Head? ==> s.paid)
    && (!s.paid && !s.place.Paying? ==> s.posted % 16 == 0)
    && (s.paid || s.place.Paying? ==> s.posted - s.posted % 16 <= s.drained)
  }

  /** With the batch in step, what the kernel holds is younger than one depth before the queue. */
  ghost predicate Young(cfg: Config, s: State) {
    forall k :: k in s.kernel ==>
      && k < s.submitted
      && (cfg.batch == cfg.ioDepth ==>
            s.submitted + (if s.place.Submitting? then s.queued else 0) <= k + cfg.ioDepth)
  }

  /** Submissions end with whole batches. */
  ghost predicate WholeBatches(cfg: Config, s: State) {
    cfg.BatchFits() ==> Aligned(s.submitted + if s.place.Submitting? then s.queued else 0, cfg.batch)
  }

  ghost predicate Inv(cfg: Config, s: State) {
    Ring(cfg, s) && Reads(cfg, s) && Young(cfg, s) && WholeBatches(cfg, s) && Drains(s)
  }

  lemma {:induction false} BlocksExact(first: nat, n: nat)
    ensures forall k :: k in Blocks(first, n) <==> first <= k < first + n
    ensures |Blocks(first, n)| == n
  {
    if n > 0 {
      BlocksExact(first, n - 1);
    }
  }

  lemma ReapRing(cfg: Config, s: State, ids: set<nat>)
    requires Ring(cfg, s) && ids <= s.kernel && !Resting(s)
    requires s.place.Waiting? ==> ids != {}
    ensures s.place.Waiting? ==> Ring(cfg, AfterWait(Reaped(s, ids)))
    ensures s.place.Submitting? ==> Ring(cfg, Reaped(s, ids))
  {
    assert s.kernel == (s.kernel - ids) + ids;
    assert |s.kernel - ids| == |s.kernel| - |ids|;
  }

  lemma SubmitRing(cfg: Config, s: State, taken: nat)
    requires cfg.Valid() && Inv(cfg, s) && Enabled(cfg, s, Submit(taken))
    ensures Ring(cfg, Next(cfg, s, Submit(taken)))
  {
    BlocksExact(s.submitted, taken);
    assert s.kernel !! Blocks(s.submitted, taken);
    assert |s.kernel + Blocks(s.submitted, taken)| == |s.kernel| + taken;
  }

  lemma StepRing(cfg: Config, s: State, step: Step)
    requires cfg.Valid() && Inv(cfg, s) && Enabled(cfg, s, step)
    ensures Ring(cfg, Next(cfg, s, step))
  {
    hide Reads, Drains, WholeBatches;
    match step
    case Submit(taken) => SubmitRing(cfg, s, taken);
    case Refuse(ids) => ReapRing(cfg, s, ids);
    case Reap(ids) => ReapRing(cfg, s, ids);
    case CopyOut =>
    case _ =>
  }

  lemma StepReads(cfg: Config, s: State, step: Step)
    requires cfg.Valid() && Inv(cfg, s) && Enabled(cfg, s, step)
    ensures Reads(cfg, Next(cfg, s, step))
  {
    hide Ring, Young, Drains, WholeBatches;
  }

  lemma StepDrains(cfg: Config, s: State, step: Step)
    requires Drains(s) && Enabled(cfg, s, step)
    ensures Drains(Next(cfg, s, step))
  {
  }

  lemma StepYoung(cfg: Config, s: State, step: Step)
    requires cfg.Valid() && Inv(cfg, s) && Enabled(cfg, s, step)
    ensures Young(cfg, Next(cfg, s, step))
  {
    hide Reads, Drains, WholeBatches;
    if step.CopyOut? && s.queued + 1 == cfg.batch == cfg.ioDepth {
      assert s.kernel == {};
    }
    if step.Submit? {
      BlocksExact(s.submitted, step.taken);
    }
  }

  lemma StepWholeBatches(cfg: Config, s: State, step: Step)
    requires cfg.Valid() && Inv(cfg, s) && Enabled(cfg, s, step)
    ensures WholeBatches(cfg, Next(cfg, s, step))
  {
    hide Aligned, Reads, Drains, Young;
    if cfg.BatchFits() { AlignedStep(s.submitted, cfg.batch); }
  }

  lemma {:induction false} InvFrom(cfg: Config, s: State, steps: seq<Step>)
    requires cfg.Valid() && Inv(cfg, s) && Legal(cfg, s, steps)
    ensures Inv(cfg, Run(cfg, s, steps))
    decreases |steps|
  {
    hide Ring, Reads, Young, WholeBatches, Drains, Next, Enabled;
    if steps != [] {
      StepRing(cfg, s, steps[0]);
      StepReads(cfg, s, steps[0]);
      StepYoung(cfg, s, steps[0]);
      StepDrains(cfg, s, steps[0]);
      StepWholeBatches(cfg, s, steps[0]);
      InvFrom(cfg, Next(cfg, s, steps[0]), steps[1..]);
    }
  }

  lemma RunInv(cfg: Config, steps: seq<Step>)
    requires cfg.Valid() && Legal(cfg, Init(cfg), steps)
    ensures Inv(cfg, Run(cfg, Init(cfg), steps))
  {
    if cfg.BatchFits() { AlignedStep(0, cfg.batch); }
    InvFrom(cfg, Init(cfg), steps);
  }

  /** How far back a block may still be needed. */
  lemma NeededSpan(cfg: Config, s: State, k: nat)
    requires cfg.Valid() && Inv(cfg, s) && InStep(cfg)
    ensures Needed(s, k) ==> s.posted <= k + Lag(cfg) + cfg.rdmaDepth
    ensures Unfinished(s, k) ==> s.submitted + s.queued <= k + Lag(cfg) + 1
  {
    if k in s.kernel {
      assert |s.kernel| > 0;
    }
  }

  // ---------------------------------------------------------------------------- the worst run

  /** Some run leads to s. */
  ghost predicate Reachable(cfg: Config, s: State) {
    exists steps :: Legal(cfg, Init(cfg), steps) && Run(cfg, Init(cfg), steps) == s
  }

  lemma {:induction false} Append(cfg: Config, s: State, steps: seq<Step>, step: Step)
    requires Legal(cfg, s, steps) && Enabled(cfg, Run(cfg, s, steps), step)
    ensures Legal(cfg, s, steps + [step])
    ensures Run(cfg, s, steps + [step]) == Next(cfg, Run(cfg, s, steps), step)
    decreases |steps|
  {
    hide Enabled, Next;
    if steps == [] {
      assert steps + [step] == [step];
      assert [step][1..] == [];
    } else {
      Append(cfg, Next(cfg, s, steps[0]), steps[1..], step);
      assert (steps + [step])[1..] == steps[1..] + [step];
    }
  }

  lemma ReachNext(cfg: Config, s: State, step: Step) returns (t: State)
    requires Reachable(cfg, s) && Enabled(cfg, s, step)
    ensures t == Next(cfg, s, step) && Reachable(cfg, t)
  {
    hide Enabled, Next, Legal, Run, Init;
    var steps :| Legal(cfg, Init(cfg), steps) && Run(cfg, Init(cfg), steps) == s;
    Append(cfg, Init(cfg), steps, step);
    t := Next(cfg, s, step);
    assert Run(cfg, Init(cfg), steps + [step]) == t;
  }

  lemma ReachableInv(cfg: Config, s: State)
    requires cfg.Valid() && Reachable(cfg, s)
    ensures Inv(cfg, s)
  {
    hide Inv, Legal, Run, Init;
    var steps :| Legal(cfg, Init(cfg), steps) && Run(cfg, Init(cfg), steps) == s;
    RunInv(cfg, steps);
  }

  /** The loop head with w blocks copied and all other read credits but one in use. The oldest block
      has not been reaped, and of the rest no more is left than the worst case needs. */
  ghost predicate Steady(cfg: Config, s: State, w: nat) {
    && s.place.Head? && s.paid && s.left == 0 && s.credit == 0
    && s.freeRdma == 1 && s.polled == w && s.posted + 1 == w + cfg.rdmaDepth
    && s.submitted + s.queued == w
    && (0 in s.kernel || s.submitted == 0)
    && (cfg.BatchFits() && cfg.batch == cfg.ioDepth && s.submitted > 0 ==>
          s.kernel == {0} && s.submitted == cfg.ioDepth)
  }

  /** The loop head before any read has been reaped. */
  ghost predicate Starting(cfg: Config, s: State) {
    && s.place.Head? && s.paid && s.left == 0 && s.credit == 0
    && s.polled == 0 && s.submitted == 0 && s.queued == 0 && s.kernel == {}
    && s.freeRdma + s.posted == cfg.rdmaDepth
  }

  /** Posting, with nothing complete if the worker looks. */
  lemma PostQuietly(cfg: Config, s: State) returns (t: State)
    requires Reachable(cfg, s) && s.place.Head? && s.polled <= s.posted
    ensures Reachable(cfg, t)
    ensures t == s.(posted := s.posted + 1, paid := false, owed := false, place := Paying,
                    drained := t.drained)
  {
    hide Reachable;
    t := ReachNext(cfg, s, Post);
    if t.place.Polling? {
      t := ReachNext(cfg, t, Poll(0));
    }
  }

  /** Nothing is reaped until one credit is left. */
  lemma {:induction false} FillUp(cfg: Config, s: State) returns (t: State)
    requires cfg.Valid() && Reachable(cfg, s) && Starting(cfg, s) && s.freeRdma >= 1
    ensures Reachable(cfg, t) && Steady(cfg, t, 0)
    decreases s.freeRdma
  {
    hide Reachable;
    if s.freeRdma == 1 {
      t := s;
    } else {
      t := PostQuietly(cfg, s);
      t := ReachNext(cfg, t, Pay);
      t := FillUp(cfg, t);
    }
  }

  /** From the loop head to the moment after the next block has become a write. */
  lemma CopyNext(cfg: Config, s: State, w: nat) returns (t: State)
    requires cfg.Valid() && Reachable(cfg, s) && Steady(cfg, s, w)
    ensures Reachable(cfg, t)
    ensures t == Next(cfg, s.(place := Copying, posted := s.posted + 1, polled := w + 1, left := 1,
                              credit := 1, freeRdma := 0, owed := true, drained := t.drained), CopyOut)
  {
    hide Reachable;
    t := PostQuietly(cfg, s);
    t := ReachNext(cfg, t, Pay);
    t := ReachNext(cfg, t, Poll(1));
    t := ReachNext(cfg, t, CopyOut);
  }

  /** The kernel takes the whole batch. */
  lemma SubmitWhole(cfg: Config, s: State) returns (t: State)
    requires Reachable(cfg, s) && s.place.Submitting? && s.queued > 0
    ensures Reachable(cfg, t)
    ensures t == AfterSubmission(s.(submitted := s.submitted + s.queued, queued := 0,
                                    kernel := s.kernel + Blocks(s.submitted, s.queued)))
    ensures forall k :: s.submitted <= k < s.submitted + s.queued ==> k in t.kernel
  {
    hide Reachable;
    t := ReachNext(cfg, s, Submit(s.queued));
    BlocksExact(s.submitted, s.queued);
  }

  /** A wait ends with every write but the oldest; then the poll is over. */
  lemma Settle(cfg: Config, s: State) returns (t: State)
    requires Reachable(cfg, s) && s.left == 0 && s.polled <= s.posted && s.paid
    requires s.place.Waiting? || (s.place.Polling? && !s.owed)
    requires s.place.Waiting? ==> 0 in s.kernel && |s.kernel| >= 2
    ensures Reachable(cfg, t)
    ensures s.place.Polling? ==> t == s.(place := Head, drained := s.posted)
    ensures s.place.Waiting? ==>
      t == s.(place := Head, kernel := {0}, freeIo := s.freeIo + |s.kernel| - 1,
              freeRdma := s.freeRdma + s.credit, credit := 0, owed := false, drained := s.posted)
  {
    hide Reachable;
    t := s;
    if s.place.Waiting? {
      var rest := s.kernel - {0};
      assert s.kernel == rest + {0} && |rest| == |s.kernel| - 1;
      assert s.kernel - rest == {0};
      t := ReachNext(cfg, t, Reap(rest));
    }
    t := ReachNext(cfg, t, Poll(0));
  }

  /** One more block is copied, and the oldest is still not reaped. */
  lemma OneMore(cfg: Config, s: State, w: nat) returns (t: State)
    requires cfg.Valid() && Reachable(cfg, s) && Steady(cfg, s, w)
    requires InStep(cfg) ==> w < Lag(cfg)
    ensures Reachable(cfg, t) && Steady(cfg, t, w + 1)
  {
    hide Reachable;
    ReachableInv(cfg, s);
    t := CopyNext(cfg, s, w);
    if t.place.Submitting? {
      t := SubmitWhole(cfg, t);
    }
    ReachableInv(cfg, t);
    t := Settle(cfg, t);
  }

  /** The oldest write can be held back for as many blocks as the batch allows: without limit if a
      batch is a proper part of the depth. */
  lemma {:induction false} HoldBack(cfg: Config, w: nat) returns (t: State)
    requires cfg.Valid()
    requires InStep(cfg) ==> w <= Lag(cfg)
    ensures Reachable(cfg, t) && Steady(cfg, t, w)
  {
    if w == 0 {
      assert Legal(cfg, Init(cfg), []) && Run(cfg, Init(cfg), []) == Init(cfg);
      t := FillUp(cfg, Init(cfg));
    } else {
      t := HoldBack(cfg, w - 1);
      t := OneMore(cfg, t, w - 1);
    }
  }

  /** A poll can return any number of completions up to sixteen and up to the read depth, no more. */
  lemma PollSizesIff(cfg: Config, n: nat)
    requires cfg.Valid()
    ensures (exists s :: Reachable(cfg, s) && s.credit == n) <==> n <= 16 && n <= cfg.rdmaDepth
  {
    hide Reachable, Ring, Young, WholeBatches, Drains;
    if n <= 16 && n <= cfg.rdmaDepth {
      var s := HoldBack(cfg, 0);
      if n > 0 {
        s := PostQuietly(cfg, s);
        s := ReachNext(cfg, s, Pay);
        s := ReachNext(cfg, s, Poll(n));
      }
      assert Reachable(cfg, s) && s.credit == n;
    }
    forall s | Reachable(cfg, s) && s.credit == n ensures n <= 16 && n <= cfg.rdmaDepth {
      ReachableInv(cfg, s);
    }
  }

  /** In the middle of a batch, after a refusal and with all that was submitted complete. */
  predicate Interrupted(cfg: Config, s: State) {
    s.place.Submitting? && 0 < s.queued < cfg.batch && s.kernel == {}
  }

  /** A submission can be cut short anywhere, and a refusal lets completions be reaped, if there is
      anything to cut. */
  lemma InterruptedIff(cfg: Config)
    requires cfg.Valid()
    ensures (exists s :: Reachable(cfg, s) && Interrupted(cfg, s)) <==> cfg.BatchFits() && cfg.batch >= 2
  {
    hide Reachable, Reads, Drains;
    if cfg.BatchFits() && cfg.batch >= 2 {
      var w := cfg.batch - 1;
      var s := HoldBack(cfg, w);
      ReachableInv(cfg, s);
      if s.submitted > 0 { SmallMod(s.submitted, cfg.batch); }
      s := CopyNext(cfg, s, w);
      s := ReachNext(cfg, s, Submit(1));
      BlocksExact(0, 1);
      s := ReachNext(cfg, s, Refuse({0}));
      assert Reachable(cfg, s) && Interrupted(cfg, s);
    }
    forall s | Reachable(cfg, s) && Interrupted(cfg, s) ensures cfg.BatchFits() && cfg.batch >= 2 {
      ReachableInv(cfg, s);
    }
  }

  // ---------------------------------------------------------------------------- exact conditions

  /** Positions one period apart are the same. */
  lemma OnePeriod(k: nat, bs: nat, size: nat)
    requires bs > 0
    ensures !Disjoint(After(k, bs, size), After(k + Period(bs, size), bs, size), bs)
  {
    SamePosition(k, Period(bs, size));
    DisjointTransfers(k, k + Period(bs, size), bs, size);
  }

  lemma CloserThanPeriod(k: nat, j: nat, bs: nat, size: nat)
    requires bs > 0 && k < j < k + Period(bs, size)
    ensures Disjoint(After(k, bs, size), After(j, bs, size), bs)
  {
    WindowDistinct(k, j, Period(bs, size));
    DisjointTransfers(k, j, bs, size);
  }

  lemma InvSlotsApart(cfg: Config, s: State)
    requires cfg.Valid() && Inv(cfg, s) && InStep(cfg)
    requires Lag(cfg) + cfg.rdmaDepth <= Period(cfg.geometry.bs, cfg.geometry.poolSize)
    ensures SlotsApart(cfg, s)
  {
    hide After, Period, Ring;
    forall k: nat, j: nat | Needed(s, k) && InFlight(s, j)
      ensures Disjoint(After(k, cfg.geometry.bs, cfg.geometry.poolSize),
                       After(j, cfg.geometry.bs, cfg.geometry.poolSize), cfg.geometry.bs)
    {
      NeededSpan(cfg, s, k);
      CloserThanPeriod(k, j, cfg.geometry.bs, cfg.geometry.poolSize);
    }
  }

  lemma InvFileApart(cfg: Config, s: State)
    requires cfg.Valid() && Inv(cfg, s) && InStep(cfg)
    requires Lag(cfg) < Period(cfg.geometry.bs, cfg.geometry.fileSize)
    ensures FileApart(cfg, s)
  {
    hide After, Period, Ring;
    forall k: nat, j: nat | Unfinished(s, k) && Unfinished(s, j) && k < j
      ensures Disjoint(After(k, cfg.geometry.bs, cfg.geometry.fileSize),
                       After(j, cfg.geometry.bs, cfg.geometry.fileSize), cfg.geometry.bs)
    {
      NeededSpan(cfg, s, k);
      CloserThanPeriod(k, j, cfg.geometry.bs, cfg.geometry.fileSize);
    }
  }

  /** A run that reads into the slot of the first block while that block is still needed. */
  lemma SlotOverwritten(cfg: Config) returns (s: State)
    requires cfg.Valid()
    requires InStep(cfg) ==>
      Lag(cfg) + cfg.rdmaDepth > Period(cfg.geometry.bs, cfg.geometry.poolSize)
    ensures Reachable(cfg, s) && !SlotsApart(cfg, s)
  {
    hide Reachable, After, Period;
    var p := Period(cfg.geometry.bs, cfg.geometry.poolSize);
    if p < cfg.rdmaDepth {
      s := HoldBack(cfg, 0);
      s := CopyNext(cfg, s, 0);
    } else {
      s := HoldBack(cfg, p - cfg.rdmaDepth + 1);
      s := PostQuietly(cfg, s);
    }
    assert Needed(s, 0) && InFlight(s, p);
    OnePeriod(0, cfg.geometry.bs, cfg.geometry.poolSize);
  }

  /** No read is ever in flight into a slot whose block is still needed, in any run, exactly if the
      batch is the whole depth and both queues fit into the slots: twice the write queue and once the
      read queue, less two. With a smaller batch no pool is large enough. (If no batch is ever
      complete, nothing is submitted and the depth counts once.) */
  lemma SlotsApartIff(cfg: Config)
    requires cfg.Valid()
    ensures (forall s :: Reachable(cfg, s) ==> SlotsApart(cfg, s))
       <==> InStep(cfg) && Lag(cfg) + cfg.rdmaDepth <= Period(cfg.geometry.bs, cfg.geometry.poolSize)
  {
    hide Reachable, After, Period, Ring;
    if InStep(cfg) && Lag(cfg) + cfg.rdmaDepth <= Period(cfg.geometry.bs, cfg.geometry.poolSize) {
      forall s | Reachable(cfg, s) ensures SlotsApart(cfg, s) {
        ReachableInv(cfg, s);
        InvSlotsApart(cfg, s);
      }
    } else {
      var s := SlotOverwritten(cfg);
    }
  }

  /** A run with two unfinished writes to the first block of the file. */
  lemma FileBlockShared(cfg: Config) returns (s: State)
    requires cfg.Valid()
    requires InStep(cfg) ==> Lag(cfg) >= Period(cfg.geometry.bs, cfg.geometry.fileSize)
    ensures Reachable(cfg, s) && !FileApart(cfg, s)
  {
    hide Reachable, After, Period;
    var p := Period(cfg.geometry.bs, cfg.geometry.fileSize);
    s := HoldBack(cfg, p);
    s := CopyNext(cfg, s, p);
    assert Unfinished(s, 0) && Unfinished(s, p);
    OnePeriod(0, cfg.geometry.bs, cfg.geometry.fileSize);
  }

  /** No two unfinished writes ever go to the same file block, in any run, exactly if the batch is the
      whole depth and the file cycle is longer than the lag. */
  lemma FileApartIff(cfg: Config)
    requires cfg.Valid()
    ensures (forall s :: Reachable(cfg, s) ==> FileApart(cfg, s))
       <==> InStep(cfg) && Lag(cfg) < Period(cfg.geometry.bs, cfg.geometry.fileSize)
  {
    hide Reachable, After, Period, Ring;
    if InStep(cfg) && Lag(cfg) < Period(cfg.geometry.bs, cfg.geometry.fileSize) {
      forall s | Reachable(cfg, s) ensures FileApart(cfg, s) {
        ReachableInv(cfg, s);
        InvFileApart(cfg, s);
      }
    } else {
      var s := FileBlockShared(cfg);
    }
  }

  // ---------------------------------------------------------------------------- the block really taken

  /** No read in flight is into the slot that a submitted and unfinished write takes its block from,
      which is that of the last block of its batch. */
  ghost predicate TakenApart(cfg: Config, s: State) {
    cfg.BatchFits() ==> forall k: nat, j: nat :: k in s.kernel && InFlight(s, j) ==>
      Disjoint(After(BatchEnd(k, cfg.batch), cfg.geometry.bs, cfg.geometry.poolSize),
               After(j, cfg.geometry.bs, cfg.geometry.poolSize), cfg.geometry.bs)
  }

  lemma TakenSpan(cfg: Config, s: State, k: nat)
    requires cfg.Valid() && Inv(cfg, s) && cfg.BatchFits() && cfg.batch == cfg.ioDepth && k in s.kernel
    ensures BatchEnd(k, cfg.batch) < s.polled
    ensures s.posted <= BatchEnd(k, cfg.batch) + cfg.ioDepth + cfg.rdmaDepth - 1
  {
    hide Aligned, BatchEnd;
    LastOfBatch(k, s.submitted + if s.place.Submitting? then s.queued else 0, cfg.batch);
    assert |s.kernel| > 0;
  }

  lemma TakenOverwritten(cfg: Config) returns (s: State)
    requires cfg.Valid() && cfg.BatchFits()
    requires cfg.batch == cfg.ioDepth ==>
      cfg.ioDepth + cfg.rdmaDepth - 1 > Period(cfg.geometry.bs, cfg.geometry.poolSize)
    ensures Reachable(cfg, s) && !TakenApart(cfg, s)
  {
    hide Reachable, After, Period, BatchEnd, Aligned;
    var p, b := Period(cfg.geometry.bs, cfg.geometry.poolSize), cfg.batch;
    FirstBatchEnd(b, p);
    if cfg.ioDepth == 1 {
      s := HoldBack(cfg, 0);
      s := CopyNext(cfg, s, 0);
      s := SubmitWhole(cfg, s);
    } else {
      s := HoldBack(cfg, if p < cfg.rdmaDepth then b else b + p - cfg.rdmaDepth);
      ReachableInv(cfg, s);
      s := PostQuietly(cfg, s);
    }
    assert 0 in s.kernel && InFlight(s, b - 1 + p);
    OnePeriod(b - 1, cfg.geometry.bs, cfg.geometry.poolSize);
  }

  /** The slot a write really takes its block from is never read into before it is done, in any run,
      exactly if the batch is the whole depth and the slots are enough for both queues, less one; or
      if no batch is ever complete, so that nothing is taken. */
  lemma TakenApartIff(cfg: Config)
    requires cfg.Valid()
    ensures (forall s :: Reachable(cfg, s) ==> TakenApart(cfg, s))
       <==> || !cfg.BatchFits()
            || (&& cfg.batch == cfg.ioDepth
                && cfg.ioDepth + cfg.rdmaDepth - 1 <= Period(cfg.geometry.bs, cfg.geometry.poolSize))
  {
    hide Reachable, After, Period, BatchEnd, Inv;
    if cfg.BatchFits() && cfg.batch == cfg.ioDepth
      && cfg.ioDepth + cfg.rdmaDepth - 1 <= Period(cfg.geometry.bs, cfg.geometry.poolSize)
    {
      forall s, k: nat, j: nat | Reachable(cfg, s) && k in s.kernel && InFlight(s, j)
        ensures Disjoint(After(BatchEnd(k, cfg.batch), cfg.geometry.bs, cfg.geometry.poolSize),
                         After(j, cfg.geometry.bs, cfg.geometry.poolSize), cfg.geometry.bs)
      {
        ReachableInv(cfg, s);
        TakenSpan(cfg, s, k);
        CloserThanPeriod(BatchEnd(k, cfg.batch), j, cfg.geometry.bs, cfg.geometry.poolSize);
      }
    } else if cfg.BatchFits() {
      var s := TakenOverwritten(cfg);
    }
  }

  // ---------------------------------------------------------------------------- the same machine

  /** The numbers below n that are not in the sequence. */
  ghost function Unreaped(reaped: seq<nat>, n: nat): set<nat> {
    set k: nat | k < n && k !in reaped
  }

  ghost function Members(s: seq<nat>): set<nat> {
    set k: nat | k in s
  }

  lemma {:induction false} Distinct(s: seq<nat>)
    requires NoRepeats(s)
    ensures |Members(s)| == |s|
  {
    if s == [] {
      assert Members(s) == {};
    } else {
      var init, last := s[..|s| - 1], s[|s| - 1];
      Distinct(init);
      assert s == init + [last];
      assert Members(s) == Members(init) + {last};
      assert last !in Members(init);
    }
  }

  lemma UnreapedCount(reaped: seq<nat>, n: nat)
    requires NoRepeats(reaped) && forall i :: 0 <= i < |reaped| ==> reaped[i] < n
    ensures |Unreaped(reaped, n)| == n - |reaped|
  {
    Distinct(reaped);
    BlocksExact(0, n);
    assert Blocks(0, n) == Unreaped(reaped, n) + Members(reaped);
    assert Unreaped(reaped, n) !! Members(reaped);
    assert |Unreaped(reaped, n) + Members(reaped)| == |Unreaped(reaped, n)| + |Members(reaped)|;
  }

  /** A worker at its loop head as a state of the step relation. */
  ghost function View(w: Worker): State
    requires w.RdmaHead()
    reads w, w.ring, w.qp
  {
    State(Head, |w.qp.posted|, w.qp.polled, |w.issued|, w.sqeQueued, Unreaped(w.ring.reaped, |w.issued|),
          w.freeIo, w.freeRdma, 0, 0, false, true, w.qp.drainedAt)
  }

  /** Every loop head of the worker is a state that the step relation's invariant admits. */
  lemma ViewInv(w: Worker)
    requires w.RdmaHead()
    ensures Inv(w.cfg, View(w))
  {
    w.ring.ReapedOnce();
    w.Conservation();
    w.NothingIssued();
    UnreapedCount(w.ring.reaped, |w.issued|);
  }

  /** So with the batch in step and slots enough, the worker itself, at any loop head and whatever the
      order of its completions, has no read in flight into the slot of an unfinished write. */
  lemma WorkerSlotsApart(w: Worker)
    requires w.RdmaHead() && InStep(w.cfg)
    requires Lag(w.cfg) + w.cfg.rdmaDepth <= Period(w.cfg.geometry.bs, w.cfg.geometry.poolSize)
    ensures w.SlotsApart()
  {
    var s := View(w);
    var bs, size := w.cfg.geometry.bs, w.cfg.geometry.poolSize;
    ViewInv(w);
    InvSlotsApart(w.cfg, s);
    forall k: nat, i: nat | w.Unfinished(k) && i < |w.qp.sendq|
      ensures Disjoint(w.qp.posted[k].dest, w.qp.sendq[i].dest, bs)
    {
      var j := w.qp.polled + i;
      assert w.qp.sendq[i] == w.qp.posted[j];
      assert Needed(s, k) && InFlight(s, j);
      assert Disjoint(After(k, bs, size), After(j, bs, size), bs);
    }
  }
}
