/**
 What becomes of a worker that starts from memory nobody cleared. The memset of launch_worker in
 src/benchmark.cc clears no more than the size of a pointer, so io_uring_sqe_queued, a 32-bit counter,
 and cur_offset start with what the fresh memory holds. Both loops write their blocks in the same way;
 here that half of them is a step relation on values, with the counter as the machine keeps it.
 */
module Launch {
  import opened Arithmetic
  import opened Cursors
  import opened Workers

  datatype Place =
    | Ready        // before the next block becomes a write
    | Submitting   // in the loop around io_uring_submit
    | Waiting      // in reap_io_uring_cq(worker, 1)

  datatype State = State(
    place: Place,
    writes: nat,    // writes prepared so far
    queued: nat,    // entries in the submission queue
    kernel: nat,    // entries submitted and not reaped
    freeIo: int,    // free_io_units_io_uring
    counter: nat)   // io_uring_sqe_queued

  datatype Step =
    | Prepare              // get_sqe, prep_writev, counters
    | Submit(taken: nat)   // io_uring_submit takes some entries
    | Refuse(reaped: nat)  // it takes none, and reap_io_uring_cq(worker, 0) finds some complete
    | Reap(reaped: nat)    // the blocking reap ends

  function Start(cfg: Config, counter: nat): State {
    State(Ready, 0, 0, 0, cfg.ioDepth, counter)
  }

  predicate Enabled(s: State, step: Step) {
    match step
    case Prepare => s.place.Ready?
    case Submit(taken) => s.place.Submitting? && 0 < taken <= s.queued
    case Refuse(reaped) => s.place.Submitting? && reaped <= s.kernel
    case Reap(reaped) => s.place.Waiting? && 0 < reaped <= s.kernel
  }

  /** The rest of an iteration, after the submission test. */
  function AfterSubmission(s: State): State {
    s.(place := if s.freeIo == 0 then Waiting else Ready)
  }

  function Next(cfg: Config, s: State, step: Step): State
    requires Enabled(s, step)
  {
    match step
    case Prepare =>
      var t := s.(writes := s.writes + 1, queued := s.queued + 1, freeIo := s.freeIo - 1,
                  counter := (s.counter + 1) % TWO_TO_THE_32);
      if t.counter == cfg.batch && t.counter != 0 then t.(place := Submitting) else AfterSubmission(t)
    case Submit(taken) =>
      var t := s.(queued := s.queued - taken, kernel := s.kernel + taken,
                  counter := (s.counter - taken) % TWO_TO_THE_32);
      if t.counter != 0 then t else AfterSubmission(t)
    case Refuse(reaped) => s.(kernel := s.kernel - reaped, freeIo := s.freeIo + reaped)
    case Reap(reaped) => s.(place := Ready, kernel := s.kernel - reaped, freeIo := s.freeIo + reaped)
  }

  /** n steps can lead from the start with this counter to s. */
  ghost predicate ReachableIn(cfg: Config, counter: nat, s: State, n: nat)
    decreases n
  {
    if n == 0 then s == Start(cfg, counter)
    else exists t, step :: ReachableIn(cfg, counter, t, n - 1) && Enabled(t, step) && s == Next(cfg, t, step)
  }

  ghost predicate Reachable(cfg: Config, counter: nat, s: State) {
    exists n: nat :: ReachableIn(cfg, counter, s, n)
  }

  lemma ReachNext(cfg: Config, counter: nat, s: State, step: Step) returns (t: State)
    requires Reachable(cfg, counter, s) && Enabled(s, step)
    ensures t == Next(cfg, s, step) && Reachable(cfg, counter, t)
  {
    t := Next(cfg, s, step);
    var n: nat :| ReachableIn(cfg, counter, s, n);
    assert ReachableIn(cfg, counter, t, n + 1);
  }

  /** Nothing that can happen changes anything: the worker runs in a loop for ever. */
  ghost predicate Hung(cfg: Config, s: State) {
    forall step :: Enabled(s, step) ==> Next(cfg, s, step) == s
  }

  /** What the set-up leaves: an `int` depth, and a counter of 32 bits. */
  predicate Valid(cfg: Config, counter: nat) {
    cfg.Valid() && cfg.ioDepth < TWO_TO_THE_32 && counter < TWO_TO_THE_32
  }

  // ---------------------------------------------------------------------------- invariants

  /** The counter is ahead of the queue by what it started with, and the credits add up. */
  ghost predicate Inv(cfg: Config, counter: nat, s: State) {
    && s.counter == (s.queued + counter) % TWO_TO_THE_32
    && s.freeIo + s.queued + s.kernel == cfg.ioDepth
    && s.freeIo >= 0
    && (s.place.Ready? ==> s.freeIo > 0)
    && (s.place.Waiting? ==> s.freeIo == 0)
    && (s.place.Submitting? ==> s.counter != 0)
  }

  lemma ModShift(a: int, b: int, c: int, p: nat)
    requires p > 0 && c % p == a % p
    ensures (c + b) % p == (a + b) % p
  {
    var q := c / p - a / p;
    assert c == p * (c / p) + c % p && a == p * (a / p) + a % p;
    var n := (a + b) / p;
    assert a + b == p * n + (a + b) % p;
    assert c + b == p * (n + q) + (a + b) % p;
    DivModUnique(c + b, p, n + q, (a + b) % p);
  }

  lemma StepInv(cfg: Config, counter: nat, s: State, step: Step)
    requires Valid(cfg, counter) && Inv(cfg, counter, s) && Enabled(s, step)
    ensures Inv(cfg, counter, Next(cfg, s, step))
  {
    if step.Prepare? {
      ModShift(s.queued + counter, 1, s.counter, TWO_TO_THE_32);
    } else if step.Submit? {
      ModShift(s.queued + counter, 0 - step.taken, s.counter, TWO_TO_THE_32);
    }
  }

  lemma {:induction false} InvIn(cfg: Config, counter: nat, s: State, n: nat)
    requires Valid(cfg, counter) && ReachableIn(cfg, counter, s, n)
    ensures Inv(cfg, counter, s)
    decreases n
  {
    if n == 0 {
      SmallMod(counter, TWO_TO_THE_32);
    } else {
      var t, step :| ReachableIn(cfg, counter, t, n - 1) && Enabled(t, step) && s == Next(cfg, t, step);
      InvIn(cfg, counter, t, n - 1);
      StepInv(cfg, counter, t, step);
    }
  }

  lemma ReachableInv(cfg: Config, counter: nat, s: State)
    requires Valid(cfg, counter) && Reachable(cfg, counter, s)
    ensures Inv(cfg, counter, s)
  {
    var n: nat :| ReachableIn(cfg, counter, s, n);
    InvIn(cfg, counter, s, n);
  }

  /** How many entries must lie in the queue for the counter to be zero. */
  function Gap(counter: nat): nat {
    (TWO_TO_THE_32 - counter) % TWO_TO_THE_32
  }

  lemma Residue(queued: nat, counter: nat)
    requires queued < TWO_TO_THE_32 && counter < TWO_TO_THE_32
    ensures Gap(counter) == if counter == 0 then 0 else TWO_TO_THE_32 - counter
    ensures (queued + counter) % TWO_TO_THE_32 ==
      queued + counter - if queued + counter < TWO_TO_THE_32 then 0 else TWO_TO_THE_32
  {
    if counter == 0 {
      DivModUnique(TWO_TO_THE_32, TWO_TO_THE_32, 1, 0);
    } else {
      SmallMod(TWO_TO_THE_32 - counter, TWO_TO_THE_32);
    }
    if queued + counter < TWO_TO_THE_32 {
      SmallMod(queued + counter, TWO_TO_THE_32);
    } else {
      DivModUnique(queued + counter, TWO_TO_THE_32, 1, queued + counter - TWO_TO_THE_32);
    }
  }

  // ---------------------------------------------------------------------------- when it never hangs

  /** As intended: the counter is the length of the queue, which stays below the batch. */
  ghost predicate Intended(cfg: Config, s: State) {
    && s.counter == s.queued
    && (s.place.Submitting? ==> s.queued <= cfg.batch)
    && (!s.place.Submitting? ==> s.queued < cfg.batch)
  }

  lemma StepIntended(cfg: Config, s: State, step: Step)
    requires Valid(cfg, 0) && cfg.BatchFits() && Inv(cfg, 0, s) && Intended(cfg, s) && Enabled(s, step)
    ensures Intended(cfg, Next(cfg, s, step))
  {
    if step.Prepare? {
      SmallMod(s.queued + 1, TWO_TO_THE_32);
    } else if step.Submit? {
      SmallMod(s.queued - step.taken, TWO_TO_THE_32);
    }
  }

  lemma {:induction false} IntendedIn(cfg: Config, s: State, n: nat)
    requires Valid(cfg, 0) && cfg.BatchFits() && ReachableIn(cfg, 0, s, n)
    ensures Intended(cfg, s)
    decreases n
  {
    if n > 0 {
      var t, step :| ReachableIn(cfg, 0, t, n - 1) && Enabled(t, step) && s == Next(cfg, t, step);
      InvIn(cfg, 0, t, n - 1);
      IntendedIn(cfg, t, n - 1);
      StepIntended(cfg, t, step);
    }
  }

  lemma IntendedMoves(cfg: Config, s: State)
    requires Valid(cfg, 0) && cfg.BatchFits() && Inv(cfg, 0, s) && Intended(cfg, s)
    ensures !Hung(cfg, s)
  {
    var step := match s.place case Ready => Prepare case Submitting => Submit(s.queued) case Waiting => Reap(s.kernel);
    assert Enabled(s, step) && Next(cfg, s, step) != s;
  }

  /** The straightforward run: the kernel takes everything at once, and all of it completes. */
  lemma {:induction false} RunsInto(cfg: Config, counter: nat, s: State) returns (t: State)
    requires Valid(cfg, counter) && (counter != 0 || !cfg.BatchFits())
    requires Reachable(cfg, counter, s) && s.place.Ready? && s.kernel == 0
    ensures Reachable(cfg, counter, t) && Hung(cfg, t)
    decreases cfg.ioDepth - s.queued
  {
    hide Reachable;
    ReachableInv(cfg, counter, s);
    t := ReachNext(cfg, counter, s, Prepare);
    ReachableInv(cfg, counter, t);
    if t.place.Submitting? {
      Residue(t.queued, counter);
      t := ReachNext(cfg, counter, t, Submit(t.queued));
      ReachableInv(cfg, counter, t);
      Residue(0, counter);
      t := ReachNext(cfg, counter, t, Refuse(t.kernel));
    } else if t.place.Ready? {
      t := RunsInto(cfg, counter, t);
    }
  }

  lemma StartReachable(cfg: Config, counter: nat)
    ensures Reachable(cfg, counter, Start(cfg, counter))
  {
    assert ReachableIn(cfg, counter, Start(cfg, counter), 0);
  }

  /** No run of the worker, however the kernel answers, ends in a loop for ever exactly if the counter
      starts at zero and the batch fits into the depth. */
  lemma NeverHangsIff(cfg: Config, counter: nat)
    requires Valid(cfg, counter)
    ensures (forall s :: Reachable(cfg, counter, s) ==> !Hung(cfg, s)) <==> counter == 0 && cfg.BatchFits()
  {
    hide Hung, Inv, Intended;
    if counter == 0 && cfg.BatchFits() {
      forall s | Reachable(cfg, counter, s) ensures !Hung(cfg, s) {
        ReachableInv(cfg, 0, s);
        var n: nat :| ReachableIn(cfg, 0, s, n);
        IntendedIn(cfg, s, n);
        IntendedMoves(cfg, s);
      }
    } else {
      StartReachable(cfg, counter);
      var s := RunsInto(cfg, counter, Start(cfg, counter));
    }
  }

  // ---------------------------------------------------------------------------- when it can go on

  /** The counter reaches the batch before the credits run out, and zero before the queue is empty. */
  predicate CanGoOn(cfg: Config, counter: nat) {
    1 <= cfg.batch && Gap(counter) + cfg.batch <= cfg.ioDepth
  }

  /** Nothing submitted has ever been followed by another write. */
  ghost predicate FirstBatch(cfg: Config, counter: nat, s: State) {
    && s.writes <= cfg.ioDepth
    && (!s.place.Submitting? ==> s.kernel == 0 && s.writes == s.queued)
    && (s.place.Submitting? ==> 0 < counter && s.queued + counter <= cfg.batch < TWO_TO_THE_32)
  }

  lemma StepFirstBatch(cfg: Config, counter: nat, s: State, step: Step)
    requires Valid(cfg, counter) && !CanGoOn(cfg, counter)
    requires Inv(cfg, counter, s) && FirstBatch(cfg, counter, s) && Enabled(s, step)
    ensures FirstBatch(cfg, counter, Next(cfg, s, step))
  {
    var t := Next(cfg, s, step);
    StepInv(cfg, counter, s, step);
    Residue(t.queued, counter);
  }

  lemma {:induction false} FirstBatchIn(cfg: Config, counter: nat, s: State, n: nat)
    requires Valid(cfg, counter) && !CanGoOn(cfg, counter) && ReachableIn(cfg, counter, s, n)
    ensures FirstBatch(cfg, counter, s)
    decreases n
  {
    if n > 0 {
      var t, step :| ReachableIn(cfg, counter, t, n - 1) && Enabled(t, step) && s == Next(cfg, t, step);
      InvIn(cfg, counter, t, n - 1);
      FirstBatchIn(cfg, counter, t, n - 1);
      StepFirstBatch(cfg, counter, t, step);
    }
  }

  /** One more write, the kernel taking exactly a batch. */
  lemma OneMore(cfg: Config, counter: nat, s: State) returns (t: State)
    requires Valid(cfg, counter) && CanGoOn(cfg, counter)
    requires Reachable(cfg, counter, s) && s.place.Ready? && s.queued < Gap(counter) + cfg.batch
    ensures Reachable(cfg, counter, t) && t.place.Ready? && t.queued < Gap(counter) + cfg.batch
    ensures t.writes == s.writes + 1
  {
    hide Reachable, Gap;
    ReachableInv(cfg, counter, s);
    t := ReachNext(cfg, counter, s, Prepare);
    ReachableInv(cfg, counter, t);
    Residue(t.queued, counter);
    if t.place.Submitting? {
      t := ReachNext(cfg, counter, t, Submit(cfg.batch));
      ReachableInv(cfg, counter, t);
      Residue(t.queued, counter);
    }
    if t.place.Waiting? {
      t := ReachNext(cfg, counter, t, Reap(t.kernel));
    }
  }

  lemma {:induction false} GoesOn(cfg: Config, counter: nat, n: nat) returns (s: State)
    requires Valid(cfg, counter) && CanGoOn(cfg, counter)
    ensures Reachable(cfg, counter, s) && s.place.Ready? && s.queued < Gap(counter) + cfg.batch
    ensures s.writes == n
  {
    hide Reachable, Gap;
    if n == 0 {
      StartReachable(cfg, counter);
      s := Start(cfg, counter);
    } else {
      s := GoesOn(cfg, counter, n - 1);
      s := OneMore(cfg, counter, s);
    }
  }

  /** Some run prepares n writes. */
  ghost predicate Prepares(cfg: Config, counter: nat, n: nat) {
    exists s :: Reachable(cfg, counter, s) && s.writes >= n
  }

  /** Some run of the worker writes more than any given number of blocks exactly if the batch fits into
      the depth beside the gap. A counter that starts above zero leaves such a gap only if it is
      within the depth of wrapping; then it takes a kernel that stops after exactly a batch. In every
      other case no run whatever prepares more writes than the depth. */
  lemma EndlessIff(cfg: Config, counter: nat)
    requires Valid(cfg, counter)
    ensures CanGoOn(cfg, counter) <==> forall n: nat :: Prepares(cfg, counter, n)
    ensures CanGoOn(cfg, counter) <==> Prepares(cfg, counter, cfg.ioDepth + 1)
  {
    hide CanGoOn;
    if CanGoOn(cfg, counter) {
      forall n: nat ensures Prepares(cfg, counter, n) {
        var s := GoesOn(cfg, counter, n);
      }
    } else if Prepares(cfg, counter, cfg.ioDepth + 1) {
      var s :| Reachable(cfg, counter, s) && s.writes >= cfg.ioDepth + 1;
      var n: nat :| ReachableIn(cfg, counter, s, n);
      FirstBatchIn(cfg, counter, s, n);
      assert false;
    }
  }

  // ---------------------------------------------------------------------------- the file cursor

  /** The file cursor after n writes, as the machine computes it from any start. */
  function CursorFrom(start: nat, n: nat, bs: nat, size: nat): nat {
    if n == 0 then start else AdvanceFile(CursorFrom(start, n - 1, bs, size), bs, size)
  }

  ghost predicate Inside(start: nat, n: nat, bs: nat, size: nat) {
    CursorFrom(start, n, bs, size) + bs <= size
  }

  lemma {:induction false} StaysInside(start: nat, n: nat, bs: nat, size: nat)
    requires 0 < bs && size + bs < TWO_TO_THE_64 && start + bs <= size
    ensures Inside(start, n, bs, size)
  {
    if n > 0 {
      StaysInside(start, n - 1, bs, size);
      var c := CursorFrom(start, n - 1, bs, size);
      SmallMod(c + bs, TWO_TO_THE_64);
      SmallMod(c + bs + bs, TWO_TO_THE_64);
    }
  }

  /** Writes before the cursor first returns to zero. */
  function Lap(start: nat, bs: nat, size: nat): (m: nat)
    requires bs > 0
    ensures m > 0
  {
    if start < size then Period(bs, size - start) else 1
  }

  /** From any start the cursor goes on block by block to the end of its lap, and from then on it is the
      cursor of a worker that started at zero. */
  lemma {:induction false} CursorFromClosedForm(start: nat, n: nat, bs: nat, size: nat)
    requires 0 < bs && size + bs < TWO_TO_THE_64 && start + bs + bs < TWO_TO_THE_64
    ensures CursorFrom(start, n, bs, size) ==
      if n < Lap(start, bs, size) then start + bs * n else After(n - Lap(start, bs, size), bs, size)
  {
    var m := Lap(start, bs, size);
    if n > 0 {
      hide Lap, AdvanceFile, After;
      FirstAfter(bs, size);
      CursorFromClosedForm(start, n - 1, bs, size);
      if n <= m {
        LapStep(start, n - 1, bs, size);
      } else {
        AfterStep(n - 1 - m, bs, size);
      }
    }
  }

  lemma FirstAfter(bs: nat, size: nat)
    ensures After(0, bs, size) == 0
  {
  }

  lemma AfterStep(n: nat, bs: nat, size: nat)
    requires size + bs < TWO_TO_THE_64 && bs + bs < TWO_TO_THE_64
    ensures AdvanceFile(After(n, bs, size), bs, size) == After(n + 1, bs, size)
  {
    BelowSize(n, bs, size);
    SmallMod(After(n, bs, size) + bs, TWO_TO_THE_64);
    SmallMod(After(n, bs, size) + bs + bs, TWO_TO_THE_64);
  }

  /** One step within the first lap; the last one returns to zero. */
  lemma LapStep(start: nat, k: nat, bs: nat, size: nat)
    requires 0 < bs && size + bs < TWO_TO_THE_64 && start + bs + bs < TWO_TO_THE_64
    requires k < Lap(start, bs, size)
    ensures AdvanceFile(start + bs * k, bs, size) ==
      if k + 1 < Lap(start, bs, size) then start + bs * (k + 1) else 0
  {
    hide Period;
    var c := start + bs * k;
    assert c + bs == start + bs * (k + 1);
    if start < size {
      WrapTest(k, bs, size - start);
      InLap(start, k, bs, size);
    }
    SmallMod(c + bs, TWO_TO_THE_64);
    SmallMod(c + bs + bs, TWO_TO_THE_64);
  }

  lemma InLap(start: nat, k: nat, bs: nat, size: nat)
    requires 0 < bs && start < size && k < Period(bs, size - start)
    requires size + bs < TWO_TO_THE_64 && start + bs + bs < TWO_TO_THE_64
    ensures start + bs * k + bs + bs < TWO_TO_THE_64
  {
    if k > 0 {
      hide Period;
      WrapTest(k - 1, bs, size - start);
      assert bs * (k - 1) + bs == bs * k;
    }
  }

  /** Every write lies inside the file exactly if the first does. */
  lemma AlwaysInsideIff(start: nat, bs: nat, size: nat)
    requires 0 < bs && size + bs < TWO_TO_THE_64
    ensures (forall n: nat :: Inside(start, n, bs, size)) <==> start + bs <= size
  {
    if start + bs <= size {
      forall n: nat ensures Inside(start, n, bs, size) {
        StaysInside(start, n, bs, size);
      }
    } else {
      assert !Inside(start, 0, bs, size);
    }
  }

  // ---------------------------------------------------------------------------- the same machine

  /** A worker between two writes as a state of the step relation. */
  ghost function View(w: Worker): State
    requires w.AtRest()
    reads w, w.ring
  {
    State(Ready, |w.writes|, w.ring.queued, w.ring.Outstanding(), w.freeIo, w.sqeQueued)
  }

  /** A worker that started as intended is, between any two writes, in a state that the step relation
      admits for the counter zero. */
  lemma ViewInv(w: Worker)
    requires w.AtRest() && w.cfg.ioDepth < TWO_TO_THE_32
    ensures Inv(w.cfg, 0, View(w))
    ensures w.cfg.BatchFits() ==> Intended(w.cfg, View(w))
  {
    w.Conservation();
    SmallMod(w.sqeQueued, TWO_TO_THE_32);
  }
}
