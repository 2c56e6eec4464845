/**
 The two-thread protocol of AppendOneLargeFileAsync and AppendOneLargeFileAsyncExpr in
 src/file_target.cc: the stream thread allocates a buffer per request and submits a write from it,
 a second thread waits for N completions and frees each buffer, and the stream thread joins it
 before tearing the ring down. Threads and kernel interleave freely: a run is any sequence of
 enabled steps.
 */
module SubmitComplete {
  import opened Ids

  /** requests: turns of the stream thread's loop (one per message; the loop of
      AppendOneLargeFileAsync takes at least one); consumed: the completions the
      second thread waits for; entries: the ring's submission slots. */
  datatype Params = Params(requests: nat, consumed: nat, entries: nat) {
    /** A ring has at least one slot. */
    predicate Valid() {
      entries > 0
    }
  }

  /** Where the stream thread is. */
  datatype Producer =
    | Top                   // a request has been read
    | Holding(buffer: nat)  // its buffer is allocated, the slot is being filled
    | Prepared              // its entry is in the submission queue
    | Joining               // end of stream, waiting for the second thread
    | Joined
    | Exited                // the ring is torn down
    | Aborted               // no free slot: the handler returned an error

  /** Where the completion thread is within an iteration. */
  datatype Consumer = Waiting | FreedHead

  datatype State = State(
    producer: Producer,
    consumer: Consumer,
    made: nat,                 // buffers allocated so far, numbered in order
    sq: seq<nat>,              // queued entries
    kernel: multiset<nat>,     // submitted entries
    posted: seq<nat>,          // every completion the kernel has posted, in order
    seen: nat,                 // how many of them the second thread has retired
    freed: seq<nat>)           // buffers freed, in order

  datatype Step =
    | Allocate                 // get_sqe, posix_memalign, memcpy
    | GiveUp                   // get_sqe found no slot
    | Prepare                  // io_uring_prep_write, io_uring_sqe_set_data
    | Submit(taken: nat)       // io_uring_submit, then the next Read
    | Complete(buffer: nat)    // the kernel posts a completion
    | Free                     // wait_cqe returned: free(data)
    | Retire                   // io_uring_cqe_seen, i++
    | Join
    | Exit

  function Init(p: Params): State {
    State(if p.requests > 0 then Top else Joining, Waiting, 0, [], multiset{}, [], 0, [])
  }

  predicate Enabled(p: Params, s: State, step: Step) {
    match step
    case Allocate => s.producer.Top? && |s.sq| < p.entries
    case GiveUp => s.producer.Top? && |s.sq| >= p.entries
    case Prepare => s.producer.Holding?
    case Submit(taken) => s.producer.Prepared? && taken <= |s.sq|
    case Complete(b) => !s.producer.Exited? && b in s.kernel
    case Free => s.consumer.Waiting? && s.seen < p.consumed && s.seen < |s.posted|
    case Retire => s.consumer.FreedHead?
    case Join => s.producer.Joining? && s.consumer.Waiting? && s.seen >= p.consumed
    case Exit => s.producer.Joined?
  }

  function Next(p: Params, s: State, step: Step): State
    requires Enabled(p, s, step)
  {
    match step
    case Allocate => s.(producer := Holding(s.made), made := s.made + 1)
    case GiveUp => s.(producer := Aborted)
    case Prepare => s.(producer := Prepared, sq := s.sq + [s.producer.buffer])
    case Submit(taken) =>
      s.(producer := if s.made < p.requests then Top else Joining,
         sq := s.sq[taken..], kernel := s.kernel + multiset(s.sq[..taken]))
    case Complete(b) => s.(kernel := s.kernel - multiset{b}, posted := s.posted + [b])
    case Free => s.(consumer := FreedHead, freed := s.freed + [s.posted[s.seen]])
    case Retire => s.(consumer := Waiting, seen := s.seen + 1)
    case Join => s.(producer := Joined)
    case Exit => s.(producer := Exited)
  }

  /** Every step of the sequence is enabled when it is taken. */
  predicate Legal(p: Params, s: State, steps: seq<Step>)
    decreases |steps|
  {
    steps == [] || (Enabled(p, s, steps[0]) && Legal(p, Next(p, s, steps[0]), steps[1..]))
  }

  function Run(p: Params, s: State, steps: seq<Step>): State
    requires Legal(p, s, steps)
    decreases |steps|
  {
    if steps == [] then s else Run(p, Next(p, s, steps[0]), steps[1..])
  }

  // ---------------------------------------------------------------------------- safety

  /** Buffers the stream thread has not handed over yet. */
  function Pending(s: State): seq<nat> {
    s.sq + if s.producer.Holding? then [s.producer.buffer] else []
  }

  /** How many posted completions have had their buffer freed. */
  function Handled(s: State): nat {
    s.seen + if s.consumer.FreedHead? then 1 else 0
  }

  /** Each buffer made is with the stream thread, with the kernel, or completed. */
  ghost predicate Owned(s: State) {
    SharedOut(s.kernel, Pending(s), s.posted, s.made)
  }

  /** The threads' positions, and which completions have been handled. */
  ghost predicate Control(p: Params, s: State) {
    && Handled(s) <= |s.posted| && Handled(s) <= p.consumed
    && s.freed == s.posted[..Handled(s)]
    && s.made <= p.requests
    && (s.producer.Top? ==> s.made < p.requests)
    && (s.producer.Joining? || s.producer.Joined? || s.producer.Exited? ==> s.made == p.requests)
    && (s.producer.Joined? || s.producer.Exited? ==> s.consumer.Waiting? && s.seen == p.consumed)
    && |Pending(s)| <= p.entries
    && (s.producer.Aborted? ==> |s.sq| == p.entries)
  }

  /** These are the newest buffers, in order. */
  ghost predicate Newest(buffers: seq<nat>, made: nat) {
    |buffers| <= made && forall i :: 0 <= i < |buffers| ==> buffers[i] == made - |buffers| + i
  }

  ghost predicate Inv(p: Params, s: State) {
    Owned(s) && Control(p, s) && Newest(Pending(s), s.made)
  }

  lemma StepNewest(p: Params, s: State, step: Step)
    requires Newest(Pending(s), s.made) && Enabled(p, s, step)
    ensures Newest(Pending(Next(p, s, step)), Next(p, s, step).made)
  {
    var t := Next(p, s, step);
    match step
    case Allocate => assert Pending(t) == Pending(s) + [s.made];
    case Submit(taken) => assert Pending(t) == Pending(s)[taken..];
    case _ => assert Pending(t) == Pending(s);
  }

  lemma StepOwned(p: Params, s: State, step: Step)
    requires Owned(s) && Enabled(p, s, step)
    ensures Owned(Next(p, s, step))
  {
    hide SharedOut;
    var t := Next(p, s, step);
    match step
    case Allocate =>
      assert Pending(s) == s.sq;
      Enqueue(s.kernel, s.sq, s.posted, s.made);
    case Prepare =>
      assert Pending(t) == Pending(s);
    case Submit(taken) =>
      assert Pending(s) == s.sq && Pending(t) == t.sq;
      MovePrefix(s.kernel, s.sq, s.posted, s.made, taken);
    case Complete(b) =>
      MoveDone(s.kernel, Pending(s), s.posted, s.made, b);
    case _ =>
  }

  lemma StepControl(p: Params, s: State, step: Step)
    requires p.Valid() && Control(p, s) && Enabled(p, s, step)
    ensures Control(p, Next(p, s, step))
  {
  }

  lemma StepInv(p: Params, s: State, step: Step)
    requires p.Valid() && Inv(p, s) && Enabled(p, s, step)
    ensures Inv(p, Next(p, s, step))
  {
    hide Owned, Control, Newest, Next, Enabled;
    StepOwned(p, s, step);
    StepNewest(p, s, step);
    StepControl(p, s, step);
  }

  lemma InitInv(p: Params)
    requires p.Valid()
    ensures Inv(p, Init(p))
  {
  }

  lemma {:induction false} InvFrom(p: Params, s: State, steps: seq<Step>)
    requires p.Valid() && Inv(p, s) && Legal(p, s, steps)
    ensures Inv(p, Run(p, s, steps))
    decreases |steps|
  {
    if steps != [] {
      StepInv(p, s, steps[0]);
      InvFrom(p, Next(p, s, steps[0]), steps[1..]);
    }
  }

  /** The invariant holds after every run, whatever the interleaving. */
  lemma RunInv(p: Params, steps: seq<Step>)
    requires p.Valid() && Legal(p, Init(p), steps)
    ensures Inv(p, Run(p, Init(p), steps))
  {
    hide Inv, Legal, Run;
    InitInv(p);
    InvFrom(p, Init(p), steps);
  }

  /** The ring's slots: never more entries queued than there are, all of them when the handler gives up;
      and what is not submitted yet are the newest buffers, in order. */
  lemma SlotsInOrder(p: Params, steps: seq<Step>)
    requires p.Valid() && Legal(p, Init(p), steps)
    ensures var s := Run(p, Init(p), steps);
      && |s.sq| <= p.entries && (s.producer.Aborted? ==> |s.sq| == p.entries)
      && Newest(Pending(s), s.made)
  {
    hide Legal, Run, SharedOut;
    RunInv(p, steps);
  }

  /** The completions posted in a run, in order. */
  function Completions(steps: seq<Step>): seq<nat> {
    if steps == [] then []
    else (if steps[0].Complete? then [steps[0].buffer] else []) + Completions(steps[1..])
  }

  lemma {:induction false} PostedByKernel(p: Params, s: State, steps: seq<Step>)
    requires Legal(p, s, steps)
    ensures Run(p, s, steps).posted == s.posted + Completions(steps)
    decreases |steps|
  {
    if steps != [] {
      PostedByKernel(p, Next(p, s, steps[0]), steps[1..]);
    }
  }

  /** Ownership after every run: buffers are freed in completion order, each once, each after its
      own completion, and no freed buffer is in the hands of the stream thread or the kernel. */
  lemma BufferOwnership(p: Params, steps: seq<Step>)
    requires p.Valid() && Legal(p, Init(p), steps)
    ensures var s := Run(p, Init(p), steps);
      && NoRepeats(Completions(steps)) && NoRepeats(s.freed)
      && s.freed <= Completions(steps)
      && forall i :: 0 <= i < |s.freed| ==>
           s.freed[i] < s.made && s.freed[i] !in s.kernel && s.freed[i] !in Pending(s)
  {
    hide SharedOut, Legal, Run, Completions;
    RunInv(p, steps);
    PostedByKernel(p, Init(p), steps);
    var s := Run(p, Init(p), steps);
    assert s.posted == Completions(steps);
    SharedOnce(s.kernel, Pending(s), s.posted, s.made);
  }

  /** When the join has returned, exactly N buffers are freed and M - N are not; nothing is
      outstanding at ring exit exactly when M = N. */
  lemma JoinExact(p: Params, steps: seq<Step>)
    requires p.Valid() && Legal(p, Init(p), steps)
    requires var s := Run(p, Init(p), steps); s.producer.Joined? || s.producer.Exited?
    ensures var s := Run(p, Init(p), steps);
      && p.consumed <= p.requests
      && s.made == p.requests && |s.freed| == p.consumed
      && |s.sq| + |s.kernel| + (|s.posted| - s.seen) == p.requests - p.consumed
      && (s.sq == [] && s.kernel == multiset{} && s.seen == |s.posted| <==> p.requests == p.consumed)
  {
    RunInv(p, steps);
    var s := Run(p, Init(p), steps);
    assert Pending(s) == s.sq;
  }

  // ---------------------------------------------------------------------------- liveness

  /** An upper bound on the steps still to come. */
  function Fuel(p: Params, s: State): int {
    4 * (p.requests - s.made) + Stage(s.producer) + |Pending(s)| + |s.kernel|
      + 2 * (p.consumed - s.seen) - (Handled(s) - s.seen)
  }

  function Stage(producer: Producer): nat {
    match producer
    case Holding(_) => 5
    case Prepared => 4
    case Top => 3
    case Joining => 2
    case Joined => 1
    case Exited => 0
    case Aborted => 0
  }

  lemma StepFuel(p: Params, s: State, step: Step)
    requires p.Valid() && Inv(p, s) && Enabled(p, s, step)
    ensures Fuel(p, Next(p, s, step)) < Fuel(p, s)
  {
    hide Newest, SharedOut;
    var t := Next(p, s, step);
    match step
    case Submit(taken) => assert |multiset(s.sq[..taken])| == taken;
    case Prepare => assert Pending(t) == Pending(s);
    case _ =>
  }

  lemma {:induction false} FuelBounds(p: Params, s: State, steps: seq<Step>)
    requires p.Valid() && Inv(p, s) && Legal(p, s, steps)
    ensures |steps| <= Fuel(p, s)
    decreases |steps|
  {
    if steps != [] {
      StepInv(p, s, steps[0]);
      StepFuel(p, s, steps[0]);
      FuelBounds(p, Next(p, s, steps[0]), steps[1..]);
    }
  }

  /** No run is infinite: the two threads and the kernel take a bounded number of steps. */
  lemma RunsAreFinite(p: Params, steps: seq<Step>)
    requires p.Valid() && Legal(p, Init(p), steps)
    ensures |steps| <= 4 * p.requests + 2 * p.consumed + 3
  {
    hide Inv, Legal;
    InitInv(p);
    FuelBounds(p, Init(p), steps);
  }

  /** Nobody can move. */
  ghost predicate Stuck(p: Params, s: State) {
    forall step :: !Enabled(p, s, step)
  }

  /** A torn-down ring is the end: no thread moves, and nothing completes. */
  lemma ExitIsFinal(p: Params, steps: seq<Step>)
    requires p.Valid() && Legal(p, Init(p), steps) && Run(p, Init(p), steps).producer.Exited?
    ensures Stuck(p, Run(p, Init(p), steps))
  {
    hide Owned;
    RunInv(p, steps);
  }

  /** A run that cannot be extended has torn the ring down exactly if the handler did not give up
      and the kernel was handed at least as many entries as the second thread waits for; otherwise
      the threads wait for ever. */
  lemma MaximalRun(p: Params, steps: seq<Step>)
    requires p.Valid() && Legal(p, Init(p), steps) && Stuck(p, Run(p, Init(p), steps))
    ensures |steps| <= 4 * p.requests + 2 * p.consumed + 3
    ensures var s := Run(p, Init(p), steps);
      s.producer.Exited? <==> !s.producer.Aborted? && p.requests - |s.sq| >= p.consumed
  {
    RunInv(p, steps);
    RunsAreFinite(p, steps);
    StuckState(p, Run(p, Init(p), steps));
  }

  lemma StuckState(p: Params, s: State)
    requires p.Valid() && Inv(p, s) && Stuck(p, s)
    ensures s.producer.Exited? <==> !s.producer.Aborted? && p.requests - |s.sq| >= p.consumed
  {
    assert !Enabled(p, s, Allocate) && !Enabled(p, s, GiveUp) && !Enabled(p, s, Prepare);
    assert !Enabled(p, s, Submit(0)) && !Enabled(p, s, Free) && !Enabled(p, s, Retire);
    assert !Enabled(p, s, Join) && !Enabled(p, s, Exit);
    assert Pending(s) == s.sq;
    assert |s.kernel| + |s.sq| + |s.posted| == s.made;
    if s.kernel != multiset{} && !s.producer.Exited? {
      var b :| b in s.kernel;
      assert Enabled(p, s, Complete(b));
      assert false;
    }
  }

  /** Every submission takes the whole queue. */
  predicate Eager(p: Params, s: State, steps: seq<Step>)
    requires Legal(p, s, steps)
    decreases |steps|
  {
    steps == [] || (
      && (steps[0].Submit? ==> steps[0].taken == |s.sq|)
      && Eager(p, Next(p, s, steps[0]), steps[1..]))
  }

  lemma {:induction false} EagerDrains(p: Params, s: State, steps: seq<Step>)
    requires p.Valid() && Legal(p, s, steps) && Eager(p, s, steps)
    requires !s.producer.Aborted? && (s.producer.Prepared? || s.sq == [])
    ensures var t := Run(p, s, steps); !t.producer.Aborted? && (t.producer.Prepared? || t.sq == [])
    decreases |steps|
  {
    if steps != [] {
      EagerDrains(p, Next(p, s, steps[0]), steps[1..]);
    }
  }

  /** If the kernel takes every submission whole, every maximal run of every interleaving tears the
      ring down, or none does: exactly M >= N decides. */
  lemma EagerRunsTerminateIff(p: Params, steps: seq<Step>)
    requires p.Valid() && Legal(p, Init(p), steps) && Eager(p, Init(p), steps)
    requires Stuck(p, Run(p, Init(p), steps))
    ensures Run(p, Init(p), steps).producer.Exited? <==> p.requests >= p.consumed
  {
    MaximalRun(p, steps);
    EagerDrains(p, Init(p), steps);
    var s := Run(p, Init(p), steps);
    assert !Enabled(p, s, Submit(0));
  }

  // ---------------------------------------------------------------------------- reachability

  lemma Prepend(p: Params, s: State, step: Step, rest: seq<Step>)
    requires Enabled(p, s, step) && Legal(p, Next(p, s, step), rest)
    ensures Legal(p, s, [step] + rest)
    ensures Run(p, s, [step] + rest) == Run(p, Next(p, s, step), rest)
  {
    assert ([step] + rest)[1..] == rest;
  }

  /** All requests so far are served and at most N completions consumed. */
  ghost predicate Idle(p: Params, s: State) {
    && s.consumer.Waiting? && s.sq == []
    && |s.posted| == s.made
    && s.seen == (if s.made < p.consumed then s.made else p.consumed)
    && s.producer == (if s.made < p.requests then Top else Joining)
  }

  /** From an idle state the rest of the stream can be served one request at a time. */
  lemma {:induction false} ServeRest(p: Params, s: State) returns (steps: seq<Step>)
    requires p.Valid() && p.requests >= p.consumed && Idle(p, s)
    ensures Legal(p, s, steps) && Run(p, s, steps).producer.Exited?
    decreases p.requests - s.made
  {
    if s.made >= p.requests {
      var t := Next(p, s, Join);
      Prepend(p, t, Exit, []);
      Prepend(p, s, Join, [Exit]);
      return [Join, Exit];
    }
    var s1 := Next(p, s, Allocate);
    var s2 := Next(p, s1, Prepare);
    var s3 := Next(p, s2, Submit(1));
    var s4 := Next(p, s3, Complete(s.made));
    if s4.seen < p.consumed {
      var s5 := Next(p, s4, Free);
      var s6 := Next(p, s5, Retire);
      steps := ServeRest(p, s6);
      Prepend(p, s5, Retire, steps);
      Prepend(p, s4, Free, [Retire] + steps);
      steps := [Free] + ([Retire] + steps);
    } else {
      steps := ServeRest(p, s4);
    }
    Prepend(p, s3, Complete(s.made), steps);
    steps := [Complete(s.made)] + steps;
    Prepend(p, s2, Submit(1), steps);
    steps := [Submit(1)] + steps;
    Prepend(p, s1, Prepare, steps);
    steps := [Prepare] + steps;
    Prepend(p, s, Allocate, steps);
    steps := [Allocate] + steps;
  }

  /** Some run gets past the join exactly when the stream is at least as long as the count. */
  lemma JoinPossibleIff(p: Params)
    requires p.Valid()
    ensures (exists steps :: Legal(p, Init(p), steps) && Run(p, Init(p), steps).producer.Exited?)
       <==> p.requests >= p.consumed
  {
    if p.requests >= p.consumed {
      var steps := ServeRest(p, Init(p));
      assert Legal(p, Init(p), steps) && Run(p, Init(p), steps).producer.Exited?;
    }
    forall steps | Legal(p, Init(p), steps) && Run(p, Init(p), steps).producer.Exited?
      ensures p.requests >= p.consumed
    {
      JoinExact(p, steps);
    }
  }
}
