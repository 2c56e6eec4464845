/**
 The two threads of test_small_aio in src/file_rw_nvmeof.cc side by side: AioBatching runs the
 submitting loop before the collecting one; here their calls and the kernel's answers come in any order.
 A run is any sequence of steps; a step that its thread cannot take changes nothing.
 */
module AioThreads {
  import opened AioBatching
  import opened Arithmetic
  import opened Ids

  datatype Params = Params(queueDepth: nat, total: nat)

  datatype State = State(
    batches: nat,         // calls of io_submit so far
    offered: nat,         // control blocks handed to it
    accepted: seq<nat>,   // those it took, in order
    deleted: seq<nat>,    // control blocks whose event was collected, in order
    tally: int,           // the collecting thread's cnt
    errors: nat,          // error numbers io_getevents has answered with, added up
    whole: bool)          // every io_submit took all it was offered

  datatype Step =
    | Submit(taken: nat)           // io_submit takes the first of the next batch, none if it fails
    | Collect(events: seq<nat>)    // io_getevents: close, delete, count
    | Fail(error: nat)             // it answers with a negative number instead, which is counted too

  function Init(): State {
    State(0, 0, [], [], 0, 0, true)
  }

  /** The size of the next batch. */
  function Batch(p: Params, s: State): nat {
    if s.offered + p.queueDepth <= p.total then p.queueDepth
    else if s.offered <= p.total then p.total - s.offered else 0
  }

  /** An event may be collected once for each accepted block. */
  ghost predicate Enabled(p: Params, s: State, step: Step) {
    match step
    case Submit(taken) => s.offered < p.total && taken <= Batch(p, s)
    case Collect(events) =>
      && s.tally < p.total && |events| <= p.queueDepth
      && multiset(s.deleted + events) <= multiset(s.accepted)
    case Fail(error) => s.tally < p.total
  }

  ghost function Next(p: Params, s: State, step: Step): State {
    if !Enabled(p, s, step) then s else
      match step
      case Submit(taken) =>
        s.(batches := s.batches + 1,
           offered := s.offered + Batch(p, s),
           accepted := s.accepted + Range(s.offered, Batch(p, s))[..taken],
           whole := s.whole && taken == Batch(p, s))
      case Collect(events) => s.(deleted := s.deleted + events, tally := s.tally + |events|)
      case Fail(error) => s.(tally := s.tally - error, errors := s.errors + error)
  }

  ghost function Run(p: Params, steps: seq<Step>): State {
    if steps == [] then Init() else Next(p, Run(p, steps[..|steps| - 1]), steps[|steps| - 1])
  }

  ghost predicate Inv(p: Params, s: State) {
    && s.offered == (if s.batches * p.queueDepth <= p.total then s.batches * p.queueDepth else p.total)
    && FromRange(s.accepted, s.offered) && |s.accepted| <= s.offered
    && (s.whole <==> |s.accepted| == s.offered)
    && multiset(s.deleted) <= multiset(s.accepted)
    && s.tally == |s.deleted| - s.errors
  }

  lemma StepInv(p: Params, s: State, step: Step)
    requires Inv(p, s)
    ensures Inv(p, Next(p, s, step))
  {
    hide FromRange;
    if Enabled(p, s, step) && step.Submit? {
      assert (s.batches + 1) * p.queueDepth == s.batches * p.queueDepth + p.queueDepth;
      Accepted(s.accepted, s.offered, Batch(p, s), step.taken);
    }
  }

  lemma {:induction false} RunInv(p: Params, steps: seq<Step>)
    ensures Inv(p, Run(p, steps))
  {
    if steps != [] {
      hide Inv, Next;
      RunInv(p, steps[..|steps| - 1]);
      StepInv(p, Run(p, steps[..|steps| - 1]), steps[|steps| - 1]);
    }
  }

  /** The collecting thread has left its loop. */
  predicate Ended(p: Params, s: State) {
    s.tally >= p.total
  }

  /** All batches are offered, and every event there will ever be is collected. */
  predicate Drained(p: Params, s: State) {
    s.offered == p.total && |s.deleted| == |s.accepted|
  }

  lemma SizeBound(a: multiset<nat>, b: multiset<nat>)
    requires a <= b
    ensures |a| <= |b|
  {
    assert b == a + (b - a);
  }

  /** In every interleaving nothing is closed and deleted twice; the collecting thread has ended only if
      all of 0, ..., N - 1 are; and once there is nothing left to collect it has ended exactly if every
      io_submit took its whole batch and no io_getevents failed. Otherwise it waits for ever. */
  lemma CollectedOnce(p: Params, steps: seq<Step>)
    ensures var s := Run(p, steps);
      && s.offered == (if s.batches * p.queueDepth <= p.total then s.batches * p.queueDepth else p.total)
      && NoRepeats(s.deleted) && (forall i: nat :: i in s.deleted ==> i < s.offered <= p.total)
      && (Ended(p, s) ==> s.whole && s.errors == 0 && forall i: nat :: i in s.deleted <==> i < p.total)
      && (Drained(p, s) ==> (Ended(p, s) <==> s.whole && s.errors == 0))
  {
    hide FromRange, Run;
    RunInv(p, steps);
    var s := Run(p, steps);
    SizeBound(multiset(s.deleted), multiset(s.accepted));
    assert FromRange(s.deleted, s.offered) by { Within(s.deleted, s.accepted, s.offered); }
    DeletedAtMostOnce(s.deleted, s.offered);
    if Ended(p, s) {
      AllDeleted(s.deleted, p.total);
    }
  }

  lemma Within(a: seq<nat>, b: seq<nat>, n: nat)
    requires multiset(a) <= multiset(b) && FromRange(b, n)
    ensures FromRange(a, n)
  {
  }

  // ---------------------------------------------------------------------------- what can happen

  lemma Then(p: Params, steps: seq<Step>, step: Step) returns (longer: seq<Step>)
    ensures longer == steps + [step] && Run(p, longer) == Next(p, Run(p, steps), step)
  {
    longer := steps + [step];
    assert longer[..|longer| - 1] == steps;
  }

  lemma RangeGrows(n: nat, k: nat)
    ensures Range(0, n) + Range(n, k) == Range(0, n + k)
    ensures Range(n, k)[..k] == Range(n, k)
  {
  }

  /** b batches with n blocks have been taken whole and collected, after one failure. */
  function Collected(b: nat, n: nat, error: nat): State {
    State(b, n, Range(0, n), Range(0, n), n - error, error, true)
  }

  lemma OneBatch(p: Params, b: nat, n: nat, error: nat)
    requires p.queueDepth > 0 && n < p.total
    ensures
      var s := Collected(b, n, error);
      var k := Batch(p, s);
      Next(p, Next(p, s, Submit(k)), Collect(Range(n, k))) == Collected(b + 1, n + k, error)
  {
    RangeGrows(n, Batch(p, Collected(b, n, error)));
  }

  lemma OneFailure(p: Params, error: nat)
    requires p.total > 0
    ensures Next(p, Init(), Fail(error)) == Collected(0, 0, error)
  {
    assert Range(0, 0) == [];
  }

  /** The blocks of the first b batches. */
  function Offered(p: Params, b: nat): nat {
    if b * p.queueDepth <= p.total then b * p.queueDepth else p.total
  }

  lemma {:induction false} WholeBatches(p: Params, b: nat, error: nat) returns (steps: seq<Step>)
    requires p.queueDepth > 0 && p.total > 0 && b <= CeilDiv(p.total, p.queueDepth)
    ensures |steps| == 1 + 2 * b && Run(p, steps) == Collected(b, Offered(p, b), error)
  {
    hide Next, Run, Collected;
    if b == 0 {
      RunNothing(p);
      OneFailure(p, error);
      steps := Then(p, [], Fail(error));
    } else {
      steps := WholeBatches(p, b - 1, error);
      BatchLeft(p, b);
      var n := Offered(p, b - 1);
      var k := Offered(p, b) - n;
      OneBatch(p, b - 1, n, error);
      BatchSize(p, b - 1, n, error);
      steps := Then(p, steps, Submit(k));
      steps := Then(p, steps, Collect(Range(n, k)));
    }
  }

  lemma RunNothing(p: Params)
    ensures Run(p, []) == Init()
  {
  }

  lemma BatchSize(p: Params, b: nat, n: nat, error: nat)
    ensures Batch(p, Collected(b, n, error)) ==
      if n + p.queueDepth <= p.total then p.queueDepth else if n <= p.total then p.total - n else 0
  {
  }

  lemma BatchLeft(p: Params, b: nat)
    requires p.queueDepth > 0 && 0 < b <= CeilDiv(p.total, p.queueDepth)
    ensures (b - 1) * p.queueDepth < p.total && b * p.queueDepth == (b - 1) * p.queueDepth + p.queueDepth
  {
    var d, c := p.queueDepth, CeilDiv(p.total, p.queueDepth);
    DivModSplit(p.total + d - 1, d);
    MulMonotone(d, b, c);
    assert b * d == (b - 1) * d + d;
  }

  lemma LastBatch(p: Params)
    requires p.queueDepth > 0
    ensures CeilDiv(p.total, p.queueDepth) * p.queueDepth >= p.total
  {
    DivModSplit(p.total + p.queueDepth - 1, p.queueDepth);
  }

  /** The test can end after as many calls of each kind as there are batches; and one failed
      io_getevents, whatever its number, is enough to keep it from ever ending. */
  lemma EndsUnlessFailed(p: Params, error: nat) returns (steps: seq<Step>)
    requires p.queueDepth > 0 && p.total > 0
    ensures |steps| == 1 + 2 * CeilDiv(p.total, p.queueDepth)
    ensures var s := Run(p, steps);
      s.whole && s.errors == error && Drained(p, s) && (Ended(p, s) <==> error == 0)
  {
    LastBatch(p);
    steps := WholeBatches(p, CeilDiv(p.total, p.queueDepth), error);
  }

  /** So is an io_submit that takes one block too few. */
  lemma ShortNeverEnds(p: Params) returns (steps: seq<Step>)
    requires p.queueDepth > 0 && p.total > 0
    ensures var s := Run(p, steps);
      && |s.accepted| + 1 == p.total && s.errors == 0 && !s.whole
      && Drained(p, s) && !Ended(p, s)
  {
    var b := CeilDiv(p.total, p.queueDepth);
    DivModSplit(p.total + p.queueDepth - 1, p.queueDepth);
    LastBatch(p);
    if b == 0 { assert false; }
    steps := WholeBatches(p, b - 1, 0);
    BatchLeft(p, b);
    var s := Run(p, steps);
    var k := Batch(p, s);
    RangeGrows(s.offered, k - 1);
    assert Range(s.offered, k)[..k - 1] == Range(s.offered, k - 1);
    steps := Then(p, steps, Submit(k - 1));
    steps := Then(p, steps, Collect(Range(s.offered, k - 1)));
  }
}
