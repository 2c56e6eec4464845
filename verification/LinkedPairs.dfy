/**
 The variant of the two-thread protocol in AppendManySmallFilesAsync of src/file_target.cc (and, but
 for the shared buffer, test_small_io_uring of src/file_rw_nvmeof.cc): each request opens a file and
 places two linked entries in the ring, a write and the close of its descriptor. The second thread
 waits for 2N completions and frees a buffer at each one that carries a buffer.

 Assumed of the kernel: a linked close starts only after its write has succeeded, a failed write has
 its close completed as cancelled, a submission takes a prefix of the queued entries, and a close
 that is submitted apart from its write is not linked to it. Assumed of the library: preparing a close
 clears the entry's user data, which the code never sets; otherwise the completion of a close would
 carry whatever buffer the slot was last used for, and that buffer would be freed again.
 */
module LinkedPairs {
  import opened Ids

  /** requests: messages of the stream; consumed: the requests whose completions the second thread
      waits for; entries: the ring's submission slots. */
  datatype Params = Params(requests: nat, consumed: nat, entries: nat) {
    /** The loop takes at least one turn, and a ring has at least one slot. */
    predicate Valid() {
      requests > 0 && entries > 0
    }
  }

  datatype Producer =
    | Top        // a request has been read
    | Filling    // its file is open, its write entry prepared; the close still needs a slot
    | Prepared   // both entries are in the submission queue
    | Joining
    | Joined
    | Exited

  datatype Consumer = Waiting | HandledHead

  /** What became of a close. One that reports an error has released its descriptor all the same. */
  datatype CloseResult = Closed | CloseFailed | Cancelled

  datatype Option<+T> = None | Some(value: T)

  /** A pair whose write has been submitted. `Cut` pairs had their submission end between the two
      entries, which leaves the close unlinked. */
  datatype Pair =
    | Writing
    | Closing                        // the write succeeded
    | Cancelling                     // the write failed
    | Finished(result: CloseResult)
    | Cut(wrote: Option<bool>, close: CutClose)

  datatype CutClose = Queued | Running | Over(failed: bool)

  /** A completion: the write's carries the buffer of request `id`, the close's carries none. */
  datatype Cqe = WriteCqe(id: nat, ok: bool) | CloseCqe(id: nat, result: CloseResult)

  datatype State = State(
    producer: Producer,
    consumer: Consumer,
    begun: nat,           // requests whose file and buffer exist, numbered in order
    prepared: nat,        // pairs placed in the submission queue, in that order
    taken: nat,           // entries submitted, two for a whole pair
    kernel: seq<Pair>,    // the pairs whose write is submitted, in that order
    posted: seq<Cqe>,     // every completion posted, in order
    seen: nat,            // how many of them the second thread has retired
    freed: seq<nat>,      // buffers freed, in order
    closed: seq<nat>)     // descriptors closed, in order

  datatype Step =
    | OpenWrite                      // open, get_sqe, posix_memalign, prep_write, IOSQE_IO_LINK
    | PrepareClose                   // get_sqe, prep_close
    | Submit(count: nat)             // io_uring_submit takes `count` entries; then the next Read
    | WriteDone(id: nat, ok: bool)
    | CloseDone(id: nat, failed: bool)
    | CloseCancelled(id: nat)
    | Handle                         // wait_cqe returned: free(data) unless data is null
    | Retire                         // io_uring_cqe_seen, i++
    | Join
    | Exit

  function Init(): State {
    State(Top, Waiting, 0, 0, 0, [], [], 0, [], [])
  }

  /** Submission slots in use. */
  function Slots(s: State): int {
    2 * s.prepared - s.taken + if s.producer.Filling? then 1 else 0
  }

  // ---------------------------------------------------------------------------- what the kernel does

  /** The result of a pair's write, once it has completed. */
  function Wrote(pair: Pair): Option<bool> {
    match pair
    case Writing => None
    case Closing => Some(true)
    case Cancelling => Some(false)
    case Finished(result) => Some(result != Cancelled)
    case Cut(wrote, _) => wrote
  }

  /** The result of a pair's close, once it has completed. */
  function Ended(pair: Pair): Option<CloseResult> {
    match pair
    case Finished(result) => Some(result)
    case Cut(_, Over(failed)) => Some(if failed then CloseFailed else Closed)
    case _ => None
  }

  predicate CanWrite(pair: Pair) {
    pair.Writing? || (pair.Cut? && pair.wrote.None?)
  }

  predicate CanClose(pair: Pair) {
    pair.Closing? || (pair.Cut? && pair.close.Running?)
  }

  function AfterWrite(pair: Pair, ok: bool): Pair
    requires CanWrite(pair)
  {
    match pair
    case Cut(_, close) => Cut(Some(ok), close)
    case _ => if ok then Closing else Cancelling
  }

  function AfterClose(pair: Pair, failed: bool): Pair
    requires CanClose(pair)
  {
    match pair
    case Cut(wrote, _) => Cut(wrote, Over(failed))
    case _ => Finished(if failed then CloseFailed else Closed)
  }

  /** n pairs just submitted whole. */
  function Fresh(n: nat): (pairs: seq<Pair>)
    ensures |pairs| == n && forall i :: 0 <= i < n ==> pairs[i] == Writing
  {
    seq(n, _ => Writing)
  }

  /** n more entries, starting with a write. */
  function AddEntries(kernel: seq<Pair>, n: nat): seq<Pair> {
    kernel + Fresh(n / 2) + if n % 2 == 1 then [Cut(None, Queued)] else []
  }

  /** The close of a cut pair follows. */
  function Resume(kernel: seq<Pair>): (r: seq<Pair>)
    requires kernel != []
    ensures |r| == |kernel|
  {
    var last := kernel[|kernel| - 1];
    if last.Cut? && last.close.Queued? then kernel[|kernel| - 1 := Cut(last.wrote, Running)] else kernel
  }

  /** The pairs after a submission of n entries behind the first `taken`. */
  function Submitted(kernel: seq<Pair>, taken: nat, n: nat): seq<Pair> {
    if n > 0 && taken % 2 == 1 && kernel != [] then AddEntries(Resume(kernel), n - 1)
    else AddEntries(kernel, n)
  }

  predicate Enabled(p: Params, s: State, step: Step) {
    match step
    case OpenWrite => s.producer.Top? && Slots(s) < p.entries
    case PrepareClose => s.producer.Filling? && Slots(s) < p.entries
    case Submit(n) => s.producer.Prepared? && s.taken + n <= 2 * s.prepared
    case WriteDone(id, _) => !s.producer.Exited? && id < |s.kernel| && CanWrite(s.kernel[id])
    case CloseDone(id, _) => !s.producer.Exited? && id < |s.kernel| && CanClose(s.kernel[id])
    case CloseCancelled(id) => !s.producer.Exited? && id < |s.kernel| && s.kernel[id].Cancelling?
    case Handle => s.consumer.Waiting? && s.seen < 2 * p.consumed && s.seen < |s.posted|
    case Retire => s.consumer.HandledHead?
    case Join => s.producer.Joining? && s.consumer.Waiting? && s.seen >= 2 * p.consumed
    case Exit => s.producer.Joined?
  }

  function Next(p: Params, s: State, step: Step): State
    requires Enabled(p, s, step)
  {
    match step
    case OpenWrite => s.(producer := Filling, begun := s.begun + 1)
    case PrepareClose => s.(producer := Prepared, prepared := s.prepared + 1)
    case Submit(n) =>
      s.(producer := if s.begun < p.requests then Top else Joining,
         taken := s.taken + n, kernel := Submitted(s.kernel, s.taken, n))
    case WriteDone(id, ok) =>
      s.(kernel := s.kernel[id := AfterWrite(s.kernel[id], ok)],
         posted := s.posted + [WriteCqe(id, ok)])
    case CloseDone(id, failed) =>
      s.(kernel := s.kernel[id := AfterClose(s.kernel[id], failed)],
         posted := s.posted + [CloseCqe(id, if failed then CloseFailed else Closed)],
         closed := s.closed + [id])
    case CloseCancelled(id) =>
      s.(kernel := s.kernel[id := Finished(Cancelled)], posted := s.posted + [CloseCqe(id, Cancelled)])
    case Handle =>
      s.(consumer := HandledHead,
         freed := s.freed + match s.posted[s.seen] case WriteCqe(id, _) => [id] case CloseCqe(_, _) => [])
    case Retire => s.(consumer := Waiting, seen := s.seen + 1)
    case Join => s.(producer := Joined)
    case Exit => s.(producer := Exited)
  }

  predicate Legal(p: Params, s: State, steps: seq<Step>)
    decreases |steps|
  {
    steps == [] || (Enabled(p, s, steps[0]) && Legal(p, Next(p, s, steps[0]), steps[1..]))
  }

  function Run(p: Params, s: State, steps: seq<Step>): State
    requires Legal(p, s, steps)
    decreases |steps|
  {
    if steps == [] then s else Run(p, Next(p, s, steps[0]), steps[1..])
  }

  // ---------------------------------------------------------------------------- what completions say

  /** The requests whose write completion is among these, in order. */
  function Writes(s: seq<Cqe>): seq<nat> {
    if s == [] then []
    else Writes(s[..|s| - 1]) + match s[|s| - 1] case WriteCqe(id, _) => [id] case CloseCqe(_, _) => []
  }

  /** The requests whose descriptor was released, in order. */
  function Closes(s: seq<Cqe>): seq<nat> {
    if s == [] then []
    else Closes(s[..|s| - 1]) + if Releases(s[|s| - 1]) then [s[|s| - 1].id] else []
  }

  predicate Releases(c: Cqe) {
    c.CloseCqe? && c.result != Cancelled
  }

  /** How often completion c has been posted, by the phase of its pair. */
  function Due(kernel: seq<Pair>, c: Cqe): nat {
    if c.id >= |kernel| then 0 else
      match c
      case WriteCqe(id, ok) => if Wrote(kernel[id]) == Some(ok) then 1 else 0
      case CloseCqe(id, result) => if Ended(kernel[id]) == Some(result) then 1 else 0
  }

  /** Completions a pair in this phase has produced: its write's, and both. */
  function WriteWeight(pair: Pair): nat {
    if Wrote(pair).Some? then 1 else 0
  }

  function Weight(pair: Pair): nat {
    WriteWeight(pair) + if Ended(pair).Some? then 1 else 0
  }

  function Emitted(kernel: seq<Pair>): nat {
    if kernel == [] then 0 else Weight(kernel[0]) + Emitted(kernel[1..])
  }

  function Written(kernel: seq<Pair>): nat {
    if kernel == [] then 0 else WriteWeight(kernel[0]) + Written(kernel[1..])
  }

  lemma {:induction false} SetPair(kernel: seq<Pair>, i: nat, x: Pair)
    requires i < |kernel|
    ensures Emitted(kernel[i := x]) == Emitted(kernel) - Weight(kernel[i]) + Weight(x)
    ensures Written(kernel[i := x]) == Written(kernel) - WriteWeight(kernel[i]) + WriteWeight(x)
  {
    if i > 0 {
      SetPair(kernel[1..], i - 1, x);
      assert kernel[i := x][1..] == kernel[1..][i - 1 := x];
    } else {
      assert kernel[i := x][1..] == kernel[1..];
    }
  }

  /** Pairs that have completed nothing do not count. */
  lemma {:induction false} AddPairs(kernel: seq<Pair>, more: seq<Pair>)
    requires forall i :: 0 <= i < |more| ==> Weight(more[i]) == 0
    ensures Emitted(kernel + more) == Emitted(kernel)
    ensures Written(kernel + more) == Written(kernel)
    decreases |kernel| + |more|
  {
    if kernel != [] {
      assert (kernel + more)[1..] == kernel[1..] + more;
      AddPairs(kernel[1..], more);
    } else if more != [] {
      assert (kernel + more)[1..] == kernel + more[1..];
      AddPairs(kernel, more[1..]);
      assert Weight(more[0]) == 0;
    }
  }

  lemma {:induction false} EmittedBounds(kernel: seq<Pair>)
    ensures Written(kernel) <= Emitted(kernel) <= Written(kernel) + |kernel|
    ensures Written(kernel) <= |kernel|
    ensures Emitted(kernel) == 2 * |kernel| ==>
      forall i :: 0 <= i < |kernel| ==> Wrote(kernel[i]).Some? && Ended(kernel[i]).Some?
  {
    if kernel != [] {
      EmittedBounds(kernel[1..]);
      assert forall i :: 1 <= i < |kernel| ==> kernel[i] == kernel[1..][i - 1];
    }
  }

  function Handled(s: State): nat {
    s.seen + if s.consumer.HandledHead? then 1 else 0
  }

  // ---------------------------------------------------------------------------- invariant

  /** No close has been submitted apart from its write. */
  ghost predicate NoLooseClose(kernel: seq<Pair>) {
    forall i :: 0 <= i < |kernel| && kernel[i].Cut? ==> kernel[i].close.Queued?
  }

  /** The threads' positions. */
  ghost predicate Control(p: Params, s: State) {
    && s.begun <= p.requests
    && s.taken <= 2 * s.prepared && CutLast(s.kernel, s.taken)
    && s.begun == s.prepared + (if s.producer.Filling? then 1 else 0)
    && Slots(s) <= p.entries
    && (p.entries < 2 ==> s.prepared == 0)
    && (s.producer.Top? ==> s.begun < p.requests)
    && (s.producer.Joining? || s.producer.Joined? || s.producer.Exited? ==> s.begun == p.requests)
    && Handled(s) <= |s.posted| && Handled(s) <= 2 * p.consumed
    && (s.producer.Joined? || s.producer.Exited? ==> s.consumer.Waiting? && s.seen == 2 * p.consumed)
  }

  /** Each completion has been posted as often as the phase of its pair says, at most once. */
  ghost predicate PostedOnce(kernel: seq<Pair>, posted: seq<Cqe>) {
    forall c: Cqe :: multiset(posted)[c] == Due(kernel, c)
  }

  /** A close completion follows its own write completion; it is cancelled exactly if that failed. */
  ghost predicate WriteFirst(posted: seq<Cqe>) {
    forall j :: 0 <= j < |posted| && posted[j].CloseCqe? ==>
      WriteCqe(posted[j].id, posted[j].result != Cancelled) in posted[..j]
  }

  /** At most half of any prefix of the completions are closes. */
  ghost predicate WritesLead(posted: seq<Cqe>) {
    forall k :: 0 <= k <= |posted| ==> 2 * |Writes(posted[..k])| >= k
  }

  ghost predicate Counted(kernel: seq<Pair>, posted: seq<Cqe>) {
    |posted| == Emitted(kernel) && |Writes(posted)| == Written(kernel)
  }

  ghost predicate Logs(s: State) {
    && Handled(s) <= |s.posted|
    && s.freed == Writes(s.posted[..Handled(s)])
    && s.closed == Closes(s.posted)
  }

  /** What the posted completions say about the submitted pairs; about their order only as long as
      every close submitted is linked. */
  ghost predicate Completed(kernel: seq<Pair>, posted: seq<Cqe>) {
    && PostedOnce(kernel, posted) && Counted(kernel, posted)
    && (NoLooseClose(kernel) ==> WriteFirst(posted) && WritesLead(posted))
  }

  ghost predicate Inv(p: Params, s: State) {
    Control(p, s) && Completed(s.kernel, s.posted) && Logs(s)
  }

  lemma InitInv(p: Params)
    requires p.Valid()
    ensures Inv(p, Init())
  {
  }

  /** A pair is cut as long as an odd number of entries is submitted. */
  ghost predicate CutLast(kernel: seq<Pair>, taken: nat) {
    && |kernel| == (taken + 1) / 2
    && (taken % 2 == 1 ==> kernel[|kernel| - 1].Cut? && kernel[|kernel| - 1].close.Queued?)
  }

  lemma SubmittedCutLast(kernel: seq<Pair>, taken: nat, n: nat)
    requires CutLast(kernel, taken)
    ensures CutLast(Submitted(kernel, taken, n), taken + n)
  {
    var after := Submitted(kernel, taken, n);
    if n > 0 && taken % 2 == 1 {
      assert |after| == |kernel| + (n - 1) / 2 + (n - 1) % 2;
    } else {
      assert |after| == |kernel| + n / 2 + n % 2;
    }
  }

  lemma StepControl(p: Params, s: State, step: Step)
    requires Control(p, s) && Enabled(p, s, step)
    ensures Control(p, Next(p, s, step))
  {
    hide Submitted;
    if step.Submit? {
      SubmittedCutLast(s.kernel, s.taken, step.count);
    }
  }

  lemma Snoc(posted: seq<Cqe>, c: Cqe)
    ensures Writes(posted + [c]) == Writes(posted) + (if c.WriteCqe? then [c.id] else [])
    ensures Closes(posted + [c]) == Closes(posted) + (if Releases(c) then [c.id] else [])
    ensures multiset(posted + [c]) == multiset(posted) + multiset{c}
    ensures forall k :: 0 <= k <= |posted| ==> (posted + [c])[..k] == posted[..k]
  {
    assert (posted + [c])[..|posted|] == posted;
  }

  lemma PostKeepsOrder(posted: seq<Cqe>, c: Cqe)
    requires WriteFirst(posted) && (c.CloseCqe? ==> WriteCqe(c.id, c.result != Cancelled) in posted)
    ensures WriteFirst(posted + [c])
  {
    Snoc(posted, c);
    var t := posted + [c];
    forall j | 0 <= j < |t| && t[j].CloseCqe?
      ensures WriteCqe(t[j].id, t[j].result != Cancelled) in t[..j]
    {
      assert t[..j] == posted[..j];
      if j == |posted| { assert posted[..j] == posted; }
    }
  }

  lemma PostKeepsLead(posted: seq<Cqe>, c: Cqe)
    requires WritesLead(posted) && 2 * |Writes(posted + [c])| >= |posted| + 1
    ensures WritesLead(posted + [c])
  {
    Snoc(posted, c);
    var t := posted + [c];
    forall k | 0 <= k <= |t| ensures 2 * |Writes(t[..k])| >= k {
      if k == |t| { assert t[..k] == t; } else { assert t[..k] == posted[..k]; }
    }
  }

  /** The completion that moves a pair from phase `pair` to phase `next`. */
  predicate Moves(pair: Pair, c: Cqe, next: Pair) {
    match c
    case WriteCqe(_, ok) => CanWrite(pair) && next == AfterWrite(pair, ok)
    case CloseCqe(_, result) =>
      if result == Cancelled then pair == Cancelling && next == Finished(Cancelled)
      else CanClose(pair) && next == AfterClose(pair, result == CloseFailed)
  }

  /** The kernel moves pair c.id on and posts completion c for it. */
  lemma PostInv(kernel: seq<Pair>, posted: seq<Cqe>, c: Cqe, next: Pair)
    requires c.id < |kernel| && Moves(kernel[c.id], c, next) && Completed(kernel, posted)
    ensures Completed(kernel[c.id := next], posted + [c])
  {
    hide PostedOnce, WriteFirst, WritesLead, Counted, NoLooseClose;
    PostKeepsOnce(kernel, posted, c, next);
    PostKeepsCount(kernel, posted, c, next);
    var after := kernel[c.id := next];
    if NoLooseClose(after) {
      LooseStays(kernel, c, next);
      OwnWritePosted(kernel, posted, c, next);
      PostKeepsOrder(posted, c);
      CountedLead(after, posted + [c]);
      PostKeepsLead(posted, c);
    }
  }

  /** A pair once cut stays cut. */
  lemma LooseStays(kernel: seq<Pair>, c: Cqe, next: Pair)
    requires c.id < |kernel| && Moves(kernel[c.id], c, next) && NoLooseClose(kernel[c.id := next])
    ensures NoLooseClose(kernel)
    ensures c.CloseCqe? ==> !kernel[c.id].Cut?
  {
    var after := kernel[c.id := next];
    assert after[c.id] == next;
    forall i | 0 <= i < |kernel| && kernel[i].Cut? ensures kernel[i].close.Queued? {
      assert i != c.id ==> after[i] == kernel[i];
    }
  }

  lemma {:induction false} CountedLead(kernel: seq<Pair>, posted: seq<Cqe>)
    requires Counted(kernel, posted) && NoLooseClose(kernel)
    ensures 2 * |Writes(posted)| >= |posted|
  {
    WritesFirstCount(kernel);
  }

  lemma {:induction false} WritesFirstCount(kernel: seq<Pair>)
    requires NoLooseClose(kernel)
    ensures Emitted(kernel) <= 2 * Written(kernel)
  {
    if kernel != [] {
      assert forall i :: 0 <= i < |kernel| - 1 ==> kernel[1..][i] == kernel[i + 1];
      WritesFirstCount(kernel[1..]);
    }
  }

  lemma OwnWritePosted(kernel: seq<Pair>, posted: seq<Cqe>, c: Cqe, next: Pair)
    requires PostedOnce(kernel, posted) && c.id < |kernel| && Moves(kernel[c.id], c, next)
    requires c.CloseCqe? ==> !kernel[c.id].Cut?
    ensures c.CloseCqe? ==> WriteCqe(c.id, c.result != Cancelled) in posted
  {
    if c.CloseCqe? {
      assert multiset(posted)[WriteCqe(c.id, c.result != Cancelled)] == 1;
    }
  }

  lemma PostKeepsOnce(kernel: seq<Pair>, posted: seq<Cqe>, c: Cqe, next: Pair)
    requires c.id < |kernel| && Moves(kernel[c.id], c, next) && PostedOnce(kernel, posted)
    ensures PostedOnce(kernel[c.id := next], posted + [c])
  {
    var after := kernel[c.id := next];
    forall d: Cqe ensures multiset(posted + [c])[d] == Due(after, d) {
      assert multiset(posted + [c])[d] == multiset(posted)[d] + if d == c then 1 else 0;
      DueMoves(kernel, c, next, d);
    }
  }

  lemma DueMoves(kernel: seq<Pair>, c: Cqe, next: Pair, d: Cqe)
    requires c.id < |kernel| && Moves(kernel[c.id], c, next)
    ensures Due(kernel[c.id := next], d) == Due(kernel, d) + if d == c then 1 else 0
  {
    if d.id != c.id && d.id < |kernel| {
      assert kernel[c.id := next][d.id] == kernel[d.id];
    }
  }

  lemma PostKeepsCount(kernel: seq<Pair>, posted: seq<Cqe>, c: Cqe, next: Pair)
    requires c.id < |kernel| && Moves(kernel[c.id], c, next) && Counted(kernel, posted)
    ensures Counted(kernel[c.id := next], posted + [c])
  {
    Snoc(posted, c);
    SetPair(kernel, c.id, next);
  }

  lemma StepInv(p: Params, s: State, step: Step)
    requires Inv(p, s) && Enabled(p, s, step)
    ensures Inv(p, Next(p, s, step))
  {
    hide Control, Completed, Logs, Next, Enabled;
    StepControl(p, s, step);
    StepLogs(s, p, step);
    StepKernel(p, s, step);
  }

  lemma StepLogs(s: State, p: Params, step: Step)
    requires Logs(s) && Enabled(p, s, step)
    ensures Logs(Next(p, s, step))
  {
    hide Writes, Closes, Slots, Submitted;
    match step
    case WriteDone(id, ok) => Snoc(s.posted, WriteCqe(id, ok));
    case CloseDone(id, failed) => Snoc(s.posted, CloseCqe(id, if failed then CloseFailed else Closed));
    case CloseCancelled(id) => Snoc(s.posted, CloseCqe(id, Cancelled));
    case Handle =>
      Snoc(s.posted[..s.seen], s.posted[s.seen]);
      assert s.posted[..s.seen] + [s.posted[s.seen]] == s.posted[..s.seen + 1];
    case _ =>
  }

  lemma StepKernel(p: Params, s: State, step: Step)
    requires Completed(s.kernel, s.posted) && Enabled(p, s, step)
    ensures var t := Next(p, s, step); Completed(t.kernel, t.posted)
  {
    hide Completed, Slots, Submitted;
    match step
    case Submit(n) => SubmitInv(s.kernel, s.posted, s.taken, n);
    case WriteDone(id, ok) =>
      PostInv(s.kernel, s.posted, WriteCqe(id, ok), AfterWrite(s.kernel[id], ok));
    case CloseDone(id, failed) =>
      PostInv(s.kernel, s.posted, CloseCqe(id, if failed then CloseFailed else Closed),
              AfterClose(s.kernel[id], failed));
    case CloseCancelled(id) => PostInv(s.kernel, s.posted, CloseCqe(id, Cancelled), Finished(Cancelled));
    case _ =>
  }

  /** A submission completes nothing and keeps what is loose. */
  lemma SubmitInv(kernel: seq<Pair>, posted: seq<Cqe>, taken: nat, n: nat)
    requires Completed(kernel, posted)
    ensures Completed(Submitted(kernel, taken, n), posted)
  {
    hide WriteFirst, WritesLead;
    if n > 0 && taken % 2 == 1 && kernel != [] {
      ResumeKeeps(kernel, posted);
      AddKeeps(Resume(kernel), posted, n - 1);
    } else {
      AddKeeps(kernel, posted, n);
    }
  }

  lemma ResumeKeeps(kernel: seq<Pair>, posted: seq<Cqe>)
    requires kernel != [] && Completed(kernel, posted)
    ensures Completed(Resume(kernel), posted)
  {
    hide WriteFirst, WritesLead;
    var last := |kernel| - 1;
    var after := Resume(kernel);
    if kernel[last].Cut? && kernel[last].close.Queued? {
      SetPair(kernel, last, after[last]);
      forall c: Cqe ensures Due(after, c) == Due(kernel, c) {
        if c.id < |kernel| { assert c.id != last ==> after[c.id] == kernel[c.id]; }
      }
      assert !NoLooseClose(after) by { assert after[last].Cut? && !after[last].close.Queued?; }
    } else {
    }
  }

  lemma AddKeeps(kernel: seq<Pair>, posted: seq<Cqe>, n: nat)
    requires Completed(kernel, posted)
    ensures Completed(AddEntries(kernel, n), posted)
  {
    hide WriteFirst, WritesLead;
    var more := Fresh(n / 2) + if n % 2 == 1 then [Cut(None, Queued)] else [];
    var after := AddEntries(kernel, n);
    assert after == kernel + more;
    AddPairs(kernel, more);
    forall c: Cqe ensures Due(after, c) == Due(kernel, c) {
      if |kernel| <= c.id < |after| { assert after[c.id] == more[c.id - |kernel|]; }
    }
    if NoLooseClose(after) {
      forall i | 0 <= i < |kernel| && kernel[i].Cut? ensures kernel[i].close.Queued? {
        assert after[i] == kernel[i];
      }
    }
  }

  lemma {:induction false} InvFrom(p: Params, s: State, steps: seq<Step>)
    requires Inv(p, s) && Legal(p, s, steps)
    ensures Inv(p, Run(p, s, steps))
    decreases |steps|
  {
    if steps != [] {
      StepInv(p, s, steps[0]);
      InvFrom(p, Next(p, s, steps[0]), steps[1..]);
    }
  }

  /** The invariant holds after every run, whatever the interleaving. */
  lemma RunInv(p: Params, steps: seq<Step>)
    requires p.Valid() && Legal(p, Init(), steps)
    ensures Inv(p, Run(p, Init(), steps))
  {
    hide Inv, Legal, Run;
    InitInv(p);
    InvFrom(p, Init(), steps);
  }

  // ---------------------------------------------------------------------------- safety

  lemma {:induction false} CountWrites(posted: seq<Cqe>, id: nat)
    ensures multiset(Writes(posted))[id] ==
      multiset(posted)[WriteCqe(id, true)] + multiset(posted)[WriteCqe(id, false)]
    decreases |posted|
  {
    if posted != [] {
      var n := |posted| - 1;
      var init, c := posted[..n], posted[n];
      assert posted == init + [c];
      CountWrites(init, id);
      Snoc(init, c);
    }
  }

  lemma {:induction false} CountCloses(posted: seq<Cqe>, id: nat)
    ensures multiset(Closes(posted))[id] ==
      multiset(posted)[CloseCqe(id, Closed)] + multiset(posted)[CloseCqe(id, CloseFailed)]
    decreases |posted|
  {
    if posted != [] {
      var n := |posted| - 1;
      var init, c := posted[..n], posted[n];
      assert posted == init + [c];
      CountCloses(init, id);
      Snoc(init, c);
    }
  }

  lemma {:induction false} WritesSize(posted: seq<Cqe>)
    ensures |Writes(posted)| <= |posted|
    decreases |posted|
  {
    if posted != [] {
      WritesSize(posted[..|posted| - 1]);
    }
  }

  lemma {:induction false} WritesPrefix(posted: seq<Cqe>, k: nat)
    requires k <= |posted|
    ensures Writes(posted[..k]) <= Writes(posted)
  {
    if k < |posted| {
      var n := |posted| - 1;
      WritesPrefix(posted[..n], k);
      assert posted[..n][..k] == posted[..k];
    } else {
      assert posted[..k] == posted;
    }
  }

  lemma AtMostOnce(s: seq<nat>)
    requires forall id :: multiset(s)[id] <= 1
    ensures NoRepeats(s)
  {
    forall i, j | 0 <= i < j < |s| ensures s[i] != s[j] {
      if s[i] == s[j] {
        CountedTwice(s, i, j);
        assert false;
      }
    }
  }

  lemma Member(s: seq<nat>, id: nat)
    ensures id in s <==> multiset(s)[id] > 0
  {
    assert id in s <==> id in multiset(s);
  }

  lemma Results(pair: Pair)
    ensures Wrote(pair).Some? <==> Wrote(pair) == Some(true) || Wrote(pair) == Some(false)
    ensures Released(pair) <==> Ended(pair) == Some(Closed) || Ended(pair) == Some(CloseFailed)
  {
    match Wrote(pair)
    case Some(ok) => if ok { assert Wrote(pair) == Some(true); } else { assert Wrote(pair) == Some(false); }
    case None =>
  }

  /** The buffers whose write has completed, read off the phases of the pairs. */
  lemma WritesExact(kernel: seq<Pair>, posted: seq<Cqe>)
    requires PostedOnce(kernel, posted)
    ensures NoRepeats(Writes(posted))
    ensures forall id: nat :: id in Writes(posted) <==> id < |kernel| && Wrote(kernel[id]).Some?
  {
    forall id: nat
      ensures multiset(Writes(posted))[id] <= 1
      ensures id in Writes(posted) <==> id < |kernel| && Wrote(kernel[id]).Some?
    {
      CountWrites(posted, id);
      Member(Writes(posted), id);
      assert multiset(posted)[WriteCqe(id, true)] == Due(kernel, WriteCqe(id, true));
      assert multiset(posted)[WriteCqe(id, false)] == Due(kernel, WriteCqe(id, false));
      if id < |kernel| { Results(kernel[id]); }
    }
    AtMostOnce(Writes(posted));
  }

  /** The pair's descriptor has been released. */
  predicate Released(pair: Pair) {
    Ended(pair).Some? && Ended(pair) != Some(Cancelled)
  }

  /** The descriptors closed, read off the phases of the pairs. */
  lemma ClosesExact(kernel: seq<Pair>, posted: seq<Cqe>)
    requires PostedOnce(kernel, posted)
    ensures NoRepeats(Closes(posted))
    ensures forall id: nat :: id in Closes(posted) <==> id < |kernel| && Released(kernel[id])
  {
    forall id: nat
      ensures multiset(Closes(posted))[id] <= 1
      ensures id in Closes(posted) <==> id < |kernel| && Released(kernel[id])
    {
      CountCloses(posted, id);
      Member(Closes(posted), id);
      assert multiset(posted)[CloseCqe(id, Closed)] == Due(kernel, CloseCqe(id, Closed));
      assert multiset(posted)[CloseCqe(id, CloseFailed)] == Due(kernel, CloseCqe(id, CloseFailed));
      if id < |kernel| { Results(kernel[id]); }
    }
    AtMostOnce(Closes(posted));
  }

  lemma PrefixNoRepeats(a: seq<nat>, b: seq<nat>)
    requires a <= b && NoRepeats(b)
    ensures NoRepeats(a)
  {
    forall i, j | 0 <= i < j < |a| ensures a[i] != a[j] {
      assert a[i] == b[i] && a[j] == b[j];
    }
  }

  /** No submission ends between a write and its close. */
  predicate NoSplit(p: Params, s: State, steps: seq<Step>)
    requires Legal(p, s, steps)
    decreases |steps|
  {
    steps == [] || (
      && (steps[0].Submit? ==> (s.taken + steps[0].count) % 2 == 0)
      && NoSplit(p, Next(p, s, steps[0]), steps[1..]))
  }

  /** Every submitted pair is linked. */
  ghost predicate NoCut(kernel: seq<Pair>) {
    forall i :: 0 <= i < |kernel| ==> !kernel[i].Cut?
  }

  lemma {:induction false} NoSplitNoCut(p: Params, s: State, steps: seq<Step>)
    requires Legal(p, s, steps) && NoSplit(p, s, steps) && s.taken % 2 == 0 && NoCut(s.kernel)
    ensures var t := Run(p, s, steps); t.taken % 2 == 0 && NoCut(t.kernel)
    decreases |steps|
  {
    if steps != [] {
      NoSplitNoCut(p, Next(p, s, steps[0]), steps[1..]);
    }
  }

  /** After every run: no buffer is freed twice or before its write has completed, and no descriptor
      is closed twice; if no submission split a pair, no descriptor is closed before its write has
      completed, and exactly the finished successful writes have had theirs closed. */
  lemma Ownership(p: Params, steps: seq<Step>)
    requires p.Valid() && Legal(p, Init(), steps)
    ensures var s := Run(p, Init(), steps);
      && NoRepeats(s.freed) && NoRepeats(s.closed)
      && (forall id: nat :: id in s.freed ==> id < |s.kernel| && Wrote(s.kernel[id]).Some?)
      && (forall id: nat :: id in s.closed <==> id < |s.kernel| && Released(s.kernel[id]))
    ensures var s := Run(p, Init(), steps);
      NoSplit(p, Init(), steps) ==>
        && WriteFirst(s.posted)
        && forall id: nat :: id in s.closed <==>
             id < |s.kernel| && s.kernel[id].Finished? && Wrote(s.kernel[id]) == Some(true)
  {
    hide Legal, Run, NoSplit, PostedOnce, WriteFirst, WritesLead, Counted, Control, Writes, Closes, NoRepeats;
    RunInv(p, steps);
    var s := Run(p, Init(), steps);
    WritesExact(s.kernel, s.posted);
    ClosesExact(s.kernel, s.posted);
    WritesPrefix(s.posted, Handled(s));
    PrefixNoRepeats(s.freed, Writes(s.posted));
    forall id: nat | id in s.freed ensures id < |s.kernel| && Wrote(s.kernel[id]).Some? {
      var i :| 0 <= i < |s.freed| && s.freed[i] == id;
      assert Writes(s.posted)[i] == id;
      assert id in Writes(s.posted);
    }
    if NoSplit(p, Init(), steps) {
      NoSplitNoCut(p, Init(), steps);
      assert NoLooseClose(s.kernel);
    }
  }

  /** Each finished pair has produced exactly two completions, its write's and its close's: the close
      is cancelled if the write failed, and otherwise ran, whether it succeeded or not. */
  lemma TwoCompletionsEach(p: Params, steps: seq<Step>, id: nat)
    requires p.Valid() && Legal(p, Init(), steps)
    ensures var s := Run(p, Init(), steps);
      id < |s.kernel| && s.kernel[id].Finished? ==>
        && (forall ok :: multiset(s.posted)[WriteCqe(id, ok)]
              == if ok == (s.kernel[id].result != Cancelled) then 1 else 0)
        && (forall r :: multiset(s.posted)[CloseCqe(id, r)] == if r == s.kernel[id].result then 1 else 0)
    ensures |Run(p, Init(), steps).posted| <= 2 * |Run(p, Init(), steps).kernel|
  {
    RunInv(p, steps);
    var s := Run(p, Init(), steps);
    EmittedBounds(s.kernel);
    if id < |s.kernel| && s.kernel[id].Finished? {
      forall ok
        ensures multiset(s.posted)[WriteCqe(id, ok)] ==
          if ok == (s.kernel[id].result != Cancelled) then 1 else 0
      {
        assert multiset(s.posted)[WriteCqe(id, ok)] == Due(s.kernel, WriteCqe(id, ok));
      }
      forall r ensures multiset(s.posted)[CloseCqe(id, r)] == if r == s.kernel[id].result then 1 else 0 {
        assert multiset(s.posted)[CloseCqe(id, r)] == Due(s.kernel, CloseCqe(id, r));
      }
    }
  }

  /** When the ring is torn down at most min(2N, M) buffers are freed, and at least N if no submission
      split a pair. With M = N it is exactly N in any case: every write and close is over and nothing
      is outstanding. */
  lemma JoinExact(p: Params, steps: seq<Step>)
    requires p.Valid() && Legal(p, Init(), steps) && Run(p, Init(), steps).producer.Exited?
    ensures var s := Run(p, Init(), steps);
      && p.consumed <= p.requests
      && |s.freed| <= p.requests && |s.freed| <= 2 * p.consumed
      && (NoSplit(p, Init(), steps) ==> p.consumed <= |s.freed|)
      && (p.consumed == p.requests ==>
            && |s.freed| == p.consumed
            && |s.kernel| == p.requests
            && s.seen == |s.posted|
            && forall id :: 0 <= id < |s.kernel| ==>
                 Wrote(s.kernel[id]).Some? && Ended(s.kernel[id]).Some?)
  {
    hide Legal, Run, NoSplit, Completed, Control, Logs;
    RunInv(p, steps);
    ExitState(p, Run(p, Init(), steps));
    if NoSplit(p, Init(), steps) {
      NoSplitNoCut(p, Init(), steps);
      assert NoLooseClose(Run(p, Init(), steps).kernel);
    }
  }

  lemma ExitState(p: Params, s: State)
    requires Inv(p, s) && s.producer.Exited?
    ensures p.consumed <= p.requests
    ensures |s.freed| <= p.requests && |s.freed| <= 2 * p.consumed
    ensures NoLooseClose(s.kernel) ==> p.consumed <= |s.freed|
    ensures p.consumed == p.requests ==>
      && |s.freed| == p.consumed
      && |s.kernel| == p.requests
      && s.seen == |s.posted|
      && forall id :: 0 <= id < |s.kernel| ==> Wrote(s.kernel[id]).Some? && Ended(s.kernel[id]).Some?
  {
    hide PostedOnce, WriteFirst, Writes, Closes;
    EmittedBounds(s.kernel);
    WritesPrefix(s.posted, s.seen);
    WritesSize(s.posted[..s.seen]);
    if p.consumed == p.requests {
      assert s.posted[..s.seen] == s.posted;
    }
  }

  // ---------------------------------------------------------------------------- splits

  /** With one request, or a ring that cannot hold a pair beside a left-over close, the close of a cut
      pair is never submitted. */
  ghost predicate NeverResumed(p: Params, s: State) {
    && NoLooseClose(s.kernel)
    && (p.requests == 1 && s.taken > 0 ==> !s.producer.Top? && !s.producer.Filling? && !s.producer.Prepared?)
    && (s.taken % 2 == 1 ==> !s.producer.Prepared?)
  }

  lemma StepNeverResumed(p: Params, s: State, step: Step)
    requires p.Valid() && (p.requests == 1 || p.entries < 3)
    requires Control(p, s) && NeverResumed(p, s) && Enabled(p, s, step)
    ensures NeverResumed(p, Next(p, s, step))
  {
    var t := Next(p, s, step);
    if step.WriteDone? || step.CloseDone? || step.CloseCancelled? {
      forall i | 0 <= i < |t.kernel| && t.kernel[i].Cut? ensures t.kernel[i].close.Queued? {
        assert i != step.id ==> t.kernel[i] == s.kernel[i];
      }
    }
  }

  lemma {:induction false} NeverResumedFrom(p: Params, s: State, steps: seq<Step>)
    requires p.Valid() && (p.requests == 1 || p.entries < 3)
    requires Inv(p, s) && NeverResumed(p, s) && Legal(p, s, steps)
    ensures NeverResumed(p, Run(p, s, steps))
    decreases |steps|
  {
    if steps != [] {
      StepInv(p, s, steps[0]);
      StepNeverResumed(p, s, steps[0]);
      NeverResumedFrom(p, Next(p, s, steps[0]), steps[1..]);
    }
  }

  /** A submission that takes one entry of a pair, and a second that brings the close alone, let the
      descriptor be closed before its write. */
  lemma CloseOvertakes(p: Params) returns (steps: seq<Step>)
    requires p.Valid() && p.requests > 1 && p.entries >= 3
    ensures Legal(p, Init(), steps)
    ensures Run(p, Init(), steps).posted == [CloseCqe(0, Closed)]
  {
    var s1 := Next(p, Next(p, Next(p, Init(), OpenWrite), PrepareClose), Submit(1));
    var a := [OpenWrite] + [PrepareClose] + [Submit(1)];
    assert Legal(p, Init(), a) && Run(p, Init(), a) == s1 by {
      Three(p, Init(), OpenWrite, PrepareClose, Submit(1));
    }
    assert s1.kernel == [Cut(None, Queued)];
    var s2 := Next(p, Next(p, Next(p, s1, OpenWrite), PrepareClose), Submit(1));
    assert Legal(p, s1, a) && Run(p, s1, a) == s2 by {
      Three(p, s1, OpenWrite, PrepareClose, Submit(1));
    }
    assert s2.kernel[0] == Cut(None, Running);
    One(p, s2, CloseDone(0, false));
    Chain(p, Init(), a, a);
    Chain(p, Init(), a + a, [CloseDone(0, false)]);
    steps := a + a + [CloseDone(0, false)];
  }

  /** "No descriptor is closed before its write has completed" holds in every run, with submissions
      of any size, exactly when there is a single request or the ring has fewer than three slots. */
  lemma WriteFirstIff(p: Params)
    requires p.Valid()
    ensures (forall steps :: Legal(p, Init(), steps) ==> WriteFirst(Run(p, Init(), steps).posted))
       <==> p.requests == 1 || p.entries < 3
  {
    if p.requests == 1 || p.entries < 3 {
      forall steps | Legal(p, Init(), steps) ensures WriteFirst(Run(p, Init(), steps).posted) {
        InitInv(p);
        RunInv(p, steps);
        NeverResumedFrom(p, Init(), steps);
      }
    } else {
      var steps := CloseOvertakes(p);
      var posted := Run(p, Init(), steps).posted;
      assert posted[0].CloseCqe? && posted[..0] == [];
      assert !WriteFirst(posted);
    }
  }

  // ---------------------------------------------------------------------------- liveness

  function Stage(producer: Producer): nat {
    match producer
    case Filling => 5
    case Prepared => 4
    case Top => 3
    case Joining => 2
    case Joined => 1
    case Exited => 0
  }

  /** An upper bound on the steps still to come. */
  function Fuel(p: Params, s: State): int {
    5 * (p.requests - s.begun) + (2 * s.begun - |s.posted|) + Stage(s.producer)
      + 2 * (2 * p.consumed - s.seen) - (Handled(s) - s.seen)
  }

  lemma StepFuel(p: Params, s: State, step: Step)
    requires Inv(p, s) && Enabled(p, s, step)
    ensures Fuel(p, Next(p, s, step)) < Fuel(p, s)
  {
    hide Completed, Logs;
  }

  lemma {:induction false} FuelBounds(p: Params, s: State, steps: seq<Step>)
    requires Inv(p, s) && Legal(p, s, steps)
    ensures |steps| <= Fuel(p, s)
    decreases |steps|
  {
    if steps == [] {
      EmittedBounds(s.kernel);
    } else {
      StepInv(p, s, steps[0]);
      StepFuel(p, s, steps[0]);
      FuelBounds(p, Next(p, s, steps[0]), steps[1..]);
    }
  }

  /** No run is infinite: the two threads and the kernel take a bounded number of steps. */
  lemma RunsAreFinite(p: Params, steps: seq<Step>)
    requires p.Valid() && Legal(p, Init(), steps)
    ensures |steps| <= 5 * p.requests + 4 * p.consumed + 3
  {
    hide Inv, Legal;
    InitInv(p);
    FuelBounds(p, Init(), steps);
  }

  /** Nobody can move. */
  ghost predicate Stuck(p: Params, s: State) {
    forall step :: !Enabled(p, s, step)
  }

  /** Every submission takes all queued pairs. */
  predicate Eager(p: Params, s: State, steps: seq<Step>)
    requires Legal(p, s, steps)
    decreases |steps|
  {
    steps == [] || (
      && (steps[0].Submit? ==> s.taken + steps[0].count == 2 * s.prepared)
      && Eager(p, Next(p, s, steps[0]), steps[1..]))
  }

  lemma {:induction false} EagerDrains(p: Params, s: State, steps: seq<Step>)
    requires Legal(p, s, steps) && Eager(p, s, steps)
    requires s.producer.Prepared? || s.taken == 2 * s.prepared
    ensures var t := Run(p, s, steps); t.producer.Prepared? || t.taken == 2 * t.prepared
    ensures NoSplit(p, s, steps)
    decreases |steps|
  {
    if steps != [] {
      EagerDrains(p, Next(p, s, steps[0]), steps[1..]);
    }
  }

  lemma {:induction false} AllFinished(kernel: seq<Pair>)
    requires forall i :: 0 <= i < |kernel| ==> kernel[i].Finished?
    ensures Emitted(kernel) == 2 * |kernel|
  {
    if kernel != [] {
      assert forall i :: 0 <= i < |kernel| - 1 ==> kernel[1..][i] == kernel[i + 1];
      AllFinished(kernel[1..]);
    }
  }

  lemma StuckKernel(p: Params, s: State)
    requires Stuck(p, s) && !s.producer.Exited? && NoCut(s.kernel)
    ensures Emitted(s.kernel) == 2 * |s.kernel|
  {
    forall i | 0 <= i < |s.kernel| ensures s.kernel[i].Finished? {
      assert !Enabled(p, s, WriteDone(i, true)) && !Enabled(p, s, CloseDone(i, false));
      assert !Enabled(p, s, CloseCancelled(i));
    }
    AllFinished(s.kernel);
  }

  /** If the kernel takes every submission whole, every maximal run of every interleaving tears the
      ring down, or none does. What decides is that the ring holds a pair and that M >= N; with a
      single slot the first close waits for ever for one. */
  lemma EagerRunsTerminateIff(p: Params, steps: seq<Step>)
    requires p.Valid() && Legal(p, Init(), steps) && Eager(p, Init(), steps)
    requires Stuck(p, Run(p, Init(), steps))
    ensures |steps| <= 5 * p.requests + 4 * p.consumed + 3
    ensures Run(p, Init(), steps).producer.Exited? <==> p.entries >= 2 && p.requests >= p.consumed
  {
    RunInv(p, steps);
    RunsAreFinite(p, steps);
    EagerDrains(p, Init(), steps);
    NoSplitNoCut(p, Init(), steps);
    var s := Run(p, Init(), steps);
    if s.producer.Exited? {
      JoinExact(p, steps);
    } else {
      StuckKernel(p, s);
      StuckThreads(p, s);
    }
  }

  /** Only the last pair may have its close left behind, and only after an odd number of entries. */
  ghost predicate OneLeftBehind(kernel: seq<Pair>, taken: nat) {
    forall i :: 0 <= i < |kernel| && kernel[i].Cut? && kernel[i].close.Queued? ==>
      i == |kernel| - 1 && taken % 2 == 1
  }

  lemma StepLeftBehind(p: Params, s: State, step: Step)
    requires CutLast(s.kernel, s.taken) && OneLeftBehind(s.kernel, s.taken) && Enabled(p, s, step)
    ensures OneLeftBehind(Next(p, s, step).kernel, Next(p, s, step).taken)
  {
    var t := Next(p, s, step);
    if step.WriteDone? || step.CloseDone? || step.CloseCancelled? {
      forall i | 0 <= i < |t.kernel| && t.kernel[i].Cut? && t.kernel[i].close.Queued?
        ensures i == |t.kernel| - 1 && t.taken % 2 == 1
      {
        assert s.kernel[i].Cut? && s.kernel[i].close.Queued?;
      }
    } else if step.Submit? {
      SubmittedLeftBehind(s.kernel, s.taken, step.count);
    }
  }

  lemma SubmittedLeftBehind(kernel: seq<Pair>, taken: nat, n: nat)
    requires CutLast(kernel, taken) && OneLeftBehind(kernel, taken)
    ensures OneLeftBehind(Submitted(kernel, taken, n), taken + n)
  {
    SubmittedCutLast(kernel, taken, n);
    var after := Submitted(kernel, taken, n);
    forall i | 0 <= i < |after| && after[i].Cut? && after[i].close.Queued?
      ensures i == |after| - 1 && (taken + n) % 2 == 1
    {
    }
  }

  lemma {:induction false} LeftBehindFrom(p: Params, s: State, steps: seq<Step>)
    requires Inv(p, s) && OneLeftBehind(s.kernel, s.taken) && Legal(p, s, steps)
    ensures OneLeftBehind(Run(p, s, steps).kernel, Run(p, s, steps).taken)
    decreases |steps|
  {
    hide Completed, Logs, Next, Enabled, OneLeftBehind, CutLast;
    if steps != [] {
      StepInv(p, s, steps[0]);
      StepLeftBehind(p, s, steps[0]);
      LeftBehindFrom(p, Next(p, s, steps[0]), steps[1..]);
    }
  }

  lemma {:induction false} AllDone(kernel: seq<Pair>)
    requires forall i :: 0 <= i < |kernel| ==> Weight(kernel[i]) == 2
    ensures Emitted(kernel) == 2 * |kernel|
  {
    if kernel != [] {
      assert forall i :: 0 <= i < |kernel| - 1 ==> kernel[1..][i] == kernel[i + 1];
      AllDone(kernel[1..]);
    }
  }

  lemma {:induction false} EmittedSnoc(kernel: seq<Pair>, last: Pair)
    ensures Emitted(kernel + [last]) == Emitted(kernel) + Weight(last)
  {
    if kernel == [] {
      assert kernel + [last] == [last];
    } else {
      EmittedSnoc(kernel[1..], last);
      assert (kernel + [last])[1..] == kernel[1..] + [last];
    }
  }

  /** No more completions than submitted entries; and as many, if the kernel has nothing left to do. */
  lemma EmittedTaken(p: Params, s: State)
    requires CutLast(s.kernel, s.taken) && OneLeftBehind(s.kernel, s.taken)
    ensures Emitted(s.kernel) <= s.taken
    ensures Stuck(p, s) && !s.producer.Exited? ==> Emitted(s.kernel) == s.taken
  {
    var whole := if s.taken % 2 == 1 then s.kernel[..|s.kernel| - 1] else s.kernel;
    EmittedBounds(whole);
    if s.taken % 2 == 1 {
      assert s.kernel == whole + [s.kernel[|s.kernel| - 1]];
      EmittedSnoc(whole, s.kernel[|s.kernel| - 1]);
    }
    if Stuck(p, s) && !s.producer.Exited? {
      forall i | 0 <= i < |s.kernel| ensures Weight(s.kernel[i]) == 2 || (s.taken % 2 == 1 && i == |s.kernel| - 1)
        ensures Wrote(s.kernel[i]).Some?
      {
        assert !Enabled(p, s, WriteDone(i, true)) && !Enabled(p, s, CloseDone(i, false));
        assert !Enabled(p, s, CloseCancelled(i));
      }
      AllDone(whole);
    }
  }

  /** With submissions of any size: a run that cannot be extended has torn the ring down exactly if the
      stream was read to its end, no request is stuck without a slot for its close, and the kernel
      took as many entries as completions are waited for. */
  lemma MaximalRun(p: Params, steps: seq<Step>)
    requires p.Valid() && Legal(p, Init(), steps) && Stuck(p, Run(p, Init(), steps))
    ensures |steps| <= 5 * p.requests + 4 * p.consumed + 3
    ensures var s := Run(p, Init(), steps);
      s.producer.Exited? <==> s.begun == p.requests && !s.producer.Filling? && s.taken >= 2 * p.consumed
  {
    InitInv(p);
    RunInv(p, steps);
    RunsAreFinite(p, steps);
    LeftBehindFrom(p, Init(), steps);
    StuckState(p, Run(p, Init(), steps));
  }

  lemma StuckState(p: Params, s: State)
    requires p.Valid() && Inv(p, s) && OneLeftBehind(s.kernel, s.taken) && Stuck(p, s)
    ensures s.producer.Exited? <==>
      s.begun == p.requests && !s.producer.Filling? && s.taken >= 2 * p.consumed
  {
    hide PostedOnce, WriteFirst, WritesLead, Logs, NoLooseClose;
    EmittedTaken(p, s);
    assert !Enabled(p, s, Submit(0)) && !Enabled(p, s, Handle) && !Enabled(p, s, Retire);
    assert !Enabled(p, s, Join) && !Enabled(p, s, Exit);
  }

  lemma StuckThreads(p: Params, s: State)
    requires p.Valid() && Inv(p, s) && Stuck(p, s) && !s.producer.Exited?
    requires s.producer.Prepared? || s.taken == 2 * s.prepared
    requires Emitted(s.kernel) == 2 * |s.kernel|
    ensures p.entries < 2 || p.requests < p.consumed
  {
    hide PostedOnce, WriteFirst, WritesLead, Logs, NoLooseClose;
    assert !Enabled(p, s, OpenWrite) && !Enabled(p, s, PrepareClose) && !Enabled(p, s, Submit(0));
    assert !Enabled(p, s, Handle) && !Enabled(p, s, Retire);
    assert !Enabled(p, s, Join) && !Enabled(p, s, Exit);
  }

  // ---------------------------------------------------------------------------- the count is exact

  lemma {:induction false} Chain(p: Params, s: State, a: seq<Step>, b: seq<Step>)
    requires Legal(p, s, a) && Legal(p, Run(p, s, a), b)
    ensures Legal(p, s, a + b) && Run(p, s, a + b) == Run(p, Run(p, s, a), b)
    decreases |a|
  {
    if a == [] {
      assert a + b == b;
    } else {
      Chain(p, Next(p, s, a[0]), a[1..], b);
      assert (a + b)[1..] == a[1..] + b;
    }
  }

  lemma One(p: Params, s: State, step: Step)
    requires Enabled(p, s, step)
    ensures Legal(p, s, [step]) && Run(p, s, [step]) == Next(p, s, step)
  {
  }

  lemma Three(p: Params, s: State, a: Step, b: Step, c: Step)
    requires Enabled(p, s, a) && Enabled(p, Next(p, s, a), b) && Enabled(p, Next(p, Next(p, s, a), b), c)
    ensures Legal(p, s, [a] + [b] + [c])
    ensures Run(p, s, [a] + [b] + [c]) == Next(p, Next(p, Next(p, s, a), b), c)
  {
    hide Enabled, Next;
    var s1 := Next(p, s, a);
    One(p, s, a);
    One(p, s1, b);
    One(p, Next(p, s1, b), c);
    Chain(p, s, [a], [b]);
    Chain(p, s, [a] + [b], [c]);
  }

  /** The write's slot was the last one: the stream thread asks for a slot for the close for ever. */
  predicate Spinning(p: Params, s: State) {
    s.producer.Filling? && Slots(s) >= p.entries
  }

  lemma SpinningStays(p: Params, s: State, step: Step)
    requires Spinning(p, s) && Enabled(p, s, step)
    ensures Spinning(p, Next(p, s, step))
  {
  }

  /** k pairs lie in the queue, and nothing has been submitted. */
  function Piled(k: nat): State {
    Init().(begun := k, prepared := k)
  }

  lemma {:induction false} Pile(p: Params, k: nat) returns (steps: seq<Step>)
    requires p.Valid() && k < p.requests && 2 * k <= p.entries
    ensures Legal(p, Init(), steps) && Run(p, Init(), steps) == Piled(k)
  {
    if k == 0 {
      steps := [];
    } else {
      steps := Pile(p, k - 1);
      var s := Piled(k - 1);
      assert Submitted([], 0, 0) == [];
      Three(p, s, OpenWrite, PrepareClose, Submit(0));
      Chain(p, Init(), steps, [OpenWrite] + [PrepareClose] + [Submit(0)]);
      steps := steps + ([OpenWrite] + [PrepareClose] + [Submit(0)]);
    }
  }

  lemma SpinsAfter(p: Params) returns (steps: seq<Step>)
    requires p.Valid() && p.entries < 2 * p.requests
    ensures Legal(p, Init(), steps) && Spinning(p, Run(p, Init(), steps))
  {
    steps := Pile(p, (p.entries - 1) / 2);
    var s := Piled((p.entries - 1) / 2);
    if p.entries % 2 == 0 {
      var last := [OpenWrite] + [PrepareClose] + [Submit(1)];
      Three(p, s, OpenWrite, PrepareClose, Submit(1));
      Chain(p, Init(), steps, last);
      steps := steps + last;
      s := Run(p, s, last);
    }
    One(p, s, OpenWrite);
    Chain(p, Init(), steps, [OpenWrite]);
    steps := steps + [OpenWrite];
  }

  /** Left-over entries can take all slots but one, so that a write gets a slot and its close never
      does, exactly if the ring has fewer slots than the stream has entries. */
  lemma SpinsIff(p: Params)
    requires p.Valid()
    ensures (exists steps :: Legal(p, Init(), steps) && Spinning(p, Run(p, Init(), steps)))
       <==> p.entries < 2 * p.requests
  {
    hide Completed, Logs, Legal, Run;
    if p.entries < 2 * p.requests {
      var steps := SpinsAfter(p);
      assert Legal(p, Init(), steps) && Spinning(p, Run(p, Init(), steps));
    }
    forall steps | Legal(p, Init(), steps) && Spinning(p, Run(p, Init(), steps))
      ensures p.entries < 2 * p.requests
    {
      RunInv(p, steps);
    }
  }

  /** A close can end in each of the three ways, provided that a pair fits into the ring. */
  lemma AnyResultIff(p: Params, result: CloseResult)
    requires p.Valid()
    ensures (exists steps :: Legal(p, Init(), steps) && Run(p, Init(), steps).kernel == [Finished(result)])
       <==> p.entries >= 2
  {
    hide Completed, Logs, Legal, Run;
    if p.entries >= 2 {
      var ok := result != Cancelled;
      var a := [OpenWrite] + [PrepareClose] + [Submit(2)];
      var s1 := Next(p, Next(p, Next(p, Init(), OpenWrite), PrepareClose), Submit(2));
      Three(p, Init(), OpenWrite, PrepareClose, Submit(2));
      assert s1.kernel == [Writing];
      var s2 := Next(p, s1, WriteDone(0, ok));
      var close := if ok then CloseDone(0, result == CloseFailed) else CloseCancelled(0);
      One(p, s1, WriteDone(0, ok));
      One(p, s2, close);
      Chain(p, Init(), a, [WriteDone(0, ok)]);
      Chain(p, Init(), a + [WriteDone(0, ok)], [close]);
      var steps := a + [WriteDone(0, ok)] + [close];
      assert Legal(p, Init(), steps) && Run(p, Init(), steps).kernel == [Finished(result)];
    }
    forall steps | Legal(p, Init(), steps) && Run(p, Init(), steps).kernel == [Finished(result)]
      ensures p.entries >= 2
    {
      RunInv(p, steps);
    }
  }

  /** A torn-down ring is the end: no thread moves, and nothing completes. */
  lemma ExitIsFinal(p: Params, steps: seq<Step>)
    requires p.Valid() && Legal(p, Init(), steps) && Run(p, Init(), steps).producer.Exited?
    ensures Stuck(p, Run(p, Init(), steps))
  {
    hide Completed, Logs;
    RunInv(p, steps);
  }

  /** The stream thread can submit all its pairs before any of them completes. */
  lemma {:induction false} OpenAll(p: Params, s: State) returns (steps: seq<Step>)
    requires p.Valid() && p.entries >= 2
    requires s.producer == Top && s.begun == s.prepared < p.requests && s.taken == 2 * s.begun
    requires s.kernel == Fresh(s.begun)
    ensures Legal(p, s, steps)
    ensures Run(p, s, steps) == s.(producer := Joining, begun := p.requests, prepared := p.requests,
                                   taken := 2 * p.requests, kernel := Fresh(p.requests))
    decreases p.requests - s.begun
  {
    var s1 := Next(p, s, OpenWrite);
    var s2 := Next(p, s1, PrepareClose);
    var s3 := Next(p, s2, Submit(2));
    Three(p, s, OpenWrite, PrepareClose, Submit(2));
    steps := [OpenWrite] + [PrepareClose] + [Submit(2)];
    assert s3.kernel == Fresh(s3.begun);
    if s3.begun < p.requests {
      var rest := OpenAll(p, s3);
      Chain(p, s, steps, rest);
      steps := steps + rest;
    }
  }

  /** Then the writes of pairs k, ..., n - 1 can all complete before any close. */
  lemma {:induction false} CompleteWrites(p: Params, s: State, k: nat, n: nat) returns (steps: seq<Step>)
    requires s.producer == Joining && k <= n <= |s.kernel|
    requires forall i :: k <= i < n ==> s.kernel[i] == Writing
    ensures Legal(p, s, steps)
    ensures var t := Run(p, s, steps);
      && t == s.(kernel := t.kernel, posted := t.posted)
      && |t.kernel| == |s.kernel|
      && (forall i :: k <= i < n ==> t.kernel[i] == Closing)
      && (forall i :: 0 <= i < k ==> t.kernel[i] == s.kernel[i])
      && |t.posted| == |s.posted| + (n - k)
      && |Writes(t.posted)| == |Writes(s.posted)| + (n - k)
    decreases n - k
  {
    steps := [];
    if k < n {
      One(p, s, WriteDone(k, true));
      var s1 := Next(p, s, WriteDone(k, true));
      Snoc(s.posted, WriteCqe(k, true));
      var rest := CompleteWrites(p, s1, k + 1, n);
      Chain(p, s, [WriteDone(k, true)], rest);
      steps := [WriteDone(k, true)] + rest;
    }
  }

  /** After which the closes of pairs k, ..., n - 1 can. */
  lemma {:induction false} CompleteCloses(p: Params, s: State, k: nat, n: nat) returns (steps: seq<Step>)
    requires s.producer == Joining && k <= n <= |s.kernel|
    requires forall i :: k <= i < n ==> s.kernel[i] == Closing
    ensures Legal(p, s, steps)
    ensures var t := Run(p, s, steps);
      && t == s.(kernel := t.kernel, posted := t.posted, closed := t.closed)
      && |t.posted| == |s.posted| + (n - k)
      && |Writes(t.posted)| == |Writes(s.posted)|
    decreases n - k
  {
    steps := [];
    if k < n {
      One(p, s, CloseDone(k, false));
      var s1 := Next(p, s, CloseDone(k, false));
      Snoc(s.posted, CloseCqe(k, Closed));
      var rest := CompleteCloses(p, s1, k + 1, n);
      Chain(p, s, [CloseDone(k, false)], rest);
      steps := [CloseDone(k, false)] + rest;
    }
  }

  /** The second thread then consumes its 2N completions and the join returns. */
  lemma {:induction false} ConsumeAll(p: Params, s: State) returns (steps: seq<Step>)
    requires s.producer == Joining && s.consumer == Waiting
    requires s.seen <= 2 * p.consumed <= |s.posted|
    requires s.freed == Writes(s.posted[..s.seen])
    ensures Legal(p, s, steps)
    ensures Run(p, s, steps).producer == Exited
    ensures Run(p, s, steps).freed == Writes(s.posted[..2 * p.consumed])
    decreases 2 * p.consumed - s.seen
  {
    hide Closes, Slots, Submitted;
    var first := if s.seen == 2 * p.consumed then Join else Handle;
    var second := if s.seen == 2 * p.consumed then Exit else Retire;
    var s1 := Next(p, s, first);
    One(p, s, first);
    One(p, s1, second);
    Chain(p, s, [first], [second]);
    steps := [first] + [second];
    if s.seen < 2 * p.consumed {
      Snoc(s.posted[..s.seen], s.posted[s.seen]);
      assert s.posted[..s.seen] + [s.posted[s.seen]] == s.posted[..s.seen + 1];
      var rest := ConsumeAll(p, Next(p, s1, second));
      Chain(p, s, steps, rest);
      steps := steps + rest;
    }
  }

  /** A schedule to the tear-down: all pairs are submitted, the first `writes` writes and `closes`
      closes complete, and the second thread consumes what it waits for. */
  lemma Schedule(p: Params, writes: nat, closes: nat) returns (steps: seq<Step>)
    requires p.Valid() && p.entries >= 2
    requires closes <= writes <= p.requests && writes + closes == 2 * p.consumed
    ensures Legal(p, Init(), steps)
    ensures Run(p, Init(), steps).producer == Exited
    ensures |Run(p, Init(), steps).freed| == writes
  {
    hide Legal, Run, Enabled, Next;
    assert Fresh(0) == [];
    var a := OpenAll(p, Init());
    var s1 := Run(p, Init(), a);
    var b := CompleteWrites(p, s1, 0, writes);
    var s2 := Run(p, s1, b);
    var c := CompleteCloses(p, s2, 0, closes);
    var s3 := Run(p, s2, c);
    assert s3.posted[..2 * p.consumed] == s3.posted;
    assert s3.posted[..0] == [];
    var d := ConsumeAll(p, s3);
    Chain(p, Init(), a, b);
    Chain(p, Init(), a + b, c);
    Chain(p, Init(), a + b + c, d);
    steps := a + b + c + d;
  }

  /** A longer stream lets the second thread free one buffer too many: N + 1 writes may complete
      before the N-th close. */
  lemma Overshoot(p: Params) returns (steps: seq<Step>)
    requires p.Valid() && p.entries >= 2 && 0 < p.consumed < p.requests
    ensures Legal(p, Init(), steps)
    ensures Run(p, Init(), steps).producer == Exited
    ensures |Run(p, Init(), steps).freed| == p.consumed + 1
  {
    steps := Schedule(p, p.consumed + 1, p.consumed - 1);
  }

  /** Some run gets past the join exactly when the ring holds a pair and the stream is at least as
      long as the count. */
  lemma JoinPossibleIff(p: Params)
    requires p.Valid()
    ensures (exists steps :: Legal(p, Init(), steps) && Run(p, Init(), steps).producer == Exited)
       <==> p.entries >= 2 && p.requests >= p.consumed
  {
    if p.entries >= 2 && p.requests >= p.consumed {
      var steps := Schedule(p, p.consumed, p.consumed);
      assert Legal(p, Init(), steps) && Run(p, Init(), steps).producer == Exited;
    }
    forall steps | Legal(p, Init(), steps) && Run(p, Init(), steps).producer == Exited
      ensures p.entries >= 2 && p.requests >= p.consumed
    {
      JoinExact(p, steps);
      if p.entries < 2 {
        OneSlotNeverExits(p, steps);
      }
    }
  }

  lemma OneSlotNeverExits(p: Params, steps: seq<Step>)
    requires p.Valid() && p.entries < 2 && Legal(p, Init(), steps)
    ensures Run(p, Init(), steps).producer != Exited
  {
    hide Completed, Logs;
    RunInv(p, steps);
  }

  /** "Waiting for 2N completions frees N buffers" holds in every run exactly when the stream is no
      longer than the count, or the count is zero, or no run gets to the end at all because the
      ring cannot hold a pair. */
  lemma CountExactIff(p: Params)
    requires p.Valid()
    ensures (forall steps :: Legal(p, Init(), steps) && Run(p, Init(), steps).producer == Exited ==>
               |Run(p, Init(), steps).freed| == p.consumed)
       <==> p.requests <= p.consumed || p.consumed == 0 || p.entries < 2
  {
    if p.requests <= p.consumed || p.consumed == 0 || p.entries < 2 {
      forall steps | Legal(p, Init(), steps) && Run(p, Init(), steps).producer == Exited
        ensures |Run(p, Init(), steps).freed| == p.consumed
      {
        if p.entries < 2 { OneSlotNeverExits(p, steps); }
        JoinExact(p, steps);
      }
    } else {
      var steps := Overshoot(p);
      assert |Run(p, Init(), steps).freed| != p.consumed;
    }
  }
}
