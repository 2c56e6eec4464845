/**
 The libaio loops of test_small_aio in src/file_rw_nvmeof.cc (test_large_aio differs only in sharing
 one descriptor): control blocks are created in batches of at most queue_depth, each batch is handed
 to io_submit, and a second thread collects events until it has counted N.
 */
module AioBatching {
  import opened Arithmetic
  import opened Ids
  import opened Sequences

  /** The control blocks first, ..., first + count - 1. */
  function Range(first: nat, count: nat): (r: seq<nat>)
    ensures |r| == count && forall i :: 0 <= i < count ==> r[i] == first + i
  {
    seq(count, i requires 0 <= i => first + i)
  }

  /** Blocks among 0, ..., n - 1, none of them twice. */
  ghost predicate FromRange(blocks: seq<nat>, n: nat) {
    multiset(blocks) <= multiset(Range(0, n))
  }

  /** Every batch is full. */
  ghost predicate AllFull(batches: seq<seq<nat>>, depth: nat) {
    forall b :: 0 <= b < |batches| ==> |batches[b]| == depth
  }

  /** No batch is empty or too long, and only the last may be short. */
  ghost predicate WellShaped(batches: seq<seq<nat>>, depth: nat) {
    && (forall b :: 0 <= b < |batches| ==> 0 < |batches[b]| <= depth)
    && (forall b :: 0 <= b < |batches| - 1 ==> |batches[b]| == depth)
  }

  /** An asynchronous I/O context. */
  class IoContext {
    var offered: seq<seq<nat>>  // the batches handed to io_submit, in order
    var pending: seq<nat>       // accepted control blocks whose event has not been collected
    var stalls: nat             // empty answers of io_getevents still to come although events are due
    ghost var asked: set<nat>   // the numbers of events io_getevents was asked for
    ghost var short: nat        // calls of io_submit that did not take all they were offered
    ghost var failed: nat       // negative answers of io_getevents, their magnitudes added up

    constructor (stalls: nat)
      ensures offered == [] && pending == [] && short == failed == 0 && asked == {}
    {
      this.offered, this.pending, this.stalls, asked, short, failed := [], [], stalls, {}, 0, 0;
    }

    /** io_submit: accepts a prefix of the batch, or fails. */
    method Submit(batch: seq<nat>) returns (ret: int)
      modifies this`offered, this`pending, this`short
      ensures ret <= |batch|
      ensures short == old(short) + if ret == |batch| then 0 else 1
      ensures offered == old(offered) + [batch]
      ensures pending == old(pending) + if ret > 0 then batch[..ret] else []
    {
      ret :| ret <= |batch|;
      short := short + if ret == |batch| then 0 else 1;
      offered, pending := offered + [batch], pending + if ret > 0 then batch[..ret] else [];
    }

    /** io_getevents: at most `max` events of pending blocks in any order, none after a timeout, or
        a negative error number. */
    method GetEvents(max: nat) returns (n: int, events: seq<nat>)
      requires max > 0
      modifies this`pending, this`stalls, this`asked, this`failed
      ensures asked == old(asked) + {max}
      ensures failed == old(failed) + if n < 0 then -n else 0
      ensures if n >= 0 then |events| == n <= max else events == []
      ensures multiset(events) + multiset(pending) == old(multiset(pending))
      ensures events == [] ==> pending == old(pending) && (pending != [] ==> stalls < old(stalls))
      ensures n < 0 ==> stalls < old(stalls)
      ensures stalls <= old(stalls)
    {
      events := [];
      asked := asked + {max};
      var empty: bool := *;
      if empty && stalls > 0 {
        stalls := stalls - 1;
        n :| n <= 0;
        failed := failed - n;
        return;
      }
      var wanted: nat := *;
      while |events| < max && pending != [] && (events == [] || |events| < wanted)
        invariant |events| <= max
        invariant multiset(events) + multiset(pending) == old(multiset(pending))
        invariant stalls == old(stalls) && failed == old(failed) && asked == old(asked) + {max}
        invariant events == [] ==> pending == old(pending)
        decreases |pending|
      {
        var e := TakeAny();
        events := events + [e];
      }
      n := |events|;
    }

    /** Removes any one pending block. */
    method TakeAny() returns (e: nat)
      requires pending != []
      modifies this`pending
      ensures |pending| == old(|pending|) - 1
      ensures multiset{e} + multiset(pending) == old(multiset(pending))
    {
      var i: nat :| i < |pending|;
      e := pending[i];
      assert pending == pending[..i] + [e] + pending[i + 1..];
      pending := pending[..i] + pending[i + 1..];
    }
  }

  class AioTest {
    const queueDepth: nat
    const total: nat              // N
    const ctx: IoContext
    ghost var closed: seq<nat>    // descriptors closed, by control block
    ghost var deleted: seq<nat>   // control blocks deleted

    constructor (queueDepth: nat, total: nat, ctx: IoContext)
      ensures this.queueDepth == queueDepth && this.total == total && this.ctx == ctx
      ensures closed == deleted == []
    {
      this.queueDepth, this.total, this.ctx := queueDepth, total, ctx;
      closed, deleted := [], [];
    }

    /** The submitting thread: the batches offered are 0, ..., N - 1 in order, cut as few times as
        the depth allows. The answer of io_submit is ignored. */
    method SubmitAll()
      requires queueDepth > 0
      requires ctx.offered == [] && ctx.pending == []
      modifies ctx`offered, ctx`pending, ctx`short
      ensures old(ctx.short) <= ctx.short
      ensures Concat(ctx.offered) == Range(0, total)
      ensures WellShaped(ctx.offered, queueDepth)
      ensures |ctx.offered| == CeilDiv(total, queueDepth)
      ensures FromRange(ctx.pending, total)
      ensures ctx.short == old(ctx.short) <==> |ctx.pending| == total
    {
      Nothing(queueDepth);
      hide Concat, WellShaped, AllFull, CeilDiv, FromRange;
      var iocbs := new nat[queueDepth](_ => 0);
      var cnt := 0;
      while cnt < total
        invariant cnt <= total
        invariant Concat(ctx.offered) == Range(0, cnt)
        invariant WellShaped(ctx.offered, queueDepth)
        invariant |ctx.offered| == CeilDiv(cnt, queueDepth)
        invariant cnt < total ==>
          AllFull(ctx.offered, queueDepth) && cnt == |ctx.offered| * queueDepth
        invariant FromRange(ctx.pending, cnt)
        invariant old(ctx.short) <= ctx.short && |ctx.pending| <= cnt
        invariant ctx.short == old(ctx.short) <==> |ctx.pending| == cnt
      {
        var n := FillBatch(iocbs, cnt);
        var batch := iocbs[..n];
        NextBatch(ctx.offered, batch, cnt, queueDepth);
        Offer(batch, cnt);
        cnt := cnt + n;
      }
    }

    /** The inner loop: fills the reused array with the next control blocks. */
    method FillBatch(iocbs: array<nat>, first: nat) returns (n: nat)
      requires iocbs.Length == queueDepth > 0 && first < total
      modifies iocbs
      ensures n == if queueDepth < total - first then queueDepth else total - first
      ensures iocbs[..n] == Range(first, n)
    {
      n := 0;
      var cnt := first;
      while n < queueDepth && cnt < total
        invariant n <= queueDepth && cnt == first + n <= total
        invariant iocbs[..n] == Range(first, n)
      {
        iocbs[n] := cnt;
        n, cnt := n + 1, cnt + 1;
      }
    }

    /** One io_submit, its answer ignored. */
    method Offer(batch: seq<nat>, ghost first: nat)
      requires batch == Range(first, |batch|)
      requires FromRange(ctx.pending, first) && |ctx.pending| <= first
      requires batch != []
      modifies ctx`offered, ctx`pending, ctx`short
      ensures ctx.offered == old(ctx.offered) + [batch] && old(ctx.short) <= ctx.short
      ensures FromRange(ctx.pending, first + |batch|) && |ctx.pending| <= old(|ctx.pending|) + |batch|
      ensures ctx.short == old(ctx.short) <==> |ctx.pending| == old(|ctx.pending|) + |batch|
    {
      hide FromRange;
      ghost var was := ctx.pending;
      var ret := ctx.Submit(batch);
      Accepted(was, first, |batch|, if ret > 0 then ret else 0);
    }

    /** The collecting thread. `pending` holds every block that is ever accepted: a block not yet
        submitted is one whose event has not come, so the timing of the two threads is covered by
        the order and the empty answers of io_getevents. The loop ends exactly if every block was
        accepted and no call failed (the error number is added to the count); otherwise all there
        is has been collected and the thread waits for ever. */
    method CollectAll() returns (done: bool)
      requires queueDepth > 0 && closed == deleted == []
      requires FromRange(ctx.pending, total)
      modifies this, ctx`pending, ctx`stalls, ctx`asked, ctx`failed
      ensures ctx.asked <= old(ctx.asked) + {queueDepth}
      ensures ctx.pending == [] && old(ctx.failed) <= ctx.failed
      ensures done <==> old(|ctx.pending|) == total && ctx.failed == old(ctx.failed)
      ensures closed == deleted && multiset(deleted) == old(multiset(ctx.pending))
    {
      AtMostTotal(ctx.pending, total);
      ghost var accepted := multiset(ctx.pending);
      var cnt: int := 0;
      while cnt < total
        invariant closed == deleted && cnt == |deleted| - (ctx.failed - old(ctx.failed))
        invariant old(ctx.failed) <= ctx.failed && ctx.asked <= old(ctx.asked) + {queueDepth}
        invariant multiset(deleted) + multiset(ctx.pending) == accepted
        decreases ctx.stalls, |ctx.pending|
      {
        if ctx.pending == [] {
          return false;
        }
        ghost var before := multiset(ctx.pending);
        var n, events := ctx.GetEvents(queueDepth);
        assert |multiset(events)| + |multiset(ctx.pending)| == |before|;
        closed, deleted := closed + events, deleted + events;
        cnt := cnt + n;
      }
      assert |multiset(deleted)| + |multiset(ctx.pending)| == |accepted| <= total;
      done := true;
    }

    /** test_small_aio: both threads' loops. If every io_submit takes its whole batch and no call
        fails, the collecting thread stops at exactly N, and in any case with whole batches every
        control block is deleted and every descriptor closed exactly once. */
    method TestSmallAio() returns (done: bool)
      requires queueDepth > 0 && closed == deleted == []
      requires ctx.offered == [] && ctx.pending == []
      modifies this, ctx
      ensures Concat(ctx.offered) == Range(0, total) && |ctx.offered| == CeilDiv(total, queueDepth)
      ensures done <==> ctx.short == old(ctx.short) && ctx.failed == old(ctx.failed)
      ensures closed == deleted && NoRepeats(deleted)
      ensures forall i: nat :: i in deleted ==> i < total
      ensures ctx.short == old(ctx.short) ==> forall i: nat :: i in deleted <==> i < total
    {
      SubmitAll();
      ghost var accepted := multiset(ctx.pending);
      done := CollectAll();
      assert |deleted| == |multiset(deleted)| == |accepted|;
      DeletedAtMostOnce(deleted, total);
      if ctx.short == old(ctx.short) {
        AllDeleted(deleted, total);
      }
    }
  }

  /** Blocks taken from 0, ..., n - 1, each at most once, are distinct and at most n. */
  lemma AtMostTotal(blocks: seq<nat>, n: nat)
    requires FromRange(blocks, n)
    ensures |blocks| <= n
  {
    var rest := multiset(Range(0, n)) - multiset(blocks);
    assert multiset(Range(0, n)) == multiset(blocks) + rest;
    assert |multiset(Range(0, n))| == |multiset(blocks)| + |rest|;
  }

  lemma {:induction false} RangeOnce(first: nat, n: nat, i: nat)
    ensures multiset(Range(first, n))[i] == if first <= i < first + n then 1 else 0
    decreases n
  {
    if n > 0 {
      RangeOnce(first, n - 1, i);
      assert Range(first, n) == Range(first, n - 1) + [first + n - 1];
    }
  }

  /** Blocks taken from 0, ..., n - 1 are not taken twice. */
  lemma DeletedAtMostOnce(deleted: seq<nat>, n: nat)
    requires FromRange(deleted, n)
    ensures NoRepeats(deleted)
    ensures forall i: nat :: i in deleted ==> i < n
  {
    forall i: nat | i in deleted ensures i < n {
      RangeOnce(0, n, i);
      assert i in multiset(deleted);
    }
    forall i, j | 0 <= i < j < |deleted| ensures deleted[i] != deleted[j] {
      RangeOnce(0, n, deleted[i]);
      if deleted[i] == deleted[j] {
        CountedTwice(deleted, i, j);
        assert false;
      }
    }
  }

  /** n of them are all of them. */
  lemma AllDeleted(deleted: seq<nat>, n: nat)
    requires FromRange(deleted, n) && |deleted| == n
    ensures forall i: nat :: i in deleted <==> i < n
  {
    var rest := multiset(Range(0, n)) - multiset(deleted);
    assert multiset(Range(0, n)) == multiset(deleted) + rest;
    assert |multiset(Range(0, n))| == |multiset(deleted)| + |rest|;
    assert rest == multiset{};
    forall i: nat ensures i in deleted <==> i < n {
      RangeOnce(0, n, i);
      assert i in multiset(deleted) <==> i in deleted;
    }
  }

  /** A call that takes k of a batch of n adds k of the batch's blocks. */
  lemma Accepted(was: seq<nat>, first: nat, n: nat, k: nat)
    requires k <= n && FromRange(was, first)
    ensures FromRange(was + Range(first, n)[..k], first + n)
  {
    var batch := Range(first, n);
    assert batch == batch[..k] + batch[k..];
    assert Range(0, first + n) == Range(0, first) + batch;
    assert multiset(Range(0, first + n)) ==
      multiset(Range(0, first)) + (multiset(batch[..k]) + multiset(batch[k..]));
  }

  lemma Nothing(depth: nat)
    requires depth > 0
    ensures FromRange([], 0)
    ensures Concat<nat>([]) == Range(0, 0) && WellShaped([], depth) && AllFull([], depth)
    ensures CeilDiv(0, depth) == 0
  {
    DivModUnique(depth - 1, depth, 0, depth - 1);
  }

  /** One more batch after full ones. */
  lemma NextBatch(batches: seq<seq<nat>>, batch: seq<nat>, first: nat, depth: nat)
    requires 0 < |batch| <= depth && AllFull(batches, depth) && first == |batches| * depth
    requires Concat(batches) == Range(0, first) && batch == Range(first, |batch|)
    ensures Concat(batches + [batch]) == Range(0, first + |batch|)
    ensures WellShaped(batches + [batch], depth)
    ensures |batches| + 1 == CeilDiv(first + |batch|, depth)
    ensures |batch| == depth ==>
      AllFull(batches + [batch], depth) && first + |batch| == |batches + [batch]| * depth
  {
    hide CeilDiv;
    var k := |batches|;
    ConcatSnoc(batches, batch);
    assert Range(0, first) + batch == Range(0, first + |batch|);
    BatchCountStep(k, |batch|, depth);
  }

  lemma BatchCountStep(k: nat, n: nat, depth: nat)
    requires 0 < n <= depth
    ensures CeilDiv(k * depth + n, depth) == k + 1
    ensures n == depth ==> k * depth + n == (k + 1) * depth
  {
    assert (k + 1) * depth == k * depth + depth;
    DivModUnique(k * depth + n + depth - 1, depth, k + 1, n - 1);
  }
}
