/**
 Which address a queued write is submitted with. A prepared entry of src/benchmark.cc does not hold an
 address but points to an iovec, one local variable of reap_rdma_cq that every later block overwrites;
 the kernel reads it when the entry is submitted, which happens a batch at a time.
 */
module Batches {
  import opened Arithmetic
  import opened Copier
  import opened Cursors

  /** The last block of the batch of write k. */
  function BatchEnd(k: nat, batch: nat): nat
    requires batch > 0
  {
    k / batch * batch + batch - 1
  }

  /** Each submitted write has its own place in the file, and the address that the last block of its
      batch put into the iovec. */
  ghost predicate IssuedInBatches(issued: seq<Write>, writes: seq<Write>, batch: nat)
    requires batch > 0
  {
    && |issued| <= |writes|
    && forall k :: 0 <= k < |issued| ==>
         && BatchEnd(k, batch) < |writes|
         && issued[k] == Write(writes[BatchEnd(k, batch)].source, writes[k].fileOffset)
  }

  predicate Aligned(n: nat, batch: nat)
    requires batch > 0
  {
    n % batch == 0
  }

  /** All but the last `depth` of n submitted writes have been reaped. */
  ghost predicate OldReaped(reaped: seq<nat>, n: nat, depth: nat) {
    forall k: nat :: k + depth < n ==> k in reaped
  }

  lemma IssuedGrows(issued: seq<Write>, writes: seq<Write>, w: Write, batch: nat)
    requires batch > 0 && IssuedInBatches(issued, writes, batch)
    ensures IssuedInBatches(issued, writes + [w], batch)
  {
  }

  lemma AlignedStep(n: nat, batch: nat)
    requires batch > 0
    ensures Aligned(n + batch, batch) <==> Aligned(n, batch)
    ensures Aligned(0, batch)
  {
    SamePosition(n, batch);
    SmallMod(0, batch);
  }

  lemma LastOfBatch(k: nat, n: nat, batch: nat)
    requires batch > 0 && Aligned(n, batch) && n <= k + batch && k < n
    ensures BatchEnd(k, batch) == n - 1
  {
    DivModSplit(n, batch);
    var q := n / batch;
    assert batch * (q - 1) == batch * q - batch;
    DivModUnique(k, batch, q - 1, k + batch - n);
    assert k / batch * batch == batch * (q - 1);
  }

  /** A submission of t entries out of a whole batch gives them all the address in the iovec. */
  lemma IssueMore(issued: seq<Write>, writes: seq<Write>, t: nat, batch: nat)
    requires batch > 0 && IssuedInBatches(issued, writes, batch) && Aligned(|writes|, batch)
    requires t > 0 && |issued| + t <= |writes| <= |issued| + batch
    ensures IssuedInBatches(issued + Taken(writes, |issued|, t, writes[|writes| - 1].source), writes, batch)
  {
    var after := issued + Taken(writes, |issued|, t, writes[|writes| - 1].source);
    forall k | |issued| <= k < |after|
      ensures BatchEnd(k, batch) < |writes|
      ensures after[k] == Write(writes[BatchEnd(k, batch)].source, writes[k].fileOffset)
    {
      LastOfBatch(k, |writes|, batch);
    }
  }

  /** t prepared writes from the n-th on, all with the given address. */
  function Taken(writes: seq<Write>, n: nat, t: nat, source: Source): (taken: seq<Write>)
    requires n + t <= |writes|
    ensures |taken| == t
  {
    seq(t, i requires 0 <= i < t => Write(source, writes[n + i].fileOffset))
  }

  lemma OldReapedGrows(reaped: seq<nat>, more: seq<nat>, n: nat, depth: nat)
    requires reaped <= more && OldReaped(reaped, n, depth)
    ensures OldReaped(more, n, depth)
  {
    forall k: nat | k + depth < n ensures k in more {
      assert k in reaped;
    }
  }

  /** Write k of batches taken from a pool at address `from` finds block k as it lies in a pool at
      address `at`, both of p slots. */
  ghost predicate RightAddress(k: nat, batch: nat, p: nat, bs: nat, from: nat, at: nat)
    requires batch > 0 && p > 0
  {
    from + bs * (BatchEnd(k, batch) % p) == at + bs * (k % p)
  }

  lemma FirstBatchEnd(batch: nat, p: nat)
    requires batch > 0 && p > 0
    ensures BatchEnd(0, batch) == batch - 1 && 0 % p == 0
    ensures batch > 1 ==> BatchEnd(1, batch) == batch - 1 && (p > 1 ==> 1 % p == 1)
  {
    SmallMod(0, p);
    DivModUnique(0, batch, 0, 0);
    if batch > 1 {
      DivModUnique(1, batch, 0, 1);
      if p > 1 { SmallMod(1, p); }
    }
  }

  lemma SingleBlock(k: nat)
    ensures BatchEnd(k, 1) == k && k % 1 == 0
  {
    DivModUnique(k, 1, k, 0);
  }

  /** The first n writes find their blocks only in trivial cases. */
  lemma RightAddressIff(n: nat, batch: nat, p: nat, bs: nat, from: nat, at: nat)
    requires batch > 0 && p > 0 && bs > 0
    ensures (forall k: nat :: k < n ==> RightAddress(k, batch, p, bs, from, at))
       <==> n == 0 || (from == at && (batch == 1 || p == 1)) || (n == 1 && from + bs * ((batch - 1) % p) == at)
  {
    hide BatchEnd;
    FirstBatchEnd(batch, p);
    assert n > 0 ==> (RightAddress(0, batch, p, bs, from, at) <==> from + bs * ((batch - 1) % p) == at);
    if batch == 1 || p == 1 {
      forall k: nat ensures RightAddress(k, batch, p, bs, from, at) <==> from == at {
        SingleBlock(k);
        SingleBlock(BatchEnd(k, batch));
      }
    } else if n >= 2 && RightAddress(0, batch, p, bs, from, at) {
      SameProduct(bs, 0, 1);
      assert !RightAddress(1, batch, p, bs, from, at);
    }
  }
}
