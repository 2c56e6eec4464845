/**
 The two devices a worker of src/benchmark.cc talks to, as environment objects. Each answers a
 call in every way its interface allows; the worker proofs see only the contracts below.

 Fairness is the field `stalls`: the number of unproductive answers (no completion although one
 is due, a refused submission) still to come. It is arbitrary but finite. A submission may also be
 refused for as long as there are completions that nobody has taken.
 */
module Devices {
  import opened Ids

  /** Exactly the completed entries have a result. */
  ghost predicate Recorded(cq: seq<nat>, reaped: seq<nat>, results: map<nat, int>) {
    forall k :: k in results <==> k in cq || k in reaped
  }

  /** A result once given stays. */
  ghost predicate Kept(before: map<nat, int>, after: map<nat, int>) {
    forall k :: k in before ==> k in after && after[k] == before[k]
  }

  lemma SucceededKept(ids: seq<nat>, before: map<nat, int>, after: map<nat, int>)
    requires Succeeded(ids, before) && Kept(before, after)
    ensures Succeeded(ids, after)
  {
  }

  /** None of these entries has failed. */
  ghost predicate Succeeded(ids: seq<nat>, results: map<nat, int>) {
    forall k :: k in ids ==> k in results && results[k] >= 0
  }

  /** An io_uring instance. Entries are numbered in the order in which slots are handed out. */
  class Ring {
    const entries: nat          // submission queue slots
    var next: nat               // number of slots handed out so far
    var queued: nat             // the last `queued` of them are not yet submitted
    var kernel: multiset<nat>   // submitted, not completed
    var cq: seq<nat>            // completed, not yet seen by the worker
    var results: map<nat, int>  // the result of each completed entry
    var stalls: nat
    ghost var reaped: seq<nat>  // completions marked seen, in order
    ghost var emptyLooks: nat   // looks that found no completion
    ghost var refusals: nat     // submissions of which the kernel took nothing
    ghost var faults: nat       // how often a failed completion was looked at

    constructor (entries: nat, stalls: nat)
      ensures Valid() && this.entries == entries && next == queued == 0
      ensures kernel == multiset{} && cq == [] && reaped == [] && emptyLooks == refusals == faults == 0
    {
      this.entries, this.stalls := entries, stalls;
      next, queued, kernel, cq, results, reaped := 0, 0, multiset{}, [], map[], [];
      emptyLooks, refusals, faults := 0, 0, 0;
    }

    /** Every submitted entry is in exactly one place: kernel, completion queue or reaped. */
    ghost predicate Valid()
      reads this
    {
      && queued <= next
      && queued <= entries
      && SharedOut(kernel, cq, reaped, next - queued)
      && Recorded(cq, reaped, results)
    }

    /** The completion at the head of the queue carries an error. */
    ghost predicate HeadFailed()
      reads this`cq, this`results
    {
      cq != [] && cq[0] in results && results[cq[0]] < 0
    }

    /** Entries handed to the kernel whose completion has not been seen. */
    ghost function Outstanding(): nat
      reads this
    {
      |kernel| + |cq|
    }

    /** io_uring_get_sqe: hands out a slot unless all are taken. */
    method GetSqe() returns (ok: bool)
      requires Valid()
      modifies this`next, this`queued
      ensures Valid()
      ensures ok <==> old(queued) < entries
      ensures ok ==> next == old(next) + 1 && queued == old(queued) + 1
      ensures !ok ==> next == old(next) && queued == old(queued)
    {
      ok := queued < entries;
      if ok {
        next, queued := next + 1, queued + 1;
      }
    }

    /** io_uring_submit: the kernel takes any number of queued entries, oldest first, or refuses; in
        between it completes any of those it has. */
    method Submit() returns (ret: int)
      requires Valid()
      modifies this`queued, this`kernel, this`cq, this`results, this`stalls, this`refusals
      ensures Valid()
      ensures refusals == old(refusals) + if ret > 0 then 0 else 1
      ensures old(cq) <= cq && Kept(old(results), results)
      ensures ret <= old(queued)
      ensures ret > 0 ==>
        && queued == old(queued) - ret
        && Outstanding() == old(Outstanding()) + ret
        && stalls == old(stalls)
      ensures ret <= 0 ==>
        && queued == old(queued)
        && Outstanding() == old(Outstanding())
        && (queued > 0 && old(cq) == [] ==> stalls < old(stalls))
      ensures stalls <= old(stalls)
    {
      var refuse: bool := *;
      if queued == 0 {
        ret := 0;
      } else if refuse && (stalls > 0 || cq != []) {
        ret :| ret <= 0;
        stalls := if cq == [] then stalls - 1 else stalls;
      } else {
        ret :| 0 < ret <= queued;
        Take(ret);
      }
      refusals := refusals + if ret > 0 then 0 else 1;
      CompleteSome();
    }

    /** The kernel takes the n oldest queued entries. */
    method Take(n: nat)
      requires Valid() && n <= queued
      modifies this`queued, this`kernel
      ensures Valid()
      ensures queued == old(queued) - n && |kernel| == old(|kernel|) + n
    {
      hide SharedOut, Recorded;
      for i := 0 to n
        invariant Valid() && queued == old(queued) - i && |kernel| == old(|kernel|) + i
      {
        MoveIn(kernel, cq, reaped, next - queued);
        kernel, queued := kernel + multiset{next - queued}, queued - 1;
      }
    }

    /** One look at the head of the completion queue. Before the look the kernel completes any of
        its entries in any order; `res` is the result of the entry at the head. */
    method PeekCqe() returns (some: bool, res: int)
      requires Valid()
      modifies this`kernel, this`cq, this`results, this`stalls, this`emptyLooks, this`faults
      ensures Valid()
      ensures old(cq) <= cq && Kept(old(results), results)
      ensures some <==> cq != []
      ensures some ==> res == results[cq[0]]
      ensures emptyLooks == old(emptyLooks) + if some then 0 else 1
      ensures faults == old(faults) + if HeadFailed() then 1 else 0
      ensures Outstanding() == old(Outstanding())
      ensures !some && kernel != multiset{} ==> stalls < old(stalls)
      ensures stalls <= old(stalls)
    {
      hide SharedOut;
      CompleteSome();
      if cq == [] && kernel != multiset{} {
        if stalls > 0 { stalls := stalls - 1; } else { CompleteOne(); }
      }
      some, res := cq != [], 0;
      emptyLooks := emptyLooks + if some then 0 else 1;
      if some {
        assert cq[0] in cq;
        res := results[cq[0]];
        faults := faults + if res < 0 then 1 else 0;
      }
    }

    /** The kernel completes any of its entries, in any order. */
    method CompleteSome()
      requires Valid()
      modifies this`kernel, this`cq, this`results
      ensures Valid()
      ensures old(cq) <= cq && Kept(old(results), results)
      ensures Outstanding() == old(Outstanding())
    {
      var more: bool := *;
      while kernel != multiset{} && more
        invariant Valid()
        invariant old(cq) <= cq && Kept(old(results), results)
        invariant Outstanding() == old(Outstanding())
        decreases |kernel|
      {
        CompleteOne();
        more := *;
      }
    }

    /** The kernel completes one of its entries, with any result. */
    method CompleteOne()
      requires Valid() && kernel != multiset{}
      modifies this`kernel, this`cq, this`results
      ensures Valid()
      ensures |kernel| == old(|kernel|) - 1 && |cq| == old(|cq|) + 1
      ensures old(cq) <= cq && Kept(old(results), results)
    {
      hide SharedOut;
      var id :| id in kernel;
      InOnePlace(kernel, cq, reaped, next - queued, id);
      MoveOut(kernel, cq, reaped, next - queued, id);
      var res: int := *;
      kernel, cq, results := kernel - multiset{id}, cq + [id], results[id := res];
    }

    /** io_uring_cqe_seen: retires the head of the completion queue. */
    method SeenCqe()
      requires Valid() && cq != []
      modifies this`cq, this`reaped
      ensures Valid()
      ensures cq == old(cq)[1..] && reaped == old(reaped) + [old(cq)[0]]
    {
      MoveHead(kernel, cq, reaped, next - queued);
      assert cq == [cq[0]] + cq[1..];
      reaped, cq := reaped + [cq[0]], cq[1..];
    }

    /** The reaped completions name distinct submitted entries. */
    lemma ReapedOnce()
      requires Valid()
      ensures NoRepeats(reaped)
      ensures forall i :: 0 <= i < |reaped| ==>
        reaped[i] < next - queued && reaped[i] !in kernel && reaped[i] !in cq
    {
      SharedOnce(kernel, cq, reaped, next - queued);
    }
  }

  /** An RDMA read: where its bytes go, where they come from, and the identifier it is given. */
  datatype Read = Read(dest: nat, remote: nat, wrId: nat)

  /** A polled work completion: the identifier given at posting, and whether it succeeded. */
  datatype Wc = Wc(wrId: nat, ok: bool)

  /** The completions carry the identifiers posted from position `from` on. */
  ghost predicate InPostingOrder(wcs: seq<Wc>, posted: seq<Read>, from: nat) {
    && from + |wcs| <= |posted|
    && forall i :: 0 <= i < |wcs| ==> wcs[i].wrId == posted[from + i].wrId
  }

  /** The posted reads from position `from` on. */
  ghost predicate Unpolled(sendq: seq<Read>, posted: seq<Read>, from: nat) {
    from <= |posted| && sendq == posted[from..]
  }

  /** Whether each of these reads succeeded. */
  function Statuses(wcs: seq<Wc>): (statuses: seq<bool>)
    ensures |statuses| == |wcs| && forall i :: 0 <= i < |wcs| ==> statuses[i] == wcs[i].ok
  {
    seq(|wcs|, i requires 0 <= i < |wcs| => wcs[i].ok)
  }

  lemma UnpolledRest(sendq: seq<Read>, posted: seq<Read>, from: nat, n: nat)
    requires Unpolled(sendq, posted, from) && n <= |sendq|
    ensures Unpolled(sendq[n..], posted, from + n)
    ensures forall i :: 0 <= i < n ==> sendq[i] == posted[from + i]
  {
  }

  datatype PostResult = Posted | QueueFull | DeviceError

  datatype PollResult = Polled(wcs: seq<Wc>) | PollFailed

  /** A reliable connected queue pair with its completion queue: reads complete in posting order. */
  class QueuePair {
    const maxSend: nat         // max_send_wr
    const cqCapacity: nat
    var sendq: seq<Read>       // posted and not yet polled, oldest first
    var ready: nat             // the first `ready` of them sit in the completion queue
    var stalls: nat
    ghost var posted: seq<Read> // everything ever posted
    ghost var polled: nat       // how many of them have been polled
    ghost var statuses: seq<bool>  // whether each of those succeeded
    ghost var drainedAt: nat    // reads posted when a poll last found nothing
    ghost var emptyPolls: nat   // polls that found nothing
    ghost var asked: set<nat>   // the numbers of completions polls have asked for
    ghost var pollErrors: nat   // failed calls of ibv_poll_cq
    ghost var postErrors: nat   // failed calls of ibv_post_send, other than for want of room
    ghost const prompt: bool    // no poll misses a read that is due

    constructor (depth: nat, stalls: nat)
      ensures Valid() && maxSend == depth && cqCapacity == 2 * depth && (prompt <==> stalls == 0)
      ensures sendq == [] && posted == [] && polled == 0 && drainedAt == pollErrors == postErrors == 0
      ensures asked == {}
    {
      maxSend, cqCapacity, this.stalls, prompt := depth, 2 * depth, stalls, stalls == 0;
      sendq, ready, posted, polled, statuses := [], 0, [], 0, [];
      drainedAt, emptyPolls, asked, pollErrors, postErrors := 0, 0, {}, 0, 0;
    }

    ghost predicate Valid()
      reads this
    {
      && ready <= |sendq| <= maxSend
      && polled + |sendq| == |posted|
      && Unpolled(sendq, posted, polled)
      && |statuses| == polled && drainedAt <= |posted|
      && (prompt ==> stalls == 0 && drainedAt <= polled)
    }

    /** ibv_post_send: refused when max_send_wr reads are outstanding, may fail otherwise too. */
    method PostSend(read: Read) returns (r: PostResult)
      requires Valid()
      modifies this`sendq, this`posted, this`postErrors
      ensures Valid()
      ensures postErrors == old(postErrors) + if r == DeviceError then 1 else 0
      ensures r == QueueFull <==> old(|sendq|) >= maxSend
      ensures r == Posted ==> sendq == old(sendq) + [read] && posted == old(posted) + [read]
      ensures r != Posted ==> sendq == old(sendq) && posted == old(posted)
    {
      var fails: bool := *;
      if |sendq| >= maxSend {
        r := QueueFull;
      } else if fails {
        r := DeviceError;
        postErrors := postErrors + 1;
      } else {
        r := Posted;
        sendq, posted := sendq + [read], posted + [read];
      }
    }

    /** ibv_poll_cq: up to `max` completions in posting order, or a failure. */
    method PollCq(max: nat) returns (r: PollResult)
      requires Valid() && max > 0
      modifies this`sendq, this`ready, this`stalls, this`polled
      modifies this`statuses, this`drainedAt, this`emptyPolls, this`asked, this`pollErrors
      ensures Valid()
      ensures stalls <= old(stalls)
      ensures pollErrors == old(pollErrors) + if r.PollFailed? then 1 else 0
      ensures asked == old(asked) + {max}
      ensures emptyPolls == old(emptyPolls) + if r == Polled([]) then 1 else 0
      ensures drainedAt == if r == Polled([]) then |posted| else old(drainedAt)
      ensures statuses == old(statuses) + if r.Polled? then Statuses(r.wcs) else []
      ensures r.PollFailed? ==> sendq == old(sendq) && polled == old(polled)
      ensures r.Polled? ==>
        && |r.wcs| <= max
        && |r.wcs| <= old(|sendq|)
        && polled == old(polled) + |r.wcs|
        && InPostingOrder(r.wcs, posted, old(polled))
        && (r.wcs == [] ==> ready == 0)
        && (r.wcs == [] && sendq != [] ==> stalls < old(stalls))
    {
      hide Unpolled;
      asked := asked + {max};
      Progress();
      var fails: bool := *;
      if fails {
        pollErrors := pollErrors + 1;
        return PollFailed;
      }
      var n := if ready < max then ready else max;
      var wcs := Harvest(n);
      UnpolledRest(sendq, posted, polled, n);
      sendq, ready, polled := sendq[n..], ready - n, polled + n;
      statuses := statuses + Statuses(wcs);
      if n == 0 { drainedAt, emptyPolls := |posted|, emptyPolls + 1; }
      r := Polled(wcs);
    }

    /** More of the reads complete, in posting order. */
    method Progress()
      requires ready <= |sendq|
      modifies this`ready, this`stalls
      ensures old(ready) <= ready <= |sendq| && stalls <= old(stalls)
      ensures ready == 0 && sendq != [] ==> stalls < old(stalls)
    {
      var completed: nat :| ready <= completed <= |sendq|;
      if completed == 0 && sendq != [] {
        if stalls > 0 { stalls := stalls - 1; } else { completed := 1; }
      }
      ready := completed;
    }

    /** The completions of the n oldest reads, each successful or not. */
    method Harvest(n: nat) returns (wcs: seq<Wc>)
      requires n <= |sendq|
      ensures |wcs| == n && forall k :: 0 <= k < n ==> wcs[k].wrId == sendq[k].wrId
    {
      wcs := [];
      for i := 0 to n
        invariant |wcs| == i
        invariant forall k :: 0 <= k < i ==> wcs[k].wrId == sendq[k].wrId
      {
        var ok: bool := *;
        wcs := wcs + [Wc(sendq[i].wrId, ok)];
      }
    }
  }
}
