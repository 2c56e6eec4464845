/**
 The asynchronous call objects of src/net.h: an event loop takes one tag after the other from a
 completion queue and lets the object it names proceed. An object registers for a request, then
 replaces itself and answers, then deletes itself.
 */
module AsyncCalls {
  import opened Ids

  datatype CallStatus = CREATE | PROCESS | FINISH

  /** The heap and completion queue of one RPCHandler<WriteBlockCallData>. Objects are numbered in
      the order of their construction; a number is never used again. */
  class Handler {
    var next: nat                       // objects constructed so far
    var status: map<nat, CallStatus>    // the live objects
    var tags: multiset<nat>             // outstanding tags: one per pending request or reply
    ghost var accepted: seq<nat>        // objects whose request arrived, in order
    ghost var finished: seq<nat>        // objects whose reply was handed to the responder, in order
    ghost var retired: seq<nat>         // objects deleted, in order

    constructor ()
      ensures next == 0 && status == map[] && tags == multiset{}
      ensures accepted == finished == retired == []
    {
      next, status, tags, accepted, finished, retired := 0, map[], multiset{}, [], [], [];
    }

    /** Between two iterations of the event loop. */
    ghost predicate AtLoopHead()
      reads this
    {
      Consistent(next, status, tags, accepted, finished, retired)
    }

    /** new WriteBlockCallData: the constructor lets the object proceed from CREATE. */
    method Construct() returns (id: nat)
      requires next !in status
      modifies this
      decreases 1
      ensures id == old(next) && next == id + 1
      ensures status == old(status)[id := PROCESS]
      ensures tags == old(tags) + multiset{id}
      ensures unchanged(`accepted) && unchanged(`finished) && unchanged(`retired)
    {
      id := next;
      next, status := next + 1, status[id := CREATE];
      Proceed(id);
    }

    /** WriteBlockCallData::proceed */
    method Proceed(id: nat)
      requires id in status
      requires status[id] == PROCESS ==> next !in status
      modifies this
      decreases if status[id] == CREATE then 0 else 2
      ensures old(status[id]) == CREATE ==>
        && unchanged(`next) && unchanged(`accepted) && unchanged(`finished) && unchanged(`retired)
        && status == old(status)[id := PROCESS]
        && tags == old(tags) + multiset{id}
      ensures old(status[id]) == PROCESS ==>
        && next == old(next) + 1 && unchanged(`retired)
        && status == old(status)[old(next) := PROCESS][id := FINISH]
        && tags == old(tags) + multiset{old(next)} + multiset{id}
        && accepted == old(accepted) + [id] && finished == old(finished) + [id]
      ensures old(status[id]) == FINISH ==>
        && unchanged(`next) && unchanged(`tags) && unchanged(`accepted) && unchanged(`finished)
        && status == old(status) - {id}
        && retired == old(retired) + [id]
    {
      if status[id] == CREATE {
        status := status[id := PROCESS];
        tags := tags + multiset{id};            // RequestWriteBlock(..., this)
      } else if status[id] == PROCESS {
        accepted := accepted + [id];
        var replacement := Construct();
        status := status[id := FINISH];
        finished := finished + [id];
        tags := tags + multiset{id};            // responder.Finish(..., this)
      } else {
        retired := retired + [id];
        status := status - {id};                // delete this
      }
    }

    /** RPCHandler::exec for `iterations` turns of its loop: each time the completion queue delivers
        any one of the outstanding tags. */
    method Exec(iterations: nat)
      requires next == 0 && status == map[] && tags == multiset{}
      requires accepted == finished == retired == []
      modifies this
      ensures AtLoopHead()
      ensures |accepted| + |retired| == iterations
    {
      var first := Construct();
      for i := 0 to iterations
        invariant AtLoopHead()
        invariant |accepted| + |retired| == i
      {
        Turn();
      }
    }

    /** One turn: some outstanding tag is delivered and its object proceeds. */
    method Turn()
      requires AtLoopHead()
      modifies this
      ensures AtLoopHead()
      ensures |accepted| + |retired| == old(|accepted| + |retired|) + 1
      ensures old(accepted) <= accepted && old(retired) <= retired
    {
      hide Consistent;
      ghost var t := tags;
      var tag := NextTag();
      if tag == next - 1 {
        AcceptTurn(next, status, t, accepted, retired);
      } else {
        RetireTurn(next, status, t, accepted, retired, tag);
      }
      Proceed(tag);
    }

    /** cq->Next: delivers any outstanding tag. */
    method NextTag() returns (tag: nat)
      requires AtLoopHead()
      modifies this`tags
      ensures tag in status && next > 0 && next !in status
      ensures status[tag] == if tag == next - 1 then PROCESS else FINISH
      ensures tags == old(tags) - multiset{tag} && finished == accepted
    {
      assert tags[next - 1] == 1;
      tag :| tag in tags;
      assert tag in status;
      tags := tags - multiset{tag};
    }
  }

  /** What holds of the heap and the queue between two iterations of the event loop. */
  ghost predicate Consistent(next: nat, status: map<nat, CallStatus>, tags: multiset<nat>,
                             accepted: seq<nat>, finished: seq<nat>, retired: seq<nat>)
  {
    && next > 0
    // the newest object waits for a request, all other live ones for their reply to go out
    && OneWaiting(status, next)
    // every live object has exactly one outstanding tag, and no tag names a deleted object
    && OneTagEach(status.Keys, tags)
    // every accepted request has been answered once, in order of construction
    && finished == accepted && Ordered(accepted, next - 1)
    && Retired(accepted, status.Keys - {next - 1}, retired)
    && |status| == 1 + |accepted| - |retired|
  }

  /** A turn at the waiting object: it accepts, is replaced and answers. */
  lemma AcceptTurn(next: nat, status: map<nat, CallStatus>, tags: multiset<nat>,
                   accepted: seq<nat>, retired: seq<nat>)
    requires Consistent(next, status, tags, accepted, accepted, retired)
    ensures var id := next - 1;
      Consistent(next + 1, status[next := PROCESS][id := FINISH],
                 tags - multiset{id} + multiset{next} + multiset{id},
                 accepted + [id], accepted + [id], retired)
  {
    hide Ordered, Retired, OneTagEach;
    var id := next - 1;
    Accepting(accepted, status.Keys - {id}, retired, id);
    var after := status[next := PROCESS][id := FINISH];
    assert after.Keys == status.Keys + {next};
    assert |after.Keys| == |status.Keys| + 1;
    AddTag(status.Keys, tags, id, next);
    Replaced(status, next);
    assert after.Keys - {next} == status.Keys - {id} + {id};
  }

  /** A turn at an answered object: it is deleted. */
  lemma RetireTurn(next: nat, status: map<nat, CallStatus>, tags: multiset<nat>,
                   accepted: seq<nat>, retired: seq<nat>, id: nat)
    requires Consistent(next, status, tags, accepted, accepted, retired)
    requires id in status && id != next - 1
    ensures Consistent(next, status - {id}, tags - multiset{id}, accepted, accepted, retired + [id])
  {
    hide Ordered, Retired;
    Retiring(accepted, status.Keys - {next - 1}, retired, id);
    var after := status - {id};
    assert after.Keys == status.Keys - {id};
    assert after.Keys - {next - 1} == status.Keys - {next - 1} - {id};
  }

  lemma AddTag(live: set<nat>, tags: multiset<nat>, id: nat, newcomer: nat)
    requires OneTagEach(live, tags) && id in live && newcomer !in live
    ensures OneTagEach(live + {newcomer}, tags - multiset{id} + multiset{newcomer} + multiset{id})
  {
    assert tags[id] == 1;
  }

  lemma Replaced(status: map<nat, CallStatus>, next: nat)
    requires next > 0 && OneWaiting(status, next)
    ensures OneWaiting(status[next := PROCESS][next - 1 := FINISH], next + 1)
  {
  }

  lemma Accepting(accepted: seq<nat>, live: set<nat>, retired: seq<nat>, id: nat)
    requires Ordered(accepted, id) && Retired(accepted, live, retired)
    ensures Ordered(accepted + [id], id + 1)
    ensures Retired(accepted + [id], live + {id}, retired)
  {
    assert id !in accepted;
    forall x ensures x in accepted + [id] <==> x in accepted || x == id {
    }
  }

  lemma Retiring(accepted: seq<nat>, live: set<nat>, retired: seq<nat>, id: nat)
    requires id in live && Retired(accepted, live, retired)
    ensures Retired(accepted, live - {id}, retired + [id])
  {
    forall x ensures x in retired + [id] <==> x in retired || x == id {
    }
  }

  ghost predicate OneWaiting(status: map<nat, CallStatus>, next: nat) {
    && (forall id :: id in status ==>
          id < next && status[id] == if id == next - 1 then PROCESS else FINISH)
    && next > 0 && next - 1 in status
  }

  ghost predicate OneTagEach(live: set<nat>, tags: multiset<nat>) {
    forall id :: tags[id] == if id in live then 1 else 0
  }

  /** The accepted requests are those of objects 0, ..., n - 1, in this order. */
  ghost predicate Ordered(accepted: seq<nat>, n: nat) {
    |accepted| == n && forall i :: 0 <= i < n ==> accepted[i] == i
  }

  /** Of the accepted requests, each is retired exactly once or still live, not both. */
  ghost predicate Retired(accepted: seq<nat>, live: set<nat>, retired: seq<nat>) {
    && NoRepeats(retired)
    && (forall id :: id in accepted <==> id in live || id in retired)
    && (forall id :: id in live ==> id !in retired)
  }
}
