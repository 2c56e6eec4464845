/**
 Concurrent calls of GRPCSyncServer::WriteBlock in src/net.h. The argument block of the Write command
 is a static variable, so all calls fill and use the same one; the library runs them on threads of its
 own. A schedule says which call executes its next statement; nvme_write counts as one.
 */
module SharedArgs {

  /** A request: its start block, and the block count computed from its size. */
  datatype Call = Call(start: int, count: nat)

  /** The statement a call executes next. */
  datatype Place =
    | Start      // args.slba = start_block
    | Count      // args.nlb = the count
    | Measure    // actual_len = (args.nlb + 1) * block size
    | Announce   // args.data_len = actual_len
    | Allocate   // args.data = new char[actual_len]
    | Fill       // memcpy(args.data, the payload)
    | Write      // nvme_write(&args)
    | Free       // delete[] args.data
    | Reply      // set_end_block(start_block + args.nlb)
    | Done

  datatype Option<+T> = None | Some(value: T)

  /** A call under way: where it is, and its `actual_len` in blocks. */
  datatype Thread = Thread(place: Place, blocks: nat)

  /** A Write command as the device receives it: the call that sent it, the fields of the argument
      block, and whose payload was in the buffer. */
  datatype Command = Command(sender: nat, slba: int, nlb: nat, blocks: nat, buffer: nat, payload: Option<nat>)

  /** A buffer is named by the call that allocated it. */
  datatype Release = Release(caller: nat, buffer: nat)

  /** The argument block. */
  datatype Args = Args(slba: int, nlb: nat, blocks: nat, data: nat)

  datatype State = State(
    threads: seq<Thread>,
    args: Args,
    rooms: map<nat, nat>,      // the size of each buffer, in blocks
    payloads: map<nat, nat>,   // the call whose payload each buffer was last given
    overruns: set<nat>,        // the calls whose payload was larger than the buffer they filled
    sent: seq<Command>,
    freed: seq<Release>,
    ends: map<nat, int>)       // end blocks reported

  function Init(calls: seq<Call>): State {
    State(seq(|calls|, _ => Thread(Start, 0)), Args(0, 0, 0, 0), map[], map[], {}, [], [], map[])
  }

  /** Call i executes its next statement, if it has one. */
  function Step(calls: seq<Call>, s: State, i: nat): State {
    if i >= |calls| || i >= |s.threads| then s else
      var place := s.threads[i].place;
      State(s.threads[i := Onwards(s.threads[i], s.args)],
            Filled(s.args, s.threads[i], calls[i], i),
            if place.Allocate? then s.rooms[i := s.threads[i].blocks] else s.rooms,
            if place.Fill? then s.payloads[s.args.data := i] else s.payloads,
            if place.Fill? && Overruns(s, calls[i]) then s.overruns + {i} else s.overruns,
            if place.Write? then s.sent + [Sent(s, i)] else s.sent,
            if place.Free? then s.freed + [Release(i, s.args.data)] else s.freed,
            if place.Reply? then s.ends[i := calls[i].start + s.args.nlb] else s.ends)
  }

  /** The call after the statement: `actual_len` is computed from the shared block. */
  function Onwards(t: Thread, args: Args): Thread {
    match t.place
    case Start => t.(place := Count)
    case Count => t.(place := Measure)
    case Measure => Thread(Announce, args.nlb + 1)
    case Announce => t.(place := Allocate)
    case Allocate => t.(place := Fill)
    case Fill => t.(place := Write)
    case Write => t.(place := Free)
    case Free => t.(place := Reply)
    case Reply => t.(place := Done)
    case Done => t
  }

  /** The argument block after the statement. */
  function Filled(args: Args, t: Thread, call: Call, i: nat): Args {
    match t.place
    case Start => args.(slba := call.start)
    case Count => args.(nlb := call.count)
    case Announce => args.(blocks := t.blocks)
    case Allocate => args.(data := i)
    case _ => args
  }

  /** The payload, of as many blocks as the call's count says, is larger than the buffer. */
  predicate Overruns(s: State, call: Call) {
    s.args.data in s.rooms && s.rooms[s.args.data] < call.count + 1
  }

  function Sent(s: State, i: nat): Command {
    Command(i, s.args.slba, s.args.nlb, s.args.blocks, s.args.data,
            if s.args.data in s.payloads then Some(s.payloads[s.args.data]) else None)
  }

  /** The state after a schedule: the calls named in it take one step each, in that order. */
  function Run(calls: seq<Call>, schedule: seq<nat>): State {
    if schedule == [] then Init(calls)
    else Step(calls, Run(calls, schedule[..|schedule| - 1]), schedule[|schedule| - 1])
  }

  lemma Then(calls: seq<Call>, schedule: seq<nat>, i: nat) returns (longer: seq<nat>)
    ensures longer == schedule + [i]
    ensures Run(calls, longer) == Step(calls, Run(calls, schedule), i)
  {
    longer := schedule + [i];
    assert longer[..|longer| - 1] == schedule;
  }

  lemma {:induction false} ThreadCount(calls: seq<Call>, schedule: seq<nat>)
    ensures |Run(calls, schedule).threads| == |calls|
  {
    if schedule != [] {
      ThreadCount(calls, schedule[..|schedule| - 1]);
    }
  }

  // ---------------------------------------------------------------------------- what may go wrong

  /** The command is the one its sender asked for. */
  predicate Right(calls: seq<Call>, c: Command)
    requires c.sender < |calls|
  {
    c == Command(c.sender, calls[c.sender].start, calls[c.sender].count, calls[c.sender].count + 1,
                 c.sender, Some(c.sender))
  }

  /** Every command, buffer deleted and end block reported is the call's own. */
  ghost predicate AllRight(calls: seq<Call>, s: State) {
    && (forall k :: 0 <= k < |s.sent| ==> s.sent[k].sender < |calls| && Right(calls, s.sent[k]))
    && (forall i :: i in s.ends ==> i < |calls| && s.ends[i] == calls[i].start + calls[i].count)
    && OwnFreed(s)
  }

  /** No payload is written at another call's start block. */
  ghost predicate NoneMisplaced(calls: seq<Call>, s: State) {
    forall k :: 0 <= k < |s.sent| && s.sent[k].payload.Some? ==>
      s.sent[k].payload.value < |calls| && s.sent[k].slba == calls[s.sent[k].payload.value].start
  }

  /** Each command announces as many bytes as its block count says. */
  ghost predicate LengthsAgree(s: State) {
    forall k :: 0 <= k < |s.sent| ==> s.sent[k].blocks == s.sent[k].nlb + 1
  }

  /** Each call has deleted the buffer it allocated. */
  ghost predicate OwnFreed(s: State) {
    forall k :: 0 <= k < |s.freed| ==> s.freed[k].buffer == s.freed[k].caller
  }

  /** Call i runs from its start until it has allocated its buffer. */
  lemma Allocates(calls: seq<Call>, before: seq<nat>, i: nat) returns (schedule: seq<nat>)
    requires i < |calls| && i < |Run(calls, before).threads| && Run(calls, before).threads[i].place == Start
    ensures var s, t := Run(calls, before), Run(calls, schedule);
      && t.threads == s.threads[i := Thread(Fill, calls[i].count + 1)]
      && t.args == Args(calls[i].start, calls[i].count, calls[i].count + 1, i)
      && t.rooms == s.rooms[i := calls[i].count + 1]
      && t.payloads == s.payloads && t.overruns == s.overruns
      && t.sent == s.sent && t.freed == s.freed && t.ends == s.ends
  {
    hide Run;
    schedule := Then(calls, before, i);
    schedule := Then(calls, schedule, i);
    schedule := Then(calls, schedule, i);
    schedule := Then(calls, schedule, i);
    schedule := Then(calls, schedule, i);
  }

  lemma RunNothing(calls: seq<Call>)
    ensures Run(calls, []) == Init(calls)
  {
  }

  /** Call i has filled the argument block and not used it yet. */
  lemma ReadyToWrite(calls: seq<Call>, i: nat) returns (schedule: seq<nat>)
    requires i < |calls|
    ensures var s := Run(calls, schedule);
      && s.threads == Init(calls).threads[i := Thread(Write, calls[i].count + 1)]
      && s.args == Args(calls[i].start, calls[i].count, calls[i].count + 1, i)
      && s.payloads == map[i := i] && s.sent == []
  {
    hide Run;
    RunNothing(calls);
    schedule := Allocates(calls, [], i);
    schedule := Then(calls, schedule, i);
  }

  function Rank(place: Place): nat {
    match place
    case Start => 0
    case Count => 1
    case Measure => 2
    case Announce => 3
    case Allocate => 4
    case Fill => 5
    case Write => 6
    case Free => 7
    case Reply => 8
    case Done => 9
  }

  // ---------------------------------------------------------------------------- one call

  /** No buffer holds another call's payload. */
  ghost predicate Unmixed(s: State) {
    forall b :: b in s.payloads ==> s.payloads[b] == b
  }

  /** What a call alone has put into the argument block. */
  ghost predicate Alone(calls: seq<Call>, s: State) {
    && |s.threads| == |calls| <= 1
    && AllRight(calls, s) && Unmixed(s)
    && forall i :: 0 <= i < |calls| ==>
         var rank := Rank(s.threads[i].place);
         && (rank > 0 ==> s.args.slba == calls[i].start)
         && (rank > 1 ==> s.args.nlb == calls[i].count)
         && (rank > 2 ==> s.threads[i].blocks == calls[i].count + 1)
         && (rank > 3 ==> s.args.blocks == calls[i].count + 1)
         && (rank > 4 ==> s.args.data == i)
         && (rank > 5 ==> i in s.payloads)
  }

  lemma StepAlone(calls: seq<Call>, s: State, i: nat)
    requires Alone(calls, s)
    ensures Alone(calls, Step(calls, s, i))
  {
    var t := Step(calls, s, i);
    if i < |calls| {
      assert |calls| == 1 && i == 0;
      assert s.threads == [s.threads[0]];
      StepSelf(calls, s, i);
      hide OwnFreed;
    }
  }

  lemma {:induction false} StaysAlone(calls: seq<Call>, schedule: seq<nat>)
    requires |calls| <= 1
    ensures Alone(calls, Run(calls, schedule))
  {
    if schedule != [] {
      hide Step;
      StaysAlone(calls, schedule[..|schedule| - 1]);
      StepAlone(calls, Run(calls, schedule[..|schedule| - 1]), schedule[|schedule| - 1]);
    }
  }

  /** A second call that allocates just before the first one writes: the command then carries the
      buffer of the second, which nobody has filled. */
  lemma UnfilledSent(calls: seq<Call>) returns (schedule: seq<nat>)
    requires |calls| > 1
    ensures !AllRight(calls, Run(calls, schedule))
  {
    hide Run;
    schedule := ReadyToWrite(calls, 0);
    schedule := Allocates(calls, schedule, 1);
    schedule := Then(calls, schedule, 0);
    assert Run(calls, schedule).sent[0].payload == None;
  }

  /** Every schedule sends only the commands that were asked for exactly if there is at most one call:
      whatever two calls ask for, some schedule sends a buffer that nobody has filled. */
  lemma AlwaysRightIff(calls: seq<Call>)
    ensures (forall schedule :: AllRight(calls, Run(calls, schedule))) <==> |calls| <= 1
  {
    if |calls| <= 1 {
      forall schedule ensures AllRight(calls, Run(calls, schedule)) {
        StaysAlone(calls, schedule);
      }
    } else {
      var schedule := UnfilledSent(calls);
    }
  }

  /** No schedule copies a payload into another call's buffer exactly if there is at most one call. */
  lemma NeverMixedIff(calls: seq<Call>)
    ensures (forall schedule :: Unmixed(Run(calls, schedule))) <==> |calls| <= 1
  {
    if |calls| <= 1 {
      forall schedule ensures Unmixed(Run(calls, schedule)) {
        StaysAlone(calls, schedule);
      }
    } else {
      var schedule := Mixed(calls);
    }
  }

  /** A second call allocates just before the first one copies. */
  lemma Mixed(calls: seq<Call>) returns (schedule: seq<nat>)
    requires |calls| > 1
    ensures !Unmixed(Run(calls, schedule))
  {
    hide Run;
    RunNothing(calls);
    schedule := Allocates(calls, [], 0);
    schedule := Allocates(calls, schedule, 1);
    schedule := Then(calls, schedule, 0);
    assert Run(calls, schedule).payloads[1] == 0;
  }

  // ---------------------------------------------------------------------------- lengths

  /** Each buffer is as large as its call measured, and each length announced is one that some call
      measured: of the computation only the block count itself is shared. */
  ghost predicate LocalLengths(calls: seq<Call>, s: State) {
    && |s.threads| == |calls|
    && (forall i :: 0 <= i < |calls| && Rank(s.threads[i].place) > 4 ==>
          i in s.rooms && s.rooms[i] == s.threads[i].blocks)
    && (s.args.blocks != 0 ==>
          exists i :: 0 <= i < |calls| && Rank(s.threads[i].place) > 3 && s.threads[i].blocks == s.args.blocks)
  }

  lemma StepLocal(calls: seq<Call>, s: State, i: nat)
    requires LocalLengths(calls, s)
    ensures LocalLengths(calls, Step(calls, s, i))
  {
    var t := Step(calls, s, i);
    if i < |calls| && t.args.blocks != 0 {
      if t.args.blocks != s.args.blocks {
        assert Rank(t.threads[i].place) > 3 && t.threads[i].blocks == t.args.blocks;
      } else {
        var j :| 0 <= j < |calls| && Rank(s.threads[j].place) > 3 && s.threads[j].blocks == s.args.blocks;
        assert Rank(t.threads[j].place) > 3 && t.threads[j].blocks == t.args.blocks;
      }
    }
  }

  lemma {:induction false} RunLocal(calls: seq<Call>, schedule: seq<nat>)
    ensures LocalLengths(calls, Run(calls, schedule))
  {
    if schedule != [] {
      hide Step;
      RunLocal(calls, schedule[..|schedule| - 1]);
      StepLocal(calls, Run(calls, schedule[..|schedule| - 1]), schedule[|schedule| - 1]);
    }
  }

  // ---------------------------------------------------------------------------- start blocks

  ghost predicate SameStart(calls: seq<Call>) {
    forall i, j :: 0 <= i < j < |calls| ==> calls[i].start == calls[j].start
  }

  ghost predicate Placed(calls: seq<Call>, s: State) {
    && |s.threads| == |calls|
    && NoneMisplaced(calls, s)
    && (forall b :: b in s.payloads ==> s.payloads[b] < |calls|)
    && forall i :: 0 <= i < |calls| && Rank(s.threads[i].place) > 0 ==> s.args.slba == calls[i].start
  }

  lemma StepPlaced(calls: seq<Call>, s: State, i: nat)
    requires SameStart(calls) && Placed(calls, s)
    ensures Placed(calls, Step(calls, s, i))
  {
    var t := Step(calls, s, i);
    if i < |calls| {
      forall j | 0 <= j < |calls| && Rank(t.threads[j].place) > 0 ensures t.args.slba == calls[j].start {
        assert j != i ==> t.threads[j] == s.threads[j];
        assert SameStart(calls) ==> calls[i].start == calls[j].start;
      }
    }
  }

  lemma {:induction false} StaysPlaced(calls: seq<Call>, schedule: seq<nat>)
    requires SameStart(calls)
    ensures Placed(calls, Run(calls, schedule))
  {
    hide Placed, Step;
    if schedule == [] {
      InitPlaced(calls);
    } else {
      StaysPlaced(calls, schedule[..|schedule| - 1]);
      StepPlaced(calls, Run(calls, schedule[..|schedule| - 1]), schedule[|schedule| - 1]);
    }
  }

  lemma InitPlaced(calls: seq<Call>)
    ensures Placed(calls, Init(calls))
  {
  }

  /** No schedule writes one call's payload at another's start block exactly if all calls ask for the
      same one. */
  lemma NeverMisplacedIff(calls: seq<Call>)
    ensures (forall schedule :: NoneMisplaced(calls, Run(calls, schedule))) <==> SameStart(calls)
  {
    hide Run, Step;
    if SameStart(calls) {
      forall schedule ensures NoneMisplaced(calls, Run(calls, schedule)) {
        StaysPlaced(calls, schedule);
      }
    } else {
      var i: nat, j: nat :| i < j < |calls| && calls[i].start != calls[j].start;
      var schedule := Misplaced(calls, i, j);
    }
  }

  /** Another call sets its start block just before this one writes. */
  lemma Misplaced(calls: seq<Call>, i: nat, j: nat) returns (schedule: seq<nat>)
    requires i < |calls| && j < |calls| && calls[i].start != calls[j].start
    ensures !NoneMisplaced(calls, Run(calls, schedule))
  {
    schedule := ReadyToWrite(calls, i);
    schedule := Then(calls, schedule, j);
    schedule := Then(calls, schedule, i);
    var s := Run(calls, schedule);
    assert s.sent[0].payload == Some(i) && s.sent[0].slba == calls[j].start;
  }

  // ---------------------------------------------------------------------------- block counts

  ghost predicate SameCount(calls: seq<Call>) {
    forall i, j :: 0 <= i < j < |calls| ==> calls[i].count == calls[j].count
  }

  /** No end block is reported that is not the call's own. */
  ghost predicate EndsOwn(calls: seq<Call>, s: State) {
    forall i :: i in s.ends ==> i < |calls| && s.ends[i] == calls[i].start + calls[i].count
  }

  ghost predicate Measured(calls: seq<Call>, s: State) {
    && |s.threads| == |calls|
    && LengthsAgree(s) && EndsOwn(calls, s) && s.overruns == {}
    && (forall b, i :: b in s.rooms && 0 <= i < |calls| ==> s.rooms[b] == calls[i].count + 1)
    && forall i :: 0 <= i < |calls| ==>
         var rank := Rank(s.threads[i].place);
         && (rank > 1 ==> s.args.nlb == calls[i].count)
         && (rank > 2 ==> s.threads[i].blocks == calls[i].count + 1)
         && (rank > 3 ==> s.args.blocks == calls[i].count + 1)
  }

  lemma StepMeasured(calls: seq<Call>, s: State, i: nat)
    requires SameCount(calls) && Measured(calls, s)
    ensures Measured(calls, Step(calls, s, i))
  {
    var t := Step(calls, s, i);
    if i < |calls| {
      forall j | 0 <= j < |calls|
        ensures Rank(t.threads[j].place) > 1 ==> t.args.nlb == calls[j].count
        ensures Rank(t.threads[j].place) > 2 ==> t.threads[j].blocks == calls[j].count + 1
        ensures Rank(t.threads[j].place) > 3 ==> t.args.blocks == calls[j].count + 1
        ensures forall b :: b in t.rooms ==> t.rooms[b] == calls[j].count + 1
      {
        assert j != i ==> t.threads[j] == s.threads[j];
        assert calls[i].count == calls[j].count;
      }
    }
  }

  lemma {:induction false} StaysMeasured(calls: seq<Call>, schedule: seq<nat>)
    requires SameCount(calls)
    ensures Measured(calls, Run(calls, schedule))
  {
    if schedule != [] {
      hide Step;
      StaysMeasured(calls, schedule[..|schedule| - 1]);
      StepMeasured(calls, Run(calls, schedule[..|schedule| - 1]), schedule[|schedule| - 1]);
    }
  }

  /** No schedule copies a payload past the end of a buffer exactly if all calls ask for the same
      count. */
  lemma NeverOverrunsIff(calls: seq<Call>)
    ensures (forall schedule :: Run(calls, schedule).overruns == {}) <==> SameCount(calls)
  {
    hide Run, Step;
    if SameCount(calls) {
      forall schedule ensures Run(calls, schedule).overruns == {} {
        StaysMeasured(calls, schedule);
      }
    } else {
      var i: nat, j: nat :| i < j < |calls| && calls[i].count != calls[j].count;
      var more, less := if calls[i].count > calls[j].count then i else j, if calls[i].count > calls[j].count then j else i;
      var schedule := Overrun(calls, more, less);
    }
  }

  /** A call measures its buffer by the count of another. */
  lemma Overrun(calls: seq<Call>, i: nat, j: nat) returns (schedule: seq<nat>)
    requires i < |calls| && j < |calls| && calls[i].count > calls[j].count
    ensures i in Run(calls, schedule).overruns
  {
    schedule := Then(calls, [], i);
    schedule := Then(calls, schedule, i);
    schedule := Then(calls, schedule, j);
    schedule := Then(calls, schedule, j);
    schedule := Then(calls, schedule, i);
    schedule := Then(calls, schedule, i);
    schedule := Then(calls, schedule, i);
    schedule := Then(calls, schedule, i);
  }

  /** No schedule reports an end block that is not the call's own exactly if all calls ask for the same
      count. */
  lemma EndsOwnIff(calls: seq<Call>)
    ensures (forall schedule :: EndsOwn(calls, Run(calls, schedule))) <==> SameCount(calls)
  {
    hide Run, Step;
    if SameCount(calls) {
      forall schedule ensures EndsOwn(calls, Run(calls, schedule)) {
        StaysMeasured(calls, schedule);
      }
    } else {
      var i: nat, j: nat :| i < j < |calls| && calls[i].count != calls[j].count;
      var schedule := WrongEnd(calls, i, j);
    }
  }

  lemma WrongEnd(calls: seq<Call>, i: nat, j: nat) returns (schedule: seq<nat>)
    requires i < |calls| && j < |calls| && calls[i].count != calls[j].count
    ensures !EndsOwn(calls, Run(calls, schedule))
  {
    schedule := ReadyToWrite(calls, i);
    schedule := Then(calls, schedule, j);
    schedule := Then(calls, schedule, j);
    schedule := Then(calls, schedule, i);
    schedule := Then(calls, schedule, i);
    schedule := Then(calls, schedule, i);
    assert Run(calls, schedule).ends[i] == calls[i].start + calls[j].count;
  }

  /** No schedule sends a command whose length and block count disagree exactly if all calls ask for
      the same count. */
  lemma LengthsAgreeIff(calls: seq<Call>)
    ensures (forall schedule :: LengthsAgree(Run(calls, schedule))) <==> SameCount(calls)
  {
    hide Run, Step;
    if SameCount(calls) {
      forall schedule ensures LengthsAgree(Run(calls, schedule)) {
        StaysMeasured(calls, schedule);
      }
    } else {
      var i: nat, j: nat :| i < j < |calls| && calls[i].count != calls[j].count;
      var schedule := Mismeasured(calls, i, j);
    }
  }

  lemma Mismeasured(calls: seq<Call>, i: nat, j: nat) returns (schedule: seq<nat>)
    requires i < |calls| && j < |calls| && calls[i].count != calls[j].count
    ensures !LengthsAgree(Run(calls, schedule))
  {
    schedule := ReadyToWrite(calls, i);
    schedule := Then(calls, schedule, j);
    schedule := Then(calls, schedule, j);
    schedule := Then(calls, schedule, i);
    var s := Run(calls, schedule);
    assert s.sent[0].nlb == calls[j].count && s.sent[0].blocks == calls[i].count + 1;
  }

  // ---------------------------------------------------------------------------- buffers

  /** The call has allocated its buffer and not yet deleted one. */
  predicate Inside(t: Thread) {
    t.place.Fill? || t.place.Write? || t.place.Free?
  }

  ghost predicate Crowded(s: State) {
    exists i, j :: 0 <= i < j < |s.threads| && Inside(s.threads[i]) && Inside(s.threads[j])
  }

  ghost predicate Quiet(s: State) {
    forall i :: 0 <= i < |s.threads| ==> !Inside(s.threads[i])
  }

  ghost predicate NeverCrowded(calls: seq<Call>, schedule: seq<nat>) {
    forall m :: 0 <= m <= |schedule| ==> !Crowded(Run(calls, schedule[..m]))
  }

  /** Whoever is between allocation and deletion finds its own buffer. */
  ghost predicate Own(calls: seq<Call>, s: State) {
    && |s.threads| == |calls|
    && OwnFreed(s)
    && forall i :: 0 <= i < |calls| && Inside(s.threads[i]) ==> s.args.data == i
  }

  /** A buffer has been or will be deleted by a call that did not allocate it. */
  ghost predicate Doomed(calls: seq<Call>, s: State) {
    && |s.threads| == |calls|
    && (!OwnFreed(s) || exists i :: 0 <= i < |calls| && Inside(s.threads[i]) && s.args.data != i)
  }

  lemma OnlyOne(s: State, i: nat, j: nat)
    requires !Crowded(s) && i < |s.threads| && j < |s.threads|
    ensures Inside(s.threads[i]) && Inside(s.threads[j]) ==> i == j
  {
  }

  /** What a step of call i leaves alone. */
  lemma StepFrame(calls: seq<Call>, s: State, i: nat)
    ensures var t := Step(calls, s, i);
      && |t.threads| == |s.threads|
      && (forall j :: 0 <= j < |s.threads| && j != i ==> t.threads[j] == s.threads[j])
      && (t.args.data == s.args.data || (t.args.data == i < |s.threads| && Inside(t.threads[i])))
      && s.freed <= t.freed
  {
  }

  /** A call that finds its own buffer uses and deletes its own. */
  lemma StepSelf(calls: seq<Call>, s: State, i: nat)
    requires i < |calls| == |s.threads| && (Inside(s.threads[i]) ==> s.args.data == i) && OwnFreed(s)
    ensures var t := Step(calls, s, i); OwnFreed(t) && (Inside(t.threads[i]) ==> t.args.data == i)
  {
  }

  lemma StepOwn(calls: seq<Call>, s: State, i: nat)
    requires Own(calls, s) && !Crowded(Step(calls, s, i))
    ensures Own(calls, Step(calls, s, i))
  {
    if i < |calls| {
      hide Step, Crowded;
      var t := Step(calls, s, i);
      StepFrame(calls, s, i);
      StepSelf(calls, s, i);
      forall j | 0 <= j < |calls| && Inside(t.threads[j]) ensures t.args.data == j {
        OnlyOne(t, i, j);
      }
    }
  }

  /** A call that is inside with another's buffer stays so, or deletes it. */
  lemma StepMisled(calls: seq<Call>, s: State, i: nat)
    requires i < |calls| == |s.threads| && Inside(s.threads[i]) && s.args.data != i
    ensures var t := Step(calls, s, i); !OwnFreed(t) || (Inside(t.threads[i]) && t.args.data != i)
  {
    if s.threads[i].place.Free? {
      var t := Step(calls, s, i);
      assert t.freed[|s.freed|] == Release(i, s.args.data);
    }
  }

  lemma StepDoomed(calls: seq<Call>, s: State, i: nat)
    requires Doomed(calls, s)
    ensures Doomed(calls, Step(calls, s, i))
  {
    hide Step;
    var t := Step(calls, s, i);
    StepFrame(calls, s, i);
    if !OwnFreed(s) {
      var k :| 0 <= k < |s.freed| && s.freed[k].buffer != s.freed[k].caller;
      assert t.freed[k] == s.freed[k];
    } else {
      var j :| 0 <= j < |calls| && Inside(s.threads[j]) && s.args.data != j;
      if j == i {
        StepMisled(calls, s, i);
      }
    }
  }

  lemma {:induction false} OwnOrDoomed(calls: seq<Call>, schedule: seq<nat>)
    ensures NeverCrowded(calls, schedule) ==> Own(calls, Run(calls, schedule))
    ensures !NeverCrowded(calls, schedule) ==> Doomed(calls, Run(calls, schedule))
  {
    ThreadCount(calls, schedule);
    if schedule == [] {
      assert schedule[..0] == [];
    } else {
      hide Step, Own, Doomed, Crowded;
      var init, i := schedule[..|schedule| - 1], schedule[|schedule| - 1];
      var s := Run(calls, init);
      OwnOrDoomed(calls, init);
      assert schedule[..|schedule|] == schedule;
      assert forall m :: 0 <= m <= |init| ==> init[..m] == schedule[..m];
      if !NeverCrowded(calls, init) {
        StepDoomed(calls, s, i);
        var m :| 0 <= m <= |init| && Crowded(Run(calls, init[..m]));
        assert Crowded(Run(calls, schedule[..m]));
      } else if Crowded(Run(calls, schedule)) {
        CrowdedDoomed(calls, Run(calls, schedule));
        assert Crowded(Run(calls, schedule[..|schedule|]));
      } else {
        StepOwn(calls, s, i);
      }
    }
  }

  /** Of two calls inside, at most one finds its own buffer. */
  lemma CrowdedDoomed(calls: seq<Call>, s: State)
    requires |s.threads| == |calls| && Crowded(s)
    ensures Doomed(calls, s)
  {
  }

  /** A schedule that leaves no call between its allocation and its deletion: every call has deleted
      the buffer it allocated exactly if no two calls were ever between them at the same time. */
  lemma OwnFreedIff(calls: seq<Call>, schedule: seq<nat>)
    requires Quiet(Run(calls, schedule))
    ensures OwnFreed(Run(calls, schedule)) <==> NeverCrowded(calls, schedule)
  {
    hide Run, NeverCrowded;
    OwnOrDoomed(calls, schedule);
  }
}
