/**
 The exact-transfer loops of TCPConnection in src/net.h over a socket that moves any part of what
 it is asked to move.
 */
module Tcp {
  import opened Arithmetic
  import opened Sequences

  /** One direction of a connected socket. `outgoing` is what has been handed to the network,
      `incoming` what the peer will ever deliver before it closes. `stalls` bounds the fruitless
      calls (interrupts and zero-length sends) still to come; it is arbitrary but finite. */
  class Socket {
    var outgoing: seq<byte>
    var incoming: seq<byte>
    var stalls: nat
    ghost var failures: nat   // calls that failed for another reason than an interrupt
    ghost var complete: nat   // calls that moved all the bytes they were asked to move

    constructor (stalls: nat)
      ensures outgoing == incoming == [] && this.stalls == stalls && failures == complete == 0
    {
      outgoing, incoming, this.stalls, failures, complete := [], [], stalls, 0, 0;
    }

    /** The network brings bytes that the peer has sent. */
    method Arrive(data: seq<byte>)
      modifies this`incoming
      ensures incoming == old(incoming) + data
    {
      incoming := incoming + data;
    }

    /** ::send: takes a prefix, possibly empty, of the bytes offered, or fails. */
    method Send(data: seq<byte>) returns (n: int, interrupted: bool)
      requires data != []
      modifies this`outgoing, this`stalls, this`failures, this`complete
      ensures complete == old(complete) + if n == |data| then 1 else 0
      ensures failures == old(failures) + if n < 0 && !interrupted then 1 else 0
      ensures n <= |data|
      ensures n > 0 ==> outgoing == old(outgoing) + data[..n] && stalls == old(stalls)
      ensures n <= 0 ==> outgoing == old(outgoing)
      ensures n == 0 || (n < 0 && interrupted) ==> stalls < old(stalls)
    {
      var fruitless: bool, fails: bool := *, *;
      if fails {
        failures := failures + 1;
        return -1, false;
      }
      if fruitless && stalls > 0 {
        stalls := stalls - 1;
        var zero: bool := *;
        return if zero then 0 else -1, true;
      }
      n :| 0 < n <= |data|;
      interrupted := false;
      complete := complete + if n == |data| then 1 else 0;
      outgoing := outgoing + data[..n];
    }

    /** ::recv: delivers at least one and at most `max` of the next bytes, or none when the peer has
        closed, or fails. */
    method Recv(max: nat) returns (n: int, data: seq<byte>, interrupted: bool)
      requires max > 0
      modifies this`incoming, this`stalls, this`failures, this`complete
      ensures complete == old(complete) + if n == max then 1 else 0
      ensures failures == old(failures) + if n < 0 && !interrupted then 1 else 0
      ensures n <= max
      ensures n >= 0 ==> |data| == n && old(incoming) == data + incoming && stalls == old(stalls)
      ensures n == 0 ==> incoming == []
      ensures n < 0 ==> incoming == old(incoming) && (interrupted ==> stalls < old(stalls))
    {
      var fruitless: bool, fails: bool := *, *;
      if fails {
        failures := failures + 1;
        return -1, [], false;
      }
      if fruitless && stalls > 0 {
        stalls := stalls - 1;
        return -1, [], true;
      }
      if incoming == [] {
        return 0, [], false;
      }
      n :| 0 < n <= max && n <= |incoming|;
      complete := complete + if n == max then 1 else 0;
      data, incoming, interrupted := incoming[..n], incoming[n..], false;
    }
  }

  class TCPConnection {
    const sock: Socket

    constructor (sock: Socket)
      ensures this.sock == sock
    {
      this.sock := sock;
    }

    /** TCPConnection::send. A length that is not positive sends nothing and is returned. */
    method Send(data: seq<byte>, len: int) returns (r: int)
      requires len <= |data|
      modifies sock`outgoing, sock`stalls, sock`failures, sock`complete
      // it fails exactly when a call has, interrupts not counted
      ensures r == if sock.failures == old(sock.failures) then len else -1
      ensures old(sock.failures) <= sock.failures <= old(sock.failures) + 1
      // each call offers all that is left, so exactly the last one is taken whole
      ensures sock.complete == old(sock.complete) + if r == len > 0 then 1 else 0
      ensures len <= 0 ==> r == len && sock.outgoing == old(sock.outgoing)
      ensures r == len > 0 ==> sock.outgoing == old(sock.outgoing) + data[..len]
      // a failed send leaves a proper prefix of the message behind
      ensures r == -1 && len >= 0 ==>
        exists k :: 0 <= k < len && sock.outgoing == old(sock.outgoing) + data[..k]
    {
      var left := len;
      var sent := 0;
      while left > 0
        invariant 0 <= sent && (len > 0 ==> left >= 0 && sent + left == len)
        invariant len <= 0 ==> left == len && sent == 0
        invariant len <= 0 ==> sock.outgoing == old(sock.outgoing)
        invariant len > 0 ==> sock.outgoing == old(sock.outgoing) + data[..sent]
        invariant sock.failures == old(sock.failures)
        invariant sock.complete == old(sock.complete) + if len > 0 == left then 1 else 0
        decreases left, sock.stalls
      {
        var n, interrupted := sock.Send(data[sent..len]);
        if n < 0 {
          if interrupted {
            continue;
          }
          return -1;
        } else if n == 0 {
          continue;
        }
        assert data[..sent] + data[sent..len][..n] == data[..sent + n];
        left := left - n;
        sent := sent + n;
      }
      return len;
    }

    /** TCPConnection::recv, into the first `len` places of a buffer. */
    method Recv(buffer: array<byte>, len: int) returns (r: int)
      requires len <= buffer.Length
      modifies buffer, sock`incoming, sock`stalls, sock`failures, sock`complete
      ensures len <= 0 ==> r == len && sock.incoming == old(sock.incoming)
      // it fails exactly when a call has, interrupts not counted; otherwise it receives all there is,
      // up to the length asked for
      ensures old(sock.failures) <= sock.failures <= old(sock.failures) + 1
      ensures r == if sock.failures != old(sock.failures) then -1
                   else if len <= |old(sock.incoming)| then len else |old(sock.incoming)|
      // each call asks for all that is left
      ensures sock.complete == old(sock.complete) + if r == len > 0 then 1 else 0
      // complete: the next len bytes, and nothing more is taken
      ensures r == len > 0 ==> old(sock.incoming) == buffer[..len] + sock.incoming
      // short: everything the peer sent before closing
      ensures 0 <= r < len ==> old(sock.incoming) == buffer[..r] && sock.incoming == []
      // failed: the bytes taken so far are at the front of the buffer
      ensures r == -1 && len >= 0 ==>
        exists k :: 0 <= k < len && old(sock.incoming) == buffer[..k] + sock.incoming
      // the places behind the received bytes are untouched
      ensures r >= 0 ==> buffer[r..] == old(buffer[r..])
    {
      var left := len;
      var got := 0;
      while left > 0
        invariant 0 <= got && (len > 0 ==> left >= 0 && got + left == len)
        invariant len <= 0 ==> left == len && got == 0
        invariant got <= buffer.Length && sock.failures == old(sock.failures)
        invariant sock.complete == old(sock.complete) + if len > 0 == left then 1 else 0
        invariant old(sock.incoming) == buffer[..got] + sock.incoming
        invariant buffer[got..] == old(buffer[..])[got..]
        decreases left, sock.stalls
      {
        var n, data, interrupted := sock.Recv(left);
        if n < 0 {
          if interrupted {
            continue;
          }
          assert got < len && old(sock.incoming) == buffer[..got] + sock.incoming;
          return -1;
        }
        if n == 0 {
          return len - left;
        }
        Store(buffer, got, data);
        left := left - n;
        got := got + n;
      }
      return len;
    }

    /** Sends the messages one after the other, each with its full length. */
    method SendAll(messages: seq<seq<byte>>) returns (ok: bool)
      modifies sock`outgoing, sock`stalls, sock`failures, sock`complete
      ensures ok <==> sock.failures == old(sock.failures)
      ensures old(sock.failures) <= sock.failures
      ensures ok ==> sock.outgoing == old(sock.outgoing) + Concat(messages)
    {
      for i := 0 to |messages|
        invariant sock.failures == old(sock.failures)
        invariant sock.outgoing == old(sock.outgoing) + Concat(messages[..i])
      {
        var r := Send(messages[i], |messages[i]|);
        if r < 0 {
          return false;
        }
        ConcatSnoc(messages[..i], messages[i]);
        assert messages[..i + 1] == messages[..i] + [messages[i]];
        assert messages[i][..|messages[i]|] == messages[i];
      }
      assert messages[..|messages|] == messages;
      ok := true;
    }

    /** Receives one message of each of the given lengths. It succeeds exactly if no call fails and the
        peer sends that many bytes before it closes. */
    method RecvAll(lengths: seq<nat>) returns (ok: bool, messages: seq<seq<byte>>)
      modifies sock`incoming, sock`stalls, sock`failures, sock`complete
      ensures ok <==> sock.failures == old(sock.failures) && Sum(lengths) <= |old(sock.incoming)|
      ensures old(sock.failures) <= sock.failures
      ensures ok ==> Lengths(messages) == lengths
      ensures ok ==> old(sock.incoming) == Concat(messages) + sock.incoming
    {
      messages := [];
      for i := 0 to |lengths|
        invariant Lengths(messages) == lengths[..i]
        invariant old(sock.incoming) == Concat(messages) + sock.incoming
        invariant sock.failures == old(sock.failures)
        invariant Sum(lengths[..i]) + |sock.incoming| == |old(sock.incoming)|
      {
        SumSplit(lengths, i);
        var buffer := new byte[lengths[i]](_ => 0);
        ghost var before := sock.incoming;
        var r := Recv(buffer, lengths[i]);
        if r != lengths[i] {
          return false, messages;
        }
        assert before == buffer[..] + sock.incoming;
        ConcatSnoc(messages, buffer[..]);
        LengthsSnoc(messages, buffer[..]);
        assert lengths[..i + 1] == lengths[..i] + [lengths[i]];
        messages := messages + [buffer[..]];
      }
      assert lengths[..|lengths|] == lengths;
      ok := true;
    }
  }

  function Sum(lengths: seq<nat>): nat {
    if lengths == [] then 0 else lengths[0] + Sum(lengths[1..])
  }

  lemma {:induction false} SumConcat(a: seq<nat>, b: seq<nat>)
    ensures Sum(a + b) == Sum(a) + Sum(b)
  {
    if a == [] {
      assert a + b == b;
    } else {
      SumConcat(a[1..], b);
      assert (a + b)[1..] == a[1..] + b;
    }
  }

  /** The first i lengths, the next one, and the rest. */
  lemma SumSplit(lengths: seq<nat>, i: nat)
    requires i < |lengths|
    ensures Sum(lengths[..i + 1]) == Sum(lengths[..i]) + lengths[i]
    ensures Sum(lengths[..i + 1]) <= Sum(lengths)
  {
    SumConcat(lengths[..i], [lengths[i]]);
    assert lengths[..i + 1] == lengths[..i] + [lengths[i]];
    SumConcat(lengths[..i + 1], lengths[i + 1..]);
    assert lengths == lengths[..i + 1] + lengths[i + 1..];
  }

  lemma {:induction false} SumOfLengths(messages: seq<seq<byte>>)
    ensures Sum(Lengths(messages)) == |Concat(messages)|
  {
    if messages != [] {
      SumOfLengths(messages[1..]);
      assert Lengths(messages)[1..] == Lengths(messages[1..]);
    }
  }

  /** Copies data into the buffer from position `at` on. */
  method Store(buffer: array<byte>, at: nat, data: seq<byte>)
    requires at + |data| <= buffer.Length
    modifies buffer
    ensures buffer[..at + |data|] == old(buffer[..at]) + data
    ensures buffer[at + |data|..] == old(buffer[..])[at + |data|..]
  {
    for i := 0 to |data|
      invariant buffer[..at + i] == old(buffer[..at]) + data[..i]
      invariant buffer[at + i..] == old(buffer[..])[at + i..]
    {
      assert data[..i + 1] == data[..i] + [data[i]];
      buffer[at + i] := data[i];
    }
  }

  function Lengths(messages: seq<seq<byte>>): (lengths: seq<nat>)
    ensures |lengths| == |messages|
  {
    if messages == [] then [] else [|messages[0]|] + Lengths(messages[1..])
  }

  lemma {:induction false} LengthsSnoc(messages: seq<seq<byte>>, m: seq<byte>)
    ensures Lengths(messages + [m]) == Lengths(messages) + [|m|]
  {
    if messages != [] {
      LengthsSnoc(messages[1..], m);
      assert (messages + [m])[1..] == messages[1..] + [m];
    }
  }

  /** A byte stream splits into messages of given lengths in one way only. */
  lemma {:induction false} FramingUnique(a: seq<seq<byte>>, b: seq<seq<byte>>, x: seq<byte>, y: seq<byte>)
    requires Lengths(a) == Lengths(b)
    requires Concat(a) + x == Concat(b) + y
    ensures a == b && x == y
  {
    if a == [] {
      assert b == [] && [] + x == x && [] + y == y;
    } else {
      assert |a[0]| == |b[0]| by { assert Lengths(a)[0] == Lengths(b)[0]; }
      assert Concat(a) + x == a[0] + (Concat(a[1..]) + x);
      assert Concat(b) + y == b[0] + (Concat(b[1..]) + y);
      assert a[0] == (Concat(a) + x)[..|a[0]|] == b[0];
      assert Concat(a[1..]) + x == (Concat(a) + x)[|a[0]|..] == Concat(b[1..]) + y;
      assert Lengths(a[1..]) == Lengths(a)[1..] == Lengths(b)[1..];
      FramingUnique(a[1..], b[1..], x, y);
      assert a == [a[0]] + a[1..] && b == [b[0]] + b[1..];
    }
  }

  /** Messages sent over a connection and received with the same lengths arrive unchanged, whatever
      the chunking and the interrupts on either side and whatever is sent afterwards; and they do
      arrive unless a call fails. */
  method Exchange(sender: TCPConnection, receiver: TCPConnection, messages: seq<seq<byte>>, later: seq<byte>)
    returns (ok: bool, received: seq<seq<byte>>)
    requires sender.sock != receiver.sock
    requires sender.sock.outgoing == [] && receiver.sock.incoming == []
    modifies sender.sock, receiver.sock
    ensures ok
       <==> && sender.sock.failures == old(sender.sock.failures)
            && receiver.sock.failures == old(receiver.sock.failures)
    ensures ok ==> received == messages
  {
    ok := sender.SendAll(messages);
    received := [];
    if ok {
      receiver.sock.Arrive(sender.sock.outgoing + later);
      SumOfLengths(messages);
      ok, received := receiver.RecvAll(Lengths(messages));
      if ok {
        FramingUnique(received, messages, receiver.sock.incoming, later);
      }
    }
  }
}
