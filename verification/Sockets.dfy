// A connected socket with a clock, and the exact reads of the staged client. The
// peer's bytes arrive in pieces of any size, and a receive waits no longer than the
// timeout it was armed with; both are chosen freely, so what is proved holds of
// every peer and every schedule.
module Sockets {
  import opened Wire
  import opened Codec
  import opened CodecLaws
  import CodecImpl
  import C = ClientModel

  // RecvError: an exception, on timeout or on any other error of the socket.
  datatype Received = Chunk(data: bytes) | Eof | RecvError

  class Socket {
    // What the peer will still deliver before it closes, and all that was written.
    var incoming: bytes
    var written: bytes
    var open: bool

    var now: real
    var timeout: real

    // How many receives returned bytes, and when each receive stopped waiting.
    ghost var received: nat
    ghost var stops: seq<real>

    constructor (incoming: bytes, now: real)
      ensures this.incoming == incoming && written == [] && open && this.now == now
      ensures received == 0 && stops == []
    {
      this.incoming := incoming;
      written := [];
      open := true;
      this.now := now;
      timeout := 0.0;
      received := 0;
      stops := [];
    }

    // All of the data goes out, or the call raises when some part of it has gone.
    method SendAll(data: bytes) returns (ok: bool)
      modifies this`written
      ensures old(written) <= written <= old(written) + data
      ensures ok ==> written == old(written) + data
    {
      var k: nat :| k <= |data|;
      ok := k == |data|;
      assert data == data[..k] + data[k..];
      written := written + data[..k];
    }

    method Close()
      modifies this`open
      ensures !open
    {
      open := false;
    }

    // Any amount of time passes outside receives.
    method Elapse()
      modifies this`now
      ensures now >= old(now)
    {
      var d: real :| d >= 0.0;
      now := now + d;
    }

    method Recv(max: nat) returns (r: Received)
      requires max > 0 && timeout >= 0.0
      modifies this`incoming, this`now, this`received, this`stops
      ensures old(now) <= now <= old(now) + timeout
      ensures stops == old(stops) + [now]
      ensures r.Chunk? ==>
                && 0 < |r.data| <= max
                && old(incoming) == r.data + incoming
                && received == old(received) + 1
      ensures !r.Chunk? ==> incoming == old(incoming) && received == old(received)
      ensures r.Eof? ==> incoming == []
    {
      var wait: real :| 0.0 <= wait <= timeout;
      now := now + wait;
      stops := stops + [now];
      if * {
        return RecvError;
      }
      if incoming == [] {
        return Eof;
      }
      var k: nat :| 0 < k <= max && k <= |incoming|;
      assert incoming == incoming[..k] + incoming[k..];
      r := Chunk(incoming[..k]);
      incoming := incoming[k..];
      received := received + 1;
    }
  }

  // No receive recorded after the first `from` was still waiting past the deadline, if
  // there is one.
  predicate StoppedBy(stops: seq<real>, from: nat, deadline: Option<real>) {
    deadline.Some? ==> forall i :: from <= i < |stops| ==> stops[i] <= deadline.value
  }

  // `_arm`: give the next receive what is left of the budget, if anything is.
  method Arm(sock: Socket, deadline: real) returns (armed: bool)
    modifies sock`now, sock`timeout
    ensures armed ==> 0.0 < sock.timeout == deadline - sock.now
    ensures sock.now >= old(sock.now)
    ensures !armed ==> sock.now >= deadline
  {
    sock.Elapse();
    var remaining := deadline - sock.now;
    if remaining <= 0.0 {
      return false;
    }
    sock.timeout := remaining;
    armed := true;
  }

  datatype Exact = Exactly(data: bytes) | Dropped | Disturbed

  // `_recv_exact`: exactly the next n bytes, in at most n successful receives, none
  // of them waiting past the deadline however the bytes dribble in; it fails as
  // dropped only if the peer delivers fewer than n bytes. Without a deadline each
  // receive has the timeout the socket came with.
  method RecvExact(sock: Socket, n: nat, deadline: Option<real>) returns (r: Exact)
    requires deadline == None ==> sock.timeout >= 0.0
    modifies sock`incoming, sock`now, sock`timeout, sock`received, sock`stops
    ensures r.Exactly? ==> |r.data| == n && old(sock.incoming) == r.data + sock.incoming
    ensures r.Dropped? ==> |old(sock.incoming)| < n
    ensures !r.Exactly? ==> |old(sock.incoming)| - n < |sock.incoming| <= |old(sock.incoming)|
    ensures sock.received <= old(sock.received) + n
    ensures deadline == None ==> sock.timeout == old(sock.timeout)
    ensures old(sock.stops) <= sock.stops && StoppedBy(sock.stops, |old(sock.stops)|, deadline)
  {
    var buf: bytes := [];
    while |buf| < n
      invariant |buf| <= n && old(sock.incoming) == buf + sock.incoming
      invariant sock.received <= old(sock.received) + |buf|
      invariant deadline == None ==> sock.timeout == old(sock.timeout)
      invariant old(sock.stops) <= sock.stops && StoppedBy(sock.stops, |old(sock.stops)|, deadline)
    {
      if deadline.Some? {
        var armed := Arm(sock, deadline.value);
        if !armed {
          return Disturbed;
        }
      }
      ghost var before := sock.incoming;
      var got := sock.Recv(n - |buf|);
      match got {
        case RecvError => return Disturbed;
        case Eof => return Dropped;
        case Chunk(data) =>
          assert buf + before == buf + data + sock.incoming;
          buf := buf + data;
      }
    }
    r := Exactly(buf);
  }

  datatype ReplyRead = Got(reply: Reply) | Fault(error: C.ClientError) | Cut | Stopped

  // The bytes `head` and `body`, read one after the other, open the stream.
  lemma TwoReads(stream: bytes, head: bytes, body: bytes, rest: bytes)
    requires stream == head + (body + rest)
    ensures stream == head + body + rest
    ensures stream[..|head + body|] == head + body && stream[|head + body|..] == rest
  {
    assert stream == (head + body) + rest;
  }

  // `_recv_reply` against the greedy parser: it returns the reply the parser returns,
  // fails as the parser fails, and leaves on the socket exactly the bytes the parser
  // would have handed over as leftover.
  method RecvReply(sock: Socket, net: Inet, deadline: Option<real>) returns (r: ReplyRead)
    requires deadline == None ==> sock.timeout >= 0.0
    modifies sock`incoming, sock`now, sock`timeout, sock`received, sock`stops
    ensures r.Got? ==> C.ReplySpec(net, old(sock.incoming)) == C.Reading(C.Done(r.reply), sock.incoming)
    ensures r.Fault? ==> C.ReplySpec(net, old(sock.incoming)).verdict == C.Failed(r.error)
    ensures r.Cut? ==> C.ReplySpec(net, old(sock.incoming)).verdict == C.Waiting
    ensures sock.received <= old(sock.received) + 262
    ensures deadline == None ==> sock.timeout == old(sock.timeout)
    ensures old(sock.stops) <= sock.stops && StoppedBy(sock.stops, |old(sock.stops)|, deadline)
  {
    hide Lawful, ParseMessage;
    ghost var stream := sock.incoming;
    var head := RecvExact(sock, 4, deadline);
    if !head.Exactly? {
      r := if head.Dropped? then Cut else Stopped;
      return;
    }
    var atyp := head.data[3];
    assert stream[3] == atyp;
    var body: Exact;
    if atyp == IPV4 {
      body := RecvExact(sock, 4 + 2, deadline);
    } else if atyp == IPV6 {
      body := RecvExact(sock, 16 + 2, deadline);
    } else if atyp == DOMAIN {
      body := RecvDomain(sock, deadline);
    } else {
      return Fault(C.UnknownAtyp(atyp));
    }
    assert |stream| >= 5 ==> stream[4] == stream[4..][0];
    if !body.Exactly? {
      r := if body.Dropped? then Cut else Stopped;
      return;
    }
    TwoReads(stream, head.data, body.data, sock.incoming);
    var whole := head.data + body.data;
    WholeReply(net, stream, |whole|);
    var parsed := CodecImpl.ReadMessage(net, whole);
    if parsed.None? {
      return Fault(C.MalformedReply);
    }
    r := Got(Reply(parsed.value.0, parsed.value.1));
  }

  // The length byte, then that many bytes and the port.
  method RecvDomain(sock: Socket, deadline: Option<real>) returns (r: Exact)
    requires deadline == None ==> sock.timeout >= 0.0
    modifies sock`incoming, sock`now, sock`timeout, sock`received, sock`stops
    ensures r.Exactly? ==>
              && r.data != [] && |r.data| == 3 + r.data[0] as int
              && old(sock.incoming) == r.data + sock.incoming
    ensures r.Dropped? ==> old(sock.incoming) == [] || |old(sock.incoming)| < 3 + old(sock.incoming)[0] as int
    ensures sock.received <= old(sock.received) + 258
    ensures deadline == None ==> sock.timeout == old(sock.timeout)
    ensures old(sock.stops) <= sock.stops && StoppedBy(sock.stops, |old(sock.stops)|, deadline)
  {
    var length := RecvExact(sock, 1, deadline);
    if !length.Exactly? {
      return length;
    }
    ghost var stops := sock.stops;
    var rest := RecvExact(sock, length.data[0] as nat + 2, deadline);
    assert forall i :: |old(sock.stops)| <= i < |stops| ==> sock.stops[i] == stops[i];
    if !rest.Exactly? {
      return rest;
    }
    assert length.data + rest.data + sock.incoming == length.data + (rest.data + sock.incoming);
    r := Exactly(length.data + rest.data);
  }

  lemma WholeReply(net: Inet, stream: bytes, n: nat)
    requires MessageSize(stream) == Some(n) && n <= |stream|
    ensures C.ReplySpec(net, stream)
            == match ParseMessage(net, stream[..n])
               case None => C.Reading(C.Failed(C.MalformedReply), stream)
               case Some((rep, bound)) => C.Reading(C.Done(Reply(rep, bound)), stream[n..])
  {
    hide Lawful, ParseMessage;
    ParseMessageExtent(net, stream);
  }
}
