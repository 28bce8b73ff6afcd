// The two blocking clients over a socket: one that ships the whole pipeline and reads
// greedily, one that waits for each answer and reads exactly.
module Clients {
  import opened Wire
  import opened Codec
  import CodecImpl
  import opened Sockets
  import opened ClientSessions
  import C = ClientModel
  import St = StagedModel

  datatype Outcome =
    | Connected(reply: Reply)            // sock, bound set: the tunnel is live
    | Refused(rep: byte)                 // the proxy's reply was an error
    | Broken(error: C.ClientError)       // Socks5Error from the handshake
    | Closed                             // the proxy closed during the handshake
    | Interrupted                        // time ran out, or a send or receive raised
    | BadArgument                        // a builder's ValueError
    | AlreadyConnected                   // RuntimeError

  // What `_finish` makes of a complete reply.
  function Finish(reply: Reply): Outcome {
    if reply.rep == 0 then Connected(reply) else Refused(reply.rep)
  }

  // How an outcome and the bytes left on the socket follow from a batch reading of
  // everything the proxy delivers.
  ghost predicate Follows(r: Outcome, reading: C.Reading, unread: bytes) {
    && (r.Connected? ==> reading == C.Reading(C.Done(r.reply), unread) && r.reply.rep == 0)
    && (r.Refused? ==> reading.verdict.Done? && reading.verdict.reply.rep == r.rep != 0)
    && (r.Broken? ==> reading.verdict == C.Failed(r.error))
    && (r.Closed? ==> reading.verdict == C.Waiting)
  }

  class OptimisticClient {
    const net: Inet
    const creds: Option<Creds>
    var sock: Option<Socket>
    var bound: Option<Address>
    var leftover: bytes

    constructor (net: Inet, creds: Option<Creds>)
      ensures sock == None && bound == None && leftover == []
      ensures this.net == net && this.creds == creds
    {
      this.net := net;
      this.creds := creds;
      sock := None;
      bound := None;
      leftover := [];
    }

    // `connect` over an open connection s to the proxy: one send of the whole
    // pipeline, then greedy reads until the session has a verdict. On success the
    // leftover and what is still on the socket are together the tunnel's bytes.
    method Connect(s: Socket, cmd: int, dst: Address, deadline: real) returns (r: Outcome)
      requires s.open
      modifies this`sock, this`bound, this`leftover, s
      ensures r.AlreadyConnected? <==> old(sock).Some?
      ensures r.AlreadyConnected? ==> s.open && s.written == old(s.written) && s.incoming == old(s.incoming)
      ensures r.BadArgument? <==> old(sock).None? && C.Pipeline(net, creds, cmd, dst).None?
      ensures !r.AlreadyConnected? && !r.BadArgument? ==>
                && s.written <= old(s.written) + C.Pipeline(net, creds, cmd, dst).value
                && (!r.Interrupted? ==> s.written == old(s.written) + C.Pipeline(net, creds, cmd, dst).value)
                && Follows(r, C.Spec(net, creds.Some?, old(s.incoming)), leftover + s.incoming)
      ensures !r.AlreadyConnected? ==> (s.open <==> r.Connected?)
      ensures r.Connected? ==> sock == Some(s) && bound == Some(r.reply.bound)
      ensures !r.Connected? ==> sock == old(sock) && bound == old(bound)
      ensures old(s.stops) <= s.stops && StoppedBy(s.stops, |old(s.stops)|, Some(deadline))
    {
      hide C.Pipeline, C.Spec, Lawful;
      if sock.Some? {
        return AlreadyConnected;
      }
      var sess := new Session(net, creds);
      var pipeline := sess.OptimisticPipeline(cmd, dst);
      if pipeline.None? {
        s.Close();
        return BadArgument;
      }
      var ok := s.SendAll(pipeline.value);
      if !ok {
        s.Close();
        return Interrupted;
      }
      var h := ReadVerdict(s, sess, deadline);
      match h {
        case Verdict(reply) =>
          leftover := sess.Leftover();
          r := Finish(reply);
          if r.Connected? {
            sock := Some(s);
            bound := Some(r.reply.bound);
          } else {
            s.Close();
          }
        case Error(e) =>
          s.Close();
          r := Broken(e);
        case PeerClosed =>
          s.Close();
          r := Closed;
        case SocketError =>
          s.Close();
          r := Interrupted;
      }
    }
  }

  class StagedClient {
    const net: Inet
    const creds: Option<Creds>
    var sock: Option<Socket>
    var bound: Option<Address>

    constructor (net: Inet, creds: Option<Creds>)
      ensures sock == None && bound == None
      ensures this.net == net && this.creds == creds
    {
      this.net := net;
      this.creds := creds;
      sock := None;
      bound := None;
    }

    // The messages of this attempt; one that cannot be built counts as nothing.
    ghost function Letters(cmd: int, dst: Address): St.Messages {
      St.Messages(St.Greeting(creds),
                  if creds.Some? && UserpassAuth(creds.value).Some? then UserpassAuth(creds.value).value else [],
                  if Message(net, cmd, dst).Some? then Message(net, cmd, dst).value else [])
    }

    // The answers ask for credentials that no message can carry.
    ghost predicate CredentialsStuck(answers: bytes) {
      creds.Some? && UserpassAuth(creds.value).None? && St.AuthAsked(true, answers)
    }

    // The answers come to a message that cannot be built.
    ghost predicate Stuck(cmd: int, dst: Address, answers: bytes) {
      CredentialsStuck(answers) || (Message(net, cmd, dst).None? && St.RequestDue(creds.Some?, answers))
    }

    // What the answers call for, up to the first message that cannot be built.
    ghost function Due(cmd: int, dst: Address, answers: bytes): bytes {
      if CredentialsStuck(answers) then St.Greeting(creds) else St.Sent(creds.Some?, Letters(cmd, dst), answers)
    }

    // The parts of what is due.
    lemma DueParts(cmd: int, dst: Address, answers: bytes)
      ensures var auth := if creds.Some? && UserpassAuth(creds.value).Some? && St.AuthAsked(true, answers)
                          then UserpassAuth(creds.value).value else [];
              var req := if St.RequestDue(creds.Some?, answers) && !CredentialsStuck(answers)
                            && Message(net, cmd, dst).Some?
                         then Message(net, cmd, dst).value else [];
              Due(cmd, dst, answers) == St.Greeting(creds) + auth + req
    {
      hide Lawful, Message, UserpassAuth, St.RequestDue;
      assert St.Greeting(creds) + [] + [] == St.Greeting(creds);
    }

    // `connect` over an open connection s to the proxy: each message is sent after the
    // answer to the one before, and every read is exact, so on success the bytes left
    // on the socket are the tunnel's and nothing else has been read.
    method Connect(s: Socket, cmd: int, dst: Address, deadline: real) returns (r: Outcome)
      requires s.open
      modifies this`sock, this`bound, s
      ensures r.AlreadyConnected? <==> old(sock).Some?
      ensures r.AlreadyConnected? ==> s.open && s.written == old(s.written) && s.incoming == old(s.incoming)
      ensures !r.AlreadyConnected? ==> Follows(r, St.Spec(net, creds.Some?, old(s.incoming)), s.incoming)
      ensures r.BadArgument? ==> Stuck(cmd, dst, old(s.incoming))
      ensures Stuck(cmd, dst, old(s.incoming)) ==> r.BadArgument? || r.Interrupted? || r.AlreadyConnected?
      ensures !r.AlreadyConnected? ==>
                && s.written <= old(s.written) + Due(cmd, dst, old(s.incoming))
                && (!r.Interrupted? ==> s.written == old(s.written) + Due(cmd, dst, old(s.incoming)))
      ensures !r.AlreadyConnected? ==> (s.open <==> r.Connected?)
      ensures r.Connected? ==> sock == Some(s) && bound == Some(r.reply.bound)
      ensures !r.Connected? ==> sock == old(sock) && bound == old(bound)
      ensures old(s.stops) <= s.stops && StoppedBy(s.stops, |old(s.stops)|, Some(deadline))
    {
      hide Lawful, Message, UserpassAuth, St.Spec, St.Sent;
      if sock.Some? {
        return AlreadyConnected;
      }
      r := Converse(s, cmd, dst, deadline);
      if r.Connected? {
        sock := Some(s);
        bound := Some(r.reply.bound);
      } else {
        s.Close();
      }
    }

    // The conversation itself: greeting, negotiation, request, reply.
    method Converse(s: Socket, cmd: int, dst: Address, deadline: real) returns (r: Outcome)
      modifies s`incoming, s`written, s`now, s`timeout, s`received, s`stops
      ensures !r.AlreadyConnected?
      ensures Follows(r, St.Spec(net, creds.Some?, old(s.incoming)), s.incoming)
      ensures r.BadArgument? ==> Stuck(cmd, dst, old(s.incoming))
      ensures Stuck(cmd, dst, old(s.incoming)) ==> r.BadArgument? || r.Interrupted?
      ensures s.written <= old(s.written) + Due(cmd, dst, old(s.incoming))
      ensures !r.Interrupted? ==> s.written == old(s.written) + Due(cmd, dst, old(s.incoming))
      ensures old(s.stops) <= s.stops && StoppedBy(s.stops, |old(s.stops)|, Some(deadline))
    {
      hide Lawful, Message, UserpassAuth, C.ReplySpec, St.Spec, St.AuthAsked, St.RequestDue, Due;
      DueParts(cmd, dst, s.incoming);
      var greeting := CodecImpl.WriteGreeting(St.Offered(creds));
      var ok := s.SendAll(greeting.value);
      if !ok {
        return Interrupted;
      }
      var go := Negotiate(s, deadline);
      if go != None {
        return go.value;
      }
      ghost var stops := s.stops;
      r := Ask(s, cmd, dst, deadline);
      assert forall i :: |old(s.stops)| <= i < |stops| ==> s.stops[i] == stops[i];
    }

    // The request and its reply.
    method Ask(s: Socket, cmd: int, dst: Address, deadline: real) returns (r: Outcome)
      modifies s`incoming, s`written, s`now, s`timeout, s`received, s`stops
      ensures !r.AlreadyConnected?
      ensures Follows(r, C.ReplySpec(net, old(s.incoming)), s.incoming)
      ensures r.BadArgument? <==> Message(net, cmd, dst).None?
      ensures Message(net, cmd, dst).None? ==> s.written == old(s.written)
      ensures Message(net, cmd, dst).Some? ==>
                && old(s.written) <= s.written <= old(s.written) + Message(net, cmd, dst).value
                && (!r.Interrupted? ==> s.written == old(s.written) + Message(net, cmd, dst).value)
      ensures old(s.stops) <= s.stops && StoppedBy(s.stops, |old(s.stops)|, Some(deadline))
    {
      hide Lawful, Message, C.ReplySpec;
      var req := CodecImpl.WriteMessage(net, cmd, dst);
      if req.None? {
        return BadArgument;
      }
      var ok := s.SendAll(req.value);
      if !ok {
        return Interrupted;
      }
      var reply := RecvReply(s, net, Some(deadline));
      match reply {
        case Got(rp) => r := Finish(rp);
        case Fault(e) => r := Broken(e);
        case Cut => r := Closed;
        case Stopped => r := Interrupted;
      }
    }

    // The method answer and, if asked for, the credentials and their answer. None: the
    // request is due, and the rest of the stream is the reply.
    method Negotiate(s: Socket, deadline: real) returns (r: Option<Outcome>)
      modifies s`incoming, s`written, s`now, s`timeout, s`received, s`stops
      ensures r == None ==>
                && St.RequestDue(creds.Some?, old(s.incoming))
                && St.Spec(net, creds.Some?, old(s.incoming)) == C.ReplySpec(net, s.incoming)
      ensures r.Some? ==>
                && (r.value.Broken? || r.value.Closed? || r.value.Interrupted? || r.value.BadArgument?)
                && (r.value.Broken? ==> St.Spec(net, creds.Some?, old(s.incoming)).verdict == C.Failed(r.value.error))
                && (r.value.Closed? ==> St.Spec(net, creds.Some?, old(s.incoming)).verdict == C.Waiting)
                && (r.value.Broken? || r.value.Closed? ==> !St.RequestDue(creds.Some?, old(s.incoming)))
                && (r.value.BadArgument? ==> CredentialsStuck(old(s.incoming)))
      ensures CredentialsStuck(old(s.incoming)) ==> r.Some? && (r.value.BadArgument? || r.value.Interrupted?)
      ensures creds.Some? ==> UserpassAuth(creds.value).Some? ==>
                var sent := old(s.written) + UserpassAuth(creds.value).value;
                if r.Some? && r.value.Interrupted? then
                  && old(s.written) <= s.written <= sent
                  && (s.written == old(s.written) || St.AuthAsked(true, old(s.incoming)))
                else s.written == if St.AuthAsked(true, old(s.incoming)) then sent else old(s.written)
      ensures creds.None? || UserpassAuth(creds.value).None? ==> s.written == old(s.written)
      ensures old(s.stops) <= s.stops && StoppedBy(s.stops, |old(s.stops)|, Some(deadline))
    {
      hide Lawful, Message, UserpassAuth, C.ReplySpec;
      ghost var stream := s.incoming;
      var answer := RecvExact(s, 2, Some(deadline));
      if !answer.Exactly? {
        return Some(if answer.Dropped? then Closed else Interrupted);
      }
      assert stream[0] == answer.data[0] && stream[1] == answer.data[1] && stream[2..] == s.incoming;
      var chosen := ParseMethodSelection(answer.data);
      if chosen.None? {
        return Some(Broken(C.MalformedMethod));
      }
      if chosen.value == USERPASS {
        if creds.None? {
          return Some(Broken(C.UnexpectedMethod(USERPASS)));
        }
        var auth := CodecImpl.WriteUserpass(creds.value);
        if auth.None? {
          return Some(BadArgument);
        }
        var sentAll := s.SendAll(auth.value);
        if !sentAll {
          return Some(Interrupted);
        }
        ghost var stops := s.stops;
        var status := RecvExact(s, 2, Some(deadline));
        assert forall i :: |old(s.stops)| <= i < |stops| ==> s.stops[i] == stops[i];
        if !status.Exactly? {
          return Some(if status.Dropped? then Closed else Interrupted);
        }
        assert stream[2] == status.data[0] && stream[3] == status.data[1] && stream[2..][2..] == s.incoming;
        var ok := ParseAuthReply(status.data);
        if ok != Some(0) {
          return Some(Broken(if ok.None? then C.MalformedAuth else C.AuthDenied(ok.value)));
        }
      } else if chosen.value != NO_AUTH {
        return Some(Broken(if chosen.value == NO_ACCEPTABLE then C.NoAcceptableMethods
                           else C.UnexpectedMethod(chosen.value)));
      }
      r := None;
    }
  }

  datatype Handshake = Verdict(reply: Reply) | Error(error: C.ClientError) | PeerClosed | SocketError

  // The read loop of the optimistic `connect`.
  method ReadVerdict(s: Socket, sess: Session, deadline: real) returns (r: Handshake)
    requires sess.Valid() && sess.chunks == []
    modifies s`incoming, s`now, s`timeout, s`received, s`stops, sess
    ensures sess.Valid()
    ensures var reading := C.Spec(sess.net, sess.creds.Some?, old(s.incoming));
            && (r.Verdict? ==> reading == C.Reading(C.Done(r.reply), sess.Leftover() + s.incoming))
            && (r.Error? ==> reading.verdict == C.Failed(r.error))
            && (r.PeerClosed? ==> reading.verdict == C.Waiting)
    ensures old(s.stops) <= s.stops && StoppedBy(s.stops, |old(s.stops)|, Some(deadline))
  {
    hide C.Spec, C.Fed, Lawful, Progress;
    ghost var stream := s.incoming;
    ghost var net, auth := sess.net, sess.creds.Some?;
    ProgressStart(net, auth, stream);
    var v := C.Waiting;
    while v == C.Waiting
      invariant sess.Valid()
      invariant Progress(net, auth, sess.chunks, s.incoming, stream, v)
      invariant !v.Failed?
      invariant old(s.stops) <= s.stops && StoppedBy(s.stops, |old(s.stops)|, Some(deadline))
      decreases if v == C.Waiting then 1 else 0, |s.incoming|
    {
      var armed := Arm(s, deadline);
      if !armed {
        return SocketError;
      }
      var got := s.Recv(4096);
      match got {
        case RecvError => return SocketError;
        case Eof =>
          ProgressMeans(net, auth, sess.chunks, s.incoming, stream, v);
          return PeerClosed;
        case Chunk(data) =>
          ProgressStep(net, auth, sess.chunks, data, s.incoming, stream);
          v := sess.Feed(data);
          if v.Failed? {
            ProgressMeans(net, auth, sess.chunks, s.incoming, stream, v);
            return Error(v.error);
          }
      }
    }
    ProgressMeans(net, auth, sess.chunks, s.incoming, stream, v);
    r := Verdict(v.reply);
  }

  // A stream of which `chunks` have been fed and `unread` is still on the socket.
  ghost predicate Progress(net: Inet, auth: bool, chunks: seq<bytes>, unread: bytes, stream: bytes, v: C.Verdict) {
    && Concat(chunks) + unread == stream
    && C.Fed(net, auth, chunks).verdict == v
    && C.Fed(net, auth, chunks).taken == Concat(chunks)
  }

  lemma ProgressStart(net: Inet, auth: bool, stream: bytes)
    ensures Progress(net, auth, [], stream, stream, C.Waiting)
  {
    assert [] + stream == stream;
  }

  lemma ProgressStep(net: Inet, auth: bool, chunks: seq<bytes>, data: bytes, unread: bytes, stream: bytes)
    requires Progress(net, auth, chunks, data + unread, stream, C.Waiting)
    ensures Progress(net, auth, chunks + [data], unread, stream, C.Fed(net, auth, chunks + [data]).verdict)
  {
    hide C.Fed, C.Feed;
    C.FedSnoc(net, auth, chunks, data);
    C.CompleteWhenDone(net, auth, chunks);
    ConcatSnoc(chunks, data);
    assert Concat(chunks) + data + unread == Concat(chunks) + (data + unread);
  }

  lemma ProgressMeans(net: Inet, auth: bool, chunks: seq<bytes>, unread: bytes, stream: bytes, v: C.Verdict)
    requires Progress(net, auth, chunks, unread, stream, v)
    ensures v != C.Waiting ==>
              C.Spec(net, auth, stream) == C.Reading(v, C.Fed(net, auth, chunks).c.buf + unread)
    ensures v == C.Waiting && unread == [] ==> C.Spec(net, auth, stream).verdict == C.Waiting
    ensures v.Done? <==> C.Fed(net, auth, chunks).c.phase.Complete?
  {
    hide C.Fed, C.Spec;
    C.ChunkingIndependence(net, auth, chunks);
    C.CompleteWhenDone(net, auth, chunks);
    if v != C.Waiting {
      C.SpecStable(net, auth, Concat(chunks), unread);
    } else if unread == [] {
      assert Concat(chunks) + unread == Concat(chunks);
    }
  }
}
