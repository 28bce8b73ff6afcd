// The client session as the source writes it: a buffer appended to and cut in place
// by a parse loop. It is proved to move as ClientModel says, so the verdict of every
// feed is the batch verdict on all bytes fed so far.
module ClientSessions {
  import opened Wire
  import opened Codec
  import CodecImpl
  import opened ClientModel

  class Session {
    const net: Inet
    const creds: Option<Creds>
    var buf: bytes
    var state: Phase

    // Every chunk fed so far.
    ghost var chunks: seq<bytes>

    function State(): Cli
      reads this
    {
      Cli(creds.Some?, buf, state)
    }

    ghost predicate Valid()
      reads this
    {
      State() == Fed(net, creds.Some?, chunks).c
    }

    constructor (net: Inet, creds: Option<Creds>)
      ensures Valid() && chunks == []
      ensures this.net == net && this.creds == creds
    {
      this.net := net;
      this.creds := creds;
      buf := [];
      state := AwaitMethod;
      chunks := [];
    }

    // `optimistic_pipeline`
    method OptimisticPipeline(cmd: int, dst: Address) returns (r: Option<bytes>)
      ensures r == Pipeline(net, creds, cmd, dst)
    {
      hide Lawful, Message;
      var out := new CodecImpl.ByteVector();
      var greeting := CodecImpl.WriteGreeting([Method(creds)]);
      out.Append(greeting.value);
      assert out.data == [VER, 1, Method(creds)];
      if creds.Some? {
        var auth := CodecImpl.WriteUserpass(creds.value);
        if auth.None? {
          return None;
        }
        out.Append(auth.value);
      }
      var req := CodecImpl.WriteMessage(net, cmd, dst);
      if req.None? {
        return None;
      }
      out.Append(req.value);
      r := Some(out.data);
    }

    // `feed`: Failed stands for the Socks5Error raised, Done for the Reply returned.
    method Feed(data: bytes) returns (v: Verdict)
      requires Valid()
      modifies this`buf, this`state, this`chunks
      ensures Valid() && chunks == old(chunks) + [data]
      ensures v == Fed(net, creds.Some?, chunks).verdict
      ensures v == Spec(net, creds.Some?, Concat(chunks)).verdict
      ensures v.Done? <==> state.Complete?
    {
      hide Lawful, MessageSize, ParseMessage, Fed, Spec;
      FedSnoc(net, creds.Some?, chunks, data);
      chunks := chunks + [data];
      ChunkingIndependence(net, creds.Some?, chunks);
      FedInvariant(net, creds.Some?, chunks, []);
      if !state.Complete? {
        buf := buf + data;
      }
      ghost var start := State();
      while true
        invariant Pump(net, State()) == Pump(net, start)
        decreases match state case AwaitMethod => 3 case AwaitAuth => 2 case AwaitReply => 1 case Complete(_) => 0
        modifies this`buf, this`state
      {
        match state {
          case AwaitMethod =>
            if |buf| < 2 {
              return Waiting;
            }
            var m := ParseMethodSelection(buf[..2]);
            if m.None? {
              return Failed(MalformedMethod);
            }
            if m.value != Method(creds) {
              return Failed(if m.value == NO_ACCEPTABLE then NoAcceptableMethods else UnexpectedMethod(m.value));
            }
            buf := buf[2..];
            state := if creds.Some? then AwaitAuth else AwaitReply;
          case AwaitAuth =>
            if |buf| < 2 {
              return Waiting;
            }
            var status := ParseAuthReply(buf[..2]);
            if status.None? {
              return Failed(MalformedAuth);
            }
            if status.value != 0 {
              return Failed(AuthDenied(status.value));
            }
            buf := buf[2..];
            state := AwaitReply;
          case AwaitReply =>
            v := TakeReply();
            return v;
          case Complete(reply) =>
            return Done(reply);
        }
      }
    }

    method TakeReply() returns (v: Verdict)
      requires state == AwaitReply
      modifies this`buf, this`state
      ensures (State(), v) == Pump(net, old(State()))
    {
      hide Lawful, MessageSize, ParseMessage;
      if |buf| >= 4 && !KnownAtyp(buf[3]) {
        return Failed(UnknownAtyp(buf[3]));
      }
      var n := MessageSize(buf);
      if n.None? || |buf| < n.value {
        return Waiting;
      }
      var parsed := CodecImpl.ReadMessage(net, buf[..n.value]);
      if parsed.None? {
        return Failed(MalformedReply);
      }
      buf := buf[n.value..];
      var reply := Reply(parsed.value.0, parsed.value.1);
      state := Complete(reply);
      v := Done(reply);
    }

    // `leftover`
    function Leftover(): bytes
      reads this
    {
      if state.Complete? then buf else []
    }

    // At completion the bytes accepted are those the answers took and the leftover.
    lemma LeftoverIsSurplus()
      requires Valid() && state.Complete?
      ensures var taken := Fed(net, creds.Some?, chunks).taken;
              && taken <= Concat(chunks)
              && Spec(net, creds.Some?, taken) == Reading(Done(state.reply), Leftover())
    {
      hide Fed, Spec;
      ChunkingIndependence(net, creds.Some?, chunks);
      FedInvariant(net, creds.Some?, chunks, []);
    }
  }
}
