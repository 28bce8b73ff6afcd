// The server session as the source writes it: an object whose methods cut its
// buffer, extend and pop its event queue and assign its flags. Every method is
// proved to move the object's abstract state as ServerModel says, so what is proved
// of runs there holds of every object of this class, whatever calls it has seen.
module ServerSessions {
  import opened Wire
  import opened Codec
  import CodecImpl
  import opened ServerModel
  import opened CodecLaws

  class ServerSession {
    const net: Inet
    const requireAuth: bool
    var buf: bytes
    var state: Phase
    var out: seq<Event>
    var cmd: int
    var target: Option<Address>
    var intercepted: bool
    var rejected: bool
    var rep: int
    var connectedBnd: Option<Address>
    var connectFailed: bool
    var relayRaw: bool

    // Every call made on this object so far.
    ghost var calls: seq<Call>

    function State(): Srv
      reads this
    {
      Srv(requireAuth, buf, state, out, cmd,
          Flags(target, rejected, rep, connectedBnd, connectFailed, relayRaw, intercepted))
    }

    ghost predicate Valid()
      reads this
    {
      State() == Run(net, requireAuth, calls).0
    }

    constructor (net: Inet, requireAuth: bool)
      ensures Valid() && calls == []
      ensures this.net == net && this.requireAuth == requireAuth
      ensures State() == Init(requireAuth)
    {
      this.net := net;
      this.requireAuth := requireAuth;
      buf := [];
      state := Greeting;
      out := [];
      cmd := 0;
      target := None;
      intercepted := false;
      rejected := false;
      rep := GENERAL_FAILURE;
      connectedBnd := None;
      connectFailed := false;
      relayRaw := false;
      calls := [];
    }

    method Receive(data: bytes)
      requires Valid()
      modifies this`buf, this`calls
      ensures Valid() && calls == old(calls) + [Call.Receive(data)]
      ensures buf == old(buf) + data
      ensures State() == old(State()).(buf := old(buf) + data)
    {
      hide Run, Next;
      RunState(net, requireAuth, calls, Call.Receive(data));
      buf := buf + data;
      calls := calls + [Call.Receive(data)];
    }

    // ---- decision API --------------------------------------------------------

    method Ok()
      requires Valid()
      modifies this`rejected, this`calls
      ensures Valid() && calls == old(calls) + [Do(Decision.Ok)]
      ensures !rejected
      ensures State() == old(State()).(flags := Decide(old(State()).flags, Decision.Ok))
    {
      hide Run, Next;
      RunState(net, requireAuth, calls, Do(Decision.Ok));
      rejected := false;
      calls := calls + [Do(Decision.Ok)];
    }

    method Reject(rep: int)
      requires Valid()
      modifies this`rejected, this`rep, this`calls
      ensures Valid() && calls == old(calls) + [Do(Decision.Reject(rep))]
      ensures rejected && this.rep == rep
      ensures State() == old(State()).(flags := Decide(old(State()).flags, Decision.Reject(rep)))
    {
      hide Run, Next;
      RunState(net, requireAuth, calls, Do(Decision.Reject(rep)));
      rejected := true;
      this.rep := rep;
      calls := calls + [Do(Decision.Reject(rep))];
    }

    method SetTarget(a: Address)
      requires Valid()
      modifies this`target, this`calls
      ensures Valid() && calls == old(calls) + [Do(Decision.SetTarget(a))]
      ensures target == Some(a)
      ensures State() == old(State()).(flags := Decide(old(State()).flags, Decision.SetTarget(a)))
    {
      hide Run, Next;
      RunState(net, requireAuth, calls, Do(Decision.SetTarget(a)));
      target := Some(a);
      calls := calls + [Do(Decision.SetTarget(a))];
    }

    method RelayRaw()
      requires Valid()
      modifies this`relayRaw, this`calls
      ensures Valid() && calls == old(calls) + [Do(Decision.RelayRaw)]
      ensures relayRaw
      ensures State() == old(State()).(flags := Decide(old(State()).flags, Decision.RelayRaw))
    {
      hide Run, Next;
      RunState(net, requireAuth, calls, Do(Decision.RelayRaw));
      relayRaw := true;
      calls := calls + [Do(Decision.RelayRaw)];
    }

    method Intercept()
      requires Valid()
      modifies this`intercepted, this`calls
      ensures Valid() && calls == old(calls) + [Do(Decision.Intercept)]
      ensures intercepted
      ensures State() == old(State()).(flags := Decide(old(State()).flags, Decision.Intercept))
    {
      hide Run, Next;
      RunState(net, requireAuth, calls, Do(Decision.Intercept));
      intercepted := true;
      calls := calls + [Do(Decision.Intercept)];
    }

    method Connected(bnd: Address)
      requires Valid()
      modifies this`connectedBnd, this`calls
      ensures Valid() && calls == old(calls) + [Do(Decision.Connected(bnd))]
      ensures connectedBnd == Some(bnd)
      ensures State() == old(State()).(flags := Decide(old(State()).flags, Decision.Connected(bnd)))
    {
      hide Run, Next;
      RunState(net, requireAuth, calls, Do(Decision.Connected(bnd)));
      connectedBnd := Some(bnd);
      calls := calls + [Do(Decision.Connected(bnd))];
    }

    method ConnectFailed(rep: int)
      requires Valid()
      modifies this`connectFailed, this`rep, this`calls
      ensures Valid() && calls == old(calls) + [Do(Decision.ConnectFailed(rep))]
      ensures connectFailed && this.rep == rep
      ensures State() == old(State()).(flags := Decide(old(State()).flags, Decision.ConnectFailed(rep)))
    {
      hide Run, Next;
      RunState(net, requireAuth, calls, Do(Decision.ConnectFailed(rep)));
      connectFailed := true;
      this.rep := rep;
      calls := calls + [Do(Decision.ConnectFailed(rep))];
    }

    // ---- pulling events ------------------------------------------------------

    method NextEvent() returns (e: Event)
      requires Valid()
      modifies this
      ensures Valid() && calls == old(calls) + [Pull]
      ensures (State(), e) == Next(net, old(State()))
      ensures Run(net, requireAuth, calls).1
              == Run(net, requireAuth, old(calls)).1 + [Got(e, Removed(old(buf), buf))]
    {
      hide Run, Step;
      RunSnoc(net, requireAuth, calls, Pull);
      RunState(net, requireAuth, calls, Pull);
      if out != [] {
        e := out[0];
        out := out[1..];
      } else {
        e := StepMachine();
      }
      calls := calls + [Pull];
    }

    // `_emit`: queue the events, hand out the first.
    method EmitEvents(es: seq<Event>) returns (e: Event)
      requires es != [] && out == []
      modifies this`out
      ensures (State(), e) == Emit(old(State()), es)
    {
      out := out + es;
      assert out == es;
      e := out[0];
      out := out[1..];
    }

    // Builds a reply and queues it with `last`; a builder that raises queues nothing.
    method EmitReply(rep: int, bound: Address, last: Event) returns (e: Event)
      requires out == []
      modifies this`out
      ensures (State(), e) == Emit(old(State()), Answer(net, rep, bound, last))
    {
      var m := CodecImpl.WriteMessage(net, rep, bound);
      if m.None? {
        assert [Raised(Unencodable)][1..] == [];
        return Raised(Unencodable);
      }
      e := EmitEvents([Send(m.value), last]);
    }

    method StepMachine() returns (e: Event)
      requires out == []
      modifies this`buf, this`state, this`out, this`cmd, this`target, this`rejected,
               this`connectedBnd, this`connectFailed
      ensures (State(), e) == Step(net, old(State()))
    {
      match state {
        case Greeting => e := OnGreeting();
        case Auth => e := OnAuth();
        case AuthWait =>
          if rejected {
            state := Closed;
            e := EmitEvents([Send(AuthReply(1)), Close(AuthRejected)]);
          } else {
            state := Request;
            e := EmitEvents([Send(AuthReply(0))]);
          }
        case Request => e := OnRequest();
        case ConnectWait => e := OnConnectWait();
        case Relaying =>
          state := Closed;
          e := EmitEvents([Close(RelayFinished)]);
        case Closed => e := EmitEvents([Close(AlreadyClosed)]);
      }
    }

    method OnGreeting() returns (e: Event)
      requires out == [] && state == Greeting
      modifies this`buf, this`state, this`out
      ensures (State(), e) == StepGreeting(old(State()))
    {
      if buf != [] && buf[0] != VER {
        state := Closed;
        e := EmitEvents([Close(BadVersion)]);
        return;
      }
      var methods := ParseGreeting(buf);
      if methods.None? {
        if |buf| > 2 + 255 {
          assert false;  // "greeting too large": NMETHODS already caps the greeting
        }
        return NeedData;
      }
      buf := buf[2 + buf[1] as int..];
      if !requireAuth {
        state := Request;
        e := EmitEvents([Send(MethodSelection(NO_AUTH))]);
      } else if USERPASS in methods.value {
        state := Auth;
        e := EmitEvents([Send(MethodSelection(USERPASS))]);
      } else {
        state := Closed;
        e := EmitEvents([Send(MethodSelection(NO_ACCEPTABLE)), Close(NoAcceptableMethod)]);
      }
    }

    method OnAuth() returns (e: Event)
      requires out == [] && state == Auth
      modifies this`buf, this`state, this`out, this`rejected
      ensures (State(), e) == StepAuth(old(State()))
    {
      var up := CodecImpl.ReadUserpass(buf);
      if up.None? {
        if |buf| > 3 + 255 + 255 {
          state := Closed;
          e := EmitEvents([Close(AuthTooLarge)]);
          return;
        }
        return NeedData;
      }
      var ulen := buf[1] as nat;
      var plen := buf[2 + ulen] as nat;
      buf := buf[3 + ulen + plen..];
      rejected := false;
      state := AuthWait;
      e := Authorize(up.value);
    }

    method OnRequest() returns (e: Event)
      requires out == [] && state == Request
      modifies this`buf, this`state, this`out, this`cmd, this`target, this`rejected,
               this`connectedBnd, this`connectFailed
      ensures (State(), e) == StepRequest(net, old(State()))
    {
      hide Lawful, Message, ParseMessage, AddressSize;
      var n := MessageSize(buf);
      if n.None? {
        if |buf| >= 5 {
          state := Closed;
          e := EmitReply(ATYP_NOT_SUPPORTED, ZERO_ADDRESS, Close(UnsupportedAtyp));
          return;
        }
        return NeedData;
      }
      if |buf| < n.value {
        if |buf| > 4 + 1 + 255 + 2 {
          assert false;  // "request too large": no predicted length exceeds 262
        }
        return NeedData;
      }
      e := OnWholeRequest(n.value);
    }

    method OnWholeRequest(n: nat) returns (e: Event)
      requires out == [] && state == Request && MessageSize(buf) == Some(n) && n <= |buf|
      modifies this`buf, this`state, this`out, this`cmd, this`target, this`rejected,
               this`connectedBnd, this`connectFailed
      ensures (State(), e) == StepRequest(net, old(State()))
    {
      hide Lawful, Message, ParseMessage, AddressSize;
      var parsed := CodecImpl.ReadMessage(net, buf[..n]);
      if parsed.None? {
        state := Closed;
        e := EmitReply(GENERAL_FAILURE, ZERO_ADDRESS, Close(MalformedRequest));
        return;
      }
      buf := buf[n..];
      var (c, dst) := parsed.value;
      cmd := c as int;
      if c != CONNECT {
        state := Closed;
        e := EmitReply(CMD_NOT_SUPPORTED, ZERO_ADDRESS, Close(CommandNotSupported));
        return;
      }
      target := Some(dst);
      rejected := false;
      connectedBnd := None;
      connectFailed := false;
      state := ConnectWait;
      e := Connect(c, dst);
    }

    method OnConnectWait() returns (e: Event)
      requires out == [] && state == ConnectWait
      modifies this`state, this`out
      ensures (State(), e) == StepConnectWait(net, old(State()))
    {
      if relayRaw {
        state := Relaying;
        e := Relay(if target.Some? then target.value else ZERO_ADDRESS);
      } else if rejected {
        state := Closed;
        e := EmitReply(rep, ZERO_ADDRESS, Close(RequestRejected));
      } else if connectFailed {
        state := Closed;
        e := EmitReply(rep, ZERO_ADDRESS, Close(UpstreamFailed));
      } else if connectedBnd.Some? {
        state := Relaying;
        var bnd := connectedBnd.value;
        var up := if target.Some? then target.value else bnd;
        e := EmitReply(SUCCEEDED, bnd, Relay(up));
      } else {
        e := Raised(NoDecision);
      }
    }
  }
}
