// The server session as a transition system on values: its state, the decisions
// hooks record in it, one pull of `next_event`, and whole runs of calls.
module ServerModel {
  import opened Wire
  import opened Codec

  datatype Reason =
    | BadVersion | NoAcceptableMethod | AuthTooLarge | AuthRejected | UnsupportedAtyp
    | MalformedRequest | CommandNotSupported | RequestRejected | UpstreamFailed
    | RelayFinished | AlreadyClosed

  // NoDecision is the RuntimeError of `connect_wait`; Unencodable is the ValueError
  // the reply builder raises for a REP, port or host it cannot put on the wire.
  datatype Failure = NoDecision | Unencodable

  // What one call of `next_event` gives the driver: an event, or an exception.
  datatype Event =
    | Send(data: bytes)
    | NeedData
    | Authorize(creds: Creds)
    | Connect(cmd: byte, dst: Address)
    | Relay(upstream: Address)
    | Close(reason: Reason)
    | Raised(failure: Failure)

  // After these the driver makes no further call for an event.
  predicate Terminal(e: Event) {
    e.Relay? || e.Close? || e == Raised(Unencodable)
  }

  // These leave the session as it was.
  predicate Stutters(e: Event) {
    e.NeedData? || e == Raised(NoDecision)
  }

  datatype Phase = Greeting | Auth | AuthWait | Request | ConnectWait | Relaying | Closed

  // Everything hooks and the driver write between events.
  datatype Flags = Flags(
    target: Option<Address>, rejected: bool, rep: int, bound: Option<Address>,
    failed: bool, raw: bool, intercepted: bool)

  const INITIAL_FLAGS := Flags(None, false, GENERAL_FAILURE, None, false, false, false)

  datatype Decision =
    | Ok
    | Reject(rep: int)
    | SetTarget(target: Address)
    | Connected(bound: Address)
    | ConnectFailed(rep: int)
    | RelayRaw
    | Intercept

  function Decide(f: Flags, d: Decision): Flags {
    match d
    case Ok => f.(rejected := false)
    case Reject(rep) => f.(rejected := true, rep := rep)
    case SetTarget(a) => f.(target := Some(a))
    case Connected(a) => f.(bound := Some(a))
    case ConnectFailed(rep) => f.(failed := true, rep := rep)
    case RelayRaw => f.(raw := true)
    case Intercept => f.(intercepted := true)
  }

  function DecideAll(f: Flags, ds: seq<Decision>): Flags {
    if ds == [] then f else Decide(DecideAll(f, ds[..|ds| - 1]), ds[|ds| - 1])
  }

  // What emitting Connect leaves of the flags.
  function ForConnect(f: Flags, dst: Address): Flags {
    f.(target := Some(dst), rejected := false, bound := None, failed := false)
  }

  datatype Srv = Srv(requireAuth: bool, buf: bytes, phase: Phase, out: seq<Event>, cmd: int, flags: Flags)

  function Init(requireAuth: bool): Srv {
    Srv(requireAuth, [], Greeting, [], 0, INITIAL_FLAGS)
  }

  // At most one event is ever queued, only once the machine has finished, and it is
  // the last event of the handshake.
  predicate WellFormed(s: Srv) {
    s.out != [] ==> (s.phase.Relaying? || s.phase.Closed?) && |s.out| == 1 && Terminal(s.out[0])
  }

  // Queue the events and hand out the first; the queue is empty when this happens.
  function Emit(s: Srv, es: seq<Event>): (Srv, Event)
    requires es != []
  {
    (s.(out := es[1..]), es[0])
  }

  // A reply followed by `last`, or the builder's exception.
  function Answer(net: Inet, rep: int, bound: Address, last: Event): (es: seq<Event>)
    ensures if Message(net, rep, bound).Some? then es == [Send(Message(net, rep, bound).value), last]
            else es == [Raised(Unencodable)]
  {
    match Message(net, rep, bound)
    case Some(m) => [Send(m), last]
    case None => [Raised(Unencodable)]
  }

  // The source's size guards on the greeting and on the request are not here: the
  // class proves that neither can fire.
  function StepGreeting(s: Srv): (Srv, Event) {
    if s.buf != [] && s.buf[0] != VER then Emit(s.(phase := Closed), [Close(BadVersion)])
    else
      match ParseGreeting(s.buf)
      case None => (s, NeedData)
      case Some(methods) =>
        var t := s.(buf := s.buf[2 + s.buf[1] as int..]);
        if !s.requireAuth then Emit(t.(phase := Request), [Send(MethodSelection(NO_AUTH))])
        else if USERPASS in methods then Emit(t.(phase := Auth), [Send(MethodSelection(USERPASS))])
        else Emit(t.(phase := Closed), [Send(MethodSelection(NO_ACCEPTABLE)), Close(NoAcceptableMethod)])
  }

  function StepAuth(s: Srv): (Srv, Event) {
    match ParseUserpass(s.buf)
    case None =>
      if |s.buf| > 3 + 255 + 255 then Emit(s.(phase := Closed), [Close(AuthTooLarge)])
      else (s, NeedData)
    case Some(creds) =>
      (s.(buf := s.buf[UserpassSize(s.buf).value..], flags := s.flags.(rejected := false), phase := AuthWait),
       Authorize(creds))
  }

  function StepAuthWait(s: Srv): (Srv, Event) {
    if s.flags.rejected then Emit(s.(phase := Closed), [Send(AuthReply(1)), Close(AuthRejected)])
    else Emit(s.(phase := Request), [Send(AuthReply(0))])
  }

  function StepRequest(net: Inet, s: Srv): (Srv, Event) {
    match MessageSize(s.buf)
    case None =>
      if |s.buf| >= 5 then
        Emit(s.(phase := Closed), Answer(net, ATYP_NOT_SUPPORTED, ZERO_ADDRESS, Close(UnsupportedAtyp)))
      else (s, NeedData)
    case Some(n) =>
      if |s.buf| < n then (s, NeedData)
      else
        match ParseMessage(net, s.buf[..n])
        case None =>
          Emit(s.(phase := Closed), Answer(net, GENERAL_FAILURE, ZERO_ADDRESS, Close(MalformedRequest)))
        case Some((cmd, dst)) =>
          var t := s.(buf := s.buf[n..], cmd := cmd as int);
          if cmd != CONNECT then
            Emit(t.(phase := Closed), Answer(net, CMD_NOT_SUPPORTED, ZERO_ADDRESS, Close(CommandNotSupported)))
          else
            (t.(flags := ForConnect(s.flags, dst), phase := ConnectWait), Connect(cmd, dst))
  }

  function StepConnectWait(net: Inet, s: Srv): (Srv, Event) {
    var f := s.flags;
    if f.raw then
      (s.(phase := Relaying), Relay(if f.target.Some? then f.target.value else ZERO_ADDRESS))
    else if f.rejected then
      Emit(s.(phase := Closed), Answer(net, f.rep, ZERO_ADDRESS, Close(RequestRejected)))
    else if f.failed then
      Emit(s.(phase := Closed), Answer(net, f.rep, ZERO_ADDRESS, Close(UpstreamFailed)))
    else if f.bound.Some? then
      var up := if f.target.Some? then f.target.value else f.bound.value;
      Emit(s.(phase := Relaying), Answer(net, SUCCEEDED, f.bound.value, Relay(up)))
    else (s, Raised(NoDecision))
  }

  function Step(net: Inet, s: Srv): (Srv, Event) {
    match s.phase
    case Greeting => StepGreeting(s)
    case Auth => StepAuth(s)
    case AuthWait => StepAuthWait(s)
    case Request => StepRequest(net, s)
    case ConnectWait => StepConnectWait(net, s)
    case Relaying => Emit(s.(phase := Closed), [Close(RelayFinished)])
    case Closed => Emit(s, [Close(AlreadyClosed)])
  }

  // One call of `next_event`.
  function Next(net: Inet, s: Srv): (Srv, Event) {
    if s.out != [] then (s.(out := s.out[1..]), s.out[0]) else Step(net, s)
  }

  // ---- runs of arbitrary calls -----------------------------------------------

  datatype Call = Receive(data: bytes) | Do(d: Decision) | Pull

  // One call as the log records it: what was passed in, or for a pull the event it
  // gave and the bytes it removed from the front of the buffer.
  datatype Entry = Took(data: bytes) | Did(d: Decision) | Got(e: Event, ate: bytes)

  function Removed(before: bytes, after: bytes): bytes {
    if |after| <= |before| then before[..|before| - |after|] else []
  }

  function Act(net: Inet, s: Srv, c: Call): (Srv, Entry) {
    match c
    case Receive(data) => (s.(buf := s.buf + data), Took(data))
    case Do(d) => (s.(flags := Decide(s.flags, d)), Did(d))
    case Pull =>
      var (t, e) := Next(net, s);
      (t, Got(e, Removed(s.buf, t.buf)))
  }

  function Run(net: Inet, requireAuth: bool, calls: seq<Call>): (Srv, seq<Entry>) {
    if calls == [] then (Init(requireAuth), [])
    else
      var (s, log) := Run(net, requireAuth, calls[..|calls| - 1]);
      var (t, entry) := Act(net, s, calls[|calls| - 1]);
      (t, log + [entry])
  }

  lemma RunSnoc(net: Inet, requireAuth: bool, calls: seq<Call>, c: Call)
    ensures var (s, log) := Run(net, requireAuth, calls);
            var (t, entry) := Act(net, s, c);
            Run(net, requireAuth, calls + [c]) == (t, log + [entry])
  {
    hide Act;
    assert (calls + [c])[..|calls|] == calls;
  }

  // What one call does to the state a run has reached.
  lemma RunState(net: Inet, requireAuth: bool, calls: seq<Call>, c: Call)
    ensures var s := Run(net, requireAuth, calls).0;
            Run(net, requireAuth, calls + [c]).0 ==
              match c
              case Receive(data) => s.(buf := s.buf + data)
              case Do(d) => s.(flags := Decide(s.flags, d))
              case Pull => Next(net, s).0
  {
    hide Next, Decide;
    RunSnoc(net, requireAuth, calls, c);
  }
}
