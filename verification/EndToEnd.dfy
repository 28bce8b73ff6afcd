// The optimistic client against the driver with its real hooks: from the registered
// hooks and the outcome of the dial to what the client is told.
module EndToEnd {
  import opened Wire
  import opened Codec
  import opened CodecLaws
  import opened ServerModel
  import opened Transcript
  import opened Schedules
  import opened Driver
  import opened WaitBounds
  import S = ServerSpec
  import C = ClientModel

  // A thread that was given a whole pipeline and left neither on a socket error nor on
  // an exception has held exactly the expected conversation; the answers it sent give
  // the client the verdict its hooks fix; and when it relays, what it received is the
  // pipeline and the bytes it holds, which the relay is not left.
  lemma ServesThePipeline(net: Inet, v: Server, creds: Option<Creds>, cmd: int, dst: Address, early: bytes,
                          unread: bytes, exit: Exit, trace: seq<Event>, ops: seq<S.Op>)
    requires v.authorize.Some? == creds.Some? && C.Pipeline(net, creds, cmd, dst).Some?
    requires Accounts(net, v, C.Pipeline(net, creds, cmd, dst).value + early, unread, exit, trace, ops)
    requires exit.Relays? || exit.Closing? || exit.ClientGone?
    ensures trace == Expected(net, creds, cmd, dst, AsHooks(v))
    ensures !TakenOver(net, creds, cmd, dst, AsHooks(v)) ==>
              C.Spec(net, creds.Some?, Sends(trace)).verdict == ExpectedVerdict(net, creds, cmd, dst, AsHooks(v))
    ensures exit.Relays? ==>
              var held := Held(net, v.authorize.Some?, AsHooks(v), ops);
              && S.Arrived(ops) == C.Pipeline(net, creds, cmd, dst).value + held
              && held + unread == early
  {
    hide C.Pipeline, Expected, ExpectedVerdict, TakenOver, Sends, AsHooks, C.Spec, S.Spec, Message;
    hide S.Hooked, S.Arrived, Scheduled, Held, Denied;
    var h := AsHooks(v);
    PipelineStory(net, creds, cmd, dst, h, early);
    PipelineParts(net, creds, cmd, dst, early);
    if !TakenOver(net, creds, cmd, dst, h) {
      TranscriptReading(net, creds, cmd, dst, h, []);
      assert Sends(trace) + [] == Sends(trace);
    }
    if exit.Relays? {
      RelayNotDenied(net, creds, cmd, dst, h);
      HeldIsBeyond(net, creds, cmd, dst, h, early, ops);
    }
  }

  // The reply the final flags call for can be put on the wire.
  predicate ReplyFits(net: Inet, f: Flags) {
    if f.rejected || f.failed then 0 <= f.rep < 256 else f.bound.Some? && Encodable(net, f.bound.value)
  }

  // The driver has always recorded an outcome by the time the verdict is due.
  lemma OutcomeRecorded(net: Inet, v: Server, creds: Option<Creds>, dst: Address)
    requires forall a :: v.dial(a) != Crashed
    ensures var f := FinalFlags(net, creds, dst, AsHooks(v));
            f.rejected || f.failed || f.bound.Some?
  {
    hide Lawful, Normal, HookDecisions, AuthFlags;
    var g := ForConnect(AuthFlags(creds, AsHooks(v)), PeerAddress(net, dst));
    var peer := PeerAddress(net, dst);
    var ds := HookDecisions(v, g, peer);
    var f := DecideAll(g, ds);
    DecideAppend(g, ds, DriverDecisions(v, f, peer));
    if !f.rejected {
      DialRecorded(v, f, peer);
    }
  }

  lemma DialRecorded(v: Server, f: Flags, dst: Address)
    requires !f.rejected && forall a :: v.dial(a) != Crashed
    ensures var g := DecideAll(f, DriverDecisions(v, f, dst)); g.failed || g.bound.Some?
  {
    var ds := DriverDecisions(v, f, dst);
    assert |ds| == 1;
    assert DecideAll(f, ds) == Decide(DecideAll(f, ds[..0]), ds[0]);
  }

  // Whatever the hooks do short of taking the reply over, and whatever becomes of the
  // dial, the client is told a verdict, if and only if the reply called for fits on
  // the wire.
  lemma UnansweredExactly(net: Inet, v: Server, creds: Option<Creds>, cmd: int, dst: Address)
    requires forall a :: v.dial(a) != Crashed
    requires !TakenOver(net, creds, cmd, dst, AsHooks(v))
    ensures ExpectedVerdict(net, creds, cmd, dst, AsHooks(v)) == C.Waiting
            <==> !Denied(creds, AsHooks(v)) && cmd == CONNECT as int
                 && !ReplyFits(net, FinalFlags(net, creds, dst, AsHooks(v)))
  {
    hide AsHooks, FinalFlags, Denied, Message, Lawful;
    OutcomeRecorded(net, v, creds, dst);
    var f := FinalFlags(net, creds, dst, AsHooks(v));
    ZeroEncodable(net);
    MessageBuilds(net, f.rep, ZERO_ADDRESS);
    if f.bound.Some? {
      MessageBuilds(net, SUCCEEDED, f.bound.value);
    }
  }

  // ---- the longest handshake -------------------------------------------------

  // A server that lets everyone in and reaches every target.
  function OpenServer(): Server {
    Server(Some((f, creds) => HookRun([], false)), None, dst => Opened(ZERO_ADDRESS))
  }

  // A request for a name of 255 bytes.
  const LONG_REQUEST: bytes := SHORT_REQUEST + [1]

  lemma LongRequestStory(net: Inet, f: Flags)
    requires !f.raw && !f.intercepted
    ensures var story := S.RequestSpec(net, f, LONG_REQUEST, AsHooks(OpenServer()));
            |story.events| == 3 && Relayed(story.events) && story.rest == []
  {
    hide Lawful, Message, AddressAt;
    var b := LONG_REQUEST;
    assert |b| == 262 && MessageSize(b) == Some(262);
    ParseMessageExtent(net, b);
    var dst := ParseMessage(net, b).value.1;
    assert ParseMessage(net, b).value.0 == b[1] == CONNECT;
    var v := OpenServer();
    var g := ForConnect(f, dst);
    var ds := [Connected(ZERO_ADDRESS)];
    assert DecideAll(g, []) == g && [] + ds == ds;
    assert ds[..0] == [];
    assert AsHooks(v).connect(g, CONNECT, dst) == ds;
    assert DecideAll(g, ds) == Decide(g, Connected(ZERO_ADDRESS));
    ZeroEncodable(net);
    MessageBuilds(net, SUCCEEDED, ZERO_ADDRESS);
  }

  const LONG_STREAM: bytes := LONG_GREETING + (LONG_AUTH + LONG_REQUEST)

  lemma LongStory(net: Inet)
    ensures var story := S.Spec(net, true, LONG_STREAM, AsHooks(OpenServer()));
            |story.events| == 6 && Relayed(story.events) && story.rest == []
    ensures |LONG_STREAM| == 1032
  {
    hide Lawful, S.RequestSpec, ParseUserpass, UserpassSize, ParseGreeting;
    var h := AsHooks(OpenServer());
    var methods := seq(255, _ => USERPASS);
    assert methods[0] == USERPASS;
    assert LONG_GREETING == ClientGreeting(methods).value;
    GreetingRoundTrip(methods, LONG_AUTH + LONG_REQUEST);
    assert LONG_AUTH == UserpassAuth(LONG_CREDS).value;
    UserpassRoundTrip(LONG_CREDS, LONG_REQUEST);
    assert (LONG_AUTH + LONG_REQUEST)[|LONG_AUTH|..] == LONG_REQUEST;
    assert DecideAll(INITIAL_FLAGS, []) == INITIAL_FLAGS == INITIAL_FLAGS.(rejected := false);
    assert h.authorize(INITIAL_FLAGS, LONG_CREDS) == [] + [];
    LongRequestStory(net, INITIAL_FLAGS);
  }

  // A thread on `stream` that makes n pulls, by what `Accounts` allows it.
  ghost predicate Lasts(net: Inet, v: Server, stream: bytes, upstream: Address, ops: seq<S.Op>, n: nat) {
    var trace := S.Hooked(net, v.authorize.Some?, AsHooks(v), ops).trace;
    Accounts(net, v, stream, [], Relays(upstream), trace, ops) && Pulls(ops) == n
  }

  // The bound on pulls is reached: the longest greeting, credentials and request,
  // received byte by byte.
  lemma PullBoundReached(net: Inet)
    ensures exists v, stream, upstream, ops :: Lasts(net, v, stream, upstream, ops, 1038)
  {
    hide S.Hooked, S.Spec, S.Arrived, Scheduled, Pulls, AsHooks, OpenServer, LONG_STREAM;
    var v := OpenServer();
    var h := AsHooks(v);
    LongStory(net);
    NothingDone(net, h);
    assert [] + LONG_STREAM == LONG_STREAM;
    OpenAsks();
    ByteByByte(net, true, h, LONG_STREAM, [], LONG_STREAM);
    var ops :| Exhausts(net, true, h, LONG_STREAM, ops);
    S.FinishedIsFinal(net, true, h, ops, []);
    assert LONG_STREAM + [] == LONG_STREAM;
    var trace := S.Hooked(net, true, h, ops).trace;
    assert Lasts(net, v, LONG_STREAM, trace[|trace| - 1].upstream, ops, 1038);
  }

  lemma OpenAsks()
    ensures OpenServer().authorize.Some?
  {
  }

  lemma NothingDone(net: Inet, h: S.Hooks)
    ensures Scheduled(net, true, h, []) && !Asked(net, true, h, [])
    ensures S.Arrived([]) == [] && Pulls([]) == 0 && S.Hooked(net, true, h, []).trace == []
  {
  }
}
